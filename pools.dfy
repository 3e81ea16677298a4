/**
 * Component pools: one growable vector of component values per component type,
 * indexed by entity id. The contents of a pool are a sequence; `blank` is the
 * value-initialised component `T()` that std::vector::resize puts in new slots.
 */
module Pools {

  /** The size a pool is constructed with when no size is given. */
  const DefaultSize: nat := 100

  /**
   * `std::vector::resize(n)`: exactly `n` slots, the first ones as they were,
   * any new ones `blank`. Shrinking drops the slots past `n`.
   */
  function Resized<T>(s: seq<T>, n: nat, blank: T): (r: seq<T>)
    ensures |r| == n
    ensures forall i :: 0 <= i < n && i < |s| ==> r[i] == s[i]
    ensures forall i :: |s| <= i < n ==> r[i] == blank
  {
    if n <= |s| then s[..n] else s + seq(n - |s|, _ => blank)
  }

  /** `pool<T>`: a vector of components of one type. */
  class Pool<T> {
    /** The value `T()` that resizing puts in new slots. */
    const blank: T
    /** `_data`. */
    var data: seq<T>

    /** `pool(int size = 100)`: `size` slots, all `blank`. */
    constructor (blank: T, size: nat := DefaultSize)
      ensures this.blank == blank
      ensures |data| == size && forall i :: 0 <= i < size ==> data[i] == blank
    {
      this.blank := blank;
      data := Resized([], size, blank);
    }

    /** `is_empty()`. */
    function IsEmpty(): (r: bool)
      reads this
      ensures r <==> GetSize() == 0
    {
      |data| == 0
    }

    /** `get_size()`. */
    function GetSize(): (r: nat)
      reads this
      ensures r == |data|
    {
      |data|
    }

    /** `resize(size)`. */
    method Resize(size: nat)
      modifies this
      ensures data == Resized(old(data), size, blank)
      ensures GetSize() == size
      ensures forall i :: 0 <= i < size && i < old(|data|) ==> Get(i) == old(data[i])
    {
      data := Resized(data, size, blank);
    }

    /** `clear()`. */
    method Clear()
      modifies this
      ensures data == [] && IsEmpty()
    {
      data := [];
    }

    /** `add(obj)`: one more slot, at the end, holding `obj`. */
    method Add(obj: T)
      modifies this
      ensures data == old(data) + [obj]
      ensures GetSize() == old(GetSize()) + 1 && !IsEmpty() && Get(GetSize() - 1) == obj
    {
      data := data + [obj];
    }

    /** `set(index, obj)`: the vector is indexed without a bounds check. */
    method Set(index: int, obj: T)
      requires 0 <= index < |data|
      modifies this
      ensures data == old(data)[index := obj]
      ensures Get(index) == obj
      ensures GetSize() == old(GetSize())
      ensures forall i :: 0 <= i < |data| && i != index ==> Get(i) == old(data[i])
    {
      data := data[index := obj];
    }

    /** `get(index)` and `operator[](index)`: the slot at `index`, without a bounds check. */
    function Get(index: int): (r: T)
      reads this
      requires 0 <= index < |data|
      ensures r == data[index]
    {
      data[index]
    }
  }
}
