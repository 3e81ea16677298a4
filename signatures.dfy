/**
 * Component signatures: a fixed-width bitset with one bit per component id, used
 * both for "which components an entity has" and "which components a system
 * requires" (std::bitset<MAX_COMPONENTS> in the source). A signature is modelled
 * by its value, the set of positions whose bit is on; bitwise AND is set
 * intersection. `bitset::set` and `bitset::test` throw std::out_of_range for a
 * position at or beyond the width; that failure is the `OutOfRange` result here.
 */
module Signatures {

  /** MAX_COMPONENTS: the width of every signature. */
  const MaxComponents: nat := 32

  /** The positions of the bits that are on. */
  type Signature = s: set<nat> | forall i :: i in s ==> i < MaxComponents

  /** A default-constructed bitset: no bit on. */
  const Empty: Signature := {}

  datatype BitResult<+T> = Ok(value: T) | OutOfRange

  /** `bitset::set(pos)`: turns bit `pos` on, or throws when `pos` is out of range. */
  function Set(s: Signature, pos: nat): (r: BitResult<Signature>)
    ensures pos < MaxComponents <==> r.Ok?
    ensures r.Ok? ==> pos in r.value
    ensures r.Ok? ==> forall j :: j != pos ==> (j in r.value <==> j in s)
  {
    if pos < MaxComponents then Ok(s + {pos}) else OutOfRange
  }

  /** `bitset::set(pos, false)`: turns bit `pos` off, or throws when `pos` is out of range. */
  function Reset(s: Signature, pos: nat): (r: BitResult<Signature>)
    ensures pos < MaxComponents <==> r.Ok?
    ensures r.Ok? ==> pos !in r.value
    ensures r.Ok? ==> forall j :: j != pos ==> (j in r.value <==> j in s)
  {
    if pos < MaxComponents then Ok(s - {pos}) else OutOfRange
  }

  /** `bitset::test(pos)`: reads bit `pos`, or throws when `pos` is out of range. */
  function Test(s: Signature, pos: nat): (r: BitResult<bool>)
    ensures pos < MaxComponents <==> r.Ok?
    ensures r.Ok? ==> (r.value <==> pos in s)
  {
    if pos < MaxComponents then Ok(pos in s) else OutOfRange
  }

  /** The registry's interest test, `(entity & required) == required`. */
  predicate Covers(entity: Signature, required: Signature): (r: bool)
    ensures r <==> required <= entity
  {
    entity * required == required
  }
}
