/**
 * Component type ids. Every component type T owns a function-local static
 * `id` initialised from the shared counter `next_id++` the first time
 * `component<T>::get_id()` runs; `next_id` starts at 0. One `IdCounter` object
 * is that shared counter together with every type's static: `ids` maps each
 * type that has asked so far to the id it received.
 */
module ComponentIds {

  /** A component type, identified by its name. */
  type TypeName = string

  class IdCounter {
    /** The shared counter (`base_component::next_id`). */
    var nextId: nat
    /** The per-type statics that have been initialised. */
    var ids: map<TypeName, nat>

    /** Ids are handed out densely, one per type, in first-use order. */
    ghost predicate Valid()
      reads this
    {
      && |ids| == nextId
      && (forall t :: t in ids ==> ids[t] < nextId)
      && (forall t, u :: t in ids && u in ids && t != u ==> ids[t] != ids[u])
    }

    /** `int base_component::next_id = 0;` before any type has asked. */
    constructor ()
      ensures Valid() && nextId == 0 && ids == map[]
    {
      nextId := 0;
      ids := map[];
    }

    /** `component<T>::get_id()`. */
    method GetId(t: TypeName) returns (id: nat)
      requires Valid()
      modifies this
      ensures Valid()
      ensures t in old(ids) ==> id == old(ids[t]) && ids == old(ids) && nextId == old(nextId)
      ensures t !in old(ids) ==> id == old(nextId) && ids == old(ids)[t := id] && nextId == old(nextId) + 1
      ensures t in ids && ids[t] == id
      ensures forall u :: u in ids && u != t ==> ids[u] != id
    {
      if t in ids {
        id := ids[t];
      } else {
        id := nextId;
        ids := ids[t := id];
        nextId := nextId + 1;
        assert ids.Keys == old(ids).Keys + {t};
      }
    }
  }
}
