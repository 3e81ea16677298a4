/**
 * The older PascalCase variant of the registry's building blocks. Its `Entity`,
 * `System`, `Component<T>::GetId` and `Pool<T>` behave as the ones modelled in
 * the modules Entities, Systems, ComponentIds and Pools, with one exception:
 * `Pool::Get` evaluates the slot, discards it and falls off the end of a
 * function that must return a reference, so what the caller receives is not
 * determined by the pool. That reading is modelled here as a function of an
 * arbitrary `unspecified` value; the intended reading is `Pools.Pool.Get`.
 */
module LegacyEcs {

  /** `Pool::Get` as written: the slot is read, then nothing is returned. */
  function GetAsWritten<T>(data: seq<T>, index: int, unspecified: T): (r: T)
    requires 0 <= index < |data|
    ensures r == unspecified
  {
    var _ := data[index];
    unspecified
  }

  /**
   * A value stored with `Set` is not what `Get` as written hands back, unless the
   * unspecified result happens to equal it.
   */
  lemma GetAsWrittenMissesStore<T>(data: seq<T>, index: int, obj: T, unspecified: T)
    requires 0 <= index < |data|
    requires unspecified != obj
    ensures GetAsWritten(data[index := obj], index, unspecified) != obj
  {
  }

  /** A concrete instance: slot 0 of a one-slot pool set to 5, read back as 0. */
  lemma GetAsWrittenExample()
    ensures var data := [0][0 := 5]; data[0] == 5 && GetAsWritten(data, 0, 0) != data[0]
  {
  }
}
