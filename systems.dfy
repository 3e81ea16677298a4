/**
 * `ecs::system`: the signature of the components a system requires and the
 * list of entities it currently processes.
 */
module Systems {
  import opened Signatures
  import opened Entities

  class System {
    /** `_component_signature`. */
    var signature: Signature
    /** `_entities`, in the order they were added. */
    var entities: seq<Entity>

    /** `system() = default`: requires nothing, processes nobody. */
    constructor ()
      ensures signature == Empty && entities == []
    {
      signature := Empty;
      entities := [];
    }

    /** `get_system_entities()`: a copy of the member list. */
    function GetSystemEntities(): (r: seq<Entity>)
      reads this
      ensures r == entities
    {
      entities
    }

    /** `get_component_signature()`. */
    function GetComponentSignature(): (r: Signature)
      reads this
      ensures r == signature
    {
      signature
    }

    /**
     * `require_component<T>()` once T's id is known: sets that bit, which
     * throws when the id is not below MAX_COMPONENTS.
     */
    method RequireComponent(componentId: nat) returns (ok: bool)
      modifies this
      ensures ok <==> componentId < MaxComponents
      ensures ok ==> componentId in GetComponentSignature()
      ensures forall j :: j != componentId ==> (j in GetComponentSignature() <==> j in old(signature))
      ensures !ok ==> signature == old(signature)
      ensures entities == old(entities)
    {
      var r := Set(signature, componentId);
      ok := r.Ok?;
      if ok {
        signature := r.value;
      }
    }

    /** `add_entity_to_system(entity)`: `push_back`. */
    method AddEntityToSystem(e: Entity)
      modifies this
      ensures GetSystemEntities() == old(GetSystemEntities()) + [e]
      ensures signature == old(signature)
    {
      entities := entities + [e];
    }

    /** `remove_entity_from_system(entity)`: erase/remove_if on `_entities`. */
    method RemoveEntityFromSystem(e: Entity)
      modifies this
      ensures GetSystemEntities() == Without(old(GetSystemEntities()), e)
      ensures e !in GetSystemEntities()
      ensures e !in old(entities) ==> entities == old(entities)
      ensures signature == old(signature)
    {
      entities := RemoveMatching(entities, e);
      if e !in old(entities) {
        WithoutAbsent(old(entities), e);
      }
    }
  }
}
