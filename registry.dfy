/**
 * `ecs::registry`: allocates entity ids, stores each entity's components in one
 * pool per component id and their presence in a signature per entity, owns the
 * systems keyed by their type, and at `update()` hands every entity created since
 * the last update to the systems whose required signature it covers.
 *
 * Component types reach the registry as the ids `component<T>::get_id()` gives
 * them (see ComponentIds); system types as their names. Component values are of
 * one type `V`, and a pool is held by value, as the sequence of its slots.
 */
module Registry {
  import opened Signatures
  import opened Entities
  import Pools
  import opened Systems

  /** A system type (`std::type_index` of the system class). */
  type SystemType = string

  /** A slot of `component_pools`: a null `shared_ptr` or a pool. */
  datatype Option<+T> = None | Some(value: T)

  /** `e` is in range of `sigs` and its signature there covers `required`. */
  predicate Interested(sigs: seq<Signature>, e: Entity, required: Signature)
  {
    0 <= e.id < |sigs| && Covers(sigs[e.id], required)
  }

  /**
   * The entities of `es`, in order, whose signature covers `required`: what
   * `update()` appends to a system whose required signature is `required`.
   */
  function Joining(es: seq<Entity>, sigs: seq<Signature>, required: Signature): (r: seq<Entity>)
  {
    if es == [] then []
    else
      var last := es[|es| - 1];
      Joining(es[..|es| - 1], sigs, required) + (if Interested(sigs, last, required) then [last] else [])
  }

  /** The entities that join are exactly the visited ones whose signature covers `required`. */
  lemma {:induction false} JoiningMembers(es: seq<Entity>, sigs: seq<Signature>, required: Signature)
    ensures forall x :: x in Joining(es, sigs, required) <==> x in es && Interested(sigs, x, required)
    decreases |es|
  {
    if es != [] {
      var init := es[..|es| - 1];
      JoiningMembers(init, sigs, required);
      assert es == init + [es[|es| - 1]];
    }
  }

  /** Visiting one more entity appends it when its signature covers `required`. */
  lemma JoiningSnoc(es: seq<Entity>, e: Entity, sigs: seq<Signature>, required: Signature)
    ensures Joining(es + [e], sigs, required) ==
              Joining(es, sigs, required) + (if Interested(sigs, e, required) then [e] else [])
  {
    assert (es + [e])[..|es|] == es;
  }

  /** Entities that join keep the order in which they were visited. */
  lemma {:induction false} JoiningKeepsOrder(es: seq<Entity>, sigs: seq<Signature>, required: Signature)
    requires forall i, j :: 0 <= i < j < |es| ==> Less(es[i], es[j])
    ensures forall i, j :: 0 <= i < j < |Joining(es, sigs, required)| ==>
              Less(Joining(es, sigs, required)[i], Joining(es, sigs, required)[j])
    decreases |es|
  {
    if es != [] {
      var init := es[..|es| - 1];
      JoiningKeepsOrder(init, sigs, required);
      JoiningMembers(init, sigs, required);
      var last := es[|es| - 1];
      forall x | x in Joining(init, sigs, required)
        ensures Less(x, last)
      {
        var i :| 0 <= i < |init| && init[i] == x;
      }
    }
  }

  /**
   * What `update()` does to one system's member list, seen from one entity: it is
   * a member afterwards exactly when it was one before, or it was pending creation
   * and its signature covers the system's. Entities not pending keep their
   * membership whatever their signature has become.
   */
  lemma SyncMembership(before: seq<Entity>, pending: set<Entity>, sigs: seq<Signature>,
                       required: Signature, x: Entity)
    requires forall e :: e in pending ==> 0 <= e.id < |sigs|
    ensures x in before + Joining(Ascending(pending), sigs, required) <==>
            x in before || (x in pending && Covers(sigs[x.id], required))
    ensures x !in pending ==> (x in before + Joining(Ascending(pending), sigs, required) <==> x in before)
  {
    AscendingSorted(pending);
    JoiningMembers(Ascending(pending), sigs, required);
  }

  /**
   * When no pending entity is a member yet, `update()` leaves each pending entity
   * a member exactly when its signature covers the system's, and every member is
   * one from before or a pending one.
   */
  lemma SyncPending(before: seq<Entity>, pending: set<Entity>, sigs: seq<Signature>, required: Signature)
    requires forall e :: e in pending ==> 0 <= e.id < |sigs|
    requires forall x :: x in before ==> x !in pending
    ensures forall x :: x in pending ==>
              (x in before + Joining(Ascending(pending), sigs, required) <==> Interested(sigs, x, required))
    ensures forall x :: x in before + Joining(Ascending(pending), sigs, required) ==> x in before || x in pending
  {
    AscendingSorted(pending);
    JoiningMembers(Ascending(pending), sigs, required);
  }

  /** `update()` visits the pending entities in ascending id order, so they join in that order. */
  lemma SyncOrder(pending: set<Entity>, sigs: seq<Signature>, required: Signature)
    ensures forall i, j :: 0 <= i < j < |Joining(Ascending(pending), sigs, required)| ==>
              Less(Joining(Ascending(pending), sigs, required)[i], Joining(Ascending(pending), sigs, required)[j])
  {
    AscendingSorted(pending);
    JoiningKeepsOrder(Ascending(pending), sigs, required);
  }

  /**
   * Every bit that is on has a slot behind it: for entity `i` with bit `c` on,
   * pool `c` exists and reaches index `i`.
   */
  ghost predicate PoolsCover<V>(sigs: seq<Signature>, pools: seq<Option<seq<V>>>)
  {
    forall i :: 0 <= i < |sigs| ==> forall c :: c in sigs[i] ==> c < |pools| && pools[c].Some? && i < |pools[c].value|
  }

  /** Pools that are kept or lengthened, never dropped or shortened, go on covering the same bits. */
  lemma CoverGrowPools<V>(sigs: seq<Signature>, pools: seq<Option<seq<V>>>, pools': seq<Option<seq<V>>>)
    requires PoolsCover(sigs, pools)
    requires |pools| <= |pools'|
    requires forall c :: 0 <= c < |pools| && pools[c].Some? ==> pools'[c].Some? && |pools[c].value| <= |pools'[c].value|
    ensures PoolsCover(sigs, pools')
  {
  }

  /** Turning a bit on where its pool already reaches the entity keeps every bit covered. */
  lemma CoverSetBit<V>(sigs: seq<Signature>, pools: seq<Option<seq<V>>>, id: nat, c: nat)
    requires PoolsCover(sigs, pools)
    requires id < |sigs| && c < MaxComponents
    requires c < |pools| && pools[c].Some? && id < |pools[c].value|
    ensures PoolsCover(sigs[id := sigs[id] + {c}], pools)
  {
    var sigs' := sigs[id := sigs[id] + {c}];
    forall i, b | 0 <= i < |sigs'| && b in sigs'[i]
      ensures b < |pools| && pools[b].Some? && i < |pools[b].value|
    {
      if i != id || b != c {
        assert b in sigs[i];
      }
    }
  }

  /** The pool at `componentId` if there is one, else the one `make_shared<pool<T>>()` builds. */
  function PoolOrNew<V>(pools: seq<Option<seq<V>>>, componentId: nat, blank: V): (r: seq<V>)
  {
    if componentId < |pools| && pools[componentId].Some? then pools[componentId].value
    else Pools.Resized([], Pools.DefaultSize, blank)
  }

  class Registry<V> {
    /** The value `T()` of a default-constructed component. */
    const blank: V
    /** `_active_entities`: the number of ids handed out. */
    var activeEntities: nat
    /** `component_pools`: [component id] = pool, [pool index] = entity id. */
    var componentPools: seq<Option<seq<V>>>
    /** `entity_component_signatures`: [entity id] = its signature. */
    var signatures: seq<Signature>
    /** `systems`. */
    var systems: map<SystemType, System>
    /** `pending_creation_entities`. */
    var pendingCreation: set<Entity>
    /** `pending_removal_entities`: declared, never filled or drained. */
    var pendingRemoval: set<Entity>

    ghost predicate Valid()
      reads this
    {
      && |signatures| == activeEntities
      && (forall e :: e in pendingCreation ==> Issued(e))
      && SystemsDistinct()
      && PoolsCover(signatures, componentPools)
    }

    /**
     * Systems only gain members through `update()`: every member of a registered
     * system has an issued id and is no longer pending creation.
     */
    ghost predicate MembersSettled()
      reads this, systems.Values
    {
      forall k :: k in systems ==> forall x :: x in systems[k].entities ==> Issued(x) && x !in pendingCreation
    }

    /** No system object is registered under two types. */
    ghost predicate SystemsDistinct()
      reads this
    {
      forall k, l :: k in systems && l in systems && k != l ==> systems[k] != systems[l]
    }

    /** `e` carries an id this registry has handed out. */
    predicate Issued(e: Entity)
      reads this
    {
      0 <= e.id < activeEntities
    }

    /** `registry() = default`. */
    constructor (blank: V)
      ensures Valid() && MembersSettled()
      ensures this.blank == blank && activeEntities == 0
      ensures componentPools == [] && signatures == [] && systems == map[]
      ensures pendingCreation == {} && pendingRemoval == {}
    {
      this.blank := blank;
      activeEntities := 0;
      componentPools := [];
      signatures := [];
      systems := map[];
      pendingCreation := {};
      pendingRemoval := {};
    }

    /**
     * `create_entity()`: the next id in sequence, an empty signature for it, and
     * a place in the pending-creation set; no system sees it before `update()`.
     */
    method CreateEntity() returns (e: Entity)
      requires Valid() && MembersSettled()
      modifies this
      ensures Valid() && MembersSettled()
      ensures e == Entity(old(activeEntities)) && activeEntities == old(activeEntities) + 1
      ensures Issued(e) && e !in old(pendingCreation)
      ensures signatures == old(signatures) + [Empty]
      ensures pendingCreation == old(pendingCreation) + {e}
      ensures componentPools == old(componentPools) && systems == old(systems)
      ensures pendingRemoval == old(pendingRemoval)
    {
      var entityId := activeEntities;
      activeEntities := activeEntities + 1;
      e := Entity(entityId);
      pendingCreation := pendingCreation + {e};
      if entityId >= |signatures| {
        signatures := Pools.Resized(signatures, entityId + 1, Empty);
      }
      assert signatures == old(signatures) + [Empty];
    }

    /** `has_component<T>(entity)`: tests T's bit, which throws for an id not below MAX_COMPONENTS. */
    function HasComponent(e: Entity, componentId: nat): (r: BitResult<bool>)
      reads this
      requires 0 <= e.id < |signatures|
      ensures r.Ok? <==> componentId < MaxComponents
      ensures r.Ok? ==> (r.value <==> componentId in signatures[e.id])
    {
      Test(signatures[e.id], componentId)
    }

    /** There is a pool for `componentId`. */
    predicate HasPool(componentId: nat)
      reads this
    {
      componentId < |componentPools| && componentPools[componentId].Some?
    }

    /**
     * `get_component<T>(entity)`: the slot at the entity's id in T's pool; the
     * source neither checks that the pool exists nor that the slot is in range.
     */
    function GetComponent(e: Entity, componentId: nat): (r: V)
      reads this
      requires HasPool(componentId) && 0 <= e.id < |componentPools[componentId].value|
      ensures r == componentPools[componentId].value[e.id]
    {
      componentPools[componentId].value[e.id]
    }

    /**
     * `add_component<T>(entity, args...)`: grow `component_pools` to cover the id,
     * create the pool if its slot is null, resize it to `_active_entities` if it
     * does not reach the entity, store the value, then set the signature bit. The
     * bit is the only capacity check and comes last: for an id not below
     * MAX_COMPONENTS the pool has already been written when `set` throws.
     */
    method AddComponent(e: Entity, componentId: nat, value: V) returns (ok: bool)
      requires Valid() && MembersSettled() && Issued(e)
      modifies this
      ensures Valid() && MembersSettled()
      ensures ok <==> componentId < MaxComponents
      ensures |componentPools| == if componentId < old(|componentPools|) then old(|componentPools|) else componentId + 1
      ensures forall j :: 0 <= j < |componentPools| && j != componentId ==>
                componentPools[j] == if j < old(|componentPools|) then old(componentPools[j]) else None
      ensures var before := PoolOrNew(old(componentPools), componentId, blank);
              componentPools[componentId] ==
                Some((if e.id < |before| then before else Pools.Resized(before, old(activeEntities), blank))[e.id := value])
      ensures HasPool(componentId) && e.id < |componentPools[componentId].value|
      ensures GetComponent(e, componentId) == value
      ensures var before := PoolOrNew(old(componentPools), componentId, blank);
              forall i :: 0 <= i < |before| && i != e.id ==> componentPools[componentId].value[i] == before[i]
      ensures ok ==> signatures == old(signatures)[e.id := old(signatures)[e.id] + {componentId}]
      ensures ok ==> HasComponent(e, componentId) == Ok(true)
      ensures !ok ==> signatures == old(signatures)
      ensures activeEntities == old(activeEntities) && systems == old(systems)
      ensures pendingCreation == old(pendingCreation) && pendingRemoval == old(pendingRemoval)
    {
      StoreComponent(e, componentId, value);
      var bits := Set(signatures[e.id], componentId);
      ok := bits.Ok?;
      if ok {
        CoverSetBit(signatures, componentPools, e.id, componentId);
        signatures := signatures[e.id := bits.value];
      }
    }

    /**
     * The pool half of `add_component<T>`: grow `component_pools` to cover the id,
     * create the pool if its slot is null, resize it to `_active_entities` if it
     * does not reach the entity, and store the value. Signatures are untouched.
     */
    method StoreComponent(e: Entity, componentId: nat, value: V)
      requires Valid() && Issued(e)
      modifies this
      ensures Valid()
      ensures |componentPools| == if componentId < old(|componentPools|) then old(|componentPools|) else componentId + 1
      ensures forall j :: 0 <= j < |componentPools| && j != componentId ==>
                componentPools[j] == if j < old(|componentPools|) then old(componentPools[j]) else None
      ensures var before := PoolOrNew(old(componentPools), componentId, blank);
              componentPools[componentId] ==
                Some((if e.id < |before| then before else Pools.Resized(before, old(activeEntities), blank))[e.id := value])
      ensures signatures == old(signatures)
      ensures activeEntities == old(activeEntities) && systems == old(systems)
      ensures pendingCreation == old(pendingCreation) && pendingRemoval == old(pendingRemoval)
    {
      if componentId >= |componentPools| {
        componentPools := componentPools + seq(componentId + 1 - |componentPools|, _ => None);
      }
      if componentPools[componentId].None? {
        componentPools := componentPools[componentId := Some(Pools.Resized([], Pools.DefaultSize, blank))];
      }
      var pool := componentPools[componentId].value;
      if e.id >= |pool| {
        pool := Pools.Resized(pool, activeEntities, blank);
      }
      pool := pool[e.id := value];
      componentPools := componentPools[componentId := Some(pool)];
      CoverGrowPools(signatures, old(componentPools), componentPools);
    }

    /**
     * `remove_component<T>(entity)`: clears T's bit only; the pool keeps the old
     * value in the entity's slot.
     */
    method RemoveComponent(e: Entity, componentId: nat) returns (ok: bool)
      requires Valid() && MembersSettled() && Issued(e)
      modifies this
      ensures Valid() && MembersSettled()
      ensures ok <==> componentId < MaxComponents
      ensures ok ==> signatures == old(signatures)[e.id := old(signatures)[e.id] - {componentId}]
      ensures ok ==> HasComponent(e, componentId) == Ok(false)
      ensures !ok ==> signatures == old(signatures)
      ensures componentPools == old(componentPools)
      ensures activeEntities == old(activeEntities) && systems == old(systems)
      ensures pendingCreation == old(pendingCreation) && pendingRemoval == old(pendingRemoval)
    {
      var bits := Reset(signatures[e.id], componentId);
      ok := bits.Ok?;
      if ok {
        signatures := signatures[e.id := bits.value];
      }
    }

    /**
     * A component the signature reports present can be read: its pool exists and
     * reaches the entity, so `get_component` indexes inside the pool.
     */
    lemma HasComponentHasSlot(e: Entity, componentId: nat)
      requires Valid() && Issued(e)
      requires HasComponent(e, componentId) == Ok(true)
      ensures HasPool(componentId) && e.id < |componentPools[componentId].value|
    {
    }

    /** `has_system<S>()`. */
    predicate HasSystem(key: SystemType): (r: bool)
      reads this
      ensures r <==> key in systems
    {
      key in systems
    }

    /** `get_system<S>()`: the source dereferences `find`'s result without checking it. */
    function GetSystem(key: SystemType): (r: System)
      reads this
      requires HasSystem(key)
      ensures r == systems[key] && r in systems.Values
    {
      systems[key]
    }

    /**
     * `add_system<S>(args...)`: `s` is the freshly constructed system, which
     * `unordered_map::insert` keeps only when no system of that type is there yet.
     */
    method AddSystem(key: SystemType, s: System)
      requires Valid() && MembersSettled()
      requires s !in systems.Values && s.entities == []
      modifies this
      ensures Valid() && MembersSettled()
      ensures systems == if key in old(systems) then old(systems) else old(systems)[key := s]
      ensures HasSystem(key)
      ensures key in old(systems) ==> GetSystem(key) == old(systems[key])
      ensures activeEntities == old(activeEntities) && signatures == old(signatures)
      ensures componentPools == old(componentPools)
      ensures pendingCreation == old(pendingCreation) && pendingRemoval == old(pendingRemoval)
    {
      if key !in systems {
        systems := systems[key := s];
      }
    }

    /** `remove_system<S>()`: erasing `find`'s result needs the system to be there. */
    method RemoveSystem(key: SystemType)
      requires Valid() && MembersSettled()
      requires HasSystem(key)
      modifies this
      ensures Valid() && MembersSettled()
      ensures systems == old(systems) - {key}
      ensures !HasSystem(key)
      ensures activeEntities == old(activeEntities) && signatures == old(signatures)
      ensures componentPools == old(componentPools)
      ensures pendingCreation == old(pendingCreation) && pendingRemoval == old(pendingRemoval)
    {
      systems := systems - {key};
    }

    /**
     * `add_entity_to_systems(entity)`: appends the entity to every system whose
     * required signature its signature covers, and to no other.
     */
    method AddEntityToSystems(e: Entity)
      requires SystemsDistinct() && 0 <= e.id < |signatures|
      modifies systems.Values
      ensures forall k :: k in systems ==>
                && systems[k].signature == old(systems[k].signature)
                && systems[k].entities == old(systems[k].entities) +
                     (if Interested(signatures, e, systems[k].signature) then [e] else [])
    {
      var entitySignature := signatures[e.id];
      var unvisited := systems.Keys;
      while unvisited != {}
        invariant unvisited <= systems.Keys
        invariant forall k :: k in systems ==> systems[k].signature == old(systems[k].signature)
        invariant forall k :: k in unvisited ==> systems[k].entities == old(systems[k].entities)
        invariant forall k :: k in systems && k !in unvisited ==>
                    systems[k].entities == old(systems[k].entities) +
                      (if Covers(entitySignature, systems[k].signature) then [e] else [])
        decreases |unvisited|
      {
        var k :| k in unvisited;
        var system := systems[k];
        if Covers(entitySignature, system.GetComponentSignature()) {
          system.AddEntityToSystem(e);
        }
        unvisited := unvisited - {k};
      }
    }

    /**
     * The loop of `update()`: hands each entity of `order` to
     * `add_entity_to_systems`, first to last.
     */
    method AddAllToSystems(order: seq<Entity>)
      requires SystemsDistinct()
      requires forall i :: 0 <= i < |order| ==> 0 <= order[i].id < |signatures|
      modifies systems.Values
      ensures forall k :: k in systems ==>
                && systems[k].signature == old(systems[k].signature)
                && systems[k].entities == old(systems[k].entities) + Joining(order, signatures, systems[k].signature)
    {
      for i := 0 to |order|
        invariant forall k :: k in systems ==>
                    && systems[k].signature == old(systems[k].signature)
                    && systems[k].entities == old(systems[k].entities) + Joining(order[..i], signatures, systems[k].signature)
      {
        var e := order[i];
        AddEntityToSystems(e);
        assert order[..i + 1] == order[..i] + [e];
        forall k | k in systems
          ensures systems[k].entities == old(systems[k].entities) + Joining(order[..i + 1], signatures, systems[k].signature)
        {
          JoiningSnoc(order[..i], e, signatures, systems[k].signature);
        }
      }
      assert order[..|order|] == order;
    }

    /**
     * `update()`: every entity pending creation, in ascending id order, is handed
     * to `add_entity_to_systems`; then the pending set is cleared. Nothing else
     * is re-examined, and the pending-removal set is left alone.
     */
    method Update()
      requires Valid() && MembersSettled()
      modifies this, systems.Values
      ensures Valid() && MembersSettled()
      ensures systems == old(systems) && signatures == old(signatures)
      ensures componentPools == old(componentPools) && activeEntities == old(activeEntities)
      ensures pendingCreation == {} && pendingRemoval == old(pendingRemoval)
      ensures forall k :: k in systems ==>
                && systems[k].signature == old(systems[k].signature)
                && systems[k].entities == old(systems[k].entities) +
                     Joining(Ascending(old(pendingCreation)), signatures, systems[k].signature)
      ensures forall k :: k in systems ==> forall x :: x in old(pendingCreation) ==>
                (x in systems[k].entities <==> Interested(signatures, x, systems[k].signature))
    {
      var order := InOrder(pendingCreation);
      AddAllToSystems(order);
      pendingCreation := {};
      forall k | k in systems
        ensures forall x :: x in old(pendingCreation) ==>
                  (x in systems[k].entities <==> Interested(signatures, x, systems[k].signature))
        ensures forall x :: x in systems[k].entities ==> Issued(x)
      {
        SyncPending(old(systems[k].entities), old(pendingCreation), signatures, systems[k].signature);
      }
    }
  }
}
