/**
 * The registry driven through one frame sequence: two entities, a system that
 * requires a transform and a rigidbody, an update, a rigidbody added to the
 * second entity, and another update. The second update finds nothing pending,
 * so the second entity never joins although its signature now qualifies.
 */
module Scenarios {
  import opened Signatures
  import opened Entities
  import opened Systems
  import opened ComponentIds
  import opened Registry

  /** `Ascending` of two entities with increasing ids. */
  lemma AscendingPair(a: Entity, b: Entity)
    requires a.id < b.id
    ensures Ascending({a, b}) == [a, b]
  {
    AscendingUnique([a, b], {a, b});
  }

  /** The first two component types to ask for their ids get 0 and 1. */
  method FirstTwoIds() returns (transform: nat, rigidbody: nat)
    ensures transform == 0 && rigidbody == 1
  {
    var types := new IdCounter();
    transform := types.GetId("transform");
    rigidbody := types.GetId("rigidbody");
  }

  /** A system whose constructor requires components 0 and 1. */
  method MovementSystem() returns (s: System)
    ensures fresh(s) && s.signature == {0, 1} && s.entities == []
  {
    s := new System();
    var ok := s.RequireComponent(0);
    ok := s.RequireComponent(1);
    assert s.signature == {0, 1};
  }

  /** Two created entities: A with components 0 and 1, B with component 0. */
  method TwoEntities() returns (registry: Registry<int>, a: Entity, b: Entity)
    ensures fresh(registry) && registry.Valid() && registry.MembersSettled()
    ensures a == Entity(0) && b == Entity(1)
    ensures registry.signatures == [{0, 1}, {0}]
    ensures registry.pendingCreation == {a, b} && registry.systems == map[]
  {
    registry := new Registry<int>(0);
    a := registry.CreateEntity();
    b := registry.CreateEntity();
    var ok := registry.AddComponent(a, 0, 1);
    ok := registry.AddComponent(a, 1, 1);
    ok := registry.AddComponent(b, 0, 1);
    assert registry.signatures[0] == {0, 1};
    assert registry.signatures[1] == {0};
  }

  /** Of A and B, only A covers {0, 1}. */
  lemma OnlyAJoins(sigs: seq<Signature>)
    requires sigs == [{0, 1}, {0}]
    ensures Joining([Entity(0), Entity(1)], sigs, {0, 1}) == [Entity(0)]
  {
    var a, b := Entity(0), Entity(1);
    assert Interested(sigs, a, {0, 1}) by {
      assert sigs[0] * {0, 1} == {0, 1};
    }
    assert !Interested(sigs, b, {0, 1}) by {
      assert 1 !in sigs[1] * {0, 1};
    }
    JoiningSnoc([], a, sigs, {0, 1});
    JoiningSnoc([a], b, sigs, {0, 1});
    assert [] + [a] == [a] && [a] + [b] == [a, b];
  }

  /**
   * The first frame: A (transform and rigidbody) and B (transform only) are
   * created, a movement system requiring both is added, and `update()` runs.
   */
  method FirstFrame() returns (registry: Registry<int>, movement: System, a: Entity, b: Entity)
    ensures fresh(registry) && fresh(movement) && registry.Valid() && registry.MembersSettled()
    ensures a == Entity(0) && b == Entity(1)
    ensures registry.signatures == [{0, 1}, {0}]
    ensures registry.systems == map["movement" := movement] && movement.signature == {0, 1}
    ensures registry.pendingCreation == {}
    ensures movement.GetSystemEntities() == [a]
  {
    registry, a, b := TwoEntities();
    movement := MovementSystem();
    registry.AddSystem("movement", movement);

    AscendingPair(a, b);
    OnlyAJoins(registry.signatures);
    registry.Update();
  }

  /**
   * After the first frame the movement system holds exactly A. Then B gets a
   * rigidbody and `update()` runs again: B now qualifies, but it is no longer
   * pending, so the list is still exactly A.
   */
  method MembershipDriftScenario() returns (first: seq<Entity>, second: seq<Entity>)
    ensures first == [Entity(0)]
    ensures second == [Entity(0)]
  {
    var transform, rigidbody := FirstTwoIds();
    var registry, movement, a, b := FirstFrame();
    first := movement.GetSystemEntities();

    var ok := registry.AddComponent(b, rigidbody, 1);
    assert Covers(registry.signatures[b.id], movement.signature) by {
      assert registry.signatures[1] == {0, 1};
    }
    assert Ascending({}) == [];
    registry.Update();
    second := movement.GetSystemEntities();
  }
}
