/**
 * Entities and the two sequence algorithms the source applies to them: the
 * remove-if/erase idiom that drops an entity from a system's member list, and
 * iteration over an ordered std::set of entities.
 */
module Entities {

  /**
   * An entity is only its id. `operator==` and `operator!=` compare ids, and so
   * does datatype equality; the back-pointer to the owning registry is not kept.
   */
  datatype Entity = Entity(id: int)

  /** `entity::operator<`: the order of a std::set<entity>. */
  predicate Less(a: Entity, b: Entity)
  {
    a.id < b.id
  }

  /**
   * Entities compare as their ids do: equal exactly when the ids are, and `Less`
   * (with `operator>` as its mirror) is a strict total order.
   */
  lemma EntityOrder(a: Entity, b: Entity, c: Entity)
    ensures a == b <==> a.id == b.id
    ensures !Less(a, a)
    ensures Less(a, b) && Less(b, c) ==> Less(a, c)
    ensures a != b <==> Less(a, b) || Less(b, a)
  {
  }

  /** The number of members equal to `e`. */
  function Count(s: seq<Entity>, e: Entity): (r: nat)
  {
    if s == [] then 0 else Count(s[..|s| - 1], e) + (if s[|s| - 1] == e then 1 else 0)
  }

  /**
   * `s` with every member equal to `e` dropped and the others kept in their
   * original order.
   */
  function Without(s: seq<Entity>, e: Entity): (r: seq<Entity>)
    ensures |r| == |s| - Count(s, e)
    ensures forall x :: x in r <==> x in s && x != e
  {
    if s == [] then []
    else Without(s[..|s| - 1], e) + (if s[|s| - 1] == e then [] else [s[|s| - 1]])
  }

  /** Dropping `e` distributes over concatenation: the survivors keep their relative order. */
  lemma {:induction false} WithoutConcat(a: seq<Entity>, b: seq<Entity>, e: Entity)
    ensures Without(a + b, e) == Without(a, e) + Without(b, e)
    decreases |b|
  {
    if b == [] {
      assert a + b == a;
    } else {
      var b' := b[..|b| - 1];
      assert (a + b)[..|a + b| - 1] == a + b';
      WithoutConcat(a, b', e);
    }
  }

  /** A list without `e` is left exactly as it was. */
  lemma {:induction false} WithoutAbsent(s: seq<Entity>, e: Entity)
    requires e !in s
    ensures Without(s, e) == s
    decreases |s|
  {
    if s != [] {
      assert e !in s[..|s| - 1];
      WithoutAbsent(s[..|s| - 1], e);
      assert s == s[..|s| - 1] + [s[|s| - 1]];
    }
  }

  /**
   * `erase(remove_if(begin, end, == e), end)`: remove_if walks the list once and
   * moves every member that is not `e` down to the next free slot; erase then
   * cuts the list after the last member kept.
   */
  method RemoveMatching(entities: seq<Entity>, e: Entity) returns (r: seq<Entity>)
    ensures r == Without(entities, e)
  {
    var buf := entities;
    var kept := 0;
    var i := 0;
    while i < |buf|
      invariant |buf| == |entities|
      invariant 0 <= kept <= i <= |buf|
      invariant buf[..kept] == Without(entities[..i], e)
      invariant forall j :: i <= j < |buf| ==> buf[j] == entities[j]
    {
      assert entities[..i + 1][..i] == entities[..i];
      if buf[i] != e {
        buf := buf[kept := buf[i]];
        kept := kept + 1;
      }
      i := i + 1;
    }
    assert entities[..|entities|] == entities;
    r := buf[..kept];
  }

  /** `m` is the first member of `s` in entity order. */
  predicate IsLeast(m: Entity, s: set<Entity>)
  {
    m in s && forall x :: x in s ==> m.id <= x.id
  }

  lemma {:induction false} HasLeast(s: set<Entity>)
    requires s != {}
    ensures exists m :: IsLeast(m, s)
    decreases |s|
  {
    var x :| x in s;
    if s == {x} {
      assert IsLeast(x, s);
    } else {
      HasLeast(s - {x});
      var m :| IsLeast(m, s - {x});
      if x.id < m.id {
        assert IsLeast(x, s);
      } else {
        assert IsLeast(m, s);
      }
    }
  }

  /** The members of `s` in the order a range-for over a std::set<entity> visits them. */
  ghost function Ascending(s: set<Entity>): (r: seq<Entity>)
    decreases |s|
  {
    if s == {} then []
    else
      HasLeast(s);
      var m :| IsLeast(m, s);
      [m] + Ascending(s - {m})
  }

  /** Ascending order starts with the least member, whichever way it was found. */
  lemma AscendingFirst(s: set<Entity>, m: Entity)
    requires IsLeast(m, s)
    ensures Ascending(s) == [m] + Ascending(s - {m})
  {
    HasLeast(s);
    var m' :| IsLeast(m', s);
    assert m'.id == m.id;
  }

  /** Ascending order visits every member of the set once, in strictly increasing id order. */
  lemma {:induction false} AscendingSorted(s: set<Entity>)
    ensures |Ascending(s)| == |s|
    ensures forall x :: x in Ascending(s) <==> x in s
    ensures forall i, j :: 0 <= i < j < |Ascending(s)| ==> Less(Ascending(s)[i], Ascending(s)[j])
    decreases |s|
  {
    if s != {} {
      HasLeast(s);
      var m :| IsLeast(m, s);
      AscendingFirst(s, m);
      AscendingSorted(s - {m});
    }
  }

  /** A strictly ascending list of exactly the members of `s` is `Ascending(s)`. */
  lemma {:induction false} AscendingUnique(xs: seq<Entity>, s: set<Entity>)
    requires forall i, j :: 0 <= i < j < |xs| ==> Less(xs[i], xs[j])
    requires forall x :: x in xs <==> x in s
    ensures xs == Ascending(s)
    decreases |xs|
  {
    if xs == [] {
      assert s == {};
    } else {
      var m := xs[0];
      forall x | x in s
        ensures m.id <= x.id
      {
        var i :| 0 <= i < |xs| && xs[i] == x;
      }
      AscendingFirst(s, m);
      forall x
        ensures x in xs[1..] <==> x in s - {m}
      {
        if x in xs[1..] {
          var i :| 1 <= i < |xs| && xs[i] == x;
          assert Less(xs[0], xs[i]);
        }
        if x in s - {m} {
          var i :| 0 <= i < |xs| && xs[i] == x;
          assert i != 0;
        }
      }
      AscendingUnique(xs[1..], s - {m});
    }
  }

  /**
   * The visiting order of a range-for over a std::set<entity>: repeatedly the
   * least entity not yet visited.
   */
  method InOrder(s: set<Entity>) returns (xs: seq<Entity>)
    ensures xs == Ascending(s)
    ensures forall i :: 0 <= i < |xs| ==> xs[i] in s
  {
    xs := [];
    var rest := s;
    while rest != {}
      invariant rest <= s
      invariant forall x :: x in xs <==> x in s && x !in rest
      invariant forall i, j :: 0 <= i < j < |xs| ==> Less(xs[i], xs[j])
      invariant forall i, y :: 0 <= i < |xs| && y in rest ==> Less(xs[i], y)
      decreases |rest|
    {
      HasLeast(rest);
      var m :| IsLeast(m, rest);
      xs := xs + [m];
      rest := rest - {m};
    }
    AscendingUnique(xs, s);
  }
}
