/** Reachability along exits, the notion the breadth-first search of
    `validate_map` decides. */
module Reachability {

  import opened Options
  import opened Directions
  import opened ConnectionTable
  import opened Registry
  import opened Linking

  /** Room a has an exit leading to b. */
  ghost predicate Edge(d: Dungeon, a: nat, b: nat)
  {
    exists dir :: SlotOf(d, a, dir) == Some(b)
  }

  /** Consecutive rooms of p are joined by exits. */
  ghost predicate IsPath(d: Dungeon, p: seq<nat>)
  {
    |p| > 0 && forall i :: 0 <= i < |p| - 1 ==> Edge(d, p[i], p[i + 1])
  }

  ghost predicate Reachable(d: Dungeon, s: nat, t: nat)
  {
    exists p :: IsPath(d, p) && p[0] == s && p[|p| - 1] == t
  }

  /** Under the invariant, the edges out of a room are exactly the values of
      its `connections` dictionary. */
  lemma EdgesAreTargets(d: Dungeon, a: nat, b: nat)
    requires Wf(d) && a in d.rooms
    ensures Edge(d, a, b) <==> b in Targets(d.rooms[a].connections)
  {
    assert RoomWf(d, a);
    var c := d.rooms[a].connections;
    TargetsAreLookups(c, b);
    assert forall dir :: SlotOf(d, a, dir) == Lookup(c, dir);
    if b in Targets(c) {
      var dir :| Lookup(c, dir) == Some(b);
      assert SlotOf(d, a, dir) == Some(b);
    }
  }

  lemma ReachableFromItself(d: Dungeon, s: nat)
    ensures Reachable(d, s, s)
  {
    assert IsPath(d, [s]);
  }

  lemma ReachableStep(d: Dungeon, s: nat, a: nat, b: nat)
    requires Reachable(d, s, a) && Edge(d, a, b)
    ensures Reachable(d, s, b)
  {
    var p :| IsPath(d, p) && p[0] == s && p[|p| - 1] == a;
    var q := p + [b];
    forall i | 0 <= i < |q| - 1 ensures Edge(d, q[i], q[i + 1]) {
      if i < |p| - 1 {
        assert q[i] == p[i] && q[i + 1] == p[i + 1];
      }
    }
    assert IsPath(d, q) && q[0] == s && q[|q| - 1] == b;
  }

  /** A set that holds s and is closed under exits holds everything reachable
      from s. */
  lemma ClosedSetHoldsReachable(d: Dungeon, visited: set<nat>, s: nat, t: nat)
    requires s in visited
    requires forall a, b :: a in visited && Edge(d, a, b) ==> b in visited
    requires Reachable(d, s, t)
    ensures t in visited
  {
    var p :| IsPath(d, p) && p[0] == s && p[|p| - 1] == t;
    var i := 0;
    while i < |p| - 1
      invariant 0 <= i < |p|
      invariant p[i] in visited
    {
      assert Edge(d, p[i], p[i + 1]);
      i := i + 1;
    }
  }

  /** Adding exits without removing any keeps every room reachable. */
  lemma ReachableMonotone(d: Dungeon, d': Dungeon, s: nat, t: nat)
    requires EdgesKept(d, d')
    requires Reachable(d, s, t)
    ensures Reachable(d', s, t)
  {
    var p :| IsPath(d, p) && p[0] == s && p[|p| - 1] == t;
    forall i | 0 <= i < |p| - 1 ensures Edge(d', p[i], p[i + 1]) {
      var dir :| SlotOf(d, p[i], dir) == Some(p[i + 1]);
      assert SlotOf(d', p[i], dir) == Some(p[i + 1]);
    }
    assert IsPath(d', p);
  }
}
