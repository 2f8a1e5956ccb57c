/** `validate_map`: a breadth-first search from the first room followed by a
    check that every exit is answered by its opposite. */
module Validation {

  import opened Options
  import opened Directions
  import opened ConnectionTable
  import opened Registry
  import opened Linking
  import opened Reachability

  /** What `validate_map` accepts: a non-empty map in which every room is
      reachable from the first room and every exit is mirrored. */
  ghost predicate MapValid(d: Dungeon)
  {
    && |d.rooms| > 0
    && (forall k :: k in d.rooms ==> Reachable(d, FirstRoomId, k))
    && Symmetric(d)
  }

  /** The loop over `connections.values()` that queues the targets not yet
      visited, in dictionary order. */
  function Unvisited(t: seq<Connection>, visited: set<nat>): (r: seq<nat>)
    ensures forall b :: b in r <==> b in Targets(t) && b !in visited
  {
    if |t| == 0 then []
    else if t[0].target !in visited then [t[0].target] + Unvisited(t[1..], visited)
    else Unvisited(t[1..], visited)
  }

  /** What holds of the search state between iterations: visited and queued
      rooms are reachable from start, start has been reached, and every exit
      out of a visited room leads to a visited or queued room. */
  ghost predicate SearchInvariant(d: Dungeon, start: nat, visited: set<nat>, queue: seq<nat>)
  {
    && visited <= d.rooms.Keys
    && (forall q :: q in queue ==> q in d.rooms && Reachable(d, start, q))
    && (forall v :: v in visited ==> Reachable(d, start, v))
    && (start in visited || start in queue)
    && (forall a, b :: a in visited && Edge(d, a, b) ==> b in visited || b in queue)
  }

  /** The rooms queued from a reachable room are reachable rooms. */
  lemma PendingReachable(d: Dungeon, start: nat, current: nat, visited: set<nat>)
    requires Wf(d) && current in d.rooms && Reachable(d, start, current)
    ensures forall b :: b in Unvisited(d.rooms[current].connections, visited) ==>
              b in d.rooms && Reachable(d, start, b)
  {
    forall b | b in Unvisited(d.rooms[current].connections, visited)
      ensures b in d.rooms && Reachable(d, start, b)
    {
      assert RoomWf(d, current);
      EdgesAreTargets(d, current, b);
      ReachableStep(d, start, current, b);
    }
  }

  /** One iteration that visits a new room keeps the search invariant. */
  lemma VisitKeepsInvariant(d: Dungeon, start: nat, visited: set<nat>, queue: seq<nat>)
    requires Wf(d)
    requires SearchInvariant(d, start, visited, queue)
    requires |queue| > 0 && queue[0] !in visited
    ensures var current := queue[0];
            var visited' := visited + {current};
            SearchInvariant(d, start, visited', queue[1..] + Unvisited(d.rooms[current].connections, visited'))
  {
    var current := queue[0];
    var visited' := visited + {current};
    var pending := Unvisited(d.rooms[current].connections, visited');
    var queue' := queue[1..] + pending;
    PendingReachable(d, start, current, visited');
    EdgesQueued(d, current, visited');
    ClosureAfterVisit(d, visited, queue, pending);
    forall q | q in queue' ensures q in d.rooms && Reachable(d, start, q) {
      if q !in pending {
        assert q in queue[1..];
      }
    }
  }

  /** Every exit of a visited room leads to a visited room or to one the
      visit queues. */
  lemma EdgesQueued(d: Dungeon, current: nat, visited: set<nat>)
    requires Wf(d) && current in d.rooms
    ensures forall b :: Edge(d, current, b) ==>
              b in visited || b in Unvisited(d.rooms[current].connections, visited)
  {
    forall b | Edge(d, current, b)
      ensures b in visited || b in Unvisited(d.rooms[current].connections, visited)
    {
      EdgesAreTargets(d, current, b);
    }
  }

  /** Visiting the head of the queue and queueing what it leads to keeps the
      visited rooms closed up to the queue. */
  lemma ClosureAfterVisit(d: Dungeon, visited: set<nat>, queue: seq<nat>, pending: seq<nat>)
    requires |queue| > 0
    requires forall a, b :: a in visited && Edge(d, a, b) ==> b in visited || b in queue
    requires forall b :: Edge(d, queue[0], b) ==> b in visited + {queue[0]} || b in pending
    ensures forall a, b :: a in visited + {queue[0]} && Edge(d, a, b) ==>
              b in visited + {queue[0]} || b in queue[1..] + pending
  {
    forall a, b | a in visited + {queue[0]} && Edge(d, a, b)
      ensures b in visited + {queue[0]} || b in queue[1..] + pending
    {
      if a != queue[0] {
        assert b in visited || b in queue;
        assert queue == [queue[0]] + queue[1..];
      }
    }
  }

  /** Dropping an already visited room from the queue keeps the invariant. */
  lemma SkipKeepsInvariant(d: Dungeon, start: nat, visited: set<nat>, queue: seq<nat>)
    requires SearchInvariant(d, start, visited, queue)
    requires |queue| > 0 && queue[0] in visited
    ensures SearchInvariant(d, start, visited, queue[1..])
  {
    assert queue == [queue[0]] + queue[1..];
  }

  /** With the queue empty the visited set is closed under exits, so it is
      exactly the set of rooms reachable from start. */
  lemma SearchDone(d: Dungeon, start: nat, visited: set<nat>)
    requires SearchInvariant(d, start, visited, [])
    ensures forall k :: k in visited <==> Reachable(d, start, k)
  {
    forall k | Reachable(d, start, k) ensures k in visited {
      ClosedSetHoldsReachable(d, visited, start, k);
    }
  }

  lemma VisitShrinksRemaining(rooms: set<nat>, visited: set<nat>, current: nat)
    requires current in rooms && current !in visited
    ensures |rooms - (visited + {current})| < |rooms - visited|
  {
    var before := rooms - visited;
    var after := rooms - (visited + {current});
    assert after == before - {current};
    assert before == after + {current};
  }

  /** The breadth-first search of `validate_map`: the visited set is exactly
      the set of rooms reachable from start. */
  method Reach(d: Dungeon, start: nat) returns (visited: set<nat>)
    requires Wf(d) && start in d.rooms
    ensures visited <= d.rooms.Keys
    ensures forall k :: k in visited <==> Reachable(d, start, k)
  {
    visited := {};
    var queue := [start];
    ReachableFromItself(d, start);
    while |queue| > 0
      invariant SearchInvariant(d, start, visited, queue)
      decreases |d.rooms.Keys - visited|, |queue|
    {
      var current := queue[0];
      if current in visited {
        SkipKeepsInvariant(d, start, visited, queue);
        queue := queue[1..];
      } else {
        VisitKeepsInvariant(d, start, visited, queue);
        VisitShrinksRemaining(d.rooms.Keys, visited, current);
        visited := visited + {current};
        var room := d.rooms[current];
        queue := queue[1..] + Unvisited(room.connections, visited);
      }
    }
    SearchDone(d, start, visited);
  }

  /** The source's test for one entry `dir -> target` of room k. */
  ghost predicate EntryMirrored(d: Dungeon, k: nat, c: Connection)
  {
    c.target in d.rooms && SlotOf(d, c.target, Opposite(c.dir)) == Some(k)
  }

  /** Checking the entries one by one decides symmetry. */
  lemma SymmetricIffEntriesMirrored(d: Dungeon)
    requires Wf(d)
    ensures Symmetric(d) <==>
            forall k, j :: k in d.rooms && 0 <= j < |d.rooms[k].connections| ==>
                             EntryMirrored(d, k, d.rooms[k].connections[j])
  {
    if Symmetric(d) {
      forall k, j | k in d.rooms && 0 <= j < |d.rooms[k].connections|
        ensures EntryMirrored(d, k, d.rooms[k].connections[j])
      {
        assert RoomWf(d, k);
        LookupFindsEntry(d.rooms[k].connections, j);
        assert Mirrored(d, k, d.rooms[k].connections[j].dir);
      }
    }
    if forall k, j :: k in d.rooms && 0 <= j < |d.rooms[k].connections| ==>
                        EntryMirrored(d, k, d.rooms[k].connections[j]) {
      forall k: nat, dir | SlotOf(d, k, dir).Some? ensures Mirrored(d, k, dir) {
        var c := d.rooms[k].connections;
        var j :| 0 <= j < |c| && c[j] == Connection(dir, SlotOf(d, k, dir).value);
        assert EntryMirrored(d, k, c[j]);
      }
    }
  }

  /** The entries of rooms 1..n all pass the test. */
  ghost predicate MirroredUpTo(d: Dungeon, n: nat)
  {
    forall k, j :: 1 <= k <= n && k in d.rooms && 0 <= j < |d.rooms[k].connections| ==>
                     EntryMirrored(d, k, d.rooms[k].connections[j])
  }

  /** The second loop of `validate_map`: for every room in id order and
      every entry in dictionary order, the target must be a room whose
      opposite exit points back; the first failure returns False. */
  method CheckMirrored(d: Dungeon) returns (ok: bool)
    requires Wf(d)
    ensures ok <==> Symmetric(d)
  {
    var ids := RoomIds(d);
    var i := 0;
    while i < |ids|
      invariant 0 <= i <= |ids|
      invariant MirroredUpTo(d, i)
    {
      var id := ids[i];
      var room := d.rooms[id];
      var j := 0;
      while j < |room.connections|
        invariant 0 <= j <= |room.connections|
        invariant forall j' :: 0 <= j' < j ==> EntryMirrored(d, id, room.connections[j'])
      {
        var c := room.connections[j];
        if c.target !in d.rooms || Lookup(d.rooms[c.target].connections, Opposite(c.dir)) != Some(id) {
          assert !EntryMirrored(d, id, room.connections[j]);
          SymmetricIffEntriesMirrored(d);
          return false;
        }
        j := j + 1;
      }
      assert MirroredUpTo(d, i + 1) by {
        forall k, j' | 1 <= k <= i + 1 && k in d.rooms && 0 <= j' < |d.rooms[k].connections|
          ensures EntryMirrored(d, k, d.rooms[k].connections[j'])
        {
          if k == i + 1 {
            assert k == id;
          }
        }
      }
      i := i + 1;
    }
    SymmetricIffEntriesMirrored(d);
    return true;
  }

  /** `validate_map`: False for an empty map; False when the search from the
      first room does not visit every room; otherwise whether every exit is
      mirrored. The map is only read. */
  method ValidateMap(d: Dungeon) returns (ok: bool)
    requires Wf(d)
    ensures ok <==> MapValid(d)
  {
    if |d.rooms| == 0 {
      return false;
    }
    RoomCount(d);
    var visited := Reach(d, RoomIds(d)[0]);
    CountDecidesCover(d, visited);
    if |visited| != |d.rooms| {
      return false;
    }
    ok := CheckMirrored(d);
  }

  /** Comparing the number of visited rooms with the number of rooms decides
      whether every room was visited. */
  lemma CountDecidesCover(d: Dungeon, visited: set<nat>)
    requires visited <= d.rooms.Keys
    ensures |visited| == |d.rooms| <==> visited == d.rooms.Keys
    ensures visited != d.rooms.Keys ==> exists k :: k in d.rooms && k !in visited
  {
    var missing := d.rooms.Keys - visited;
    assert d.rooms.Keys == visited + missing;
    assert |d.rooms.Keys| == |d.rooms|;
    if visited != d.rooms.Keys {
      var k :| k in missing;
    }
  }
}
