/** The spanning phase of `generate_connections`: grow a connected set from
    the first room, each time joining a closest (connected, unconnected)
    pair by Manhattan distance. */
module Spanning {

  import opened Options
  import opened Directions
  import opened ConnectionTable
  import opened Registry
  import opened Linking

  function Abs(n: int): nat
  {
    if n < 0 then -n else n
  }

  /** `abs(c.x - u.x) + abs(c.y - u.y)`: zero exactly for rooms at the same
      position. */
  function Distance(d: Dungeon, a: nat, b: nat): (r: nat)
    requires a in d.rooms && b in d.rooms
    ensures r == 0 <==> (d.rooms[a].x, d.rooms[a].y) == (d.rooms[b].x, d.rooms[b].y)
  {
    Abs(d.rooms[a].x - d.rooms[b].x) + Abs(d.rooms[a].y - d.rooms[b].y)
  }

  /** The distance is a metric on positions: symmetric, and never shortened
      by going round through a third room. */
  lemma DistanceIsMetric(d: Dungeon, a: nat, b: nat, c: nat)
    requires a in d.rooms && b in d.rooms && c in d.rooms
    ensures Distance(d, a, b) == Distance(d, b, a)
    ensures Distance(d, a, c) <= Distance(d, a, b) + Distance(d, b, c)
  {
  }

  /** (c, u) is a pair of minimum distance among connected x unconnected. */
  ghost predicate IsClosest(d: Dungeon, connected: set<nat>, unconnected: set<nat>, c: nat, u: nat)
    requires connected <= d.rooms.Keys && unconnected <= d.rooms.Keys
  {
    && c in connected
    && u in unconnected
    && forall c', u' {:trigger Distance(d, c', u')} :: c' in connected && u' in unconnected ==>
                                                         Distance(d, c, u) <= Distance(d, c', u')
  }

  /** The scan over every (connected, unconnected) pair that keeps the first
      strictly smaller distance. The sets are Python sets, so the visiting
      order is unspecified: each room is taken in an arbitrary order here,
      and the result is some closest pair. `None` plays the role of the
      `float('inf')` starting distance. */
  method ClosestPair(d: Dungeon, connected: set<nat>, unconnected: set<nat>) returns (c: nat, u: nat)
    requires connected <= d.rooms.Keys && unconnected <= d.rooms.Keys
    requires connected != {} && unconnected != {}
    ensures IsClosest(d, connected, unconnected, c, u)
  {
    var best: Option<(nat, nat, nat)> := None;
    var cs := connected;
    while cs != {}
      invariant cs <= connected
      invariant best.None? ==> cs == connected
      invariant best.Some? ==> best.value.1 in connected && best.value.2 in unconnected
      invariant best.Some? ==> best.value.0 == Distance(d, best.value.1, best.value.2)
      invariant best.Some? ==> forall c', u' :: c' in connected - cs && u' in unconnected ==>
                                                 best.value.0 <= Distance(d, c', u')
      decreases cs
    {
      var cId :| cId in cs;
      var us := unconnected;
      while us != {}
        invariant us <= unconnected
        invariant best.None? ==> cs == connected && us == unconnected
        invariant best.Some? ==> best.value.1 in connected && best.value.2 in unconnected
        invariant best.Some? ==> best.value.0 == Distance(d, best.value.1, best.value.2)
        invariant best.Some? ==> forall c', u' :: c' in connected - cs && u' in unconnected ==>
                                                   best.value.0 <= Distance(d, c', u')
        invariant best.Some? ==> forall u' :: u' in unconnected - us ==> best.value.0 <= Distance(d, cId, u')
        decreases us
      {
        var uId :| uId in us;
        var distance := Distance(d, cId, uId);
        if best.None? || distance < best.value.0 {
          best := Some((distance, cId, uId));
        }
        us := us - {uId};
      }
      cs := cs - {cId};
    }
    c, u := best.value.1, best.value.2;
  }

  /** One pass of the spanning loop: room `to` joins via room `from`. */
  datatype SpanStep = SpanStep(from: nat, to: nat, dir: Direction)

  /** The connected set after the given steps, starting from {root}. */
  function Joined(root: nat, steps: seq<SpanStep>): set<nat>
    decreases |steps|
  {
    if |steps| == 0 then {root}
    else Joined(root, steps[..|steps| - 1]) + {steps[|steps| - 1].to}
  }

  /** The direction the loop derives for a pair, from the two positions. */
  function PairDirection(d: Dungeon, c: nat, u: nat): Direction
    requires c in d.rooms && u in d.rooms
  {
    SpanDirection(d.rooms[c].x, d.rooms[c].y, d.rooms[u].x, d.rooms[u].y)
  }

  /** The steps are a run of the spanning loop over the positions of d:
      every step joins a closest pair across the current cut, with the
      derived direction. */
  ghost predicate IsSpanTrace(d: Dungeon, root: nat, steps: seq<SpanStep>)
    decreases |steps|
  {
    && root in d.rooms
    && (|steps| > 0 ==>
          var prefix := steps[..|steps| - 1];
          var s := steps[|steps| - 1];
          var joined := Joined(root, prefix);
          && IsSpanTrace(d, root, prefix)
          && joined <= d.rooms.Keys
          && IsClosest(d, joined, d.rooms.Keys - joined, s.from, s.to)
          && s.dir == PairDirection(d, s.from, s.to))
  }

  /** The map after `connect_rooms` has run for each step in order. */
  function ApplySteps(d: Dungeon, steps: seq<SpanStep>): (r: Dungeon)
    ensures SameLayout(d, r)
    decreases |steps|
  {
    if |steps| == 0 then d
    else
      var s := steps[|steps| - 1];
      ConnectRooms(ApplySteps(d, steps[..|steps| - 1]), s.from, s.to, s.dir).0
  }

  /** Connecting the steps keeps the registry invariant. */
  lemma {:induction false} ApplyStepsKeepsWf(d: Dungeon, steps: seq<SpanStep>)
    requires Wf(d)
    ensures Wf(ApplySteps(d, steps))
    decreases |steps|
  {
    if |steps| > 0 {
      var s := steps[|steps| - 1];
      ApplyStepsKeepsWf(d, steps[..|steps| - 1]);
      ConnectKeepsWf(ApplySteps(d, steps[..|steps| - 1]), s.from, s.to, s.dir);
    }
  }

  /** Only exits change, so distances and directions read from d' are those of d. */
  lemma SameLayoutSameGeometry(d: Dungeon, d': Dungeon, a: nat, b: nat)
    requires SameLayout(d, d') && a in d.rooms && b in d.rooms
    ensures Distance(d', a, b) == Distance(d, a, b)
    ensures PairDirection(d', a, b) == PairDirection(d, a, b)
  {
    assert d'.rooms[a].x == d.rooms[a].x && d'.rooms[a].y == d.rooms[a].y;
    assert d'.rooms[b].x == d.rooms[b].x && d'.rooms[b].y == d.rooms[b].y;
  }

  lemma ClosestUnderSameLayout(d: Dungeon, d': Dungeon, connected: set<nat>, unconnected: set<nat>, c: nat, u: nat)
    requires SameLayout(d, d')
    requires connected <= d.rooms.Keys && unconnected <= d.rooms.Keys
    requires IsClosest(d', connected, unconnected, c, u)
    ensures IsClosest(d, connected, unconnected, c, u)
  {
    SameLayoutSameGeometry(d, d', c, u);
    forall c', u' | c' in connected && u' in unconnected
      ensures Distance(d, c, u) <= Distance(d, c', u')
    {
      SameLayoutSameGeometry(d, d', c', u');
    }
  }

  /** Appending a closest-pair step to a run gives a longer run. */
  lemma ExtendTrace(d: Dungeon, root: nat, steps: seq<SpanStep>, step: SpanStep)
    requires IsSpanTrace(d, root, steps)
    requires Joined(root, steps) <= d.rooms.Keys
    requires IsClosest(d, Joined(root, steps), d.rooms.Keys - Joined(root, steps), step.from, step.to)
    requires step.dir == PairDirection(d, step.from, step.to)
    ensures IsSpanTrace(d, root, steps + [step])
    ensures Joined(root, steps + [step]) == Joined(root, steps) + {step.to}
  {
    assert (steps + [step])[..|steps|] == steps;
  }

  /** Connecting one more step is one more `connect_rooms` call. */
  lemma ApplyStepsAppend(d: Dungeon, steps: seq<SpanStep>, step: SpanStep)
    ensures ApplySteps(d, steps + [step]) == ConnectRooms(ApplySteps(d, steps), step.from, step.to, step.dir).0
  {
    assert (steps + [step])[..|steps|] == steps;
  }

  /** The state of the spanning loop after some passes: the connected set is
      what the steps joined, the unconnected set is the rest and the steps
      are a run of the loop. */
  ghost predicate SpanState(d: Dungeon, root: nat, connected: set<nat>, unconnected: set<nat>,
                            steps: seq<SpanStep>)
  {
    && connected == Joined(root, steps) && connected <= d.rooms.Keys
    && unconnected == d.rooms.Keys - connected
    && IsSpanTrace(d, root, steps)
  }

  /** One pass of the loop keeps the loop state: the pair the scan finds on
      the current map is a closest pair on the original positions. */
  lemma SpanPassKeepsState(d: Dungeon, root: nat, connected: set<nat>, unconnected: set<nat>,
                           steps: seq<SpanStep>, current: Dungeon, c: nat, u: nat)
    requires SpanState(d, root, connected, unconnected, steps)
    requires SameLayout(d, current)
    requires IsClosest(current, connected, unconnected, c, u)
    ensures PairDirection(current, c, u) == PairDirection(d, c, u)
    ensures SpanState(d, root, connected + {u}, unconnected - {u},
                      steps + [SpanStep(c, u, PairDirection(d, c, u))])
  {
    var step := SpanStep(c, u, PairDirection(d, c, u));
    SameLayoutSameGeometry(d, current, c, u);
    ClosestUnderSameLayout(d, current, connected, unconnected, c, u);
    ExtendTrace(d, root, steps, step);
    assert unconnected - {u} == d.rooms.Keys - (connected + {u});
  }

  /** What the loop body needs from the loop state. */
  lemma SpanStateFacts(d: Dungeon, root: nat, connected: set<nat>, unconnected: set<nat>,
                       steps: seq<SpanStep>, current: Dungeon)
    requires SpanState(d, root, connected, unconnected, steps)
    requires SameLayout(d, current)
    ensures connected <= current.rooms.Keys && unconnected <= current.rooms.Keys
    ensures connected !! unconnected
    ensures unconnected == {} ==> Joined(root, steps) == d.rooms.Keys
  {
  }

  /** Moving a room across the cut grows the connected set by one. */
  lemma JoinGrowsByOne(connected: set<nat>, unconnected: set<nat>, u: nat)
    requires u in unconnected && connected !! unconnected
    ensures |connected + {u}| == |connected| + 1
  {
    assert u !in connected;
  }

  /** The loop invariant: the loop state, one more connected room than
      steps, and the current map is the steps applied in order. */
  ghost predicate SpanLoop(d: Dungeon, root: nat, connected: set<nat>, unconnected: set<nat>,
                           steps: seq<SpanStep>, current: Dungeon)
  {
    && SpanState(d, root, connected, unconnected, steps)
    && |connected| == |steps| + 1
    && current == ApplySteps(d, steps)
  }

  /** One pass of the loop, connecting the closest pair the scan found,
      keeps the loop invariant and shrinks the unconnected set. */
  lemma SpanLoopStep(d: Dungeon, root: nat, connected: set<nat>, unconnected: set<nat>,
                     steps: seq<SpanStep>, current: Dungeon, c: nat, u: nat)
    requires SpanLoop(d, root, connected, unconnected, steps, current)
    requires IsClosest(current, connected, unconnected, c, u)
    ensures var step := SpanStep(c, u, PairDirection(current, c, u));
            SpanLoop(d, root, connected + {u}, unconnected - {u}, steps + [step],
                     ConnectRooms(current, c, u, step.dir).0)
    ensures |unconnected - {u}| < |unconnected|
  {
    var step := SpanStep(c, u, PairDirection(current, c, u));
    SpanStateFacts(d, root, connected, unconnected, steps, current);
    SpanPassKeepsState(d, root, connected, unconnected, steps, current, c, u);
    JoinGrowsByOne(connected, unconnected, u);
    ApplyStepsAppend(d, steps, step);
    RemoveShrinks(unconnected, u);
  }

  lemma RemoveShrinks<T>(s: set<T>, x: T)
    requires x in s
    ensures |s - {x}| < |s|
  {
    assert s == (s - {x}) + {x};
  }

  /** The spanning loop: starting from {root}, while some room is
      unconnected, connect a closest pair with the derived direction (without
      looking at what the two slots held) and move the room across. It runs
      once per other room and ends with every room connected. */
  method SpanFrom(d: Dungeon, root: nat) returns (d': Dungeon, steps: seq<SpanStep>)
    requires root in d.rooms
    ensures IsSpanTrace(d, root, steps)
    ensures Joined(root, steps) == d.rooms.Keys
    ensures |steps| + 1 == |d.rooms|
    ensures d' == ApplySteps(d, steps)
  {
    var connected := {root};
    var unconnected := d.rooms.Keys - {root};
    d' := d;
    steps := [];
    while unconnected != {}
      invariant SpanLoop(d, root, connected, unconnected, steps, d')
      decreases |unconnected|
    {
      SpanStateFacts(d, root, connected, unconnected, steps, d');
      var c, u := ClosestPair(d', connected, unconnected);
      var dir := PairDirection(d', c, u);
      SpanLoopStep(d, root, connected, unconnected, steps, d', c, u);
      d' := ConnectRooms(d', c, u, dir).0;
      steps := steps + [SpanStep(c, u, dir)];
      connected := connected + {u};
      unconnected := unconnected - {u};
    }
    SpanStateFacts(d, root, connected, unconnected, steps, d');
  }

  /** The spanning phase as `generate_connections` runs it, from the first
      room of the map: exactly n - 1 passes. */
  method SpanningPhase(d: Dungeon) returns (d': Dungeon, steps: seq<SpanStep>)
    requires Wf(d) && |d.rooms| > 0
    ensures IsSpanTrace(d, FirstRoomId, steps)
    ensures Joined(FirstRoomId, steps) == d.rooms.Keys
    ensures |steps| == |d.rooms| - 1
    ensures d' == ApplySteps(d, steps)
  {
    RoomCount(d);
    var ids := RoomIds(d);
    d', steps := SpanFrom(d, ids[0]);
  }
}
