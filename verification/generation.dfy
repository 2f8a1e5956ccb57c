/** `generate_connections` as a whole: the spanning phase followed by the
    enrichment phase, and what `validate_map` can say about its result. */
module Generation {

  import opened Options
  import opened Directions
  import opened ConnectionTable
  import opened Registry
  import opened Linking
  import opened Reachability
  import opened Validation
  import opened Spanning
  import opened Enrichment

  /** The two slots a step writes, read on the map it is applied to. */
  ghost predicate SlotsFree(current: Dungeon, s: SpanStep)
  {
    SlotOf(current, s.from, s.dir).None? && SlotOf(current, s.to, Opposite(s.dir)).None?
  }

  /** No step of the spanning phase overwrites an exit an earlier step (or
      the map it started from) had set. */
  ghost predicate NoOverwrite(d: Dungeon, steps: seq<SpanStep>)
    decreases |steps|
  {
    |steps| > 0 ==>
      && NoOverwrite(d, steps[..|steps| - 1])
      && SlotsFree(ApplySteps(d, steps[..|steps| - 1]), steps[|steps| - 1])
  }

  /** When no step overwrites an exit, the spanning phase keeps a symmetric
      map symmetric, loses no exit, and every room it has joined is
      reachable from the root. */
  lemma {:induction false} SpanWithoutOverwrite(d: Dungeon, root: nat, steps: seq<SpanStep>)
    requires IsSpanTrace(d, root, steps)
    requires Symmetric(d)
    requires NoOverwrite(d, steps)
    ensures Symmetric(ApplySteps(d, steps))
    ensures EdgesKept(d, ApplySteps(d, steps))
    ensures forall k :: k in Joined(root, steps) ==> Reachable(ApplySteps(d, steps), root, k)
    decreases |steps|
  {
    if |steps| == 0 {
      ReachableFromItself(d, root);
    } else {
      var prefix := steps[..|steps| - 1];
      var s := steps[|steps| - 1];
      var before := ApplySteps(d, prefix);
      var after := ApplySteps(d, steps);
      SpanWithoutOverwrite(d, root, prefix);
      var joined := Joined(root, prefix);
      assert s.from in joined && s.to in d.rooms.Keys;
      assert s.from in before.rooms && s.to in before.rooms;
      ConnectFreeSlotsKeepsSymmetry(before, s.from, s.to, s.dir);
      assert after == ConnectRooms(before, s.from, s.to, s.dir).0;
      forall k | k in Joined(root, steps) ensures Reachable(after, root, k) {
        ReachableMonotone(before, after, root, s.from);
        if k in joined {
          ReachableMonotone(before, after, root, k);
        } else {
          assert k == s.to;
          assert SlotOf(after, s.from, s.dir) == Some(s.to);
          ReachableStep(after, root, s.from, s.to);
        }
      }
    }
  }

  /** `generate_connections(min_connections, max_connections)`: False, and no
      change, for fewer than two rooms; otherwise the spanning phase from the
      first room, then `additional_connections` enrichment rounds (at most
      half the number of rooms, one pick each), and True. The two keyword
      arguments are unused by the source and are not modelled. */
  method GenerateConnections(d: Dungeon, picks: seq<Pick>)
    returns (d': Dungeon, ok: bool, steps: seq<SpanStep>, added: seq<Corridor>)
    requires Wf(d)
    requires |picks| <= |d.rooms| / 2
    requires forall i :: 0 <= i < |picks| ==> picks[i].room in d.rooms
    ensures ok <==> |d.rooms| >= 2
    ensures !ok ==> d' == d && steps == [] && added == []
    ensures Wf(d') && SameLayout(d, d')
    ensures ok ==> IsSpanTrace(d, FirstRoomId, steps) && Joined(FirstRoomId, steps) == d.rooms.Keys
    ensures ok ==> |steps| == |d.rooms| - 1 && |added| <= |picks|
    ensures ok ==> var spanned := ApplySteps(d, steps);
                   && Wf(spanned) && spanned.rooms.Keys == d.rooms.Keys
                   && EdgesKept(spanned, d')
                   && (Symmetric(spanned) ==> Symmetric(d'))
                   && (d', added) == EnrichAll(spanned, picks)
  {
    if |d.rooms| < 2 {
      return d, false, [], [];
    }
    var spanned;
    spanned, steps := SpanningPhase(d);
    ApplyStepsKeepsWf(d, steps);
    d', added := EnrichmentPhase(spanned, picks);
    ok := true;
  }

  /** The generated map passes `validate_map` whenever the map it started
      from was symmetric (for instance, had no exits) and no spanning step
      overwrote an exit. */
  lemma GeneratedMapIsValid(d: Dungeon, steps: seq<SpanStep>, d': Dungeon)
    requires |d.rooms| >= 2 && Symmetric(d)
    requires IsSpanTrace(d, FirstRoomId, steps) && Joined(FirstRoomId, steps) == d.rooms.Keys
    requires NoOverwrite(d, steps)
    requires SameLayout(d, d')
    requires EdgesKept(ApplySteps(d, steps), d')
    requires Symmetric(ApplySteps(d, steps)) ==> Symmetric(d')
    ensures MapValid(d')
  {
    SpanWithoutOverwrite(d, FirstRoomId, steps);
    forall k | k in d'.rooms ensures Reachable(d', FirstRoomId, k) {
      ReachableMonotone(ApplySteps(d, steps), d', FirstRoomId, k);
    }
  }

  /** The three rooms at (0, 0), (1, 5) and (1, -5): both other rooms lie at
      distance 6 east of room 1, while they are 10 apart. */
  lemma ThreeRoomsGeometry()
    ensures Distance(ThreeRooms(), 1, 2) == 6 && Distance(ThreeRooms(), 1, 3) == 6
    ensures Distance(ThreeRooms(), 2, 3) == 10 && Distance(ThreeRooms(), 3, 2) == 10
    ensures PairDirection(ThreeRooms(), 1, 2) == East && PairDirection(ThreeRooms(), 1, 3) == East
    ensures ThreeRooms().rooms.Keys == {1, 2, 3}
  {
  }

  /** Whatever order the scan visits the rooms in, the spanning phase on the
      three rooms connects room 1 east twice, so the second step overwrites
      the first one's exit. */
  lemma ThreeRoomsTraceOverwrites(steps: seq<SpanStep>)
    requires IsSpanTrace(ThreeRooms(), 1, steps) && |steps| == 2
    ensures steps[0].from == 1 && steps[0].dir == East
    ensures steps[1].from == 1 && steps[1].dir == East
    ensures {steps[0].to, steps[1].to} == {2, 3}
  {
    var d := ThreeRooms();
    ThreeRoomsGeometry();
    var first := steps[..1];
    assert steps[..1][..0] == [];
    assert Joined(1, steps[..1][..0]) == {1};
    assert IsClosest(d, {1}, d.rooms.Keys - {1}, steps[0].from, steps[0].to);
    assert steps[0].from == 1;
    var u := steps[0].to;
    assert u == 2 || u == 3;
    var other := if u == 2 then 3 else 2;
    assert Joined(1, first) == {1, u};
    assert d.rooms.Keys - {1, u} == {other};
    assert IsClosest(d, {1, u}, {other}, steps[1].from, steps[1].to);
    assert steps[1].to == other;
    assert Distance(d, 1, other) <= Distance(d, steps[1].from, other);
  }

  /** After the spanning phase on the three rooms, the room joined first
      still has a west exit to room 1, but room 1's east exit points at the
      room joined second. */
  lemma ThreeRoomsSpanned(steps: seq<SpanStep>)
    requires IsSpanTrace(ThreeRooms(), 1, steps) && |steps| == 2
    ensures steps[0].to != steps[1].to
    ensures SlotOf(ApplySteps(ThreeRooms(), steps), steps[0].to, West) == Some(1)
    ensures SlotOf(ApplySteps(ThreeRooms(), steps), 1, East) == Some(steps[1].to)
  {
    var d := ThreeRooms();
    ThreeRoomsTraceOverwrites(steps);
    var s0, s1 := steps[0], steps[1];
    assert [s0] == [] + [s0];
    assert steps == [s0] + [s1];
    ApplyStepsAppend(d, [], s0);
    ApplyStepsAppend(d, [s0], s1);
    SecondConnectOverwrites(d, 1, steps[0].to, steps[1].to, East);
  }

  /** An unanswered exit survives every later round that loses no exit. */
  lemma UnansweredExitKept(before: Dungeon, d': Dungeon, u: nat, a: nat, v: nat, dir: Direction)
    requires SlotOf(before, u, Opposite(dir)) == Some(a) && SlotOf(before, a, dir) == Some(v) && u != v
    requires EdgesKept(before, d')
    ensures !Symmetric(d')
  {
    assert SlotOf(d', u, Opposite(dir)) == Some(a);
    assert SlotOf(d', a, dir) == Some(v);
    UnansweredExit(d', u, a, v, dir);
  }

  /** The generated map for the three rooms never passes `validate_map`:
      the room joined first keeps a west exit to room 1 while room 1's east
      exit points at the other room, and later rounds, which lose no exit,
      cannot repair it. */
  lemma ThreeRoomsNeverValid(steps: seq<SpanStep>, d': Dungeon)
    requires IsSpanTrace(ThreeRooms(), 1, steps) && |steps| == 2
    requires EdgesKept(ApplySteps(ThreeRooms(), steps), d')
    ensures !Symmetric(d')
    ensures !MapValid(d')
  {
    ThreeRoomsSpanned(steps);
    assert Opposite(East) == West;
    UnansweredExitKept(ApplySteps(ThreeRooms(), steps), d', steps[0].to, 1, steps[1].to, East);
  }
}
