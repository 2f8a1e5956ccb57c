/** The enrichment phase of `generate_connections`: a bounded number of
    extra corridors, each between two rooms on a shared row or column and
    only where both slots are still free. */
module Enrichment {

  import opened Options
  import opened Directions
  import opened ConnectionTable
  import opened Registry
  import opened Linking

  /** The random draws of one enrichment round: `random.choice(room_ids)`
      gave `room`, and `random.choice(available_directions)` gave the entry
      at position `dirChoice`, taken modulo the number of free directions. */
  datatype Pick = Pick(room: nat, dirChoice: nat)

  /** A corridor the phase added: it leaves `from` by `dir` and enters `to`. */
  datatype Corridor = Corridor(from: nat, to: nat, dir: Direction)

  /** `rooms[k].get_available_directions()`. */
  function FreeDirections(d: Dungeon, k: nat): (r: seq<Direction>)
    requires k in d.rooms
    ensures forall dir :: dir in r <==> SlotOf(d, k, dir).None?
    ensures IsSubsequence(r, AllDirections)
  {
    Available(d.rooms[k].connections, AllDirections)
  }

  /** The direction a round tries for its room, or None when the room has no
      free slot (the round is skipped). */
  function ChosenDirection(d: Dungeon, pick: Pick): (r: Option<Direction>)
    requires pick.room in d.rooms
    ensures r.None? <==> FreeDirections(d, pick.room) == []
    ensures r.Some? ==> r.value in FreeDirections(d, pick.room)
    ensures r.Some? ==> SlotOf(d, pick.room, r.value).None?
  {
    var free := FreeDirections(d, pick.room);
    if |free| == 0 then None else Some(free[pick.dirChoice % |free|])
  }

  /** Room r2 may take the corridor leaving r1 by dir: another room, lying
      strictly beyond r1 along dir on the same row or column, whose opposite
      slot is free. */
  predicate Partner(d: Dungeon, r1: nat, dir: Direction, r2: nat): (b: bool)
    requires r1 in d.rooms && r2 in d.rooms
    ensures b <==> && r1 != r2
                   && (d.rooms[r1].x == d.rooms[r2].x || d.rooms[r1].y == d.rooms[r2].y)
                   && (d.rooms[r1].x, d.rooms[r1].y) != (d.rooms[r2].x, d.rooms[r2].y)
                   && dir == SpanDirection(d.rooms[r1].x, d.rooms[r1].y, d.rooms[r2].x, d.rooms[r2].y)
                   && SlotOf(d, r2, Opposite(dir)).None?
  {
    && r1 != r2
    && Aligned(dir, d.rooms[r1].x, d.rooms[r1].y, d.rooms[r2].x, d.rooms[r2].y)
    && Opposite(dir) in FreeDirections(d, r2)
  }

  /** The scan `for room2_id in room_ids` that stops at the first partner:
      the position of that partner in the candidate list. */
  function FirstPartner(d: Dungeon, r1: nat, dir: Direction, candidates: seq<nat>): (r: Option<nat>)
    requires r1 in d.rooms
    requires forall i :: 0 <= i < |candidates| ==> candidates[i] in d.rooms
    ensures r.Some? ==> r.value < |candidates| && Partner(d, r1, dir, candidates[r.value])
    ensures r.Some? ==> forall j :: 0 <= j < r.value ==> !Partner(d, r1, dir, candidates[j])
    ensures r.None? ==> forall j :: 0 <= j < |candidates| ==> !Partner(d, r1, dir, candidates[j])
    decreases |candidates|
  {
    if |candidates| == 0 then None
    else if Partner(d, r1, dir, candidates[0]) then Some(0)
    else
      match FirstPartner(d, r1, dir, candidates[1..])
      case None => None
      case Some(i) => Some(i + 1)
  }

  /** One round of the enrichment loop: pick a room and one of its free
      directions, scan the rooms in id order for the first partner, and
      connect the two if there is one. Nothing changes otherwise. */
  function EnrichStep(d: Dungeon, pick: Pick): (r: (Dungeon, Option<Corridor>))
    requires Wf(d) && pick.room in d.rooms
    ensures r.1.None? ==> r.0 == d
    ensures ChosenDirection(d, pick).None? ==> r.1.None?
    ensures r.1.None? && ChosenDirection(d, pick).Some? ==>
              forall k :: k in d.rooms ==> !Partner(d, pick.room, ChosenDirection(d, pick).value, k)
    ensures r.1.Some? ==>
              && r.1.value.from == pick.room
              && Some(r.1.value.dir) == ChosenDirection(d, pick)
              && r.1.value.to in d.rooms
              && Partner(d, pick.room, r.1.value.dir, r.1.value.to)
              && r.0 == ConnectRooms(d, pick.room, r.1.value.to, r.1.value.dir).0
  {
    match ChosenDirection(d, pick)
    case None => (d, None)
    case Some(dir) =>
      var ids := RoomIds(d);
      RoomCount(d);
      match FirstPartner(d, pick.room, dir, ids)
      case None => (d, None)
      case Some(i) =>
        var corridor := Corridor(pick.room, ids[i], dir);
        (ConnectRooms(d, pick.room, ids[i], dir).0, Some(corridor))
  }

  /** A round keeps the registry invariant and changes nothing but exits. */
  lemma EnrichStepKeepsWf(d: Dungeon, pick: Pick)
    requires Wf(d) && pick.room in d.rooms
    ensures Wf(EnrichStep(d, pick).0)
    ensures SameLayout(d, EnrichStep(d, pick).0)
  {
    var r := EnrichStep(d, pick);
    if r.1.Some? {
      ConnectKeepsWf(d, pick.room, r.1.value.to, r.1.value.dir);
    }
  }

  /** A round only ever fills two free slots: it loses no exit and keeps a
      symmetric map symmetric. */
  lemma EnrichStepKeepsSymmetry(d: Dungeon, pick: Pick)
    requires Wf(d) && pick.room in d.rooms
    ensures EdgesKept(d, EnrichStep(d, pick).0)
    ensures Symmetric(d) ==> Symmetric(EnrichStep(d, pick).0)
  {
    var r := EnrichStep(d, pick);
    if r.1.Some? {
      var c := r.1.value;
      assert SlotOf(d, c.to, Opposite(c.dir)).None?;
      ConnectFreeSlotsKeepsSymmetry(d, c.from, c.to, c.dir);
    }
  }

  /** An added corridor runs along a shared row or column, and its direction
      is the one the spanning phase would give the same pair. */
  lemma CorridorIsStraight(d: Dungeon, pick: Pick)
    requires Wf(d) && pick.room in d.rooms
    ensures var r := EnrichStep(d, pick);
            r.1.Some? ==>
              var a := d.rooms[r.1.value.from];
              var b := d.rooms[r.1.value.to];
              && (a.x == b.x || a.y == b.y)
              && (a.x, a.y) != (b.x, b.y)
              && r.1.value.dir == SpanDirection(a.x, a.y, b.x, b.y)
  {
    var r := EnrichStep(d, pick);
    if r.1.Some? {
      var a := d.rooms[r.1.value.from];
      var b := d.rooms[r.1.value.to];
      SpanDirectionMatchesAlignment(a.x, a.y, b.x, b.y);
    }
  }

  /** The rounds in order; returns the corridors they added. */
  function EnrichAll(d: Dungeon, picks: seq<Pick>): (r: (Dungeon, seq<Corridor>))
    requires Wf(d)
    requires forall i :: 0 <= i < |picks| ==> picks[i].room in d.rooms
    ensures |r.1| <= |picks|
    decreases |picks|
  {
    if |picks| == 0 then (d, [])
    else
      var step := EnrichStep(d, picks[0]);
      EnrichStepKeepsWf(d, picks[0]);
      var rest := EnrichAll(step.0, picks[1..]);
      (rest.0, Added(step.1) + rest.1)
  }

  /** The phase as a whole keeps the invariant, loses no exit, keeps a
      symmetric map symmetric and adds at most one corridor per round. */
  lemma {:induction false} EnrichAllPreserves(d: Dungeon, picks: seq<Pick>)
    requires Wf(d)
    requires forall i :: 0 <= i < |picks| ==> picks[i].room in d.rooms
    ensures var r := EnrichAll(d, picks);
            && Wf(r.0)
            && SameLayout(d, r.0)
            && EdgesKept(d, r.0)
            && (Symmetric(d) ==> Symmetric(r.0))
    decreases |picks|
  {
    if |picks| > 0 {
      var d1 := EnrichStep(d, picks[0]).0;
      EnrichStepKeepsWf(d, picks[0]);
      EnrichStepKeepsSymmetry(d, picks[0]);
      EnrichAllPreserves(d1, picks[1..]);
    }
  }

  /** The corridor list contributed by one round. */
  function Added(c: Option<Corridor>): seq<Corridor>
  {
    if c.Some? then [c.value] else []
  }

  /** The loop state after i rounds: the map is a valid registry holding
      every remaining pick's room, and finishing the remaining rounds from it
      gives what the whole phase gives. */
  ghost predicate PhaseState(d: Dungeon, picks: seq<Pick>, i: nat, current: Dungeon, added: seq<Corridor>)
    requires Wf(d)
    requires forall j :: 0 <= j < |picks| ==> picks[j].room in d.rooms
  {
    && i <= |picks|
    && Wf(current)
    && (forall j :: i <= j < |picks| ==> picks[j].room in current.rooms)
    && EnrichAll(d, picks).0 == EnrichAll(current, picks[i..]).0
    && EnrichAll(d, picks).1 == added + EnrichAll(current, picks[i..]).1
  }

  /** Running the rounds from position i is one round followed by the rounds
      from position i + 1. */
  lemma EnrichAllFrom(current: Dungeon, picks: seq<Pick>, i: nat)
    requires Wf(current) && i < |picks|
    requires forall j :: i <= j < |picks| ==> picks[j].room in current.rooms
    ensures Wf(EnrichStep(current, picks[i]).0)
    ensures SameLayout(current, EnrichStep(current, picks[i]).0)
    ensures EnrichAll(current, picks[i..]).0 == EnrichAll(EnrichStep(current, picks[i]).0, picks[i + 1..]).0
    ensures EnrichAll(current, picks[i..]).1
            == Added(EnrichStep(current, picks[i]).1) + EnrichAll(EnrichStep(current, picks[i]).0, picks[i + 1..]).1
  {
    EnrichStepKeepsWf(current, picks[i]);
    assert picks[i..][0] == picks[i];
    assert picks[i..][1..] == picks[i + 1..];
  }

  /** One more round moves the loop state forward. */
  lemma PhaseStep(d: Dungeon, picks: seq<Pick>, i: nat, current: Dungeon, added: seq<Corridor>)
    requires Wf(d)
    requires forall j :: 0 <= j < |picks| ==> picks[j].room in d.rooms
    requires PhaseState(d, picks, i, current, added) && i < |picks|
    ensures picks[i].room in current.rooms
    ensures var step := EnrichStep(current, picks[i]);
            PhaseState(d, picks, i + 1, step.0, added + Added(step.1))
  {
    var step := EnrichStep(current, picks[i]);
    EnrichAllFrom(current, picks, i);
    CorridorsAssoc(added, Added(step.1), EnrichAll(step.0, picks[i + 1..]).1);
  }

  lemma CorridorsAssoc(a: seq<Corridor>, b: seq<Corridor>, c: seq<Corridor>)
    ensures a + (b + c) == (a + b) + c
  {
  }

  /** `for _ in range(additional_connections)`: the loop over the picks. */
  method EnrichmentPhase(d: Dungeon, picks: seq<Pick>) returns (d': Dungeon, added: seq<Corridor>)
    requires Wf(d)
    requires forall i :: 0 <= i < |picks| ==> picks[i].room in d.rooms
    ensures (d', added) == EnrichAll(d, picks)
    ensures Wf(d') && SameLayout(d, d') && EdgesKept(d, d')
    ensures Symmetric(d) ==> Symmetric(d')
  {
    d' := d;
    added := [];
    var i := 0;
    assert picks[i..] == picks;
    assert added + EnrichAll(d, picks).1 == EnrichAll(d, picks).1;
    while i < |picks|
      invariant PhaseState(d, picks, i, d', added)
      decreases |picks| - i
    {
      PhaseStep(d, picks, i, d', added);
      var step := EnrichStep(d', picks[i]);
      d' := step.0;
      added := added + Added(step.1);
      i := i + 1;
    }
    assert picks[i..] == [];
    assert added + [] == added;
    EnrichAllPreserves(d, picks);
  }
}
