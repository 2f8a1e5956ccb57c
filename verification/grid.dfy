/** `generate_map_as_grid`: lay the rooms out on distinct cells of a
    rectangular grid, in a random order, without touching their exits. */
module Grid {

  import opened Options
  import opened Registry
  import opened Linking
  import opened Reachability
  import opened Validation

  /** `math.ceil(math.sqrt(n))` on exact integers: the least s with n <= s * s. */
  function CeilSqrt(n: nat): (s: nat)
    ensures n <= s * s
    ensures s == 0 || (s - 1) * (s - 1) < n
  {
    CeilSqrtFrom(n, 0)
  }

  /** The search for CeilSqrt, upwards from s, which is still too small
      (or zero). */
  function CeilSqrtFrom(n: nat, s: nat): (r: nat)
    requires s == 0 || (s - 1) * (s - 1) < n
    ensures n <= r * r
    ensures r == 0 || (r - 1) * (r - 1) < n
    decreases n - s
  {
    if n <= s * s then s
    else
      assert s <= s * s;
      CeilSqrtFrom(n, s + 1)
  }

  /** CeilSqrt(n) is the only side length s with (s - 1)^2 < n <= s^2. */
  lemma CeilSqrtUnique(n: nat, s: nat)
    requires n <= s * s
    requires s == 0 || (s - 1) * (s - 1) < n
    ensures s == CeilSqrt(n)
  {
    var r := CeilSqrt(n);
    if s < r {
      assert s <= r - 1;
      assert s * s <= (r - 1) * (r - 1) by {
        MulMonotone(s, r - 1);
      }
    } else if r < s {
      assert r <= s - 1;
      assert r * r <= (s - 1) * (s - 1) by {
        MulMonotone(r, s - 1);
      }
    }
  }

  lemma MulMonotone(a: nat, b: nat)
    requires a <= b
    ensures a * a <= b * b
  {
    assert a * a <= a * b <= b * b;
  }

  /** A range bound as Python's `range` reads it: a negative bound is empty. */
  function Span(n: int): nat
  {
    if n < 0 then 0 else n
  }

  /** `for x in range(max_x): positions.append((x, y))` for one row y. */
  function Row(width: nat, y: int): (r: seq<(int, int)>)
    ensures |r| == width
    ensures forall i :: 0 <= i < |r| ==> r[i] == (i, y)
  {
    if width == 0 then [] else Row(width - 1, y) + [(width - 1, y)]
  }

  /** The cells of a width x height grid, row by row from y = 0. */
  function GridCells(width: nat, height: nat): (cells: seq<(int, int)>)
    ensures |cells| == width * height
    ensures forall i :: 0 <= i < |cells| ==> 0 <= cells[i].0 < width && 0 <= cells[i].1 < height
  {
    if height == 0 then [] else GridCells(width, height - 1) + Row(width, height - 1)
  }

  /** Cell (x, y) sits at position y * width + x. */
  lemma {:induction false} GridCellAt(width: nat, height: nat, x: nat, y: nat)
    requires x < width && y < height
    ensures y * width + x < |GridCells(width, height)|
    ensures GridCells(width, height)[y * width + x] == (x, y)
    decreases height
  {
    var before := GridCells(width, height - 1);
    assert |before| == (height - 1) * width;
    if y < height - 1 {
      GridCellAt(width, height - 1, x, y);
      assert y * width + x < |before|;
    } else {
      assert y * width == |before|;
    }
  }

  /** Every cell of the grid occurs once. */
  lemma {:induction false} GridCellsDistinct(width: nat, height: nat)
    ensures forall i, j :: 0 <= i < j < |GridCells(width, height)| ==>
                             GridCells(width, height)[i] != GridCells(width, height)[j]
    decreases height
  {
    if height > 0 {
      GridCellsDistinct(width, height - 1);
      var before := GridCells(width, height - 1);
      var row := Row(width, height - 1);
      var cells := GridCells(width, height);
      assert cells == before + row;
      forall i, j | 0 <= i < j < |cells| ensures cells[i] != cells[j] {
        if j < |before| {
        } else if i < |before| {
          assert cells[i] == before[i] && before[i].1 < height - 1;
          assert cells[j] == row[j - |before|];
        } else {
          assert cells[i] == row[i - |before|] && cells[j] == row[j - |before|];
        }
      }
    }
  }

  /** `random.shuffle` reorders the n positions: entry i of the result is
      entry p[i] of the input, for a permutation p of 0..n-1. */
  predicate IsPermutation(p: seq<nat>, n: nat)
  {
    && |p| == n
    && (forall i :: 0 <= i < |p| ==> p[i] < n)
    && (forall i, j :: 0 <= i < j < |p| ==> p[i] != p[j])
  }

  /** The grid the call uses: the given size, or a square of side
      CeilSqrt(number of rooms). */
  function GridSize(roomCount: nat, gridSize: Option<(int, int)>): (r: (nat, nat))
    ensures gridSize.None? ==> r == (CeilSqrt(roomCount), CeilSqrt(roomCount))
    ensures gridSize.None? ==> roomCount <= r.0 * r.1 && (r.0 == 0 || (r.0 - 1) * (r.0 - 1) < roomCount)
    ensures gridSize.Some? ==> r == (Span(gridSize.value.0), Span(gridSize.value.1))
  {
    match gridSize
    case None =>
      var side := CeilSqrt(roomCount);
      (side, side)
    case Some((w, h)) => (Span(w), Span(h))
  }

  /** The number of cells of that grid. */
  function GridArea(roomCount: nat, gridSize: Option<(int, int)>): nat
  {
    var size := GridSize(roomCount, gridSize);
    size.0 * size.1
  }

  /** The room moved to position p, everything else as it was. */
  function MoveRoom(d: Dungeon, k: nat, p: (int, int)): (r: Dungeon)
    requires k in d.rooms
    ensures r.maxRoomId == d.maxRoomId && r.rooms.Keys == d.rooms.Keys
    ensures r.rooms[k] == d.rooms[k].(x := p.0, y := p.1)
    ensures forall j :: j in d.rooms && j != k ==> r.rooms[j] == d.rooms[j]
  {
    d.(rooms := d.rooms[k := d.rooms[k].(x := p.0, y := p.1)])
  }

  /** d' differs from d only in the positions of its rooms. */
  ghost predicate OnlyMoved(d: Dungeon, d': Dungeon)
  {
    && d'.maxRoomId == d.maxRoomId
    && d'.rooms.Keys == d.rooms.Keys
    && forall k :: k in d.rooms ==> d'.rooms[k] == d.rooms[k].(x := d'.rooms[k].x, y := d'.rooms[k].y)
  }

  /** Moving rooms changes no exit, so the registry invariant and the verdict
      of `validate_map` are the same before and after. */
  lemma MovingKeepsValidity(d: Dungeon, d': Dungeon)
    requires OnlyMoved(d, d')
    ensures Wf(d) ==> Wf(d')
    ensures forall k, dir :: SlotOf(d', k, dir) == SlotOf(d, k, dir)
    ensures MapValid(d') <==> MapValid(d)
  {
    assert forall k, dir :: SlotOf(d', k, dir) == SlotOf(d, k, dir);
    assert EdgesKept(d, d') && EdgesKept(d', d);
    assert Symmetric(d') <==> Symmetric(d);
    forall k ensures Reachable(d', FirstRoomId, k) <==> Reachable(d, FirstRoomId, k) {
      if Reachable(d, FirstRoomId, k) {
        ReachableMonotone(d, d', FirstRoomId, k);
      }
      if Reachable(d', FirstRoomId, k) {
        ReachableMonotone(d', d, FirstRoomId, k);
      }
    }
    if Wf(d) {
      forall k | k in d'.rooms ensures RoomWf(d', k) {
        assert RoomWf(d, k);
      }
    }
  }

  /** Shuffled cells are still pairwise distinct. */
  lemma ShuffledCellsDistinct(width: nat, height: nat, shuffle: seq<nat>)
    requires IsPermutation(shuffle, width * height)
    ensures forall i, j :: 0 <= i < j < |shuffle| ==>
                             GridCells(width, height)[shuffle[i]] != GridCells(width, height)[shuffle[j]]
  {
    var cells := GridCells(width, height);
    GridCellsDistinct(width, height);
    forall i, j | 0 <= i < j < |shuffle| ensures cells[shuffle[i]] != cells[shuffle[j]] {
      if shuffle[i] < shuffle[j] {
        assert cells[shuffle[i]] != cells[shuffle[j]];
      } else {
        assert cells[shuffle[j]] != cells[shuffle[i]];
      }
    }
  }

  /** `random.shuffle(positions)`: entry i of the result is cells[p[i]]. */
  function Shuffled(cells: seq<(int, int)>, p: seq<nat>): (r: seq<(int, int)>)
    requires forall i :: 0 <= i < |p| ==> p[i] < |cells|
    ensures |r| == |p|
    ensures forall i :: 0 <= i < |p| ==> r[i] == cells[p[i]]
  {
    if |p| == 0 then [] else [cells[p[0]]] + Shuffled(cells, p[1..])
  }

  /** The shuffled cell list the call hands out, in order. */
  function Positions(d: Dungeon, gridSize: Option<(int, int)>, shuffle: seq<nat>): (r: seq<(int, int)>)
    requires IsPermutation(shuffle, GridArea(|d.rooms|, gridSize))
    ensures |r| == |shuffle|
  {
    var size := GridSize(|d.rooms|, gridSize);
    Shuffled(GridCells(size.0, size.1), shuffle)
  }

  /** The shuffled cells lie inside the grid and are pairwise distinct, and
      with the default size there is one for every room of a valid registry. */
  lemma PositionsAreDistinctCells(d: Dungeon, gridSize: Option<(int, int)>, shuffle: seq<nat>)
    requires Wf(d)
    requires IsPermutation(shuffle, GridArea(|d.rooms|, gridSize))
    ensures var p := Positions(d, gridSize, shuffle);
            forall i :: 0 <= i < |p| ==>
              0 <= p[i].0 < GridSize(|d.rooms|, gridSize).0 && 0 <= p[i].1 < GridSize(|d.rooms|, gridSize).1
    ensures var p := Positions(d, gridSize, shuffle);
            forall i, j :: 0 <= i < j < |p| ==> p[i] != p[j]
    ensures gridSize.None? ==> forall k :: k in d.rooms ==> 1 <= k <= |Positions(d, gridSize, shuffle)|
  {
    var size := GridSize(|d.rooms|, gridSize);
    ShuffledCellsDistinct(size.0, size.1, shuffle);
    RoomCount(d);
  }

  /** The loop state after the first i rooms: those with a position have
      it, the others are as they were, and only positions have changed. */
  ghost predicate PlacedUpTo(d: Dungeon, positions: seq<(int, int)>, i: nat, current: Dungeon)
  {
    && OnlyMoved(d, current)
    && forall k :: k in d.rooms ==>
         if 0 < k <= i && k <= |positions|
         then (current.rooms[k].x, current.rooms[k].y) == positions[k - 1]
         else current.rooms[k] == d.rooms[k]
  }

  /** Placing room i + 1 on its position extends the state. */
  lemma PlaceStep(d: Dungeon, positions: seq<(int, int)>, i: nat, current: Dungeon)
    requires i + 1 in d.rooms && i < |positions|
    requires PlacedUpTo(d, positions, i, current)
    ensures i + 1 in current.rooms
    ensures PlacedUpTo(d, positions, i + 1, MoveRoom(current, i + 1, positions[i]))
  {
    var next := MoveRoom(current, i + 1, positions[i]);
    forall k | k in d.rooms
      ensures if 0 < k <= i + 1 && k <= |positions|
              then (next.rooms[k].x, next.rooms[k].y) == positions[k - 1]
              else next.rooms[k] == d.rooms[k]
    {
      if k != i + 1 {
        assert next.rooms[k] == current.rooms[k];
      }
    }
  }

  /** Once the positions run out, the remaining rooms stay where they are. */
  lemma SkipStep(d: Dungeon, positions: seq<(int, int)>, i: nat, current: Dungeon)
    requires i >= |positions|
    requires PlacedUpTo(d, positions, i, current)
    ensures PlacedUpTo(d, positions, i + 1, current)
  {
  }

  /** After every room has had its turn, each room with a position has it. */
  lemma PlacedAll(d: Dungeon, positions: seq<(int, int)>, current: Dungeon)
    requires Wf(d)
    requires PlacedUpTo(d, positions, |d.rooms|, current)
    ensures forall k :: k in d.rooms ==>
              if k <= |positions|
              then (current.rooms[k].x, current.rooms[k].y) == positions[k - 1]
              else current.rooms[k] == d.rooms[k]
  {
    RoomCount(d);
  }

  /** The assignment loop `for i, room_id in enumerate(room_ids)`: room
      i + 1 takes positions[i] while there are positions left. */
  method AssignPositions(d: Dungeon, positions: seq<(int, int)>) returns (d': Dungeon)
    requires Wf(d)
    ensures PlacedUpTo(d, positions, |d.rooms|, d')
  {
    RoomCount(d);
    var n := d.maxRoomId;
    d' := d;
    var i := 0;
    while i < n
      invariant 0 <= i <= n
      invariant PlacedUpTo(d, positions, i, d')
    {
      if i < |positions| {
        assert i + 1 in d.rooms;
        PlaceStep(d, positions, i, d');
        d' := MoveRoom(d', i + 1, positions[i]);
      } else {
        SkipStep(d, positions, i, d');
      }
      i := i + 1;
    }
  }

  /** `generate_map_as_grid(grid_size)`: nothing for an empty map; otherwise
      list the cells of the grid row by row, shuffle them, and give the i-th
      room (in id order) the i-th shuffled cell while there are cells left.
      Rooms beyond the number of cells keep their positions, and nothing but
      positions changes. */
  method GenerateMapAsGrid(d: Dungeon, gridSize: Option<(int, int)>, shuffle: seq<nat>)
    returns (d': Dungeon)
    requires Wf(d)
    requires IsPermutation(shuffle, GridArea(|d.rooms|, gridSize))
    ensures |d.rooms| == 0 ==> d' == d
    ensures OnlyMoved(d, d')
    ensures forall k :: k in d.rooms ==>
              if k <= |shuffle|
              then (d'.rooms[k].x, d'.rooms[k].y) == Positions(d, gridSize, shuffle)[k - 1]
              else d'.rooms[k] == d.rooms[k]
  {
    if |d.rooms| == 0 {
      return d;
    }
    var positions := Positions(d, gridSize, shuffle);
    d' := AssignPositions(d, positions);
    PlacedAll(d, positions, d');
  }
}
