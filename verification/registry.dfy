/** Rooms and the id-keyed table that owns them (`Room`, `DungeonMap.rooms`,
    `DungeonMap.max_room_id`, `add_room`). */
module Registry {

  import opened Options
  import opened Directions
  import opened ConnectionTable
  import opened Decimal

  /** The closed set of tags `Room.__init__` draws `room_type` from. */
  datatype RoomType = Common | Treasure | Monster | Trap | Boss | Entrance | Exit

  function TypeName(t: RoomType): string
  {
    match t
    case Common => "common"
    case Treasure => "treasure"
    case Monster => "monster"
    case Trap => "trap"
    case Boss => "boss"
    case Entrance => "entrance"
    case Exit => "exit"
  }

  datatype Room = Room(
    id: nat,
    name: string,
    description: string,
    x: int,
    y: int,
    roomType: RoomType,
    connections: seq<Connection>)

  /** `DungeonMap`: the room table and the id counter. */
  datatype Dungeon = Dungeon(rooms: map<nat, Room>, maxRoomId: nat)

  /** `DungeonMap()`: no rooms, counter at zero. */
  const EmptyDungeon := Dungeon(map[], 0)

  /** Room k is stored under its own id, its exit keys are unique and every
      exit points at a room of the table. */
  ghost predicate RoomWf(d: Dungeon, k: nat)
    requires k in d.rooms
  {
    && d.rooms[k].id == k
    && DistinctDirs(d.rooms[k].connections)
    && Targets(d.rooms[k].connections) <= d.rooms.Keys
  }

  /** The registry invariant every operation keeps: since rooms are only ever
      added, under consecutive ids, the keys are exactly 1..maxRoomId. */
  ghost predicate Wf(d: Dungeon)
  {
    && (forall k :: k in d.rooms <==> 1 <= k <= d.maxRoomId)
    && (forall k :: k in d.rooms ==> RoomWf(d, k))
  }

  /** The id of the first room added, which `list(self.rooms.keys())[0]` and
      `next(iter(self.rooms.keys()))` yield once the map is non-empty. */
  const FirstRoomId: nat := 1

  /** `list(self.rooms.keys())`: insertion order, which is ascending id order. */
  function RoomIds(d: Dungeon): (ids: seq<nat>)
    ensures |ids| == d.maxRoomId
    ensures forall i :: 0 <= i < |ids| ==> ids[i] == i + 1
  {
    seq(d.maxRoomId, i => i + 1)
  }

  /** The ids 1..n. */
  function IdRange(n: nat): (s: set<nat>)
    ensures |s| == n
    ensures forall k :: k in s <==> 1 <= k <= n
  {
    if n == 0 then {} else IdRange(n - 1) + {n}
  }

  /** Under the invariant the table holds maxRoomId rooms, listed by RoomIds. */
  lemma RoomCount(d: Dungeon)
    requires Wf(d)
    ensures |d.rooms| == d.maxRoomId
    ensures forall k :: k in d.rooms <==> k in RoomIds(d)
  {
    assert d.rooms.Keys == IdRange(d.maxRoomId);
    forall k | k in d.rooms ensures k in RoomIds(d) {
      assert RoomIds(d)[k - 1] == k;
    }
  }

  /** `list(rooms.keys())` of a valid registry: every room once, in ascending
      id order, starting at room 1. */
  lemma RoomIdsInOrder(d: Dungeon)
    requires Wf(d)
    ensures |RoomIds(d)| == |d.rooms|
    ensures forall i :: 0 <= i < |RoomIds(d)| ==> RoomIds(d)[i] in d.rooms
    ensures |d.rooms| > 0 ==> RoomIds(d)[0] == 1
    ensures forall i, j :: 0 <= i < j < |RoomIds(d)| ==> RoomIds(d)[i] < RoomIds(d)[j]
  {
    RoomCount(d);
  }

  /** What the random draws of `add_room` (`randint(-10, 10)` twice) and of
      `Room.__init__` (`random.choice` of a room type) produced. */
  datatype Draw = Draw(x: int, y: int, roomType: RoomType)

  predicate InDrawRange(draw: Draw)
  {
    -10 <= draw.x <= 10 && -10 <= draw.y <= 10
  }

  /** `add_room(name, description, x, y, room_type)`: bumps the counter and
      stores a room without exits under the new id, which it returns. */
  function AddRoom(d: Dungeon, name: string, description: Option<string>, x: Option<int>,
                   y: Option<int>, roomType: Option<RoomType>, draw: Draw): (r: (Dungeon, nat))
    requires InDrawRange(draw)
    ensures r.1 == d.maxRoomId + 1 && r.0.maxRoomId == r.1
    ensures Wf(d) ==> r.1 !in d.rooms
    ensures r.0.rooms.Keys == d.rooms.Keys + {r.1}
    ensures forall k :: k in d.rooms && k != r.1 ==> r.0.rooms[k] == d.rooms[k]
    ensures r.0.rooms[r.1].id == r.1 && r.0.rooms[r.1].name == name
    ensures r.0.rooms[r.1].connections == []
    ensures description.Some? && description.value != "" ==> r.0.rooms[r.1].description == description.value
    ensures description.None? || description.value == "" ==>
              r.0.rooms[r.1].description == "Room " + NatToString(r.1)
    ensures x.Some? && y.Some? ==> r.0.rooms[r.1].x == x.value && r.0.rooms[r.1].y == y.value
    ensures x.None? || y.None? ==> -10 <= r.0.rooms[r.1].x <= 10 && -10 <= r.0.rooms[r.1].y <= 10
    ensures roomType.Some? ==> r.0.rooms[r.1].roomType == roomType.value
  {
    var id := d.maxRoomId + 1;
    var px := if x.Some? && y.Some? then x.value else draw.x;
    var py := if x.Some? && y.Some? then y.value else draw.y;
    var desc := if description.Some? && description.value != "" then description.value
                else "Room " + NatToString(id);
    var t := if roomType.Some? then roomType.value else draw.roomType;
    var room := Room(id, name, desc, px, py, t, []);
    (Dungeon(d.rooms[id := room], id), id)
  }

  /** Adding a room keeps the registry invariant. */
  lemma AddRoomKeepsWf(d: Dungeon, name: string, description: Option<string>, x: Option<int>,
                       y: Option<int>, roomType: Option<RoomType>, draw: Draw)
    requires InDrawRange(draw)
    requires Wf(d)
    ensures Wf(AddRoom(d, name, description, x, y, roomType, draw).0)
  {
    var (d', id) := AddRoom(d, name, description, x, y, roomType, draw);
    forall k | k in d'.rooms ensures RoomWf(d', k) {
      if k != id {
        assert d'.rooms[k] == d.rooms[k];
        assert RoomWf(d, k);
      }
    }
  }

  /** A fresh room offers every direction, in the order north, east, south, west. */
  lemma FreshRoomHasAllDirections(d: Dungeon, name: string, description: Option<string>, x: Option<int>,
                                  y: Option<int>, roomType: Option<RoomType>, draw: Draw)
    requires InDrawRange(draw)
    ensures var (d', id) := AddRoom(d, name, description, x, y, roomType, draw);
            Available(d'.rooms[id].connections, AllDirections) == [North, East, South, West]
  {
  }

  /** The arguments of one `add_room` call together with its random draws. */
  datatype RoomRequest = RoomRequest(
    name: string,
    description: Option<string>,
    x: Option<int>,
    y: Option<int>,
    roomType: Option<RoomType>,
    draw: Draw)

  /** A sequence of `add_room` calls; returns the ids in call order. */
  function AddRooms(d: Dungeon, reqs: seq<RoomRequest>): (r: (Dungeon, seq<nat>))
    requires forall i :: 0 <= i < |reqs| ==> InDrawRange(reqs[i].draw)
    decreases |reqs|
  {
    if |reqs| == 0 then (d, [])
    else
      var q := reqs[0];
      var (d1, id) := AddRoom(d, q.name, q.description, q.x, q.y, q.roomType, q.draw);
      var (d2, ids) := AddRooms(d1, reqs[1..]);
      (d2, [id] + ids)
  }

  /** Ids are handed out consecutively after the counter and never reused:
      the i-th call gets id maxRoomId + i + 1, the room stored there is the
      one requested, and rooms already present are untouched. */
  lemma {:induction false} AddRoomsConsecutive(d: Dungeon, reqs: seq<RoomRequest>)
    requires Wf(d)
    requires forall i :: 0 <= i < |reqs| ==> InDrawRange(reqs[i].draw)
    ensures var (d', ids) := AddRooms(d, reqs);
            && Wf(d')
            && d'.maxRoomId == d.maxRoomId + |reqs|
            && |ids| == |reqs|
            && (forall i :: 0 <= i < |reqs| ==> ids[i] == d.maxRoomId + i + 1)
            && (forall i :: 0 <= i < |reqs| ==> d'.rooms[ids[i]].name == reqs[i].name)
            && (forall k :: k in d.rooms ==> k in d'.rooms && d'.rooms[k] == d.rooms[k])
    decreases |reqs|
  {
    if |reqs| > 0 {
      var q := reqs[0];
      var (d1, id) := AddRoom(d, q.name, q.description, q.x, q.y, q.roomType, q.draw);
      AddRoomKeepsWf(d, q.name, q.description, q.x, q.y, q.roomType, q.draw);
      AddRoomsConsecutive(d1, reqs[1..]);
      var (d2, ids) := AddRooms(d1, reqs[1..]);
      assert AddRooms(d, reqs) == (d2, [id] + ids);
      forall i | 0 <= i < |reqs|
        ensures ([id] + ids)[i] == d.maxRoomId + i + 1
        ensures d2.rooms[([id] + ids)[i]].name == reqs[i].name
      {
        if i > 0 {
          assert ([id] + ids)[i] == ids[i - 1];
          assert reqs[1..][i - 1] == reqs[i];
        }
      }
    }
  }

  /** Starting from an empty map, the ids are exactly 1, 2, ..., n. */
  lemma IdsStartAtOne(reqs: seq<RoomRequest>)
    requires forall i :: 0 <= i < |reqs| ==> InDrawRange(reqs[i].draw)
    ensures var (d', ids) := AddRooms(EmptyDungeon, reqs);
            ids == RoomIds(d') && |d'.rooms| == |reqs|
  {
    AddRoomsConsecutive(EmptyDungeon, reqs);
    var (d', ids) := AddRooms(EmptyDungeon, reqs);
    RoomCount(d');
  }
}
