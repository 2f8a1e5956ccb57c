/** `connect_rooms` and the graph-level properties of exits: symmetry, the
    "only exits changed" frame, and edge preservation. */
module Linking {

  import opened Options
  import opened Directions
  import opened ConnectionTable
  import opened Registry

  /** The target room k's exit d points at, if k is a room and has that exit. */
  function SlotOf(d: Dungeon, k: nat, dir: Direction): Option<nat>
  {
    if k in d.rooms then Lookup(d.rooms[k].connections, dir) else None
  }

  /** The exit dir of room k points at a room whose opposite exit points back. */
  ghost predicate Mirrored(d: Dungeon, k: nat, dir: Direction)
    requires SlotOf(d, k, dir).Some?
  {
    var t := SlotOf(d, k, dir).value;
    t in d.rooms && SlotOf(d, t, Opposite(dir)) == Some(k)
  }

  /** Every exit is answered by the opposite exit of its target. */
  ghost predicate Symmetric(d: Dungeon)
  {
    forall k, dir :: SlotOf(d, k, dir).Some? ==> Mirrored(d, k, dir)
  }

  /** d' differs from d only in the exits of its rooms. */
  ghost predicate SameLayout(d: Dungeon, d': Dungeon)
  {
    && d'.maxRoomId == d.maxRoomId
    && d'.rooms.Keys == d.rooms.Keys
    && forall k :: k in d.rooms ==> d'.rooms[k] == d.rooms[k].(connections := d'.rooms[k].connections)
  }

  /** Every exit of d is still in place, with the same target, in d'. */
  ghost predicate EdgesKept(d: Dungeon, d': Dungeon)
  {
    forall k, dir :: SlotOf(d, k, dir).Some? ==> SlotOf(d', k, dir) == SlotOf(d, k, dir)
  }

  /** `rooms[k].add_connection(dir, t)` for a room k of the table. */
  function SetExit(d: Dungeon, k: nat, dir: Direction, t: nat): (r: Dungeon)
    requires k in d.rooms
    ensures SlotOf(r, k, dir) == Some(t)
    ensures forall k': nat, e :: (k', e) != (k, dir) ==> SlotOf(r, k', e) == SlotOf(d, k', e)
    ensures SameLayout(d, r)
  {
    var room := d.rooms[k];
    d.(rooms := d.rooms[k := room.(connections := Put(room.connections, dir, t))])
  }

  /** `connect_rooms(id1, id2, dir)`: False and no change when either id is
      missing; otherwise `id1.dir = id2` and `id2.opposite(dir) = id1`,
      overwriting whatever those two slots held, and True. */
  function ConnectRooms(d: Dungeon, id1: nat, id2: nat, dir: Direction): (r: (Dungeon, bool))
    ensures r.1 <==> id1 in d.rooms && id2 in d.rooms
    ensures !r.1 ==> r.0 == d
    ensures SameLayout(d, r.0)
    ensures r.1 ==> SlotOf(r.0, id1, dir) == Some(id2)
    ensures r.1 ==> SlotOf(r.0, id2, Opposite(dir)) == Some(id1)
    ensures r.1 ==> forall k: nat, e :: (k, e) != (id1, dir) && (k, e) != (id2, Opposite(dir)) ==>
                                         SlotOf(r.0, k, e) == SlotOf(d, k, e)
  {
    if id1 in d.rooms && id2 in d.rooms then
      var d1 := SetExit(d, id1, dir, id2);
      (SetExit(d1, id2, Opposite(dir), id1), true)
    else
      (d, false)
  }

  /** `connect_rooms` keeps the registry invariant: the two new targets are
      rooms and each touched table still has unique keys. */
  lemma ConnectKeepsWf(d: Dungeon, id1: nat, id2: nat, dir: Direction)
    requires Wf(d)
    ensures Wf(ConnectRooms(d, id1, id2, dir).0)
  {
    if id1 in d.rooms && id2 in d.rooms {
      var d1 := SetExit(d, id1, dir, id2);
      SetExitKeepsWf(d, id1, dir, id2);
      SetExitKeepsWf(d1, id2, Opposite(dir), id1);
    }
  }

  lemma SetExitKeepsWf(d: Dungeon, k: nat, dir: Direction, t: nat)
    requires Wf(d) && k in d.rooms && t in d.rooms
    ensures Wf(SetExit(d, k, dir, t))
  {
    var r := SetExit(d, k, dir, t);
    var c := d.rooms[k].connections;
    PutTargets(c, dir, t);
    PutKeepsDistinct(c, dir, t);
    assert RoomWf(d, k);
    forall j | j in r.rooms ensures RoomWf(r, j) {
      assert RoomWf(d, j);
    }
  }

  /** Connecting two free slots of a symmetric map keeps it symmetric, and it
      loses no exit. */
  lemma ConnectFreeSlotsKeepsSymmetry(d: Dungeon, id1: nat, id2: nat, dir: Direction)
    requires id1 in d.rooms && id2 in d.rooms
    requires SlotOf(d, id1, dir).None? && SlotOf(d, id2, Opposite(dir)).None?
    ensures EdgesKept(d, ConnectRooms(d, id1, id2, dir).0)
    ensures Symmetric(d) ==> Symmetric(ConnectRooms(d, id1, id2, dir).0)
  {
    var r := ConnectRooms(d, id1, id2, dir).0;
    if Symmetric(d) {
      forall k: nat, e: Direction | SlotOf(r, k, e).Some? ensures Mirrored(r, k, e) {
        if (k, e) == (id1, dir) {
        } else if (k, e) == (id2, Opposite(dir)) {
          OppositeIsInvolution(dir);
        } else {
          var t := SlotOf(d, k, e).value;
          assert Mirrored(d, k, e);
          assert (t, Opposite(e)) != (id1, dir);
          assert (t, Opposite(e)) != (id2, Opposite(dir)) by {
            OppositeIsInvolution(e);
          }
        }
      }
    }
  }

  /** A map whose rooms have no exits yet is trivially symmetric. */
  lemma NoExitsIsSymmetric(d: Dungeon)
    requires forall k :: k in d.rooms ==> d.rooms[k].connections == []
    ensures Symmetric(d)
  {
  }

  /** Three rooms without exits: room 1 at (0, 0), room 2 at (1, 5) and
      room 3 at (1, -5). */
  function ThreeRooms(): (d: Dungeon)
    ensures Wf(d)
  {
    var d := Dungeon(map[1 := Room(1, "a", "Room 1", 0, 0, Common, []),
                         2 := Room(2, "b", "Room 2", 1, 5, Common, []),
                         3 := Room(3, "c", "Room 3", 1, -5, Common, [])], 3);
    assert forall k :: k in d.rooms <==> 1 <= k <= 3;
    d
  }

  /** Connecting room a by dir twice, to u and then to v, leaves u's
      opposite exit pointing at a while a's exit points at v. */
  lemma SecondConnectOverwrites(d: Dungeon, a: nat, u: nat, v: nat, dir: Direction)
    requires a in d.rooms && u in d.rooms && v in d.rooms
    requires u != a && u != v
    ensures var d2 := ConnectRooms(ConnectRooms(d, a, u, dir).0, a, v, dir).0;
            SlotOf(d2, u, Opposite(dir)) == Some(a) && SlotOf(d2, a, dir) == Some(v)
  {
    var d1 := ConnectRooms(d, a, u, dir).0;
    assert SlotOf(d1, u, Opposite(dir)) == Some(a);
    assert (u, Opposite(dir)) != (v, Opposite(dir));
  }

  /** An exit whose target's opposite exit leads elsewhere breaks symmetry. */
  lemma UnansweredExit(d: Dungeon, u: nat, a: nat, v: nat, dir: Direction)
    requires SlotOf(d, u, Opposite(dir)) == Some(a) && SlotOf(d, a, dir) == Some(v) && u != v
    ensures !Symmetric(d)
  {
    OppositeIsInvolution(dir);
    assert !Mirrored(d, u, Opposite(dir));
  }

  /** The overwrite hazard: connecting room 1 east twice leaves room 2's west
      exit pointing at a room that no longer points back. */
  lemma OverwriteBreaksSymmetry()
    ensures Symmetric(ConnectRooms(ThreeRooms(), 1, 2, East).0)
    ensures !Symmetric(ConnectRooms(ConnectRooms(ThreeRooms(), 1, 2, East).0, 1, 3, East).0)
  {
    var d0 := ThreeRooms();
    NoExitsIsSymmetric(d0);
    ConnectFreeSlotsKeepsSymmetry(d0, 1, 2, East);
    SecondConnectOverwrites(d0, 1, 2, 3, East);
    var d2 := ConnectRooms(ConnectRooms(d0, 1, 2, East).0, 1, 3, East).0;
    assert Opposite(East) == West;
    UnansweredExit(d2, 2, 1, 3, East);
  }
}
