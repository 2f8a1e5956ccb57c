# Dungeon room-graph generator

A Dafny model of the room graph behind the dungeon map of ghostHunter.
It covers the `Room` and `DungeonMap` classes, which exist in three nearly
identical copies: `tests/pygame-dungeon-map.py`, `test2.py` and `test.py`.

A dungeon is a registry of rooms keyed by consecutive ids 1, 2, 3, ….
Each room has a position on the integer plane, and at most one exit per
compass direction (north, east, south, west), leading to a room (possibly
itself: `connect_rooms(k, k, d)` is accepted).
The model covers:

- `add_room`: a fresh id from a counter, a default description, random
  coordinates when none are given.
- `Room.add_connection` and `get_available_directions`.
- `connect_rooms`: writes an exit and its opposite, symmetrically.
- `generate_connections`, in two phases.
  - The spanning phase repeatedly joins the nearest (Manhattan distance)
    pair of a connected and an unconnected room.
  - The enrichment phase adds a bounded number of extra corridors, along
    shared rows or columns, only into free slots.
- `validate_map`: a breadth-first reachability search from the first room,
  then a check that every exit is answered by its opposite.
- `generate_map_as_grid`: hands shuffled grid cells to the rooms in id order.
- `display_room`: the text description of a room, in all three copies'
  variants.

The modules follow the program's structure:

| file | module | what it holds |
|---|---|---|
| options.dfy | `Options` | `Option` |
| directions.dfy | `Directions` | the four directions, their names, `opposite`, the spanning direction rule, the enrichment alignment test |
| connection_table.dfy | `ConnectionTable` | a room's `connections` dictionary as an insertion-ordered list of (direction, target) entries |
| decimal.dfy | `Decimal` | decimal rendering of ids inside f-strings |
| registry.dfy | `Registry` | rooms, the dungeon, the registry invariant `Wf`, `add_room` |
| linking.dfy | `Linking` | exits as slots, symmetry, `add_connection` and `connect_rooms` at map level |
| reachability.dfy | `Reachability` | paths along exits |
| validation.dfy | `Validation` | `validate_map` as a search and a symmetry check |
| spanning.dfy | `Spanning` | the spanning phase |
| enrichment.dfy | `Enrichment` | the enrichment phase |
| generation.dfy | `Generation` | `generate_connections` as a whole, and what validation can say about it |
| grid.dfy | `Grid` | `generate_map_as_grid` |
| display.dfy | `Display` | `display_room` |

Randomness enters as parameters:

- `add_room` receives a `Draw`: the two `random.randint(-10, 10)` values and
  the `random.choice` of a room type.
- The enrichment phase receives one `Pick` per round: the chosen room, and an
  index into the free directions that plays the part of `random.choice`. The
  number of picks is the `random.randint(0, len(rooms) // 2)` draw.
- `generate_map_as_grid` receives the permutation `random.shuffle` applies.

The spanning phase iterates over Python sets, whose order is not fixed.
The model therefore lets the scan return any pair of minimum distance, and
every property is proved for all of them.

The registry invariant `Wf` carries what the source relies on without
checking:

- the keys are exactly 1..`max_room_id`;
- every room's `id` is its key;
- directions within a room are distinct;
- every exit target is a room.

So `list(rooms.keys())` is `[1, …, n]`, and `next(iter(rooms.keys()))` is
room 1.

Two behaviours of the spanning phase shape what can be proved about it.

- Two rooms at the same position are joined like any other pair: the
  direction chain at tests/pygame-dungeon-map.py:103-110 falls through to
  `south` (`Directions.SpanDirection`).
- The program's comment at tests/pygame-dungeon-map.py:75 says the phase is
  there "to ensure all rooms are connected". But it calls `connect_rooms`
  at tests/pygame-dungeon-map.py:113 without checking that the slots are
  free, so a later step can overwrite an exit set by an earlier one, and the
  generated map is not always accepted by `validate_map`:
  - rooms at (0, 0), (1, 5) and (1, -5) are a map on which it never is, for
    any scan order and any enrichment rounds
    (`Generation.ThreeRoomsNeverValid`);
  - validity is proved only under an explicit no-overwrite hypothesis
    (`Generation.GeneratedMapIsValid`).

## Model

| member | source | states |
|---|---|---|
| Directions.Opposite | tests/pygame-dungeon-map.py:54-59 | the opposite of a direction is never the direction itself and lies on the same axis |
| Directions.OppositeIsInvolution | tests/pygame-dungeon-map.py:54-59 | taking the opposite twice gives the direction back, and no two directions share an opposite |
| Directions.SpanDirection | tests/pygame-dungeon-map.py:102-110 | east exactly when x1 < x2, west exactly when x1 > x2, north exactly when the columns agree and y1 < y2, south in every other case, including equal positions |
| Directions.Aligned | tests/pygame-dungeon-map.py:135-138 | a room lines up with another along a direction exactly when they share a row or column, sit at different positions, and the direction is the one the spanning rule gives |
| Directions.SpanDirectionMatchesAlignment | tests/pygame-dungeon-map.py:135-138 | for distinct rooms on a shared row or column, the spanning direction passes the enrichment alignment test, and its opposite passes it from the other end; for equal positions the direction is south, although no direction passes the test |
| ConnectionTable.Lookup | tests/pygame-dungeon-map.py:219 | a found target comes from an entry with that direction; a missing one means no entry has that direction |
| ConnectionTable.Put | tests/pygame-dungeon-map.py:23-24 | after `add_connection` the direction maps to the new target and every other direction is unchanged; a new direction is appended at the end, an existing one keeps its place in the order |
| ConnectionTable.PutKeepsDistinct | tests/pygame-dungeon-map.py:23-24 | assigning a direction never creates a duplicate key |
| ConnectionTable.PutTargets | tests/pygame-dungeon-map.py:23-24 | the targets after an assignment are among the old targets plus the new one |
| ConnectionTable.Available | tests/pygame-dungeon-map.py:26-30 | a direction is offered exactly when it is a candidate and has no connection, in the candidates' order |
| ConnectionTable.LookupFindsEntry | tests/pygame-dungeon-map.py:212-219 | every entry met while iterating `connections.items()` is what a lookup of its direction returns |
| ConnectionTable.TargetsAreLookups | tests/pygame-dungeon-map.py:196 | a room is among `connections.values()` exactly when some direction leads to it |
| ConnectionTable.KeyCount | tests/pygame-dungeon-map.py:17 | with distinct directions, the table has one entry per key |
| ConnectionTable.DegreeBound | tests/pygame-dungeon-map.py:17 | a room has at most four exits |
| Decimal.NatToString | tests/pygame-dungeon-map.py:14 | an id prints as a non-empty string of digits with no leading zero |
| Decimal.ValueOfNatToString | tests/pygame-dungeon-map.py:14 | reading the printed digits back gives the id |
| Decimal.NatToStringInjective | tests/pygame-dungeon-map.py:161 | different ids print differently |
| Registry.RoomCount | tests/pygame-dungeon-map.py:73 | in a valid registry the number of rooms is the counter, and the rooms are exactly the listed ids |
| Registry.RoomIdsInOrder | tests/pygame-dungeon-map.py:73-77 | `list(rooms.keys())` names every room once, in ascending id order, so `room_ids[0]` is room 1 |
| Registry.AddRoom | tests/pygame-dungeon-map.py:38-50 | the returned id is the old counter plus one and is new; it holds a room with that id and name, no exits, the given description or "Room {id}" when none or an empty one is given, the given coordinates or ones in -10..10 when either is missing, and the given room type; all other rooms are unchanged |
| Registry.AddRoomKeepsWf | tests/pygame-dungeon-map.py:38-50 | adding a room keeps the registry invariant |
| Registry.FreshRoomHasAllDirections | tests/pygame-dungeon-map.py:26-30 | a fresh room offers north, east, south and west, in that order |
| Registry.AddRoomsConsecutive | test.py:30-40 | the i-th of a series of calls returns the counter plus i + 1 and stores the requested room there; earlier rooms are untouched and the invariant holds |
| Registry.IdsStartAtOne | test.py:26-40 | from an empty map, n calls return exactly the ids 1..n and leave n rooms |
| Linking.SetExit | tests/pygame-dungeon-map.py:23-24 | `add_connection` on a room of the map changes that one slot and no other, and moves no room |
| Linking.SetExitKeepsWf | tests/pygame-dungeon-map.py:23-24 | an exit to an existing room keeps the registry invariant |
| Linking.ConnectRooms | tests/pygame-dungeon-map.py:52-66 | succeeds exactly when both ids are rooms; on failure nothing changes; on success the first room's slot leads to the second, the second's opposite slot leads back, and no other slot or room changes |
| Linking.ConnectKeepsWf | tests/pygame-dungeon-map.py:52-66 | connecting keeps the registry invariant, including that every target is a room |
| Linking.ConnectFreeSlotsKeepsSymmetry | tests/pygame-dungeon-map.py:62-64 | when both slots were free, no exit is lost and a symmetric map stays symmetric |
| Linking.NoExitsIsSymmetric | tests/pygame-dungeon-map.py:17 | a map whose rooms have no exits, such as a freshly built one, is symmetric |
| Linking.OverwriteBreaksSymmetry | tests/pygame-dungeon-map.py:63-64 | connecting room 1 east to room 2 gives a symmetric map, but then connecting room 1 east to room 3 does not |
| Reachability.EdgesAreTargets | tests/pygame-dungeon-map.py:196 | the search steps from a room exactly to the values of its connections |
| Reachability.ReachableStep | tests/pygame-dungeon-map.py:196-198 | a room one exit beyond a reachable room is reachable |
| Reachability.ClosedSetHoldsReachable | tests/pygame-dungeon-map.py:188-198 | a set holding the start and closed under exits holds every reachable room |
| Reachability.ReachableMonotone | tests/pygame-dungeon-map.py:143 | a change that loses no exit keeps every reachable room reachable |
| Validation.Unvisited | tests/pygame-dungeon-map.py:196-198 | the rooms queued from a room are exactly its targets not yet visited |
| Validation.VisitKeepsInvariant | tests/pygame-dungeon-map.py:189-198 | visiting a new room and queueing its unvisited targets keeps the search invariant: everything visited or queued is reachable, and every exit of a visited room leads to a visited or queued room |
| Validation.SkipKeepsInvariant | tests/pygame-dungeon-map.py:190-191 | dropping an already visited room from the queue keeps the invariant |
| Validation.SearchDone | tests/pygame-dungeon-map.py:188-200 | once the queue is empty, the visited rooms are exactly the rooms reachable from the start |
| Validation.Reach | tests/pygame-dungeon-map.py:184-198 | the search loop terminates, and a room is visited exactly when it is reachable from the start |
| Validation.SymmetricIffEntriesMirrored | tests/pygame-dungeon-map.py:211-220 | the map is symmetric exactly when every entry's target is a room whose opposite exit leads back |
| Validation.CheckMirrored | tests/pygame-dungeon-map.py:203-222 | the entry-by-entry check returns True exactly when the map is symmetric |
| Validation.CountDecidesCover | tests/pygame-dungeon-map.py:200-201 | a set of rooms has as many members as the map exactly when it is every room |
| Validation.ValidateMap | tests/pygame-dungeon-map.py:178-222 | True exactly when the map is non-empty, every room is reachable from the first room, and every exit is answered by its opposite |
| Spanning.Distance | tests/pygame-dungeon-map.py:91 | the Manhattan distance of two rooms is 0 exactly when they share a position |
| Spanning.DistanceIsMetric | tests/pygame-dungeon-map.py:91 | the distance is symmetric and obeys the triangle inequality |
| Spanning.ClosestPair | tests/pygame-dungeon-map.py:84-95 | the scan returns a connected and an unconnected room whose distance is at most that of every such pair |
| Spanning.ApplyStepsKeepsWf | tests/pygame-dungeon-map.py:113 | connecting the chosen pairs in turn keeps the registry invariant |
| Spanning.SameLayoutSameGeometry | tests/pygame-dungeon-map.py:91-110 | connecting rooms moves none, so distances and directions computed later are those of the start |
| Spanning.ClosestUnderSameLayout | tests/pygame-dungeon-map.py:84-95 | a pair that is closest on the current map is closest on the starting map |
| Spanning.ExtendTrace | tests/pygame-dungeon-map.py:113-115 | a closest pair with its derived direction extends the run, and the joined set grows by the newly connected room |
| Spanning.SpanPassKeepsState | tests/pygame-dungeon-map.py:80-115 | one pass of the loop keeps the loop state: the connected set is the root plus every room joined, and the unconnected set is the rest |
| Spanning.SpanLoopStep | tests/pygame-dungeon-map.py:80-115 | joining a closest pair keeps the loop state, records the step, and shrinks the unconnected set by one |
| Spanning.SpanFrom | tests/pygame-dungeon-map.py:76-115 | the loop ends after one pass per room other than the root, with every room joined; each pass joined a closest pair in the derived direction, and the map is those connections applied in order |
| Spanning.SpanningPhase | tests/pygame-dungeon-map.py:73-115 | the same from the first room of a non-empty valid map: exactly n - 1 steps, every room joined |
| Enrichment.FreeDirections | tests/pygame-dungeon-map.py:123 | the free directions of a room are exactly its empty slots, in the order north, east, south, west |
| Enrichment.Partner | tests/pygame-dungeon-map.py:131-142 | a room qualifies exactly when it is another room, aligned with the picked room along the direction, with the opposite slot free |
| Enrichment.ChosenDirection | tests/pygame-dungeon-map.py:123-127 | no direction exactly when the room has no free slot; otherwise one of its free directions |
| Enrichment.FirstPartner | tests/pygame-dungeon-map.py:130-144 | the scan stops at the first room in id order that is another room, aligned along the direction, with the opposite slot free; no earlier room qualifies; when none is found, no room qualifies |
| Enrichment.EnrichStep | tests/pygame-dungeon-map.py:119-144 | a round with no free direction or no partner changes nothing; otherwise it connects the picked room, by its chosen free direction, to a partner |
| Enrichment.EnrichStepKeepsWf | tests/pygame-dungeon-map.py:143 | a round keeps the registry invariant and moves no room |
| Enrichment.EnrichStepKeepsSymmetry | tests/pygame-dungeon-map.py:135-143 | a round loses no exit and keeps a symmetric map symmetric |
| Enrichment.CorridorIsStraight | tests/pygame-dungeon-map.py:135-138 | an added corridor joins two distinct positions on a shared row or column, in the direction the spanning rule would give |
| Enrichment.EnrichAll | tests/pygame-dungeon-map.py:118-144 | the rounds add at most one corridor each |
| Enrichment.EnrichAllPreserves | tests/pygame-dungeon-map.py:117-144 | all the rounds together keep the invariant, move no room, lose no exit and keep a symmetric map symmetric |
| Enrichment.PhaseStep | tests/pygame-dungeon-map.py:119-144 | one more round moves the loop state forward: the rounds still to run yield the phase's result |
| Enrichment.EnrichmentPhase | tests/pygame-dungeon-map.py:117-144 | the loop over the rounds yields the rounds' result; it keeps the invariant, moves no room, loses no exit and keeps a symmetric map symmetric |
| Generation.SpanWithoutOverwrite | tests/pygame-dungeon-map.py:76-115 | when no step overwrites an exit, the spanning phase keeps a symmetric map symmetric, loses no exit, and makes every joined room reachable from the root |
| Generation.GenerateConnections | tests/pygame-dungeon-map.py:68-146 | False and no change exactly when there are fewer than two rooms; otherwise True, with a spanning run from room 1 that joins every room in n - 1 steps, followed by enrichment rounds that lose no exit and keep symmetry; the invariant holds and no room moves |
| Generation.GeneratedMapIsValid | tests/pygame-dungeon-map.py:68-146 | if the start was symmetric and no spanning step overwrote an exit, `validate_map` accepts the generated map |
| Generation.ThreeRoomsGeometry | tests/pygame-dungeon-map.py:91-110 | for rooms at (0, 0), (1, 5) and (1, -5), both others lie 6 east of room 1 and 10 apart |
| Generation.ThreeRoomsTraceOverwrites | tests/pygame-dungeon-map.py:84-113 | whatever order the scan takes, both spanning steps on those rooms leave room 1 by east |
| Linking.SecondConnectOverwrites | tests/pygame-dungeon-map.py:63-64 | connecting a room by the same direction twice leaves the first target's opposite exit pointing back while the slot points at the second target |
| Linking.UnansweredExit | tests/pygame-dungeon-map.py:219-220 | an exit whose target's opposite exit leads elsewhere makes the map not symmetric |
| Generation.UnansweredExitKept | tests/pygame-dungeon-map.py:117-144 | such an exit survives any later change that loses no exit |
| Generation.ThreeRoomsSpanned | tests/pygame-dungeon-map.py:113 | after the spanning phase on those rooms, the first joined room still leads west to room 1 while room 1 leads east to the other |
| Generation.ThreeRoomsNeverValid | tests/pygame-dungeon-map.py:68-146 | on those rooms no run of `generate_connections` produces a map `validate_map` accepts |
| Grid.CeilSqrt | tests/pygame-dungeon-map.py:234 | the default side is the least s with n <= s * s |
| Grid.CeilSqrtUnique | tests/pygame-dungeon-map.py:234 | any s with that property is the default side |
| Grid.GridCells | tests/pygame-dungeon-map.py:240-243 | the cell list has width * height cells, all inside the grid |
| Grid.GridCellAt | tests/pygame-dungeon-map.py:240-243 | cell (x, y) sits at position y * width + x (row by row) |
| Grid.GridCellsDistinct | tests/pygame-dungeon-map.py:240-243 | no cell is listed twice |
| Grid.GridSize | tests/pygame-dungeon-map.py:233-237 | with no size given, the square of side `CeilSqrt(n)`, the least side with room for every room; otherwise the given size, a negative side counting as 0 |
| Grid.Shuffled | tests/pygame-dungeon-map.py:246 | the shuffled list has entry p[i] of the cell list at position i |
| Grid.ShuffledCellsDistinct | tests/pygame-dungeon-map.py:240-246 | shuffled cells are still pairwise distinct |
| Grid.PositionsAreDistinctCells | test2.py:328-346 | the handed-out cells lie in the grid and are pairwise distinct, and with the default size every room gets one |
| Grid.MoveRoom | tests/pygame-dungeon-map.py:251-253 | only the moved room's coordinates change |
| Grid.MovingKeepsValidity | tests/pygame-dungeon-map.py:224-253 | moving rooms keeps the invariant, changes no exit, and does not change the verdict of `validate_map` |
| Grid.PlaceStep | tests/pygame-dungeon-map.py:249-253 | placing room i + 1 on cell i extends the placement state |
| Grid.PlacedAll | tests/pygame-dungeon-map.py:249-253 | after every room's turn, the room with id k has cell k - 1 when there is one, and is untouched otherwise |
| Grid.AssignPositions | tests/pygame-dungeon-map.py:249-253 | the assignment loop gives room i + 1 cell i while cells last and leaves the rest alone |
| Grid.GenerateMapAsGrid | test2.py:319-348 | nothing for an empty map; otherwise only positions change, room k gets shuffled cell k - 1 when there is one, and rooms beyond the number of cells keep their position |
| Display.DisplayRoom | tests/pygame-dungeon-map.py:158-176 | a missing id gives "Room {id} not found."; a found room gives its header, description line and type line, followed by the exits part, which starts with "Exits:" |
| Display.Capitalize | tests/pygame-dungeon-map.py:166 | first character upper case, the rest lower case, same length |
| Display.DirectionLabels | tests/pygame-dungeon-map.py:174 | exits are labelled "North", "East", "South" and "West" |
| Display.DirectionLabelsDiffer | tests/pygame-dungeon-map.py:174 | different directions get different labels |
| Display.ExitsArePrintable | tests/pygame-dungeon-map.py:172-173 | every exit of a room leads to a room whose name can be printed |
| Display.ExitLineListed | tests/pygame-dungeon-map.py:172-174 | each exit's line is part of the exit lines |
| Display.ExitsPartListsExits | tests/pygame-dungeon-map.py:167-174 | what follows "Exits:" holds every exit's line, or the dead-end line for a room without exits |
| Display.EveryExitShown | tests/pygame-dungeon-map.py:158-176 | a found room's text contains one line per exit with its direction, target name and target id, or "  None (dead end)" |
| Display.EditionsAgree | test2.py:153-171 | the test2.py text is the pygame text after a blank line; the test.py text is the test2.py text without the type line; a missing room reads the same in all three |
| Display.NotFoundIsDistinguishable | tests/pygame-dungeon-map.py:160-164 | the text has ':' at position 4 exactly when the room exists, so "not found" cannot be mistaken for a room |

## Left out

- `print_map`, `visualize_with_pygame` and `visualize_map`: console and pygame output, with floating-point geometry.
- The pygame event loop, menus and sprites (`main.py`, `temp.py`, `spriteSheet.py`, `player.py`): user interface with no dungeon logic.
- The `create_sample_dungeon` drivers: scripts that call the modelled operations with random values.
- `Room.__repr__` and the pygame copy's `selected_room` field: display and UI state only.
- The `min_connections` and `max_connections` arguments of `generate_connections`: the code never reads them.
- Random draws (`random.randint`, `random.choice`, `random.shuffle`): they are parameters of the model, so every property holds for every outcome.
- Room types: the model keeps the seven tags the constructor draws from. A `room_type` argument outside those tags is not modelled.
- The `get_available_directions(valid_directions)` argument: callers only use the default list, but `ConnectionTable.Available` takes any candidate list.
- Dangling exits: the `connected_id not in self.rooms` test of `validate_map` (tests/pygame-dungeon-map.py:213-214) is part of `Validation.CheckMirrored`, but the registry invariant rules out an exit to a missing room, so on modelled maps it never answers False.
- Directions are a closed set of four. With any other string, `connect_rooms` writes the first room's slot (tests/pygame-dungeon-map.py:63) and then raises `KeyError` (tests/pygame-dungeon-map.py:64); that half-done call is not modelled.
- Ids are natural numbers. A negative or non-integer `room_id` (for example `display_room(-1)`, which returns "Room -1 not found." at tests/pygame-dungeon-map.py:161) is not modelled.
- The `test.py` rooms have no `room_type` attribute, while the model's `Room` always carries one; the `test.py` edition of `Display.DisplayRoom` never reads it.
- Grid.CeilSqrt: the float `math.ceil(math.sqrt(n))` and `np.ceil(np.sqrt(n))` are replaced by the exact integer ceiling square root, which they equal while floating point is exact.
- Grid.GenerateMapAsGrid: a `grid_size` that is not a pair of integers is not modelled.
- Enrichment.ChosenDirection: `random.choice(available_directions)` is modelled as an index taken modulo the number of free directions.
- Spanning.ClosestPair: promises some pair of minimum distance, not the particular one Python's set order would give.
- Display.Capitalize: `str.capitalize` is modelled for ASCII letters only.
- Generation.GenerateConnections: promises no `validate_map` verdict, because the spanning phase can overwrite exits; see `Generation.ThreeRoomsNeverValid` and `Generation.GeneratedMapIsValid`.
