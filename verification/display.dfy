/** `display_room`: the text description of one room and its exits. The
    three copies of the generator print the same text up to the leading
    blank line and the room-type line, so the edition is a parameter. */
module Display {

  import opened Directions
  import opened ConnectionTable
  import opened Decimal
  import opened Registry

  /** Which copy of `display_room`: `Basic` (test.py: leading blank line, no
      type line), `Plotted` (test2.py: leading blank line and type line) and
      `Pygame` (tests/pygame-dungeon-map.py: type line, no blank line). */
  datatype Edition = Basic | Plotted | Pygame

  predicate IsLower(c: char)
  {
    'a' <= c <= 'z'
  }

  predicate IsUpper(c: char)
  {
    'A' <= c <= 'Z'
  }

  function ToUpper(c: char): (u: char)
    ensures IsLower(c) ==> IsUpper(u) && u as int == c as int - 32
    ensures !IsLower(c) ==> u == c
  {
    if IsLower(c) then (c as int - 32) as char else c
  }

  function ToLower(c: char): (l: char)
    ensures IsUpper(c) ==> IsLower(l) && l as int == c as int + 32
    ensures !IsUpper(c) ==> l == c
  {
    if IsUpper(c) then (c as int + 32) as char else c
  }

  /** `str.capitalize()` on ASCII text: first character upper case, the rest
      lower case. */
  function Capitalize(s: string): (r: string)
    ensures |r| == |s|
    ensures |s| > 0 ==> r[0] == ToUpper(s[0])
    ensures forall i :: 0 < i < |s| ==> r[i] == ToLower(s[i])
  {
    if |s| == 0 then "" else [ToUpper(s[0])] + LowerAll(s[1..])
  }

  function LowerAll(s: string): (r: string)
    ensures |r| == |s|
    ensures forall i :: 0 <= i < |s| ==> r[i] == ToLower(s[i])
  {
    if |s| == 0 then "" else [ToLower(s[0])] + LowerAll(s[1..])
  }

  /** The label an exit line starts with. */
  function DirectionLabel(dir: Direction): string
  {
    Capitalize(Name(dir))
  }

  /** The four labels are "North", "East", "South" and "West". */
  lemma DirectionLabels()
    ensures DirectionLabel(North) == "North" && DirectionLabel(East) == "East"
    ensures DirectionLabel(South) == "South" && DirectionLabel(West) == "West"
  {
    assert DirectionLabel(North) == "North";
    assert DirectionLabel(East) == "East";
    assert DirectionLabel(South) == "South";
    assert DirectionLabel(West) == "West";
  }

  /** Different directions are printed with different labels. */
  lemma DirectionLabelsDiffer(a: Direction, b: Direction)
    requires a != b
    ensures DirectionLabel(a) != DirectionLabel(b)
  {
    DirectionLabels();
  }

  /** The first line: `Room: {name} (ID: {id})`, after a blank line in the two
      older copies. */
  function Header(room: Room, edition: Edition): string
  {
    if edition == Pygame then RoomLine(room) else "\n" + RoomLine(room)
  }

  function RoomLine(room: Room): string
  {
    "Room: " + (room.name + " (ID: " + NatToString(room.id) + ")\n")
  }

  function DescriptionLine(room: Room): string
  {
    "Description: " + room.description + "\n"
  }

  /** `Type: {room_type.capitalize()}`, absent from the oldest copy. */
  function TypeLine(room: Room, edition: Edition): string
  {
    if edition == Basic then "" else "Type: " + Capitalize(TypeName(room.roomType)) + "\n"
  }

  /** One line per exit: `  {Direction}: {target name} (ID: {target id})`. */
  function ExitLine(d: Dungeon, c: Connection): string
    requires c.target in d.rooms
  {
    "  " + DirectionLabel(c.dir) + ": " + d.rooms[c.target].name + " (ID: " + NatToString(c.target) + ")\n"
  }

  /** The exit lines in dictionary order. */
  function ExitLines(d: Dungeon, t: seq<Connection>): string
    requires forall i :: 0 <= i < |t| ==> t[i].target in d.rooms
  {
    if |t| == 0 then "" else ExitLine(d, t[0]) + ExitLines(d, t[1..])
  }

  const DeadEndLine: string := "  None (dead end)\n"

  /** Every exit of a registry room points at a room, so its line can be
      printed. */
  lemma ExitsArePrintable(d: Dungeon, k: nat)
    requires Wf(d) && k in d.rooms
    ensures forall i :: 0 <= i < |d.rooms[k].connections| ==> d.rooms[k].connections[i].target in d.rooms
  {
    assert RoomWf(d, k);
  }

  /** The "Exits:" line and what follows it: one line per exit, or the
      dead-end line when the room has none. */
  function ExitsPart(d: Dungeon, id: nat): (r: string)
    requires Wf(d) && id in d.rooms
    ensures |r| >= 7 && r[..7] == "Exits:\n"
  {
    ExitsArePrintable(d, id);
    var t := d.rooms[id].connections;
    "Exits:\n" + (if |t| == 0 then DeadEndLine else ExitLines(d, t))
  }

  function NotFound(id: nat): string
  {
    "Room " + NatToString(id) + " not found."
  }

  /** `display_room(room_id)`: "Room {id} not found." for an unknown id;
      otherwise the header, description, type and "Exits:" lines followed by
      one line per exit, or by "  None (dead end)" when there is none. */
  function DisplayRoom(d: Dungeon, id: nat, edition: Edition): (s: string)
    requires Wf(d)
    ensures id !in d.rooms ==> s == NotFound(id)
    ensures id in d.rooms ==>
              var room := d.rooms[id];
              s == Header(room, edition) + DescriptionLine(room) + TypeLine(room, edition) + ExitsPart(d, id)
  {
    if id !in d.rooms then NotFound(id)
    else
      var room := d.rooms[id];
      var header, desc, typ := Header(room, edition), DescriptionLine(room), TypeLine(room, edition);
      var exits := ExitsPart(d, id);
      ConcatAssoc(header, desc, typ + exits);
      ConcatAssoc(header + desc, typ, exits);
      header + (desc + (typ + exits))
  }

  /** a occurs in s as a contiguous piece. */
  ghost predicate IsInfix(a: string, s: string)
  {
    exists i :: InfixAt(a, s, i)
  }

  /** a occurs in s starting at position i. */
  predicate InfixAt(a: string, s: string, i: int)
  {
    0 <= i && i + |a| <= |s| && s[i..i + |a|] == a
  }

  /** The pieces of a concatenation can be cut back out. */
  lemma SplitConcat(x: string, y: string)
    ensures (x + y)[..|x|] == x && (x + y)[|x|..] == y
  {
  }

  lemma ConcatAssoc(x: string, y: string, z: string)
    ensures (x + y) + z == x + (y + z)
  {
  }

  lemma IndexInFront(x: string, y: string, i: nat)
    requires i < |x|
    ensures (x + y)[i] == x[i]
  {
  }

  lemma InfixInFront(a: string, x: string)
    ensures IsInfix(a, a + x)
  {
    SplitConcat(a, x);
    assert InfixAt(a, a + x, 0);
  }

  lemma InfixBehind(a: string, x: string, y: string)
    requires IsInfix(a, y)
    ensures IsInfix(a, x + y)
  {
    var i :| InfixAt(a, y, i);
    var s := x + y;
    assert s[|x| + i..|x| + i + |a|] == y[i..i + |a|];
    assert InfixAt(a, s, |x| + i);
  }

  /** Each exit's line is part of the exit lines. */
  lemma {:induction false} ExitLineListed(d: Dungeon, t: seq<Connection>, j: nat)
    requires forall i :: 0 <= i < |t| ==> t[i].target in d.rooms
    requires j < |t|
    ensures IsInfix(ExitLine(d, t[j]), ExitLines(d, t))
    decreases |t|
  {
    var line := ExitLine(d, t[0]);
    var rest := ExitLines(d, t[1..]);
    if j == 0 {
      InfixInFront(line, rest);
    } else {
      ExitLineListed(d, t[1..], j - 1);
      assert t[1..][j - 1] == t[j];
      InfixBehind(ExitLine(d, t[j]), line, rest);
    }
  }

  /** What follows "Exits:" holds a line for every exit, or the dead-end
      line. */
  lemma ExitsPartListsExits(d: Dungeon, id: nat)
    requires Wf(d) && id in d.rooms
    ensures forall j :: 0 <= j < |d.rooms[id].connections| ==>
              d.rooms[id].connections[j].target in d.rooms &&
              IsInfix(ExitLine(d, d.rooms[id].connections[j]), ExitsPart(d, id))
    ensures d.rooms[id].connections == [] ==> IsInfix(DeadEndLine, ExitsPart(d, id))
  {
    var t := d.rooms[id].connections;
    ExitsArePrintable(d, id);
    if |t| == 0 {
      InfixInFront(DeadEndLine, "");
      assert DeadEndLine + "" == DeadEndLine;
      InfixBehind(DeadEndLine, "Exits:\n", DeadEndLine);
    } else {
      forall j | 0 <= j < |t|
        ensures IsInfix(ExitLine(d, t[j]), ExitsPart(d, id))
      {
        ExitLineListed(d, t, j);
        InfixBehind(ExitLine(d, t[j]), "Exits:\n", ExitLines(d, t));
      }
    }
  }

  /** Every exit of a found room is shown, with its direction, target name
      and target id; a room without exits is shown as a dead end. */
  lemma EveryExitShown(d: Dungeon, id: nat, edition: Edition)
    requires Wf(d) && id in d.rooms
    ensures forall j :: 0 <= j < |d.rooms[id].connections| ==>
              d.rooms[id].connections[j].target in d.rooms &&
              IsInfix(ExitLine(d, d.rooms[id].connections[j]), DisplayRoom(d, id, edition))
    ensures d.rooms[id].connections == [] ==> IsInfix(DeadEndLine, DisplayRoom(d, id, edition))
  {
    var room := d.rooms[id];
    var e := ExitsPart(d, id);
    ExitsPartListsExits(d, id);
    forall a | IsInfix(a, e) ensures IsInfix(a, DisplayRoom(d, id, edition)) {
      InfixBehind(a, TypeLine(room, edition), e);
      InfixBehind(a, DescriptionLine(room), TypeLine(room, edition) + e);
      InfixBehind(a, Header(room, edition), DescriptionLine(room) + (TypeLine(room, edition) + e));
    }
  }

  /** The three copies agree: the plotted copy's text is the pygame copy's
      after a blank line, and the oldest copy's text is the plotted copy's
      without the type line. A missing room reads the same in all three. */
  lemma EditionsAgree(d: Dungeon, id: nat)
    requires Wf(d)
    ensures id !in d.rooms ==>
              DisplayRoom(d, id, Basic) == DisplayRoom(d, id, Plotted) == DisplayRoom(d, id, Pygame)
    ensures id in d.rooms ==> DisplayRoom(d, id, Plotted) == "\n" + DisplayRoom(d, id, Pygame)
    ensures id in d.rooms ==>
              var room := d.rooms[id];
              var cut := |Header(room, Basic) + DescriptionLine(room)|;
              var basic := DisplayRoom(d, id, Basic);
              cut <= |basic| &&
              DisplayRoom(d, id, Plotted) == basic[..cut] + TypeLine(room, Plotted) + basic[cut..]
  {
    if id in d.rooms {
      var room := d.rooms[id];
      var line := RoomLine(room);
      var desc := DescriptionLine(room);
      var typ := TypeLine(room, Plotted);
      var e := ExitsPart(d, id);
      assert TypeLine(room, Pygame) == typ;
      assert TypeLine(room, Basic) + e == e;
      ConcatAssoc("\n", line, desc + (typ + e));
      var front := "\n" + line + desc;
      ConcatAssoc("\n" + line, desc, e);
      SplitConcat(front, e);
      ConcatAssoc("\n" + line, desc, typ + e);
      ConcatAssoc(front, typ, e);
    }
  }

  /** A caller can tell a missing room from a found one: the found text has
      "Room:" where the other has "Room " followed by the id. */
  lemma NotFoundIsDistinguishable(d: Dungeon, id: nat)
    requires Wf(d)
    ensures |DisplayRoom(d, id, Pygame)| > 4
    ensures DisplayRoom(d, id, Pygame)[4] == ':' <==> id in d.rooms
  {
    if id in d.rooms {
      var room := d.rooms[id];
      var rest := room.name + " (ID: " + NatToString(room.id) + ")\n";
      IndexInFront("Room: ", rest, 4);
      IndexInFront(RoomLine(room), DescriptionLine(room) + (TypeLine(room, Pygame) + ExitsPart(d, id)), 4);
    } else {
      IndexInFront("Room ", NatToString(id), 4);
      IndexInFront("Room " + NatToString(id), " not found.", 4);
    }
  }
}
