/** The attendance table of `refresh_table`: every room scheduled at the
    chosen HH:MM, with its assigned log rows or one placeholder row, in
    natural room order; and the colour bands of `make_group_stripes`. */
module Table {
  import opened Collections
  import opened Ordering
  import opened Rooms
  import opened Schedule
  import opened Matching

  /** The placeholder `fillna("—")` writes into empty cells. */
  const Dash: string := "\U{2014}"

  /** A row of the table: ucionica, vrijeme_prijave, broj_kartice, cuvar.
      The time is kept as a timestamp (`None` shows as the placeholder). */
  datatype TableRow = TableRow(ucionica: string, vrijemePrijave: Option<int>, brojKartice: string, cuvar: string)

  /** A row of `style_data_conditional`. */
  datatype Style = Style(filterQuery: string, backgroundColor: string)

  /** The two alternating band colours. */
  const Colors: seq<string> := ["#F6FAFF", "#FFF8F2"]

  // ---------------------------------------------------------------------
  // Scheduled rooms and the merge with the assignments
  // ---------------------------------------------------------------------

  function SlotRoom(s: Slot): string
  {
    s.ucionica
  }

  /** The `ucionica` values of the schedule rows at `hhmm`, without repeats. */
  function ScheduledRooms(raspored: seq<Slot>, hhmm: int): seq<string>
  {
    DropDuplicates(Id, MapSeq(SlotRoom, Filter(SlotAt(hhmm), raspored)))
  }

  lemma HasRoomIsIn(room: string, s: seq<string>)
    ensures HasKey(Id, room, s) <==> room in s
  {
    if room in s {
      var i :| 0 <= i < |s| && s[i] == room;
      assert Id(s[i]) == room;
    }
  }

  /** A room is scheduled exactly when some schedule row at `hhmm` names it,
      and it is listed once. */
  lemma ScheduledRoomsSpec(raspored: seq<Slot>, hhmm: int)
    ensures forall room :: room in ScheduledRooms(raspored, hhmm) <==>
      exists s :: s in raspored && HhMm(s.termin) == hhmm && s.ucionica == room
    ensures forall i, j :: 0 <= i < j < |ScheduledRooms(raspored, hhmm)| ==>
      ScheduledRooms(raspored, hhmm)[i] != ScheduledRooms(raspored, hhmm)[j]
  {
    var at := Filter(SlotAt(hhmm), raspored);
    var names := MapSeq(SlotRoom, at);
    FilterSpec(SlotAt(hhmm), raspored);
    DropDuplicatesKeepsKeys(Id, names);
    DropDuplicatesDistinct(Id, names);
    forall room ensures room in ScheduledRooms(raspored, hhmm) <==>
      exists s :: s in raspored && HhMm(s.termin) == hhmm && s.ucionica == room
    {
      HasRoomIsIn(room, ScheduledRooms(raspored, hhmm));
      HasRoomIsIn(room, names);
      if room in names {
        var i :| 0 <= i < |names| && names[i] == room;
        assert at[i] in raspored && SlotAt(hhmm)(at[i]);
      }
      if exists s :: s in raspored && HhMm(s.termin) == hhmm && s.ucionica == room {
        var s :| s in raspored && HhMm(s.termin) == hhmm && s.ucionica == room;
        var i :| 0 <= i < |raspored| && raspored[i] == s;
        assert SlotAt(hhmm)(raspored[i]);
        var k :| 0 <= k < |at| && at[k] == s;
        assert names[k] == room;
      }
    }
  }

  function GuardName(cuvar: Option<string>): string
  {
    match cuvar
    case None => Dash
    case Some(name) => name
  }

  /** An assignment as a table row; a missing guard name becomes the placeholder. */
  function AsTableRow(a: Assignment): TableRow
  {
    TableRow(a.ucionica, Some(a.vrijemePrijave), a.brojKartice, GuardName(a.cuvar))
  }

  /** The row of a room nobody badged into. */
  function DashRow(room: string): TableRow
  {
    TableRow(room, None, Dash, Dash)
  }

  function AssignedTo(room: string): Assignment -> bool
  {
    (a: Assignment) => a.ucionica == room
  }

  /** The left merge for one room: its assignments in order, or one placeholder row. */
  function RoomRows(room: string, assignments: seq<Assignment>): seq<TableRow>
  {
    var m := Filter(AssignedTo(room), assignments);
    if m == [] then [DashRow(room)] else MapSeq(AsTableRow, m)
  }

  /** `rooms.merge(assignments, on="ucionica", how="left")` followed by `fillna("—")`. */
  function LeftMerge(rooms: seq<string>, assignments: seq<Assignment>): seq<TableRow>
  {
    if rooms == [] then [] else RoomRows(rooms[0], assignments) + LeftMerge(rooms[1..], assignments)
  }

  /** Both branches of the merge step: with no assignments every room gets
      the placeholder row directly. */
  function MergeRooms(rooms: seq<string>, assignments: seq<Assignment>): seq<TableRow>
  {
    if assignments == [] then MapSeq(DashRow, rooms) else LeftMerge(rooms, assignments)
  }

  predicate HasAssignment(room: string, assignments: seq<Assignment>)
  {
    exists a :: a in assignments && a.ucionica == room
  }

  /** What a merged row of a room holds: one of the room's assignments if it
      has any, and the placeholder row otherwise. */
  predicate RowOfRoom(r: TableRow, assignments: seq<Assignment>)
  {
    if HasAssignment(r.ucionica, assignments) then exists a :: a in assignments && r == AsTableRow(a)
    else r == DashRow(r.ucionica)
  }

  /** The merged rows of one room are the rows `RowOfRoom` allows; a room
      without assignments gets exactly one placeholder row. */
  lemma RoomRowsSpec(room: string, assignments: seq<Assignment>)
    ensures forall r :: r in RoomRows(room, assignments) <==> r.ucionica == room && RowOfRoom(r, assignments)
    ensures !HasAssignment(room, assignments) ==> RoomRows(room, assignments) == [DashRow(room)]
  {
    var m := Filter(AssignedTo(room), assignments);
    FilterSpec(AssignedTo(room), assignments);
    if m == [] {
      forall a | a in assignments ensures a.ucionica != room {
        var i :| 0 <= i < |assignments| && assignments[i] == a;
        assert !AssignedTo(room)(assignments[i]);
      }
    } else {
      assert m[0] in assignments && AssignedTo(room)(m[0]);
      forall r ensures r in RoomRows(room, assignments) <==> r.ucionica == room && RowOfRoom(r, assignments) {
        if r in RoomRows(room, assignments) {
          var i :| 0 <= i < |m| && MapSeq(AsTableRow, m)[i] == r;
          assert m[i] in assignments && AssignedTo(room)(m[i]);
        }
        if r.ucionica == room && RowOfRoom(r, assignments) {
          var a :| a in assignments && r == AsTableRow(a);
          var i :| 0 <= i < |assignments| && assignments[i] == a;
          assert AssignedTo(room)(assignments[i]);
          var k :| 0 <= k < |m| && m[k] == a;
          assert MapSeq(AsTableRow, m)[k] == r;
        }
      }
    }
  }

  /** The merged rows are exactly the rows of the given rooms that
      `RowOfRoom` allows. */
  lemma {:induction false} LeftMergeSpec(rooms: seq<string>, assignments: seq<Assignment>)
    ensures forall r :: r in LeftMerge(rooms, assignments) <==> r.ucionica in rooms && RowOfRoom(r, assignments)
  {
    if rooms != [] {
      LeftMergeSpec(rooms[1..], assignments);
      RoomRowsSpec(rooms[0], assignments);
      forall r ensures r in LeftMerge(rooms, assignments) <==> r.ucionica in rooms && RowOfRoom(r, assignments) {
        if r.ucionica in rooms && r.ucionica != rooms[0] {
          var i :| 0 <= i < |rooms| && rooms[i] == r.ucionica;
          assert rooms[1..][i - 1] == r.ucionica;
        }
        if r.ucionica in rooms[1..] {
          assert r.ucionica in rooms;
        }
      }
    }
  }

  /** Assignments that differ in `(time, room, card)` give different rows, so
      a room's merged rows hold each of its assignments once. */
  lemma RoomRowsDistinct(room: string, assignments: seq<Assignment>)
    requires forall i, j :: 0 <= i < j < |assignments| ==> AssignmentKey(assignments[i]) != AssignmentKey(assignments[j])
    ensures Distinct(RoomRows(room, assignments))
  {
    var m := Filter(AssignedTo(room), assignments);
    FilterDistinct(AssignedTo(room), AssignmentKey, assignments);
    if m != [] {
      var rows := MapSeq(AsTableRow, m);
      forall i, j | 0 <= i < j < |rows| ensures rows[i] != rows[j] {
        assert AssignmentKey(m[i]) != AssignmentKey(m[j]);
      }
    }
  }

  /** For distinct rooms and assignments distinct by `(time, room, card)`,
      the left merge repeats no row: with `LeftMergeSpec` it holds one row
      per assignment of a listed room and one placeholder row per listed
      room without assignments. */
  lemma {:induction false} LeftMergeDistinct(rooms: seq<string>, assignments: seq<Assignment>)
    requires Distinct(rooms)
    requires forall i, j :: 0 <= i < j < |assignments| ==> AssignmentKey(assignments[i]) != AssignmentKey(assignments[j])
    ensures Distinct(LeftMerge(rooms, assignments))
  {
    if rooms != [] {
      var rest := rooms[1..];
      assert Distinct(rest) by {
        forall i, j | 0 <= i < j < |rest| ensures rest[i] != rest[j] {
          assert rest[i] == rooms[i + 1] && rest[j] == rooms[j + 1];
        }
      }
      assert forall k :: 0 <= k < |rest| ==> rest[k] != rooms[0] by {
        forall k | 0 <= k < |rest| ensures rest[k] != rooms[0] {
          assert rest[k] == rooms[k + 1];
        }
      }
      var head := RoomRows(rooms[0], assignments);
      var tail := LeftMerge(rest, assignments);
      LeftMergeDistinct(rest, assignments);
      RoomRowsDistinct(rooms[0], assignments);
      assert forall r :: r in head ==> r.ucionica == rooms[0] by {
        RoomRowsSpec(rooms[0], assignments);
      }
      assert forall r :: r in tail ==> r.ucionica in rest by {
        LeftMergeSpec(rest, assignments);
      }
      DistinctAppend(head, tail);
    }
  }

  /** With no assignments the left merge gives each room its placeholder
      row, so the shortcut branch of the merge step is the same merge. */
  lemma {:induction false} MergeRoomsIsLeftMerge(rooms: seq<string>, assignments: seq<Assignment>)
    ensures MergeRooms(rooms, assignments) == LeftMerge(rooms, assignments)
  {
    if assignments == [] && rooms != [] {
      MergeRoomsIsLeftMerge(rooms[1..], assignments);
      assert Filter(AssignedTo(rooms[0]), assignments) == [];
      assert MapSeq(DashRow, rooms) == [DashRow(rooms[0])] + MapSeq(DashRow, rooms[1..]);
    }
  }

  /** Every room gets at least one merged row. */
  lemma MergeCoversRooms(rooms: seq<string>, assignments: seq<Assignment>)
    ensures forall room :: room in rooms ==> exists r :: r in MergeRooms(rooms, assignments) && r.ucionica == room
  {
    MergeRoomsIsLeftMerge(rooms, assignments);
    LeftMergeSpec(rooms, assignments);
    forall room | room in rooms ensures exists r :: r in MergeRooms(rooms, assignments) && r.ucionica == room {
      if HasAssignment(room, assignments) {
        var a :| a in assignments && a.ucionica == room;
        assert AsTableRow(a) in MergeRooms(rooms, assignments);
      } else {
        assert DashRow(room) in MergeRooms(rooms, assignments);
      }
    }
  }

  // ---------------------------------------------------------------------
  // The table
  // ---------------------------------------------------------------------

  function RowRoom(r: TableRow): string
  {
    r.ucionica
  }

  /** The `vrijeme_prijave` sort column: the formatted time of one day sorts
      by the timestamp, and before the placeholder. */
  function TimeColumn(r: TableRow): seq<Value>
  {
    match r.vrijemePrijave
    case Some(t) => [Num(t)]
    case None => [Text(Dash)]
  }

  /** The assignments of the day's log to the windows at `hhmm`. */
  function AssignedAt(raspored: seq<Slot>, hhmm: int, logs: seq<LogRow>, cards: seq<CardRow>): seq<Assignment>
  {
    AssignLogsToTerms(logs, BuildWindowsForTime(raspored, hhmm), cards)
  }

  /** The rows `refresh_table` shows for a non-empty schedule and a chosen HH:MM. */
  function TableFor(raspored: seq<Slot>, hhmm: int, logs: seq<LogRow>, cards: seq<CardRow>): seq<TableRow>
  {
    SortRoomsNatural(
      MergeRooms(ScheduledRooms(raspored, hhmm), AssignedAt(raspored, hhmm, logs, cards)),
      RowRoom, TimeColumn)
  }

  /** The table rows are exactly the merged rows of the scheduled rooms, in
      natural room order and then by time. */
  lemma TableSpec(raspored: seq<Slot>, hhmm: int, logs: seq<LogRow>, cards: seq<CardRow>)
    ensures forall r :: r in TableFor(raspored, hhmm, logs, cards) <==>
      r.ucionica in ScheduledRooms(raspored, hhmm) && RowOfRoom(r, AssignedAt(raspored, hhmm, logs, cards))
    ensures SortedByKey(NaturalOrder(RowRoom, TimeColumn), TableFor(raspored, hhmm, logs, cards))
    ensures raspored == [] ==> TableFor(raspored, hhmm, logs, cards) == []
  {
    var rooms := ScheduledRooms(raspored, hhmm);
    var assignments := AssignedAt(raspored, hhmm, logs, cards);
    var merged := MergeRooms(rooms, assignments);
    MergeRoomsIsLeftMerge(rooms, assignments);
    LeftMergeSpec(rooms, assignments);
    forall r ensures r in TableFor(raspored, hhmm, logs, cards) <==> r in merged {
      assert r in TableFor(raspored, hhmm, logs, cards) <==> r in multiset(merged);
    }
  }

  /** No row of the table occurs twice. With `TableSpec` this fixes the table
      up to order: one row per assignment, one placeholder row per scheduled
      room without assignments. */
  lemma TableRowsDistinct(raspored: seq<Slot>, hhmm: int, logs: seq<LogRow>, cards: seq<CardRow>)
    ensures Distinct(TableFor(raspored, hhmm, logs, cards))
  {
    var rooms := ScheduledRooms(raspored, hhmm);
    var assignments := AssignedAt(raspored, hhmm, logs, cards);
    ScheduledRoomsSpec(raspored, hhmm);
    AssignUnique(logs, BuildWindowsForTime(raspored, hhmm), cards);
    MergeRoomsIsLeftMerge(rooms, assignments);
    LeftMergeDistinct(rooms, assignments);
    DistinctPermutation(MergeRooms(rooms, assignments), TableFor(raspored, hhmm, logs, cards));
  }

  /** Every room scheduled at `hhmm` appears in the table at least once. */
  lemma TableCoversSchedule(raspored: seq<Slot>, hhmm: int, logs: seq<LogRow>, cards: seq<CardRow>)
    ensures forall s :: s in raspored && HhMm(s.termin) == hhmm ==>
      exists i :: 0 <= i < |TableFor(raspored, hhmm, logs, cards)| && TableFor(raspored, hhmm, logs, cards)[i].ucionica == s.ucionica
  {
    var rooms := ScheduledRooms(raspored, hhmm);
    var merged := MergeRooms(rooms, AssignedAt(raspored, hhmm, logs, cards));
    var rows := TableFor(raspored, hhmm, logs, cards);
    ScheduledRoomsSpec(raspored, hhmm);
    MergeCoversRooms(rooms, AssignedAt(raspored, hhmm, logs, cards));
    forall s | s in raspored && HhMm(s.termin) == hhmm
      ensures exists i :: 0 <= i < |rows| && rows[i].ucionica == s.ucionica
    {
      assert s.ucionica in rooms;
      var r :| r in merged && r.ucionica == s.ucionica;
      assert r in multiset(rows);
      var i :| 0 <= i < |rows| && rows[i] == r;
    }
  }

  /** Only rooms scheduled at `hhmm` appear in the table. */
  lemma TableOnlyScheduled(raspored: seq<Slot>, hhmm: int, logs: seq<LogRow>, cards: seq<CardRow>)
    ensures forall r :: r in TableFor(raspored, hhmm, logs, cards) ==>
      exists s :: s in raspored && HhMm(s.termin) == hhmm && s.ucionica == r.ucionica
  {
    TableSpec(raspored, hhmm, logs, cards);
    ScheduledRoomsSpec(raspored, hhmm);
  }

  /** A row has no time exactly when its room has no assignment, and then its
      card and guard cells hold the placeholder too. */
  lemma TableDashRows(raspored: seq<Slot>, hhmm: int, logs: seq<LogRow>, cards: seq<CardRow>)
    ensures forall r :: r in TableFor(raspored, hhmm, logs, cards) ==>
      (r.vrijemePrijave.None? <==> !HasAssignment(r.ucionica, AssignedAt(raspored, hhmm, logs, cards)))
    ensures forall r :: r in TableFor(raspored, hhmm, logs, cards) && r.vrijemePrijave.None? ==>
      r.brojKartice == Dash && r.cuvar == Dash
  {
    TableSpec(raspored, hhmm, logs, cards);
  }

  /** Every assignment reaches the table: its room is scheduled at `hhmm`,
      since its window was built from a schedule row of that room. */
  lemma TableKeepsAssignments(raspored: seq<Slot>, hhmm: int, logs: seq<LogRow>, cards: seq<CardRow>)
    ensures forall a :: a in AssignedAt(raspored, hhmm, logs, cards) ==>
      AsTableRow(a) in TableFor(raspored, hhmm, logs, cards)
  {
    var windows := BuildWindowsForTime(raspored, hhmm);
    TableSpec(raspored, hhmm, logs, cards);
    ScheduledRoomsSpec(raspored, hhmm);
    AssignSound(logs, windows, cards);
    BuildWindowsSound(raspored, hhmm);
    forall a | a in AssignedAt(raspored, hhmm, logs, cards)
      ensures AsTableRow(a) in TableFor(raspored, hhmm, logs, cards)
    {
      var w :| w in windows && w.ucionica == a.ucionica && w.termin == a.termin
        && w.windowStart <= a.vrijemePrijave < w.windowEnd;
      var s :| s in raspored && HhMm(s.termin) == hhmm && w == WindowFor(s);
      assert a.ucionica in ScheduledRooms(raspored, hhmm);
      assert HasAssignment(a.ucionica, AssignedAt(raspored, hhmm, logs, cards));
    }
  }

  // ---------------------------------------------------------------------
  // Colour bands
  // ---------------------------------------------------------------------

  /** `str.replace('"', '\\"')`. */
  function Escape(s: string): string
  {
    if s == [] then [] else (if s[0] == '"' then ['\\', '"'] else [s[0]]) + Escape(s[1..])
  }

  /** The inverse of `Escape`: a backslash before a quote is dropped. */
  function Unescape(t: string): string
  {
    if |t| >= 2 && t[0] == '\\' && t[1] == '"' then ['"'] + Unescape(t[2..])
    else if t == [] then []
    else [t[0]] + Unescape(t[1..])
  }

  lemma EscapeHead(s: string)
    ensures Escape(s) == [] || Escape(s)[0] != '"'
  {
  }

  lemma {:induction false} EscapeRoundTrip(s: string)
    ensures Unescape(Escape(s)) == s
  {
    if s != [] {
      EscapeRoundTrip(s[1..]);
      var rest := Escape(s[1..]);
      if s[0] == '"' {
        assert Escape(s) == ['\\', '"'] + rest;
        assert Escape(s)[2..] == rest;
      } else {
        EscapeHead(s[1..]);
        assert Escape(s) == [s[0]] + rest;
        assert Escape(s)[1..] == rest;
      }
    }
  }

  /** The `filter_query` that selects a room's rows. */
  function FilterQuery(room: string): string
  {
    "{ucionica} = \"" + Escape(room) + "\""
  }

  /** Different rooms get different filter queries. */
  lemma FilterQueryInjective(a: string, b: string)
    ensures FilterQuery(a) == FilterQuery(b) ==> a == b
  {
    var p := "{ucionica} = \"";
    if FilterQuery(a) == FilterQuery(b) {
      var qa, qb := FilterQuery(a), FilterQuery(b);
      assert qa[|p|..|qa| - 1] == Escape(a);
      assert qb[|p|..|qb| - 1] == Escape(b);
      EscapeRoundTrip(a);
      EscapeRoundTrip(b);
    }
  }

  /** The style of the `i`-th room of `order`. */
  function StyleAt(order: seq<string>, i: nat): Style
    requires i < |order|
  {
    Style(FilterQuery(order[i]), Colors[i % 2])
  }

  /** One style per room of `order`, colours alternating by position. */
  function Stripes(order: seq<string>): seq<Style>
  {
    seq(|order|, i requires 0 <= i < |order| => StyleAt(order, i))
  }

  predicate NamedRoom(room: string)
  {
    room != ""
  }

  /** The non-empty `ucionica` values of the rows, in row order. */
  function RoomNames(rows: seq<TableRow>): seq<string>
  {
    Filter(NamedRoom, MapSeq(RowRoom, rows))
  }

  /** `rooms_order`: each non-empty room once, in the order first seen. */
  function FirstSeenRooms(rows: seq<TableRow>): seq<string>
  {
    DropDuplicates(Id, RoomNames(rows))
  }

  /** Seeing one more row appends its room if it is new and non-empty. */
  lemma FirstSeenStep(rows: seq<TableRow>, i: nat)
    requires i < |rows|
    ensures FirstSeenRooms(rows[..i + 1]) ==
      if rows[i].ucionica != "" && rows[i].ucionica !in FirstSeenRooms(rows[..i])
      then FirstSeenRooms(rows[..i]) + [rows[i].ucionica]
      else FirstSeenRooms(rows[..i])
  {
    var room := rows[i].ucionica;
    var before := MapSeq(RowRoom, rows[..i]);
    assert MapSeq(RowRoom, rows[..i + 1]) == before + [room];
    FilterAppend(NamedRoom, before, [room]);
    assert Filter(NamedRoom, [room]) == (if NamedRoom(room) then [room] else []) + Filter(NamedRoom, []);
    var names := RoomNames(rows[..i]);
    DropDuplicatesKeepsKeys(Id, names);
    HasRoomIsIn(room, names);
    HasRoomIsIn(room, FirstSeenRooms(rows[..i]));
    if NamedRoom(room) {
      assert RoomNames(rows[..i + 1]) == names + [room];
      assert (names + [room])[..|names|] == names;
    } else {
      assert RoomNames(rows[..i + 1]) == names;
    }
  }

  /** The rooms seen up to any row are a prefix of `rooms_order`. */
  lemma {:induction false} FirstSeenPrefix(rows: seq<TableRow>, n: nat)
    requires n <= |rows|
    ensures FirstSeenRooms(rows[..n]) <= FirstSeenRooms(rows)
    decreases |rows| - n
  {
    if n < |rows| {
      FirstSeenStep(rows, n);
      FirstSeenPrefix(rows, n + 1);
    } else {
      assert rows[..n] == rows;
    }
  }

  /** `rooms_order` holds exactly the non-empty rooms of the rows. */
  lemma FirstSeenMembers(rows: seq<TableRow>)
    ensures forall room :: room in FirstSeenRooms(rows) <==>
      room != "" && exists i :: 0 <= i < |rows| && rows[i].ucionica == room
  {
    var mapped := MapSeq(RowRoom, rows);
    var names := RoomNames(rows);
    FilterSpec(NamedRoom, mapped);
    DropDuplicatesKeepsKeys(Id, names);
    forall room ensures room in FirstSeenRooms(rows) <==>
      room != "" && exists i :: 0 <= i < |rows| && rows[i].ucionica == room
    {
      HasRoomIsIn(room, names);
      HasRoomIsIn(room, FirstSeenRooms(rows));
      if room in names {
        var k :| 0 <= k < |names| && names[k] == room;
        assert names[k] in mapped;
        var i :| 0 <= i < |mapped| && mapped[i] == room;
        assert rows[i].ucionica == room;
      }
      if room != "" && exists i :: 0 <= i < |rows| && rows[i].ucionica == room {
        var i :| 0 <= i < |rows| && rows[i].ucionica == room;
        assert NamedRoom(mapped[i]);
      }
    }
  }

  /** `rooms_order` lists no room twice. */
  lemma FirstSeenDistinct(rows: seq<TableRow>)
    ensures forall i, j :: 0 <= i < j < |FirstSeenRooms(rows)| ==> FirstSeenRooms(rows)[i] != FirstSeenRooms(rows)[j]
  {
    DropDuplicatesDistinct(Id, RoomNames(rows));
  }

  lemma SeenWithin(rows: seq<TableRow>, n: nat, room: string)
    requires n <= |rows|
    ensures room in FirstSeenRooms(rows[..n]) <==>
      room != "" && exists p :: 0 <= p < n && rows[p].ucionica == room
  {
    FirstSeenMembers(rows[..n]);
    if room != "" && exists p :: 0 <= p < n && rows[p].ucionica == room {
      var p :| 0 <= p < n && rows[p].ucionica == room;
      assert rows[..n][p] == rows[p];
    }
    if room in FirstSeenRooms(rows[..n]) {
      var p :| 0 <= p < n && rows[..n][p].ucionica == room;
      assert rows[p].ucionica == room;
    }
  }

  /** First-seen order: a room seen within the first `n` rows comes before
      every room not yet seen there. */
  lemma FirstSeenOrder(rows: seq<TableRow>, n: nat, i: nat, j: nat)
    requires n <= |rows| && i < |FirstSeenRooms(rows)| && j < |FirstSeenRooms(rows)|
    requires exists p :: 0 <= p < n && rows[p].ucionica == FirstSeenRooms(rows)[i]
    requires forall p :: 0 <= p < n ==> rows[p].ucionica != FirstSeenRooms(rows)[j]
    ensures i < j
  {
    var order := FirstSeenRooms(rows);
    var seen := FirstSeenRooms(rows[..n]);
    FirstSeenPrefix(rows, n);
    FirstSeenDistinct(rows);
    assert order[i] != "" by {
      FirstSeenMembers(rows);
      assert order[i] in order;
    }
    SeenWithin(rows, n, order[i]);
    SeenWithin(rows, n, order[j]);
    var k :| 0 <= k < |seen| && seen[k] == order[i];
    assert order[k] == order[i];
  }

  /** One style per non-empty room of the rows; no rows give no styles. */
  lemma StripesCoverRooms(rows: seq<TableRow>)
    ensures rows == [] ==> Stripes(FirstSeenRooms(rows)) == []
    ensures forall i :: 0 <= i < |rows| && rows[i].ucionica != "" ==>
      exists k :: 0 <= k < |Stripes(FirstSeenRooms(rows))| && Stripes(FirstSeenRooms(rows))[k].filterQuery == FilterQuery(rows[i].ucionica)
    ensures forall k :: 0 <= k < |Stripes(FirstSeenRooms(rows))| ==>
      exists i :: 0 <= i < |rows| && Stripes(FirstSeenRooms(rows))[k].filterQuery == FilterQuery(rows[i].ucionica)
  {
    var order := FirstSeenRooms(rows);
    var styles := Stripes(order);
    FirstSeenMembers(rows);
    forall i | 0 <= i < |rows| && rows[i].ucionica != ""
      ensures exists k :: 0 <= k < |styles| && styles[k].filterQuery == FilterQuery(rows[i].ucionica)
    {
      var room := rows[i].ucionica;
      assert room in order;
      var k :| 0 <= k < |order| && order[k] == room;
      assert styles[k] == StyleAt(order, k);
    }
    forall k | 0 <= k < |styles|
      ensures exists i :: 0 <= i < |rows| && styles[k].filterQuery == FilterQuery(rows[i].ucionica)
    {
      assert order[k] in order;
      var i :| 0 <= i < |rows| && rows[i].ucionica == order[k];
      assert styles[k] == StyleAt(order, k);
    }
  }

  /** Each style selects a different room, and neighbouring bands differ in colour. */
  lemma StripesDistinct(rows: seq<TableRow>)
    ensures forall k, l :: 0 <= k < l < |Stripes(FirstSeenRooms(rows))| ==>
      Stripes(FirstSeenRooms(rows))[k].filterQuery != Stripes(FirstSeenRooms(rows))[l].filterQuery
    ensures forall k :: 0 <= k < |Stripes(FirstSeenRooms(rows))| - 1 ==>
      Stripes(FirstSeenRooms(rows))[k].backgroundColor != Stripes(FirstSeenRooms(rows))[k + 1].backgroundColor
  {
    var order := FirstSeenRooms(rows);
    var styles := Stripes(order);
    FirstSeenDistinct(rows);
    forall k, l | 0 <= k < l < |styles| ensures styles[k].filterQuery != styles[l].filterQuery {
      FilterQueryInjective(order[k], order[l]);
      assert styles[k] == StyleAt(order, k) && styles[l] == StyleAt(order, l);
    }
    forall k | 0 <= k < |styles| - 1 ensures styles[k].backgroundColor != styles[k + 1].backgroundColor {
      assert styles[k] == StyleAt(order, k) && styles[k + 1] == StyleAt(order, k + 1);
    }
  }

  /** `make_group_stripes`. */
  method MakeGroupStripes(rows: seq<TableRow>) returns (styles: seq<Style>)
    ensures styles == Stripes(FirstSeenRooms(rows))
  {
    if rows == [] {
      return [];
    }
    var roomsOrder: seq<string> := [];
    var i := 0;
    while i < |rows|
      invariant 0 <= i <= |rows|
      invariant roomsOrder == FirstSeenRooms(rows[..i])
    {
      var room := rows[i].ucionica;
      FirstSeenStep(rows, i);
      if room != "" && room !in roomsOrder {
        roomsOrder := roomsOrder + [room];
      }
      i := i + 1;
    }
    assert rows[..i] == rows;
    styles := [];
    var k := 0;
    while k < |roomsOrder|
      invariant 0 <= k <= |roomsOrder|
      invariant |styles| == k
      invariant forall j :: 0 <= j < k ==> styles[j] == StyleAt(roomsOrder, j)
    {
      var color := Colors[k % 2];
      var escaped := Escape(roomsOrder[k]);
      styles := styles + [Style("{ucionica} = \"" + escaped + "\"", color)];
      k := k + 1;
    }
  }

  /** `refresh_table`: no date, no slot or an empty schedule give an empty
      table; otherwise the table at the chosen HH:MM and its colour bands. */
  method RefreshTable(datePicked: bool, selected: Option<int>, raspored: seq<Slot>, logs: seq<LogRow>, cards: seq<CardRow>)
    returns (rows: seq<TableRow>, styles: seq<Style>)
    ensures !datePicked || selected.None? || raspored == [] ==> rows == [] && styles == []
    ensures datePicked && selected.Some? ==> rows == TableFor(raspored, selected.value, logs, cards)
    ensures styles == Stripes(FirstSeenRooms(rows))
  {
    if !datePicked || selected.None? {
      return [], [];
    }
    if raspored == [] {
      TableSpec(raspored, selected.value, logs, cards);
      return [], [];
    }
    rows := TableFor(raspored, selected.value, logs, cards);
    styles := MakeGroupStripes(rows);
  }
}
