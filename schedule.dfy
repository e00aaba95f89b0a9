/** The day's schedule (`ispiti_raspored` rows): the entry windows built
    around the slots of one HH:MM (`build_windows_for_time`), the rooms
    scheduled at that HH:MM (`rooms_for_time`), and the HH:MM choices the
    slot dropdown offers (`update_termini`). */
module Schedule {
  import opened Collections
  import opened Ordering
  import opened Rooms

  /** Minutes before the slot at which its entry window opens. */
  const WindowBeforeMin: int := 60
  /** Minutes after the slot at which its entry window closes. */
  const WindowAfterMin: int := 30
  /** The slot the dropdown selects when the day has it: 18:30. */
  const DefaultSlot: int := 18 * 60 + 30

  /** A schedule row: the slot's timestamp, in seconds from a local midnight,
      and its (normalised) room. */
  datatype Slot = Slot(termin: int, ucionica: string)

  /** An entry window: the slot, its room and the interval
      `[windowStart, windowEnd)` in which a badge event counts for it. */
  datatype Window = Window(ucionica: string, termin: int, windowStart: int, windowEnd: int)

  /** The minute of the day that `strftime("%H:%M")` shows for a timestamp;
      comparing the zero-padded strings is comparing these numbers. */
  function HhMm(t: int): (m: int)
    ensures 0 <= m < 24 * 60
  {
    (t / 60) % (24 * 60)
  }

  function SlotAt(hhmm: int): Slot -> bool
  {
    (s: Slot) => HhMm(s.termin) == hhmm
  }

  function WindowFor(s: Slot): Window
  {
    Window(s.ucionica, s.termin, s.termin - WindowBeforeMin * 60, s.termin + WindowAfterMin * 60)
  }

  function SlotKey(w: Window): (string, int)
  {
    (w.ucionica, w.termin)
  }

  /** `build_windows_for_time`: one window `[termin - 60 min, termin + 30 min)`
      per schedule row at `hhmm`, duplicates of `(ucionica, termin)` dropped. */
  function BuildWindowsForTime(raspored: seq<Slot>, hhmm: int): seq<Window>
  {
    if raspored == [] then []
    else
      var at := Filter(SlotAt(hhmm), raspored);
      if at == [] then [] else DropDuplicates(SlotKey, MapSeq(WindowFor, at))
  }

  /** Every window is that of a schedule row at `hhmm`. */
  lemma BuildWindowsSound(raspored: seq<Slot>, hhmm: int)
    ensures forall w :: w in BuildWindowsForTime(raspored, hhmm) ==>
      exists s :: s in raspored && HhMm(s.termin) == hhmm && w == WindowFor(s)
  {
    var ws := BuildWindowsForTime(raspored, hhmm);
    if raspored != [] {
      var at := Filter(SlotAt(hhmm), raspored);
      var all := MapSeq(WindowFor, at);
      if at != [] {
        FilterSpec(SlotAt(hhmm), raspored);
        DropDuplicatesSubset(SlotKey, all);
        forall w | w in ws ensures exists s :: s in raspored && HhMm(s.termin) == hhmm && w == WindowFor(s) {
          var j :| 0 <= j < |ws| && ws[j] == w;
          var i :| 0 <= i < |all| && all[i] == w;
          assert at[i] in raspored && SlotAt(hhmm)(at[i]);
        }
      }
    }
  }

  /** Every schedule row at `hhmm` has its window. */
  lemma BuildWindowsComplete(raspored: seq<Slot>, hhmm: int)
    ensures forall s :: s in raspored && HhMm(s.termin) == hhmm ==>
      WindowFor(s) in BuildWindowsForTime(raspored, hhmm)
  {
    var ws := BuildWindowsForTime(raspored, hhmm);
    var at := Filter(SlotAt(hhmm), raspored);
    var all := MapSeq(WindowFor, at);
    FilterSpec(SlotAt(hhmm), raspored);
    forall s | s in raspored && HhMm(s.termin) == hhmm ensures WindowFor(s) in ws {
      var i :| 0 <= i < |raspored| && raspored[i] == s;
      assert SlotAt(hhmm)(raspored[i]);
      var k :| 0 <= k < |at| && at[k] == s;
      assert all[k] == WindowFor(s);
      assert HasKey(SlotKey, SlotKey(WindowFor(s)), all);
      DropDuplicatesKeepsKeys(SlotKey, all);
      DropDuplicatesSubset(SlotKey, all);
      var j :| 0 <= j < |ws| && SlotKey(ws[j]) == SlotKey(WindowFor(s));
      var m :| 0 <= m < |all| && all[m] == ws[j];
      assert ws[j] == WindowFor(s);
    }
  }

  /** The windows are exactly those of the schedule rows at `hhmm`, each
      opening 60 minutes before and closing 30 minutes after its slot, with no
      two for the same room and slot; an empty schedule gives none. */
  lemma BuildWindowsForTimeSpec(raspored: seq<Slot>, hhmm: int)
    ensures var ws := BuildWindowsForTime(raspored, hhmm);
      && (raspored == [] ==> ws == [])
      && (forall w :: w in ws <==> exists s :: s in raspored && HhMm(s.termin) == hhmm && w == WindowFor(s))
      && (forall w :: w in ws ==>
            && HhMm(w.termin) == hhmm
            && w.windowStart == w.termin - 60 * 60
            && w.windowEnd == w.termin + 30 * 60
            && w.windowStart < w.windowEnd)
      && (forall i, j :: 0 <= i < j < |ws| ==> SlotKey(ws[i]) != SlotKey(ws[j]))
  {
    BuildWindowsSound(raspored, hhmm);
    BuildWindowsComplete(raspored, hhmm);
    var at := Filter(SlotAt(hhmm), raspored);
    if raspored != [] && at != [] {
      DropDuplicatesDistinct(SlotKey, MapSeq(WindowFor, at));
    }
  }

  /** A schedule row that carries its room's join key (`room_key`). */
  datatype KeyedSlot = KeyedSlot(termin: int, ucionica: string, roomKey: string)

  /** A row of `rooms_for_time`: the room as shown, its join key, and the HH:MM. */
  datatype RoomRow = RoomRow(ucionica: string, roomKey: string, terminHhmm: int)

  function KeyedSlotAt(hhmm: int): KeyedSlot -> bool
  {
    (k: KeyedSlot) => HhMm(k.termin) == hhmm
  }

  function RoomRowAt(hhmm: int): KeyedSlot -> RoomRow
  {
    (k: KeyedSlot) => RoomRow(k.ucionica, k.roomKey, hhmm)
  }

  function RoomKeyOf(r: RoomRow): string
  {
    r.roomKey
  }

  function RoomLabel(r: RoomRow): string
  {
    r.ucionica
  }

  /** `rooms_for_time`: the rows scheduled at `hhmm`, one per room key, in
      natural room order. */
  function RoomsForTime(raspored: seq<KeyedSlot>, hhmm: int): seq<RoomRow>
  {
    if raspored == [] then []
    else
      var rows := MapSeq(RoomRowAt(hhmm), Filter(KeyedSlotAt(hhmm), raspored));
      SortRoomsNatural(DropDuplicates(RoomKeyOf, rows), RoomLabel, NoColumns)
  }

  /** `rooms_for_time` lists each room key once, in natural room order, and
      nothing for an empty schedule. */
  lemma RoomsForTimeSpec(raspored: seq<KeyedSlot>, hhmm: int)
    ensures raspored == [] ==> RoomsForTime(raspored, hhmm) == []
    ensures forall i, j :: 0 <= i < j < |RoomsForTime(raspored, hhmm)| ==>
      RoomsForTime(raspored, hhmm)[i].roomKey != RoomsForTime(raspored, hhmm)[j].roomKey
    ensures SortedByKey(NaturalOrder(RoomLabel, NoColumns), RoomsForTime(raspored, hhmm))
  {
    if raspored != [] {
      var rows := MapSeq(RoomRowAt(hhmm), Filter(KeyedSlotAt(hhmm), raspored));
      DropDuplicatesDistinct(RoomKeyOf, rows);
      DistinctKeysPermutation(RoomKeyOf, DropDuplicates(RoomKeyOf, rows), RoomsForTime(raspored, hhmm));
    }
  }

  /** Each row carries `hhmm` and the room and key of a schedule row at `hhmm`. */
  lemma RoomsForTimeSound(raspored: seq<KeyedSlot>, hhmm: int)
    ensures forall r :: r in RoomsForTime(raspored, hhmm) ==>
            && r.terminHhmm == hhmm
            && exists k :: k in raspored && HhMm(k.termin) == hhmm
                 && k.ucionica == r.ucionica && k.roomKey == r.roomKey
  {
    if raspored != [] {
      var out := RoomsForTime(raspored, hhmm);
      var at := Filter(KeyedSlotAt(hhmm), raspored);
      var rows := MapSeq(RoomRowAt(hhmm), at);
      var d := DropDuplicates(RoomKeyOf, rows);
      FilterSpec(KeyedSlotAt(hhmm), raspored);
      DropDuplicatesSubset(RoomKeyOf, rows);
      assert multiset(out) == multiset(d);
      forall r | r in out ensures r.terminHhmm == hhmm
        && exists k :: k in raspored && HhMm(k.termin) == hhmm
             && k.ucionica == r.ucionica && k.roomKey == r.roomKey
      {
        assert r in multiset(d);
        var j :| 0 <= j < |d| && d[j] == r;
        var i :| 0 <= i < |rows| && rows[i] == r;
        assert at[i] in raspored && KeyedSlotAt(hhmm)(at[i]);
      }
    }
  }

  /** Schedule row `i` is at `hhmm`, and no earlier row at `hhmm` has its room key. */
  predicate FirstOfKeyAt(raspored: seq<KeyedSlot>, hhmm: int, i: int)
  {
    && 0 <= i < |raspored|
    && HhMm(raspored[i].termin) == hhmm
    && forall j :: 0 <= j < i && HhMm(raspored[j].termin) == hhmm ==> raspored[j].roomKey != raspored[i].roomKey
  }

  /** `drop_duplicates(subset=["room_key"])` keeps the first schedule row at
      `hhmm` of each key, so a row shows that row's `ucionica`. */
  lemma RoomsForTimeFirst(raspored: seq<KeyedSlot>, hhmm: int)
    ensures forall r :: r in RoomsForTime(raspored, hhmm) ==>
      exists i :: FirstOfKeyAt(raspored, hhmm, i) && raspored[i].roomKey == r.roomKey && raspored[i].ucionica == r.ucionica
  {
    if raspored != [] {
      var out := RoomsForTime(raspored, hhmm);
      var d := DropDuplicates(RoomKeyOf, MapSeq(RoomRowAt(hhmm), Filter(KeyedSlotAt(hhmm), raspored)));
      forall r | r in out
        ensures exists i :: FirstOfKeyAt(raspored, hhmm, i) && raspored[i].roomKey == r.roomKey && raspored[i].ucionica == r.ucionica
      {
        assert r in d by { assert r in multiset(d); }
        var i := DropDuplicatesOfMaskedFirst(KeyedSlotAt(hhmm), RoomRowAt(hhmm), RoomKeyOf, raspored, r);
        assert FirstOfKeyAt(raspored, hhmm, i);
      }
    }
  }

  /** Every room key scheduled at `hhmm` has a row. */
  lemma RoomsForTimeComplete(raspored: seq<KeyedSlot>, hhmm: int)
    ensures forall k :: k in raspored && HhMm(k.termin) == hhmm ==>
      exists r :: r in RoomsForTime(raspored, hhmm) && r.roomKey == k.roomKey
  {
    var out := RoomsForTime(raspored, hhmm);
    var at := Filter(KeyedSlotAt(hhmm), raspored);
    var rows := MapSeq(RoomRowAt(hhmm), at);
    var d := DropDuplicates(RoomKeyOf, rows);
    FilterSpec(KeyedSlotAt(hhmm), raspored);
    forall k | k in raspored && HhMm(k.termin) == hhmm ensures exists r :: r in out && r.roomKey == k.roomKey {
      var i :| 0 <= i < |raspored| && raspored[i] == k;
      assert KeyedSlotAt(hhmm)(raspored[i]);
      var m :| 0 <= m < |at| && at[m] == k;
      assert RoomKeyOf(rows[m]) == k.roomKey;
      assert HasKey(RoomKeyOf, k.roomKey, rows);
      DropDuplicatesKeepsKeys(RoomKeyOf, rows);
      var j :| 0 <= j < |d| && RoomKeyOf(d[j]) == k.roomKey;
      assert d[j] in multiset(out);
    }
  }

  /** The dropdown's choices for one day (`update_termini`). */
  datatype SlotChoice = SlotChoice(options: seq<int>, value: Option<int>)

  function Minute(s: Slot): int
  {
    HhMm(s.termin)
  }

  function MinuteKey(m: int): seq<Value>
  {
    [Num(m)]
  }

  /** `update_termini` on a fetched schedule: the day's distinct HH:MM in
      ascending order, selecting 18:30 if the day has it and else the first;
      nothing for an empty schedule. */
  function SlotChoices(raspored: seq<Slot>): SlotChoice
  {
    if raspored == [] then SlotChoice([], None)
    else
      var times := SortByKey(MinuteKey, DropDuplicates(Id, MapSeq(Minute, raspored)));
      SlotChoice(times, if DefaultSlot in times then Some(DefaultSlot)
                        else if times != [] then Some(times[0]) else None)
  }

  /** The options are strictly ascending and are exactly the day's HH:MM
      values; the selection is 18:30 when offered and else the earliest, and
      there is a selection exactly when the schedule is not empty. */
  lemma SlotChoicesSpec(raspored: seq<Slot>)
    ensures var c := SlotChoices(raspored);
      && (forall i, j :: 0 <= i < j < |c.options| ==> c.options[i] < c.options[j])
      && (forall m :: m in c.options <==> exists s :: s in raspored && HhMm(s.termin) == m)
      && (c.value.Some? <==> raspored != [])
      && (DefaultSlot in c.options ==> c.value == Some(DefaultSlot))
      && (DefaultSlot !in c.options && raspored != [] ==> c.value == Some(c.options[0]))
  {
    var c := SlotChoices(raspored);
    if raspored != [] {
      SlotOptionsAreDayMinutes(raspored);
      assert raspored[0] in raspored;
      assert Minute(raspored[0]) in c.options;
      var ms := MapSeq(Minute, raspored);
      DropDuplicatesDistinct(Id, ms);
      DistinctKeysPermutation(Id, DropDuplicates(Id, ms), c.options);
      forall i, j | 0 <= i < j < |c.options| ensures c.options[i] < c.options[j] {
        assert KeyLe(MinuteKey(c.options[i]), MinuteKey(c.options[j]));
        KeyLeCons(Num(c.options[i]), [], Num(c.options[j]), []);
      }
    }
  }

  lemma SlotOptionsAreDayMinutes(raspored: seq<Slot>)
    ensures forall m :: m in SlotChoices(raspored).options <==>
      exists s :: s in raspored && HhMm(s.termin) == m
  {
    if raspored != [] {
      var ms := MapSeq(Minute, raspored);
      var d := DropDuplicates(Id, ms);
      var times := SlotChoices(raspored).options;
      assert multiset(times) == multiset(d);
      forall m | m in times ensures exists s :: s in raspored && HhMm(s.termin) == m {
        DropDuplicatesSubset(Id, ms);
        assert m in multiset(d);
        var j :| 0 <= j < |d| && d[j] == m;
        var i :| 0 <= i < |ms| && ms[i] == m;
        assert raspored[i] in raspored;
      }
      forall s | s in raspored ensures HhMm(s.termin) in times {
        DayMinuteOffered(raspored, s);
      }
    }
  }

  lemma DayMinuteOffered(raspored: seq<Slot>, s: Slot)
    requires s in raspored
    ensures HhMm(s.termin) in SlotChoices(raspored).options
  {
    var ms := MapSeq(Minute, raspored);
    var d := DropDuplicates(Id, ms);
    var i :| 0 <= i < |raspored| && raspored[i] == s;
    assert Id(ms[i]) == HhMm(s.termin);
    assert HasKey(Id, HhMm(s.termin), ms);
    DropDuplicatesKeepsKeys(Id, ms);
    var j :| 0 <= j < |d| && Id(d[j]) == HhMm(s.termin);
    assert d[j] in multiset(SlotChoices(raspored).options);
  }
}
