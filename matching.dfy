/** `assign_logs_to_terms`: badge-log rows are joined to the card directory
    (left join, for the guard's name) and to the entry windows of their room
    (inner join); pairs whose log time lies in the window are kept; of the
    pairs for one `(time, room, card)` the one nearest to its slot survives;
    the result is ordered by room and time. */
module Matching {
  import opened Collections
  import opened Ordering
  import opened Schedule

  /** A badge-log row (`acc_monitor_log`): time in seconds, card UID, room. */
  datatype LogRow = LogRow(time: int, uidKartice: string, ucionica: string)

  /** A card-directory row (`cuvari_kartice`): guard name and card UID. */
  datatype CardRow = CardRow(cuvar: string, uidKartice: string)

  /** A log row after the left join with the card directory; `cuvar` is
      `None` when the directory has no row for the card. */
  datatype Event = Event(time: int, uidKartice: string, ucionica: string, cuvar: Option<string>)

  /** A row of the inner join of events with windows on the room. */
  datatype Candidate = Candidate(event: Event, window: Window)

  /** A result row: ucionica, vrijeme_prijave, broj_kartice, cuvar, termin. */
  datatype Assignment = Assignment(
    ucionica: string, vrijemePrijave: int, brojKartice: string, cuvar: Option<string>, termin: int)

  function Abs(x: int): nat
  {
    if x < 0 then -x else x
  }

  // ---------------------------------------------------------------------
  // The joins
  // ---------------------------------------------------------------------

  function EventOf(l: LogRow, cuvar: Option<string>): Event
  {
    Event(l.time, l.uidKartice, l.ucionica, cuvar)
  }

  function CardFor(uid: string): CardRow -> bool
  {
    (c: CardRow) => c.uidKartice == uid
  }

  function GuardedEvent(l: LogRow): CardRow -> Event
  {
    (c: CardRow) => EventOf(l, Some(c.cuvar))
  }

  /** The left join of one log row: one event per directory row of its card,
      or one event without a guard when there is none. */
  function EventsOf(l: LogRow, cards: seq<CardRow>): seq<Event>
  {
    var m := Filter(CardFor(l.uidKartice), cards);
    if m == [] then [EventOf(l, None)] else MapSeq(GuardedEvent(l), m)
  }

  /** `log_df.merge(kartice, on="uid_kartice", how="left")`. */
  function LeftJoinCards(logs: seq<LogRow>, cards: seq<CardRow>): seq<Event>
  {
    if logs == [] then [] else EventsOf(logs[0], cards) + LeftJoinCards(logs[1..], cards)
  }

  function WindowOfRoom(room: string): Window -> bool
  {
    (w: Window) => w.ucionica == room
  }

  function PairWith(e: Event): Window -> Candidate
  {
    (w: Window) => Candidate(e, w)
  }

  /** `df.merge(windows, on="ucionica", how="inner")`. */
  function JoinWindows(events: seq<Event>, windows: seq<Window>): seq<Candidate>
  {
    if events == [] then []
    else
      MapSeq(PairWith(events[0]), Filter(WindowOfRoom(events[0].ucionica), windows))
      + JoinWindows(events[1..], windows)
  }

  /** The guard name the left join can give a card: the name of one of its
      directory rows, or none when the directory has no row for it. */
  predicate GuardOf(cuvar: Option<string>, uid: string, cards: seq<CardRow>)
  {
    match cuvar
    case None => forall c :: c in cards ==> c.uidKartice != uid
    case Some(name) => CardRow(name, uid) in cards
  }

  /** The left join yields, for every log row, exactly the events that carry
      a guard name the directory gives its card. */
  lemma {:induction false} EventsOfSpec(l: LogRow, cards: seq<CardRow>)
    ensures forall e :: e in EventsOf(l, cards) <==> e == EventOf(l, e.cuvar) && GuardOf(e.cuvar, l.uidKartice, cards)
  {
    var m := Filter(CardFor(l.uidKartice), cards);
    FilterSpec(CardFor(l.uidKartice), cards);
    forall e ensures e in EventsOf(l, cards) <==> e == EventOf(l, e.cuvar) && GuardOf(e.cuvar, l.uidKartice, cards) {
      if m == [] {
        if e.cuvar.None? && e == EventOf(l, e.cuvar) {
          forall c | c in cards ensures c.uidKartice != l.uidKartice {
            var i :| 0 <= i < |cards| && cards[i] == c;
            assert !CardFor(l.uidKartice)(cards[i]);
          }
        }
      } else {
        if e in EventsOf(l, cards) {
          var i :| 0 <= i < |m| && MapSeq(GuardedEvent(l), m)[i] == e;
          assert m[i] in cards && CardFor(l.uidKartice)(m[i]);
          assert m[i] == CardRow(e.cuvar.value, l.uidKartice);
        }
        if e == EventOf(l, e.cuvar) && GuardOf(e.cuvar, l.uidKartice, cards) {
          assert m[0] in cards && CardFor(l.uidKartice)(m[0]);
          assert e.cuvar.Some?;
          var c := CardRow(e.cuvar.value, l.uidKartice);
          var i :| 0 <= i < |cards| && cards[i] == c;
          assert CardFor(l.uidKartice)(cards[i]);
          var k :| 0 <= k < |m| && m[k] == c;
          assert MapSeq(GuardedEvent(l), m)[k] == e;
        }
      }
    }
  }

  /** `LeftJoinCards` keeps every log row (none is dropped for a missing
      card) and adds exactly the guard names the directory gives its card. */
  lemma {:induction false} LeftJoinCardsSpec(logs: seq<LogRow>, cards: seq<CardRow>)
    ensures forall e :: e in LeftJoinCards(logs, cards) <==>
      exists l :: l in logs && e == EventOf(l, e.cuvar) && GuardOf(e.cuvar, l.uidKartice, cards)
  {
    if logs != [] {
      LeftJoinCardsSpec(logs[1..], cards);
      EventsOfSpec(logs[0], cards);
      forall e ensures e in LeftJoinCards(logs, cards) <==>
        exists l :: l in logs && e == EventOf(l, e.cuvar) && GuardOf(e.cuvar, l.uidKartice, cards)
      {
        if exists l :: l in logs && e == EventOf(l, e.cuvar) && GuardOf(e.cuvar, l.uidKartice, cards) {
          var l :| l in logs && e == EventOf(l, e.cuvar) && GuardOf(e.cuvar, l.uidKartice, cards);
          if l != logs[0] {
            var i :| 0 <= i < |logs| && logs[i] == l;
            assert logs[1..][i - 1] == l;
          }
        }
        if e in LeftJoinCards(logs[1..], cards) {
          var l :| l in logs[1..] && e == EventOf(l, e.cuvar) && GuardOf(e.cuvar, l.uidKartice, cards);
          assert l in logs;
        }
        if e in EventsOf(logs[0], cards) {
          assert logs[0] in logs;
        }
      }
    }
  }

  /** Every log row has at least one event in the left join. */
  lemma EventForEveryLog(logs: seq<LogRow>, cards: seq<CardRow>, l: LogRow) returns (e: Event)
    requires l in logs
    ensures e in LeftJoinCards(logs, cards) && e == EventOf(l, e.cuvar)
    ensures GuardOf(e.cuvar, l.uidKartice, cards)
  {
    var m := Filter(CardFor(l.uidKartice), cards);
    FilterSpec(CardFor(l.uidKartice), cards);
    if m == [] {
      e := EventOf(l, None);
      forall c | c in cards ensures c.uidKartice != l.uidKartice {
        var i :| 0 <= i < |cards| && cards[i] == c;
        assert !CardFor(l.uidKartice)(cards[i]);
      }
    } else {
      assert m[0] in cards && CardFor(l.uidKartice)(m[0]);
      e := EventOf(l, Some(m[0].cuvar));
    }
    LeftJoinCardsSpec(logs, cards);
  }

  /** The inner join on the room holds exactly the event/window pairs of one room. */
  lemma {:induction false} JoinWindowsSpec(events: seq<Event>, windows: seq<Window>)
    ensures forall c :: c in JoinWindows(events, windows) <==>
      c.event in events && c.window in windows && c.window.ucionica == c.event.ucionica
  {
    if events != [] {
      JoinWindowsSpec(events[1..], windows);
      var e := events[0];
      var ws := Filter(WindowOfRoom(e.ucionica), windows);
      FilterSpec(WindowOfRoom(e.ucionica), windows);
      var head := MapSeq(PairWith(e), ws);
      forall c ensures c in JoinWindows(events, windows) <==>
        c.event in events && c.window in windows && c.window.ucionica == c.event.ucionica
      {
        if c in head {
          var i :| 0 <= i < |head| && head[i] == c;
          assert ws[i] in windows && WindowOfRoom(e.ucionica)(ws[i]);
        }
        if c.event in events && c.window in windows && c.window.ucionica == c.event.ucionica {
          if c.event == e {
            var i :| 0 <= i < |windows| && windows[i] == c.window;
            assert WindowOfRoom(e.ucionica)(windows[i]);
            var k :| 0 <= k < |ws| && ws[k] == c.window;
            assert head[k] == c;
          } else {
            var i :| 0 <= i < |events| && events[i] == c.event;
            assert events[1..][i - 1] == c.event;
          }
        }
        if c.event in events[1..] {
          assert c.event in events;
        }
      }
    }
  }

  // ---------------------------------------------------------------------
  // Window test, nearest slot, output order
  // ---------------------------------------------------------------------

  predicate InWindow(c: Candidate)
  {
    c.window.windowStart <= c.event.time < c.window.windowEnd
  }

  /** `delta = |time - termin|`. */
  function Delta(c: Candidate): nat
  {
    Abs(c.event.time - c.window.termin)
  }

  /** `sort_values(["time", "ucionica", "delta"])`. */
  function CandidateOrder(c: Candidate): seq<Value>
  {
    [Num(c.event.time), Text(c.event.ucionica), Num(Delta(c))]
  }

  /** `drop_duplicates(subset=["time", "ucionica", "uid_kartice"])`. */
  function MatchKey(c: Candidate): (int, string, string)
  {
    (c.event.time, c.event.ucionica, c.event.uidKartice)
  }

  function AssignmentKey(a: Assignment): (int, string, string)
  {
    (a.vrijemePrijave, a.ucionica, a.brojKartice)
  }

  function ToAssignment(c: Candidate): Assignment
  {
    Assignment(c.event.ucionica, c.event.time, c.event.uidKartice, c.event.cuvar, c.window.termin)
  }

  /** `sort_values(["ucionica", "vrijeme_prijave"])`. */
  function OutputOrder(a: Assignment): seq<Value>
  {
    [Text(a.ucionica), Num(a.vrijemePrijave)]
  }

  /** The joined pairs whose log time lies in the window. */
  function Candidates(logs: seq<LogRow>, windows: seq<Window>, cards: seq<CardRow>): seq<Candidate>
  {
    Filter(InWindow, JoinWindows(LeftJoinCards(logs, cards), windows))
  }

  /** The candidates sorted by time, room and distance to the slot. */
  function ByDistance(logs: seq<LogRow>, windows: seq<Window>, cards: seq<CardRow>): seq<Candidate>
  {
    SortByKey(CandidateOrder, Candidates(logs, windows, cards))
  }

  /** The first, hence nearest, candidate of each `(time, room, card)`. */
  function Nearest(logs: seq<LogRow>, windows: seq<Window>, cards: seq<CardRow>): seq<Candidate>
  {
    DropDuplicates(MatchKey, ByDistance(logs, windows, cards))
  }

  /** `assign_logs_to_terms`. */
  function AssignLogsToTerms(logs: seq<LogRow>, windows: seq<Window>, cards: seq<CardRow>): seq<Assignment>
  {
    if logs == [] || windows == [] then []
    else SortByKey(OutputOrder, MapSeq(ToAssignment, Nearest(logs, windows, cards)))
  }

  /** A candidate is a joined pair of one room whose log time lies in the window. */
  lemma CandidatesSpec(logs: seq<LogRow>, windows: seq<Window>, cards: seq<CardRow>)
    ensures forall c :: c in Candidates(logs, windows, cards) <==>
      c.event in LeftJoinCards(logs, cards) && c.window in windows
      && c.window.ucionica == c.event.ucionica && InWindow(c)
  {
    var joined := JoinWindows(LeftJoinCards(logs, cards), windows);
    JoinWindowsSpec(LeftJoinCards(logs, cards), windows);
    FilterSpec(InWindow, joined);
    forall c ensures c in Candidates(logs, windows, cards) <==> c in joined && InWindow(c) {
      if c in joined && InWindow(c) {
        var i :| 0 <= i < |joined| && joined[i] == c;
        assert InWindow(joined[i]);
      }
    }
  }

  /** Where a result row comes from: a candidate that is the first of its
      `(time, room, card)` in the distance order. */
  lemma OriginOf(logs: seq<LogRow>, windows: seq<Window>, cards: seq<CardRow>, a: Assignment)
    returns (y: Candidate, f: nat)
    requires a in AssignLogsToTerms(logs, windows, cards)
    ensures logs != [] && windows != []
    ensures a == ToAssignment(y) && y in Candidates(logs, windows, cards)
    ensures f < |ByDistance(logs, windows, cards)| && ByDistance(logs, windows, cards)[f] == y
    ensures forall j :: 0 <= j < f ==> MatchKey(ByDistance(logs, windows, cards)[j]) != MatchKey(y)
  {
    var sorted := ByDistance(logs, windows, cards);
    var nearest := Nearest(logs, windows, cards);
    var mapped := MapSeq(ToAssignment, nearest);
    assert a in multiset(mapped);
    var k :| 0 <= k < |mapped| && mapped[k] == a;
    y := nearest[k];
    DropDuplicatesFirst(MatchKey, sorted);
    f := FirstIndex(MatchKey, MatchKey(y), sorted);
    assert y in multiset(sorted);
  }

  // ---------------------------------------------------------------------
  // What the result promises
  // ---------------------------------------------------------------------

  /** An empty log or an empty window table gives an empty result. */
  lemma AssignEmpty(logs: seq<LogRow>, windows: seq<Window>, cards: seq<CardRow>)
    ensures logs == [] || windows == [] ==> AssignLogsToTerms(logs, windows, cards) == []
    ensures logs != [] && windows != [] && AssignLogsToTerms(logs, windows, cards) == [] ==>
      Candidates(logs, windows, cards) == []
  {
    if logs != [] && windows != [] && Candidates(logs, windows, cards) != [] {
      var sorted := ByDistance(logs, windows, cards);
      assert sorted != [] by {
        assert |sorted| == |Candidates(logs, windows, cards)|;
      }
      assert HasKey(MatchKey, MatchKey(sorted[0]), sorted);
      DropDuplicatesKeepsKeys(MatchKey, sorted);
    }
  }

  /** Containment: each result row is a log row of its room whose time lies
      in a window of that room, `termin` is that window's slot, and the guard
      is one the directory gives the card (none if the card is unknown). */
  lemma AssignSound(logs: seq<LogRow>, windows: seq<Window>, cards: seq<CardRow>)
    ensures forall a :: a in AssignLogsToTerms(logs, windows, cards) ==>
      && GuardOf(a.cuvar, a.brojKartice, cards)
      && (exists l :: l in logs && l == LogRow(a.vrijemePrijave, a.brojKartice, a.ucionica))
      && (exists w :: w in windows && w.ucionica == a.ucionica && w.termin == a.termin
            && w.windowStart <= a.vrijemePrijave < w.windowEnd)
  {
    forall a | a in AssignLogsToTerms(logs, windows, cards)
      ensures GuardOf(a.cuvar, a.brojKartice, cards)
      ensures exists l :: l in logs && l == LogRow(a.vrijemePrijave, a.brojKartice, a.ucionica)
      ensures exists w :: (w in windows && w.ucionica == a.ucionica && w.termin == a.termin
            && w.windowStart <= a.vrijemePrijave < w.windowEnd)
    {
      var y, f := OriginOf(logs, windows, cards, a);
      CandidatesSpec(logs, windows, cards);
      LeftJoinCardsSpec(logs, cards);
      var l :| l in logs && y.event == EventOf(l, y.event.cuvar) && GuardOf(y.event.cuvar, l.uidKartice, cards);
      assert l == LogRow(a.vrijemePrijave, a.brojKartice, a.ucionica);
      assert y.window in windows;
    }
  }

  /** Completeness: every log row whose time lies in a window of its room
      gives a result row with its time, room and card. */
  lemma AssignComplete(logs: seq<LogRow>, windows: seq<Window>, cards: seq<CardRow>)
    ensures forall l, w ::
      (l in logs && w in windows && w.ucionica == l.ucionica && w.windowStart <= l.time < w.windowEnd) ==>
        exists a :: a in AssignLogsToTerms(logs, windows, cards) && AssignmentKey(a) == (l.time, l.ucionica, l.uidKartice)
  {
    forall l, w | l in logs && w in windows && w.ucionica == l.ucionica && w.windowStart <= l.time < w.windowEnd
      ensures exists a :: a in AssignLogsToTerms(logs, windows, cards) && AssignmentKey(a) == (l.time, l.ucionica, l.uidKartice)
    {
      var e := EventForEveryLog(logs, cards, l);
      var c := Candidate(e, w);
      assert c in Candidates(logs, windows, cards) by {
        CandidatesSpec(logs, windows, cards);
      }
      var a := CandidateReachesResult(logs, windows, cards, c);
    }
  }

  /** Every candidate's `(time, room, card)` is the key of a result row. */
  lemma CandidateReachesResult(logs: seq<LogRow>, windows: seq<Window>, cards: seq<CardRow>, c: Candidate)
    returns (a: Assignment)
    requires logs != [] && windows != []
    requires c in Candidates(logs, windows, cards)
    ensures a in AssignLogsToTerms(logs, windows, cards) && AssignmentKey(a) == MatchKey(c)
  {
    var sorted := ByDistance(logs, windows, cards);
    assert c in sorted by { assert c in multiset(sorted); }
    var nearest := Nearest(logs, windows, cards);
    var k := DropDuplicatesRepresents(MatchKey, sorted, c);
    a := MapSeq(ToAssignment, nearest)[k];
    assert a in multiset(AssignLogsToTerms(logs, windows, cards));
  }

  /** A card missing from the directory still yields its row, without a guard. */
  lemma AssignUnknownCard(logs: seq<LogRow>, windows: seq<Window>, cards: seq<CardRow>, l: LogRow, w: Window)
    requires l in logs && w in windows && w.ucionica == l.ucionica && w.windowStart <= l.time < w.windowEnd
    requires forall c :: c in cards ==> c.uidKartice != l.uidKartice
    ensures exists a :: (a in AssignLogsToTerms(logs, windows, cards)
      && AssignmentKey(a) == (l.time, l.ucionica, l.uidKartice) && a.cuvar == None)
  {
    AssignComplete(logs, windows, cards);
    AssignSound(logs, windows, cards);
    var a :| a in AssignLogsToTerms(logs, windows, cards) && AssignmentKey(a) == (l.time, l.ucionica, l.uidKartice);
  }

  /** Uniqueness: no two result rows share `(time, room, card)`. */
  lemma AssignUnique(logs: seq<LogRow>, windows: seq<Window>, cards: seq<CardRow>)
    ensures var out := AssignLogsToTerms(logs, windows, cards);
      forall i, j :: 0 <= i < j < |out| ==> AssignmentKey(out[i]) != AssignmentKey(out[j])
  {
    if logs != [] && windows != [] {
      var nearest := Nearest(logs, windows, cards);
      var mapped := MapSeq(ToAssignment, nearest);
      DropDuplicatesDistinct(MatchKey, ByDistance(logs, windows, cards));
      assert forall i :: 0 <= i < |mapped| ==> AssignmentKey(mapped[i]) == MatchKey(nearest[i]);
      DistinctKeysPermutation(AssignmentKey, mapped, AssignLogsToTerms(logs, windows, cards));
    }
  }

  lemma CandidateOrderLe(c: Candidate, d: Candidate)
    requires c.event.time == d.event.time && c.event.ucionica == d.event.ucionica
    requires KeyLe(CandidateOrder(c), CandidateOrder(d))
    ensures Delta(c) <= Delta(d)
  {
    var t, r := Num(c.event.time), Text(c.event.ucionica);
    assert CandidateOrder(c) == [t] + ([r] + [Num(Delta(c))]);
    assert CandidateOrder(d) == [t] + ([r] + [Num(Delta(d))]);
    ValueLtIrreflexive(t);
    ValueLtIrreflexive(r);
    KeyLeCons(t, [r] + [Num(Delta(c))], t, [r] + [Num(Delta(d))]);
    KeyLeCons(r, [Num(Delta(c))], r, [Num(Delta(d))]);
    KeyLeCons(Num(Delta(c)), [], Num(Delta(d)), []);
  }

  /** The slot of one result row against one other window of its room. */
  lemma NearestAgainst(logs: seq<LogRow>, windows: seq<Window>, cards: seq<CardRow>, a: Assignment, w: Window)
    requires a in AssignLogsToTerms(logs, windows, cards) && w in windows
    requires w.ucionica == a.ucionica && w.windowStart <= a.vrijemePrijave < w.windowEnd
    ensures Abs(a.vrijemePrijave - a.termin) <= Abs(a.vrijemePrijave - w.termin)
  {
    var y, f := OriginOf(logs, windows, cards, a);
    var sorted := ByDistance(logs, windows, cards);
    var c := Candidate(y.event, w);
    assert c in Candidates(logs, windows, cards) by {
      CandidatesSpec(logs, windows, cards);
    }
    assert c in multiset(sorted);
    var j :| 0 <= j < |sorted| && sorted[j] == c;
    assert MatchKey(c) == MatchKey(y);
    if j != f {
      assert f < j;
      assert KeyLe(CandidateOrder(y), CandidateOrder(c));
      CandidateOrderLe(y, c);
    }
  }

  /** Nearest slot: a result row's slot is at least as close to the log time
      as the slot of any other window of its room that contains that time. */
  lemma AssignNearest(logs: seq<LogRow>, windows: seq<Window>, cards: seq<CardRow>)
    ensures forall a, w ::
      (a in AssignLogsToTerms(logs, windows, cards) && w in windows
       && w.ucionica == a.ucionica && w.windowStart <= a.vrijemePrijave < w.windowEnd) ==>
        Abs(a.vrijemePrijave - a.termin) <= Abs(a.vrijemePrijave - w.termin)
  {
    forall a, w | a in AssignLogsToTerms(logs, windows, cards) && w in windows
      && w.ucionica == a.ucionica && w.windowStart <= a.vrijemePrijave < w.windowEnd
      ensures Abs(a.vrijemePrijave - a.termin) <= Abs(a.vrijemePrijave - w.termin)
    {
      NearestAgainst(logs, windows, cards, a, w);
    }
  }

  /** The result is ordered by room, and by time within a room. */
  lemma AssignSorted(logs: seq<LogRow>, windows: seq<Window>, cards: seq<CardRow>)
    ensures var out := AssignLogsToTerms(logs, windows, cards);
      forall i, j :: 0 <= i < j < |out| ==>
        StrLt(out[i].ucionica, out[j].ucionica)
        || (out[i].ucionica == out[j].ucionica && out[i].vrijemePrijave <= out[j].vrijemePrijave)
  {
    RoomTimeOrder(AssignLogsToTerms(logs, windows, cards));
  }

  /** Rows sorted by `(ucionica, vrijeme_prijave)` are ordered by room, then by time. */
  lemma RoomTimeOrder(out: seq<Assignment>)
    requires SortedByKey(OutputOrder, out)
    ensures forall i, j :: 0 <= i < j < |out| ==>
      StrLt(out[i].ucionica, out[j].ucionica)
      || (out[i].ucionica == out[j].ucionica && out[i].vrijemePrijave <= out[j].vrijemePrijave)
  {
    forall i, j | 0 <= i < j < |out|
      ensures StrLt(out[i].ucionica, out[j].ucionica)
        || (out[i].ucionica == out[j].ucionica && out[i].vrijemePrijave <= out[j].vrijemePrijave)
    {
      var a, b := out[i], out[j];
      assert KeyLe(OutputOrder(a), OutputOrder(b));
      assert OutputOrder(a) == [Text(a.ucionica)] + [Num(a.vrijemePrijave)];
      assert OutputOrder(b) == [Text(b.ucionica)] + [Num(b.vrijemePrijave)];
      KeyLeCons(Text(a.ucionica), [Num(a.vrijemePrijave)], Text(b.ucionica), [Num(b.vrijemePrijave)]);
      KeyLeCons(Num(a.vrijemePrijave), [], Num(b.vrijemePrijave), []);
    }
  }
}
