/**
 How long a frozen snapshot serves its readers.  A snapshot expires by the clock reading from
 before its rows are copied, a cursor into it by the reading from after, so a cursor can
 outlive its snapshot.
 */
module ExportExpiry {
  import opened Options
  import opened ExportLanes
  import opened ExportSync

  /** The reader pages a snapshot with a cursor that has not expired. */
  predicate PagesSome(s: System) {
    s.reader.Reading? && s.reader.cursor.SnapshotAt? && s.reader.cursor.exp > s.clock
  }

  predicate Pages(s: System, name: string) { PagesSome(s) && s.reader.cursor.snapshot == name }

  /** A reader that pages the snapshot finds it. */
  predicate Served(s: System, name: string) { Pages(s, name) ==> name in s.lane.snapshots }

  /** A reader is answered with a page exactly if its snapshot is still there. */
  lemma ServedMeansPage(s: System, e: Event, limits: Limits)
    requires Consistent(s) && e.Poll? && PagesSome(s)
    ensures Answer(s, e, limits).1 ==
            if s.reader.cursor.snapshot in s.lane.snapshots
            then SnapshotPage(s.lane, s.reader.cursor, e.limit, limits) else ResetRequired
    ensures Answer(s, e, limits).1.Page? <==> s.reader.cursor.snapshot in s.lane.snapshots
  {
    hide ValidLane, Halfway, Current;
  }

  // ---- What ties a cursor to its snapshot ---------------------------------------

  /** The snapshot is there until its own expiry, and readers of it have this expiry. */
  ghost predicate Tied(s: System, name: string, expires: int, exp: int) {
    && ValidLane(s.lane) && name in s.lane.issued
    && (if name in s.lane.snapshots then s.lane.snapshots[name].expires == expires else s.clock > expires)
    && (s.reader.Reading? && s.reader.cursor.SnapshotAt? && s.reader.cursor.snapshot == name ==>
          s.reader.cursor.exp == exp)
  }

  /** A cursor that a request hands out is the reader's own, or into a snapshot under a new name. */
  lemma CursorsHandedOut(l: Lane, request: Request, candidates: seq<Candidate>, limit: Limit, now: int, later: int,
                         limits: Limits)
    requires ValidLane(l)
    ensures var (m, reply) := Serve(l, request, candidates, limit, now, later, limits);
            reply.Page? && reply.next.SnapshotAt? ==>
              if request.Open? then
                && reply.next.snapshot == request.name && request.name !in l.issued
                && request.name in m.snapshots && request.name in m.issued
                && m.snapshots[request.name].expires == now + 86_400
                && reply.next.exp == later + 86_400
              else
                && request.cursor.SnapshotAt? && reply.next.snapshot == request.cursor.snapshot
                && reply.next.exp == request.cursor.exp
                && request.cursor.snapshot in l.snapshots && m == l
  {
    hide Refresh, ValidLane, Freeze, SnapshotPage, IncrementalPage;
    match request
    case Follow(c) =>
      if c.SnapshotAt? {
        SnapshotPageCursor(l, c, limit, limits);
      } else if Refresh(l, candidates, limits).Some? {
        LivePageKind(Refresh(l, candidates, limits).value, c.checkpoint, limit, later, limits);
      }
    case Open(caller, name) =>
      if Refresh(l, candidates, limits).Some? {
        RefreshAdvances(l, candidates, limits);
        var refreshed := Refresh(l, candidates, limits).value;
        FreezeChanges(refreshed, caller, name, now, later, limits);
        var (m, cursor) := Freeze(refreshed, caller, name, now, later, limits);
        if cursor.Some? {
          SnapshotPageCursor(m, cursor.value, limit, limits);
        }
      }
  }

  lemma SnapshotPageCursor(l: Lane, c: Cursor, limit: Limit, limits: Limits)
    requires c.SnapshotAt?
    ensures var reply := SnapshotPage(l, c, limit, limits);
            reply.Page? && reply.next.SnapshotAt? ==>
              c.snapshot in l.snapshots && reply.next.snapshot == c.snapshot && reply.next.exp == c.exp
  {
    hide PageOf, Limited;
  }

  lemma TiedNext(s: System, e: Event, name: string, expires: int, exp: int, limits: Limits)
    requires Tied(s, name, expires, exp)
    ensures Tied(Next(s, e, limits), name, expires, exp)
  {
    hide Serve, ValidLane;
    if e.Other? {
      ServeKeepsSnapshots(s.lane, e.request, e.candidates, e.limit, s.clock, s.clock + e.took, limits, name);
    } else if e.Poll? {
      ServeKeepsSnapshots(s.lane, Ask(s.reader, e), e.candidates, e.limit, s.clock, s.clock + e.took, limits, name);
      CursorsHandedOut(s.lane, Ask(s.reader, e), e.candidates, e.limit, s.clock, s.clock + e.took, limits);
    }
  }

  lemma {:induction false} TiedRun(s: System, events: seq<Event>, name: string, expires: int, exp: int, limits: Limits)
    requires Tied(s, name, expires, exp)
    ensures Tied(Run(s, events, limits), name, expires, exp)
    decreases |events|
  {
    hide Tied, Next;
    TiedIsValid(s, name, expires, exp);
    if events != [] {
      TiedRun(s, events[..|events| - 1], name, expires, exp, limits);
      TiedNext(Run(s, events[..|events| - 1], limits), events[|events| - 1], name, expires, exp, limits);
    }
  }

  lemma TiedIsValid(s: System, name: string, expires: int, exp: int)
    requires Tied(s, name, expires, exp)
    ensures ValidLane(s.lane)
  {
  }

  // ---- The purge under a valid cursor ----------------------------------------------

  /** Some name has not been given out. */
  lemma {:induction false} FreshName(issued: set<string>) returns (name: string)
    ensures name !in issued
    ensures forall n | n in issued :: |n| < |name|
    decreases |issued|
  {
    if issued == {} {
      name := "a";
    } else {
      var n :| n in issued;
      var shorter := FreshName(issued - {n});
      name := if |n| < |shorter| then shorter else n + "a";
      forall k | k in issued
        ensures |k| < |name|
      {
        assert k == n || k in issued - {n};
      }
    }
  }

  /** Time passes until the snapshot has expired, and another reader opens one of its own. */
  function Overtaken(s: System, expires: int, other: string): seq<Event> {
    [Tick(if s.clock > expires then 0 else expires + 1 - s.clock), Other(Open(Caller("", 0), other), [], 1, 0)]
  }

  lemma RunOfTwo(s: System, a: Event, b: Event, limits: Limits)
    requires ValidLane(s.lane)
    ensures Run(s, [a, b], limits) == Next(Next(s, a, limits), b, limits)
  {
    hide Next, ValidLane;
    assert [a, b][..1] == [a];
    assert [a][..0] == [];
    assert Run(s, [a], limits) == Next(Run(s, [], limits), a, limits);
  }

  lemma OpenPurges(l: Lane, name: string, other: string, now: int, limits: Limits)
    requires ValidLane(l) && name in l.snapshots && l.snapshots[name].expires < now && other !in l.issued
    ensures var m := Serve(l, Open(Caller("", 0), other), [], 1, now, now, limits).0;
            name !in m.snapshots
  {
    hide RowsBetween, Watermark, Bytes, Active, SnapshotPage;
    assert name in l.issued;
  }

  lemma OvertakenLosesSnapshot(s: System, name: string, other: string, limits: Limits)
    requires ValidLane(s.lane) && name in s.lane.snapshots && other !in s.lane.issued
    ensures var expires := s.lane.snapshots[name].expires;
            var t := Run(s, Overtaken(s, expires, other), limits);
            && name !in t.lane.snapshots && t.reader == s.reader
            && t.clock == if s.clock > expires then s.clock else expires + 1
  {
    hide Serve, ValidLane;
    var expires := s.lane.snapshots[name].expires;
    var events := Overtaken(s, expires, other);
    RunOfTwo(s, events[0], events[1], limits);
    var u := Next(s, events[0], limits);
    OpenPurges(u.lane, name, other, u.clock, limits);
  }

  /** Every valid cursor into a snapshot is answered with a page in every continuation if and
      only if it expires at most one second after the snapshot. */
  lemma ServedIff(s: System, limits: Limits)
    requires Consistent(s) && PagesSome(s)
    requires s.reader.cursor.snapshot in s.lane.snapshots
    ensures var c := s.reader.cursor;
            (forall events :: Served(Run(s, events, limits), c.snapshot))
            <==> c.exp <= s.lane.snapshots[c.snapshot].expires + 1
  {
    hide Halfway, Current;
    ConsistentIsValid(s);
    var c := s.reader.cursor;
    var name, expires := c.snapshot, s.lane.snapshots[c.snapshot].expires;
    if c.exp <= expires + 1 {
      forall events
        ensures Served(Run(s, events, limits), name)
      {
        TiedRun(s, events, name, expires, c.exp, limits);
      }
    } else {
      var other := FreshName(s.lane.issued);
      OvertakenLosesSnapshot(s, name, other, limits);
      assert !Served(Run(s, Overtaken(s, expires, other), limits), name);
    }
  }

  /** For the reader's own opening: its cursor is served in every continuation if and only if the
      clock moved on by at most one second while the snapshot was frozen. */
  lemma OpeningServedIff(s: System, e: Event, limits: Limits)
    requires Consistent(s) && s.reader.Starting? && e.Poll? && e.delivered
    requires Next(s, e, limits).reader.Reading? && Next(s, e, limits).reader.cursor.SnapshotAt?
    ensures (forall events :: Served(Run(Next(s, e, limits), events, limits), e.name)) <==> e.took <= 1
  {
    hide Consistent, Serve, ValidLane, Run;
    ConsistentIsValid(s);
    CursorsHandedOut(s.lane, Ask(s.reader, e), e.candidates, e.limit, s.clock, s.clock + e.took, limits);
    StepKeepsConsistent(s, e, limits);
    ServedIff(Next(s, e, limits), limits);
  }

  // ---- From an empty lane -----------------------------------------------------------------

  /** A reader's cursor does not outlive its snapshot by more than the last second. */
  ghost predicate Prompt(s: System) {
    s.reader.Reading? && s.reader.cursor.SnapshotAt? ==>
      var c := s.reader.cursor;
      && c.snapshot in s.lane.issued
      && if c.snapshot in s.lane.snapshots then c.exp <= s.lane.snapshots[c.snapshot].expires + 1 else c.exp <= s.clock
  }

  lemma PromptNext(s: System, e: Event, limits: Limits)
    requires ValidLane(s.lane) && Prompt(s) && (e.Poll? ==> e.took <= 1)
    ensures Prompt(Next(s, e, limits))
  {
    hide Serve, ValidLane;
    if s.reader.Reading? && s.reader.cursor.SnapshotAt? && !e.Tick? {
      var request := if e.Other? then e.request else Ask(s.reader, e);
      ServeKeepsSnapshots(s.lane, request, e.candidates, e.limit, s.clock, s.clock + e.took, limits,
                          s.reader.cursor.snapshot);
    }
    if e.Poll? {
      CursorsHandedOut(s.lane, Ask(s.reader, e), e.candidates, e.limit, s.clock, s.clock + e.took, limits);
    }
  }

  lemma {:induction false} PromptRun(clock: int, events: seq<Event>, limits: Limits)
    requires forall i | 0 <= i < |events| && events[i].Poll? :: events[i].took <= 1
    ensures Prompt(Run(Initial(clock), events, limits))
    decreases |events|
  {
    hide Next;
    if events != [] {
      PromptRun(clock, events[..|events| - 1], limits);
      PromptNext(Run(Initial(clock), events[..|events| - 1], limits), events[|events| - 1], limits);
    }
  }

  /** In every run of a reader whose requests take at most a second, no valid cursor of its own
      is refused, however long other readers' requests take. */
  lemma PromptReadersAreServed(clock: int, events: seq<Event>, e: Event, limits: Limits)
    requires forall i | 0 <= i < |events| && events[i].Poll? :: events[i].took <= 1
    requires e.Poll?
    requires var s := Run(Initial(clock), events, limits);
             s.reader.Reading? && s.reader.cursor.SnapshotAt? && s.reader.cursor.exp > s.clock
    ensures Answer(Run(Initial(clock), events, limits), e, limits).1.Page?
  {
    hide Run;
    RunsAreConsistent(clock, events, limits);
    PromptRun(clock, events, limits);
    ServedMeansPage(Run(Initial(clock), events, limits), e, limits);
  }

  // ---- The failing run ----------------------------------------------------------------------

  const GENEROUS := Limits(r => 0, r => 0, 16, 25_000, 64 * 1024 * 1024)

  const TWO: seq<Candidate> := [Candidate("x", "1"), Candidate("y", "2")]

  function Opening(took: nat): Event { Poll(Caller("reader", 0), "first", TWO, 1, took, true) }

  const STORED: map<Id, Record> := map["x" := Record("x", 1, 1, "1"), "y" := Record("y", 1, 2, "2")]

  lemma TwoStored()
    ensures Refresh(EMPTY, TWO, GENEROUS) == Some(Lane(3, STORED, map[], {}))
  {
    assert TWO[..1] == [Candidate("x", "1")];
    assert TWO[..1][..0] == [];
    var one := Lane(2, map["x" := Record("x", 1, 1, "1")], map[], {});
    assert Refresh(EMPTY, [], GENEROUS) == Some(EMPTY);
    assert Refresh(EMPTY, TWO[..1], GENEROUS) == Some(one);
    assert one.records["y" := Record("y", 1, 2, "2")] == STORED;
  }

  lemma TwoRows()
    ensures DistinctSequences(STORED)
    ensures |RowsBetween(STORED, 0, 2)| == 2 && RowsBetween(STORED, 0, 2)[1].sequence == 2
  {
    assert STORED["x"].sequence == 1 && STORED["y"].sequence == 2;
    assert |AtSequence(STORED, 1)| == 1 && |AtSequence(STORED, 2)| == 1;
    assert RowsBetween(STORED, 0, 0) == [];
  }

  lemma {:induction false} NoBytes(rows: seq<Record>, separator: nat)
    ensures separator == 0 ==> Bytes(rows, GENEROUS.size, separator) == 0
    decreases |rows|
  {
    if rows != [] {
      NoBytes(rows[..|rows| - 1], separator);
    }
  }

  /** The opening request of two records gets the first one and a cursor for the second. */
  lemma OpeningPages(took: nat)
    ensures Next(Initial(0), Opening(took), GENEROUS).reader.Reading?
    ensures Next(Initial(0), Opening(took), GENEROUS).reader.cursor.SnapshotAt?
  {
    TwoStored();
    TwoRows();
    var l := Lane(3, STORED, map[], {});
    var rows := RowsBetween(STORED, 0, 2);
    hide RowsBetween, Refresh, PageOf;
    NoBytes(rows, 0);
    assert ValidLane(l) && Watermark(l) == 2;
    var (m, cursor) := Freeze(l, Caller("reader", 0), "first", 0, took, GENEROUS);
    assert Active(Purged(l.snapshots, 0), "reader") == 0;
    assert cursor == Some(SnapshotAt("first", 0, 2, took + CURSOR_TTL_SECONDS));
    assert m.snapshots["first"].rows == rows;
    OneRowPages(m, cursor.value, took);
  }

  lemma OneRowPages(m: Lane, c: Cursor, took: nat)
    requires c.SnapshotAt? && c.snapshot in m.snapshots && c.pos == 0 && |m.snapshots[c.snapshot].rows| == 2
    ensures SnapshotPage(m, c, 1, GENEROUS).Page? && SnapshotPage(m, c, 1, GENEROUS).next.SnapshotAt?
  {
    var all := m.snapshots[c.snapshot].rows;
    assert all[0..] == all;
    assert |Limited(all, 2)| == 2;
  }

  lemma {:induction false} RunsJoin(s: System, a: seq<Event>, b: seq<Event>, limits: Limits)
    requires ValidLane(s.lane)
    ensures Run(Run(s, a, limits), b, limits) == Run(s, a + b, limits)
    decreases |b|
  {
    hide Next, ValidLane;
    if b == [] {
      assert a + b == a;
    } else {
      assert (a + b)[..|a + b| - 1] == a + b[..|b| - 1];
      RunsJoin(s, a, b[..|b| - 1], limits);
    }
  }

  /** An opening that takes two seconds or more can lead to a cursor that is still valid and is
      refused: a run from an empty lane. */
  lemma ValidCursorRefused(took: nat)
    requires took >= 2
    ensures exists events ::
              var s := Run(Initial(0), events, GENEROUS);
              PagesSome(s) && forall e: Event | e.Poll? :: Answer(s, e, GENEROUS).1 == ResetRequired
  {
    hide Next, Run, Consistent, ValidLane, Served;
    OpeningPages(took);
    RunsAreConsistent(0, [], GENEROUS);
    RunOfNone(Initial(0), GENEROUS);
    var s := Next(Initial(0), Opening(took), GENEROUS);
    OpeningServedIff(Initial(0), Opening(took), GENEROUS);
    var events :| !Served(Run(s, events, GENEROUS), "first");
    RunOfOne(Initial(0), Opening(took), GENEROUS);
    RunsJoin(Initial(0), [Opening(took)], events, GENEROUS);
    RunsAreConsistent(0, [Opening(took)] + events, GENEROUS);
    RefusedWhenGone(Run(Initial(0), [Opening(took)] + events, GENEROUS), "first");
  }

  lemma RefusedWhenGone(s: System, name: string)
    requires Consistent(s) && !Served(s, name)
    ensures PagesSome(s) && forall e: Event | e.Poll? :: Answer(s, e, GENEROUS).1 == ResetRequired
  {
    hide Consistent, Answer;
    ConsistentIsValid(s);
    forall e: Event | e.Poll?
      ensures Answer(s, e, GENEROUS).1 == ResetRequired
    {
      ServedMeansPage(s, e, GENEROUS);
    }
  }

  lemma RunOfNone(s: System, limits: Limits)
    requires ValidLane(s.lane)
    ensures Run(s, [], limits) == s
  {
  }

  lemma RunOfOne(s: System, e: Event, limits: Limits)
    requires ValidLane(s.lane)
    ensures Run(s, [e], limits) == Next(s, e, limits)
  {
    hide Next, ValidLane;
    assert [e][..0] == [];
  }
}
