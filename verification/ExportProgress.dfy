/**
 Progress of the export protocol: with a quiet source every delivered page brings the
 reader strictly closer to holding everything.
 */
module ExportProgress {
  import opened Options
  import opened ExportLanes
  import opened ExportSync

  /** Stored rows behind a checkpoint. */
  function Backlog(l: Lane, checkpoint: nat): nat
    requires ValidLane(l)
  {
    |RowsBetween(l.records, checkpoint, l.next - 1)|
  }

  /** Rows a reader still has to fetch; the hand-over from snapshot to stream counts one. */
  function Remaining(l: Lane, c: Cursor): nat
    requires ValidLane(l)
  {
    match c
    case Incremental(checkpoint, _) => Backlog(l, checkpoint)
    case SnapshotAt(s, pos, checkpoint, _) =>
      var frozen := if s in l.snapshots then |l.snapshots[s].rows| else 0;
      (if pos <= frozen then frozen - pos else 0) + 1 + Backlog(l, checkpoint)
  }

  lemma RowsSplit(records: map<Id, Record>, lo: nat, mid: nat, hi: nat)
    requires DistinctSequences(records) && lo <= mid <= hi
    ensures RowsBetween(records, lo, hi) == RowsBetween(records, lo, mid) + RowsBetween(records, mid, hi)
    decreases hi
  {
    if mid < hi {
      RowsSplit(records, lo, mid, hi - 1);
    }
  }

  /** A page that ends at sequence `reached` leaves exactly the rows behind it. */
  lemma RowsBehindPage(records: map<Id, Record>, lo: nat, hi: nat, page: seq<Record>)
    requires DistinctSequences(records) && lo <= hi && page != [] && page <= RowsBetween(records, lo, hi)
    ensures |RowsBetween(records, page[|page| - 1].sequence, hi)| == |RowsBetween(records, lo, hi)| - |page|
  {
    var rows, k := RowsBetween(records, lo, hi), |page| - 1;
    var reached := page[k].sequence;
    RowsAreOrdered(records, lo, hi);
    assert rows[k] == page[k];
    RowsSplit(records, lo, reached, hi);
    RowsAreOrdered(records, lo, reached);
    RowsAreOrdered(records, reached, hi);
    var first, second := RowsBetween(records, lo, reached), RowsBetween(records, reached, hi);
    assert forall j | 0 <= j < |first| :: rows[j] == first[j] && rows[j].sequence <= reached;
    assert forall j | |first| <= j < |rows| :: rows[j] == second[j - |first|] && rows[j].sequence > reached;
    assert k < |first|;
    assert k + 1 < |rows| ==> rows[k].sequence < rows[k + 1].sequence;
  }

  predicate Quiet(s: System, candidates: seq<Candidate>, limits: Limits) {
    Refresh(s.lane, candidates, limits) == Some(s.lane)
  }

  /** The reader's cursor has not expired, and its snapshot, if it pages one, is there. */
  predicate Live(s: System) {
    s.reader.Reading? && s.reader.cursor.exp > s.clock
    && (s.reader.cursor.SnapshotAt? ==> s.reader.cursor.snapshot in s.lane.snapshots)
  }

  /** A reader in the snapshot has time for `n` more requests before its cursor expires; live
      pages renew the cursor. */
  predicate InTime(s: System, took: nat, n: nat) {
    Live(s) && (s.reader.cursor.SnapshotAt? ==> s.reader.cursor.exp > s.clock + n * took)
  }

  lemma LivePageProgress(l: Lane, checkpoint: nat, limit: Limit, later: int, limits: Limits)
    requires ValidLane(l) && checkpoint < l.next
    ensures var reply := IncrementalPage(l, checkpoint, limit, later, limits);
            && Backlog(l, reply.next.checkpoint) == Backlog(l, checkpoint) - |reply.rows|
            && (reply.hasMore <==> Backlog(l, reply.next.checkpoint) > 0)
            && (Backlog(l, checkpoint) > 0 ==> reply.rows != [])
  {
    var reply := IncrementalPage(l, checkpoint, limit, later, limits);
    PageGeometry(RowsBetween(l.records, checkpoint, l.next - 1), limit, limits.size);
    hide RowsBetween, PageOf, Limited;
    if reply.rows != [] {
      RowsBehindPage(l.records, checkpoint, l.next - 1, reply.rows);
    }
  }

  /** One delivered page of a quiet lane: nothing is stored, the reader goes on, and what
      remains strictly falls until nothing does. */
  lemma PollMakesProgress(s: System, e: Event, n: nat, limits: Limits)
    requires Consistent(s) && e.Poll? && e.delivered && Quiet(s, e.candidates, limits)
    requires n >= 1 && InTime(s, e.took, n)
    ensures var t := Next(s, e, limits);
            && t.lane == s.lane && t.clock == s.clock + e.took && InTime(t, e.took, n - 1)
            && Remaining(t.lane, t.reader.cursor) <= Remaining(s.lane, s.reader.cursor)
            && (Remaining(s.lane, s.reader.cursor) > 0 ==>
                  Remaining(t.lane, t.reader.cursor) < Remaining(s.lane, s.reader.cursor))
            && (s.reader.cursor.Incremental? ==>
                  (Answer(s, e, limits).1.hasMore <==> Remaining(t.lane, t.reader.cursor) > 0))
  {
    hide Current, RowsBetween, Refresh;
    var c := s.reader.cursor;
    OneTerm(n, e.took);
    if c.SnapshotAt? {
      SnapshotPageShape(s.lane, c, e.limit, limits);
    } else {
      LivePageProgress(s.lane, c.checkpoint, e.limit, s.clock + e.took, limits);
    }
  }

  lemma OneTerm(n: nat, took: nat)
    requires n >= 1
    ensures n * took == (n - 1) * took + took && n * took >= took
  {
  }

  function Polls(s: System, e: Event, n: nat, limits: Limits): (t: System)
    requires ValidLane(s.lane)
    ensures ValidLane(t.lane)
    decreases n
  {
    if n == 0 then s else Polls(Next(s, e, limits), e, n - 1, limits)
  }

  lemma NothingRemains(l: Lane, view: View, checkpoint: nat)
    requires ValidLane(l) && Current(l, view, checkpoint) && Backlog(l, checkpoint) == 0
    ensures view == l.records
  {
    forall id | id in l.records
      ensures l.records[id].sequence <= checkpoint
    {
      RowsAreStored(l.records, checkpoint, l.next - 1, l.records[id]);
    }
    CurrentEverywhere(l, view);
  }

  /** With a quiet source a reader that keeps polling has everything after at most as many
      pages as rows remain. */
  lemma {:induction false} QuietSourceDrains(s: System, e: Event, n: nat, limits: Limits)
    requires Consistent(s) && e.Poll? && e.delivered && Quiet(s, e.candidates, limits) && InTime(s, e.took, n)
    requires n >= Remaining(s.lane, s.reader.cursor)
    ensures var t := Polls(s, e, n, limits);
            && t.lane == s.lane && Live(t) && Remaining(t.lane, t.reader.cursor) == 0
            && t.reader.view == s.lane.records
    decreases n
  {
    hide Next, Refresh, ValidLane, RowsBetween, Current, Halfway;
    if n == 0 {
      NothingRemains(s.lane, s.reader.view, s.reader.cursor.checkpoint);
    } else {
      PollMakesProgress(s, e, n, limits);
      StepKeepsConsistent(s, e, limits);
      QuietSourceDrains(Next(s, e, limits), e, n - 1, limits);
    }
  }

  // ---- From the first request on --------------------------------------------------

  /** What the first page of a fresh snapshot leaves: never more than all rows and the hand-over. */
  lemma FirstPageRemains(s: System, e: Event, limits: Limits)
    requires Consistent(s) && e.Poll? && e.delivered && s.reader.Starting? && Quiet(s, e.candidates, limits)
    requires Answer(s, e, limits).1.Page?
    ensures var t := Next(s, e, limits);
            && t.lane.records == s.lane.records && t.lane.next == s.lane.next
            && Live(t) && t.reader.cursor.exp == t.clock + CURSOR_TTL_SECONDS
            && Remaining(t.lane, t.reader.cursor) <= Backlog(s.lane, 0) + 1
  {
    hide Refresh, RowsBetween, ValidLane, Halfway, Current, SnapshotPage, Freeze;
    ConsistentIsValid(s);
    var later := s.clock + e.took;
    var (m, cursor) := Freeze(s.lane, e.caller, e.name, s.clock, later, limits);
    FreezeChanges(s.lane, e.caller, e.name, s.clock, later, limits);
    FreezeIsHalfway(s.lane, e.caller, e.name, s.clock, later, limits);
    FreezeTakesAll(s.lane, e.caller, e.name, s.clock, later, limits);
    HalfwayInRange(m, cursor.value, map[]);
    SnapshotPageShape(m, cursor.value, e.limit, limits);
  }

  /** The frozen rows are all rows, and nothing is stored behind the watermark. */
  lemma FreezeTakesAll(l: Lane, caller: Caller, name: string, now: int, later: int, limits: Limits)
    requires ValidLane(l) && Freeze(l, caller, name, now, later, limits).1.Some?
    ensures var (m, cursor) := Freeze(l, caller, name, now, later, limits);
            && name in m.snapshots && |m.snapshots[name].rows| <= Backlog(l, 0)
            && ValidLane(m) && cursor.value.SnapshotAt? && cursor.value.pos == 0
            && Backlog(m, cursor.value.checkpoint) == 0
  {
    hide RowsBetween, DistinctSequences, Freeze, Watermark;
    FreezeKeepsValid(l, caller, name, now, later, limits);
    FreezeRows(l, caller, name, now, later, limits);
    WatermarkBelowNext(l);
    RowsSplit(l.records, 0, Watermark(l), l.next - 1);
    NothingBehind(l.records, Watermark(l), l.next - 1);
  }

  lemma FreezeRows(l: Lane, caller: Caller, name: string, now: int, later: int, limits: Limits)
    requires ValidLane(l) && Freeze(l, caller, name, now, later, limits).1.Some?
    ensures var (m, cursor) := Freeze(l, caller, name, now, later, limits);
            && name in m.snapshots && m.snapshots[name].rows == RowsBetween(l.records, 0, Watermark(l))
            && m.records == l.records && m.next == l.next
            && cursor.value.SnapshotAt? && cursor.value.pos == 0 && cursor.value.checkpoint == Watermark(l)
  {
    hide RowsBetween, Watermark, Bytes, Active, Purged;
  }

  lemma {:induction false} NothingBehind(records: map<Id, Record>, lo: nat, hi: nat)
    requires DistinctSequences(records) && forall id | id in records :: records[id].sequence <= lo
    ensures RowsBetween(records, lo, hi) == []
    decreases hi
  {
    if lo < hi {
      NothingBehind(records, lo, hi - 1);
    }
  }

  lemma QuietStays(l: Lane, m: Lane, candidates: seq<Candidate>, limits: Limits)
    requires Refresh(l, candidates, limits) == Some(l) && m.records == l.records
    ensures Refresh(m, candidates, limits) == Some(m)
  {
    RefreshIdleIff(l, candidates, limits);
    RefreshIdleIff(m, candidates, limits);
  }

  /** From its first request on, a reader of a quiet source has everything after at most two more
      pages than there are rows, if its snapshot is granted and outlives the requests. */
  lemma QuietSourceIsRead(s: System, e: Event, n: nat, limits: Limits)
    requires Consistent(s) && e.Poll? && e.delivered && s.reader.Starting? && Quiet(s, e.candidates, limits)
    requires Answer(s, e, limits).1.Page?
    requires n >= Backlog(s.lane, 0) + 2 && n * e.took < CURSOR_TTL_SECONDS
    ensures var t := Polls(s, e, n, limits);
            t.reader.Reading? && t.reader.view == t.lane.records == s.lane.records
  {
    hide Next, Refresh, ValidLane, RowsBetween, Current, Halfway, Consistent;
    ConsistentIsValid(s);
    FirstPageRemains(s, e, limits);
    StepKeepsConsistent(s, e, limits);
    var t := Next(s, e, limits);
    QuietStays(s.lane, t.lane, e.candidates, limits);
    OneTerm(n, e.took);
    QuietSourceDrains(t, e, n - 1, limits);
  }
}
