/**
 Convergence of the export protocol: readers page a frozen snapshot and then the
 live stream while the source keeps changing and other readers come and go.
 */
module ExportSync {
  import opened Options
  import opened ExportLanes

  // ---- What a page is ----------------------------------------------------

  lemma LimitedIsPrefix(rows: seq<Record>, limit: nat)
    ensures Limited(rows, limit) <= rows
  {
    if |rows| <= limit { assert rows[..|rows|] == rows; }
  }

  lemma BytesGrow(rows: seq<Record>, size: Record -> nat, i: nat)
    requires i < |rows|
    ensures Bytes(rows[..i], size, 1) <= Bytes(rows[..i + 1], size, 1)
  {
    assert rows[..i + 1][..i] == rows[..i];
  }

  lemma {:induction false} FitCountFits(rows: seq<Record>, limit: nat, size: Record -> nat, n: nat)
    requires n <= |Limited(rows, limit)|
    requires n >= 2 ==> Bytes(rows[..n], size, 1) <= PAGE_BUDGET
    ensures IsFit(rows, limit, size, FitCount(rows, limit, size, n))
    decreases |rows| - n
  {
    if n < |Limited(rows, limit)| && (n == 0 || Bytes(rows[..n + 1], size, 1) <= PAGE_BUDGET) {
      FitCountFits(rows, limit, size, n + 1);
    }
  }

  lemma BytesMonotone(rows: seq<Record>, size: Record -> nat, i: nat, j: nat)
    requires i <= j <= |rows|
    ensures Bytes(rows[..i], size, 1) <= Bytes(rows[..j], size, 1)
    decreases j - i
  {
    if i < j {
      BytesGrow(rows, size, j - 1);
      BytesMonotone(rows, size, i, j - 1);
    }
  }

  /** A page is the one prefix that uses the budget up: `IsFit` holds of its length
      and of no other. */
  lemma PageIsLongestFit(rows: seq<Record>, limit: nat, size: Record -> nat, n: nat)
    ensures n == |PageOf(rows, limit, size)| <==> IsFit(rows, limit, size, n)
    ensures PageOf(rows, limit, size) <= rows
  {
    FitCountFits(rows, limit, size, 0);
    var k := FitCount(rows, limit, size, 0);
    if IsFit(rows, limit, size, n) {
      if n < k {
        BytesMonotone(rows, size, n + 1, k);
      } else if k < n {
        BytesMonotone(rows, size, k + 1, n);
      }
    }
  }

  // ---- What ORDER BY stream_sequence returns ------------------------------

  predicate Ascending(rows: seq<Record>) {
    forall i, j | 0 <= i < j < |rows| :: rows[i].sequence < rows[j].sequence
  }

  lemma {:induction false} RowsAreOrdered(records: map<Id, Record>, lo: nat, hi: nat)
    requires DistinctSequences(records)
    ensures var rows := RowsBetween(records, lo, hi);
            Ascending(rows) && forall i | 0 <= i < |rows| :: lo < rows[i].sequence <= hi
    decreases hi
  {
    if lo < hi {
      RowsAreOrdered(records, lo, hi - 1);
    }
  }

  lemma {:induction false} RowsAreStored(records: map<Id, Record>, lo: nat, hi: nat, r: Record)
    requires DistinctSequences(records)
    ensures r in RowsBetween(records, lo, hi) <==>
            lo < r.sequence <= hi && exists id :: id in records && records[id] == r
    decreases hi
  {
    if lo < hi {
      RowsAreStored(records, lo, hi - 1, r);
      var at := AtSequence(records, hi);
      if r in RowsBetween(records, lo, hi) && r !in RowsBetween(records, lo, hi - 1) {
        assert r in at;
      }
      if exists id :: id in records && records[id] == r && r.sequence == hi {
        var id :| id in records && records[id] == r;
        assert at == [r];
      }
    }
  }

  // ---- Readers -----------------------------------------------------------

  type View = map<Id, Record>

  function Fold(view: View, rows: seq<Record>): View {
    if rows == [] then view else Fold(view, rows[..|rows| - 1])[rows[|rows| - 1].id := rows[|rows| - 1]]
  }

  /** A reader has no cursor yet, or a cursor and the view its pages added up to. */
  datatype Reader = Starting | Reading(cursor: Cursor, view: View)

  datatype System = System(lane: Lane, clock: int, reader: Reader)

  /** The environment moves the clock and serves other readers; the reader polls, and its
      reply may be lost on the way.  Source changes show as the candidates of a request.  A
      request takes time: its two clock readings are `took` seconds apart. */
  datatype Event =
    | Tick(seconds: nat)
    | Other(request: Request, candidates: seq<Candidate>, limit: Limit, took: nat)
    | Poll(caller: Caller, name: string, candidates: seq<Candidate>, limit: Limit, took: nat, delivered: bool)

  function Ask(reader: Reader, e: Event): Request
    requires e.Poll?
  {
    if reader.Starting? then Open(e.caller, e.name) else Follow(reader.cursor)
  }

  function Receive(reader: Reader, reply: Reply): Reader {
    match reply
    case Page(rows, next, _) => Reading(next, Fold(if reader.Starting? then map[] else reader.view, rows))
    case ResetRequired => Starting
    case _ => reader
  }

  function Answer(s: System, e: Event, limits: Limits): (Lane, Reply)
    requires ValidLane(s.lane) && e.Poll?
  {
    Serve(s.lane, Ask(s.reader, e), e.candidates, e.limit, s.clock, s.clock + e.took, limits)
  }

  function Next(s: System, e: Event, limits: Limits): (t: System)
    requires ValidLane(s.lane)
    ensures ValidLane(t.lane)
  {
    match e
    case Tick(seconds) => s.(clock := s.clock + seconds)
    case Other(request, candidates, limit, took) =>
      s.(lane := Serve(s.lane, request, candidates, limit, s.clock, s.clock + took, limits).0, clock := s.clock + took)
    case Poll(_, _, _, _, took, delivered) =>
      var (lane, reply) := Answer(s, e, limits);
      s.(lane := lane, clock := s.clock + took, reader := if delivered then Receive(s.reader, reply) else s.reader)
  }

  function Run(s: System, events: seq<Event>, limits: Limits): (t: System)
    requires ValidLane(s.lane)
    ensures ValidLane(t.lane)
    decreases |events|
  {
    if events == [] then s
    else Next(Run(s, events[..|events| - 1], limits), events[|events| - 1], limits)
  }

  // ---- How a lane evolves ------------------------------------------------

  /** Records only ever gain newer versions, under sequences not used before. */
  ghost predicate Advances(l: Lane, m: Lane) {
    && l.next <= m.next && l.records.Keys <= m.records.Keys
    && (forall id | id in m.records ::
          (id in l.records && m.records[id] == l.records[id]) || m.records[id].sequence >= l.next)
    && (forall id | id in l.records && m.records[id] != l.records[id] ::
          m.records[id].revision > l.records[id].revision)
  }

  lemma RefreshAdvances(l: Lane, candidates: seq<Candidate>, limits: Limits)
    requires ValidLane(l) && Refresh(l, candidates, limits).Some?
    ensures var m := Refresh(l, candidates, limits).value;
            Advances(l, m) && m.snapshots == l.snapshots && m.issued == l.issued
    decreases |candidates|
  {
    if candidates != [] {
      RefreshAdvances(l, candidates[..|candidates| - 1], limits);
    }
  }

  lemma ServeAdvances(l: Lane, request: Request, candidates: seq<Candidate>, limit: Limit, now: int, later: int,
                      limits: Limits)
    requires ValidLane(l)
    ensures Advances(l, Serve(l, request, candidates, limit, now, later, limits).0)
  {
    hide Refresh, ValidLane, SnapshotPage, IncrementalPage, Freeze, Advances;
    NothingAdvances(l);
    if Refresh(l, candidates, limits).Some? {
      var m := Refresh(l, candidates, limits).value;
      RefreshAdvances(l, candidates, limits);
      if request.Open? {
        FreezeChanges(m, request.caller, request.name, now, later, limits);
        AdvancesToo(l, m, Freeze(m, request.caller, request.name, now, later, limits).0);
      }
    }
  }

  lemma NothingAdvances(l: Lane)
    ensures Advances(l, l)
  {
  }

  lemma AdvancesToo(l: Lane, m: Lane, n: Lane)
    requires Advances(l, m) && n.records == m.records && n.next == m.next
    ensures Advances(l, n)
  {
  }

  /** Freezing touches snapshots only: it drops expired ones and adds one under a new name. */
  lemma FreezeChanges(l: Lane, caller: Caller, name: string, now: int, later: int, limits: Limits)
    requires ValidLane(l)
    ensures var (m, cursor) := Freeze(l, caller, name, now, later, limits);
            && m.records == l.records && m.next == l.next
            && (m.issued == l.issued || (m.issued == l.issued + {name} && name !in l.issued))
            && (cursor.Some? ==>
                  && cursor.value.SnapshotAt? && cursor.value.snapshot == name
                  && name in m.snapshots && name !in l.issued && name in m.issued
                  && m.snapshots[name].expires == now + 86_400
                  && cursor.value.exp == later + 86_400)
            && (forall n | n in m.snapshots && n in l.issued :: n in l.snapshots && m.snapshots[n] == l.snapshots[n])
            && (forall n | n in l.snapshots && l.snapshots[n].expires >= now :: n in m.snapshots)
  {
    hide RowsBetween, Watermark, Bytes, Active;
  }

  /** A request never drops a snapshot before its own expiry, never alters one, and never
      gives a name a second time. */
  lemma ServeKeepsSnapshots(l: Lane, request: Request, candidates: seq<Candidate>, limit: Limit, now: int, later: int,
                            limits: Limits, s: string)
    requires ValidLane(l) && s in l.issued
    ensures var m := Serve(l, request, candidates, limit, now, later, limits).0;
            && s in m.issued
            && (s in m.snapshots ==> s in l.snapshots && m.snapshots[s] == l.snapshots[s])
            && (s in l.snapshots && l.snapshots[s].expires >= now ==> s in m.snapshots)
  {
    hide Refresh, ValidLane, SnapshotPage, IncrementalPage, Freeze;
    if Refresh(l, candidates, limits).Some? {
      var m := Refresh(l, candidates, limits).value;
      RefreshAdvances(l, candidates, limits);
      if request.Open? {
        FreezeChanges(m, request.caller, request.name, now, later, limits);
      }
    }
  }

  // ---- What a reader knows ------------------------------------------------

  /** The view holds the latest version of every record up to sequence `upTo`; anything
      else it holds is a version of a stored record that has been superseded. */
  ghost predicate Current(l: Lane, view: View, upTo: nat) {
    && view.Keys <= l.records.Keys
    && (forall id | id in l.records && l.records[id].sequence <= upTo :: id in view && view[id] == l.records[id])
    && (forall id | id in view :: view[id].revision <= l.records[id].revision)
  }

  ghost predicate DistinctIds(rows: seq<Record>) {
    forall i, j | 0 <= i < j < |rows| :: rows[i].id != rows[j].id
  }

  /** The frozen rows still contain every record that has not changed since. */
  ghost predicate Covers(l: Lane, rows: seq<Record>, upTo: nat) {
    && DistinctIds(rows)
    && (forall r | r in rows :: r.id in l.records && r.revision <= l.records[r.id].revision)
    && (forall id | id in l.records && l.records[id].sequence <= upTo :: l.records[id] in rows)
  }

  ghost predicate Halfway(l: Lane, c: Cursor, view: View)
    requires c.SnapshotAt?
  {
    && c.snapshot in l.snapshots
    && c.pos <= |l.snapshots[c.snapshot].rows|
    && view == Fold(map[], l.snapshots[c.snapshot].rows[..c.pos])
    && Covers(l, l.snapshots[c.snapshot].rows, c.checkpoint)
  }

  /** Whether a cursor has expired plays no part: its snapshot is there or it is not. */
  ghost predicate Consistent(s: System) {
    && ValidLane(s.lane)
    && (s.reader.Reading? ==>
          var c := s.reader.cursor;
          && c.checkpoint < s.lane.next
          && (c.Incremental? ==> Current(s.lane, s.reader.view, c.checkpoint))
          && (c.SnapshotAt? ==>
                && c.snapshot in s.lane.issued
                && (c.snapshot in s.lane.snapshots ==> Halfway(s.lane, c, s.reader.view))))
  }

  // ---- Folding pages -----------------------------------------------------

  lemma {:induction false} FoldAppend(view: View, a: seq<Record>, b: seq<Record>)
    ensures Fold(view, a + b) == Fold(Fold(view, a), b)
    decreases |b|
  {
    if b == [] {
      assert a + b == a;
    } else {
      assert (a + b)[..|a + b| - 1] == a + b[..|b| - 1];
      FoldAppend(view, a, b[..|b| - 1]);
    }
  }

  lemma {:induction false} FoldLookup(view: View, rows: seq<Record>, id: Id)
    ensures id in Fold(view, rows) <==> id in view || exists r :: r in rows && r.id == id
    ensures id in Fold(view, rows) ==>
              || (exists r :: r in rows && r.id == id && Fold(view, rows)[id] == r)
              || (id in view && Fold(view, rows)[id] == view[id] && forall r | r in rows :: r.id != id)
    decreases |rows|
  {
    if rows != [] {
      var n := |rows| - 1;
      FoldLookup(view, rows[..n], id);
      assert rows == rows[..n] + [rows[n]];
    }
  }

  /** Reading all the frozen rows leaves the reader current up to the watermark. */
  lemma WholeSnapshotIsCurrent(l: Lane, rows: seq<Record>, upTo: nat)
    requires ValidLane(l) && Covers(l, rows, upTo)
    ensures Current(l, Fold(map[], rows), upTo)
  {
    var view := Fold(map[], rows);
    forall id | id in view
      ensures id in l.records && view[id].revision <= l.records[id].revision
    {
      FoldLookup(map[], rows, id);
    }
    forall id | id in l.records && l.records[id].sequence <= upTo
      ensures id in view && view[id] == l.records[id]
    {
      FoldLookup(map[], rows, id);
    }
  }

  lemma AscendingPrefix(rows: seq<Record>, page: seq<Record>, i: nat)
    requires Ascending(rows) && page <= rows && i < |rows|
    requires page == rows || (page != [] && rows[i].sequence <= page[|page| - 1].sequence)
    ensures rows[i] in page
  {
    assert page != [] ==> page[|page| - 1] == rows[|page| - 1];
    assert page[i] == rows[i];
  }

  /** The stored rows behind the checkpoint, up to the last one of a page, are that page. */
  lemma PageReaches(l: Lane, checkpoint: nat, page: seq<Record>, id: Id)
    requires ValidLane(l) && id in l.records && page <= RowsBetween(l.records, checkpoint, l.next - 1)
    requires checkpoint < l.records[id].sequence
    requires page == RowsBetween(l.records, checkpoint, l.next - 1)
      || (page != [] && l.records[id].sequence <= page[|page| - 1].sequence)
    ensures l.records[id] in page
  {
    hide RowsBetween, Ascending, DistinctSequences;
    var rows := RowsBetween(l.records, checkpoint, l.next - 1);
    RowsAreStored(l.records, checkpoint, l.next - 1, l.records[id]);
    RowsAreOrdered(l.records, checkpoint, l.next - 1);
    var i :| 0 <= i < |rows| && rows[i] == l.records[id];
    AscendingPrefix(rows, page, i);
  }

  lemma PageIsStored(l: Lane, checkpoint: nat, page: seq<Record>, r: Record)
    requires ValidLane(l) && page <= RowsBetween(l.records, checkpoint, l.next - 1) && r in page
    ensures r.id in l.records && r == l.records[r.id]
  {
    assert r in RowsBetween(l.records, checkpoint, l.next - 1);
    RowsAreStored(l.records, checkpoint, l.next - 1, r);
  }

  lemma NothingInvented(l: Lane, view: View, checkpoint: nat, page: seq<Record>, id: Id)
    requires ValidLane(l) && Current(l, view, checkpoint)
    requires page <= RowsBetween(l.records, checkpoint, l.next - 1)
    requires id in Fold(view, page)
    ensures id in l.records && Fold(view, page)[id].revision <= l.records[id].revision
  {
    FoldLookup(view, page, id);
    if r :| r in page && r.id == id && Fold(view, page)[id] == r {
      PageIsStored(l, checkpoint, page, r);
    }
  }

  lemma NothingMissed(l: Lane, view: View, checkpoint: nat, page: seq<Record>, id: Id)
    requires ValidLane(l) && Current(l, view, checkpoint) && id in l.records
    requires page <= RowsBetween(l.records, checkpoint, l.next - 1)
    requires l.records[id].sequence <= checkpoint || page == RowsBetween(l.records, checkpoint, l.next - 1)
      || (page != [] && l.records[id].sequence <= page[|page| - 1].sequence)
    ensures id in Fold(view, page) && Fold(view, page)[id] == l.records[id]
  {
    if checkpoint < l.records[id].sequence {
      PageReaches(l, checkpoint, page, id);
    }
    FoldLookup(view, page, id);
    if r :| r in page && r.id == id && Fold(view, page)[id] == r {
      PageIsStored(l, checkpoint, page, r);
    }
  }

  lemma IncrementalStaysCurrent(l: Lane, view: View, checkpoint: nat, page: seq<Record>, upTo: nat)
    requires ValidLane(l) && Current(l, view, checkpoint)
    requires page <= RowsBetween(l.records, checkpoint, l.next - 1)
    requires upTo <= checkpoint || page == RowsBetween(l.records, checkpoint, l.next - 1)
      || (page != [] && upTo <= page[|page| - 1].sequence)
    ensures Current(l, Fold(view, page), upTo)
  {
    forall id | id in Fold(view, page)
      ensures id in l.records && Fold(view, page)[id].revision <= l.records[id].revision
    {
      NothingInvented(l, view, checkpoint, page, id);
    }
    forall id | id in l.records && l.records[id].sequence <= upTo
      ensures id in Fold(view, page) && Fold(view, page)[id] == l.records[id]
    {
      NothingMissed(l, view, checkpoint, page, id);
    }
  }

  // ---- Every step keeps readers consistent --------------------------------

  lemma CurrentSurvives(l: Lane, m: Lane, view: View, upTo: nat)
    requires Advances(l, m) && Current(l, view, upTo) && upTo < l.next
    ensures Current(m, view, upTo)
  {
  }

  lemma HalfwaySurvives(l: Lane, m: Lane, c: Cursor, view: View)
    requires c.SnapshotAt? && Advances(l, m) && Halfway(l, c, view) && c.checkpoint < l.next
    requires c.snapshot in m.snapshots && m.snapshots[c.snapshot] == l.snapshots[c.snapshot]
    ensures Halfway(m, c, view)
  {
  }

  lemma FrozenRowsCover(l: Lane, upTo: nat)
    requires ValidLane(l)
    ensures Covers(l, RowsBetween(l.records, 0, upTo), upTo)
  {
    var rows := RowsBetween(l.records, 0, upTo);
    RowsAreOrdered(l.records, 0, upTo);
    forall r: Record
      ensures r in rows <==> 0 < r.sequence <= upTo && exists id :: id in l.records && l.records[id] == r
    {
      RowsAreStored(l.records, 0, upTo, r);
    }
    forall i, j | 0 <= i < j < |rows|
      ensures rows[i].id != rows[j].id
    {
      assert rows[i] in rows && rows[j] in rows;
    }
  }

  lemma WatermarkBelowNext(l: Lane)
    requires ValidLane(l)
    ensures Watermark(l) < l.next
    ensures forall id | id in l.records :: l.records[id].sequence <= Watermark(l)
  {
    hide RowsBetween, DistinctSequences;
    var rows := RowsBetween(l.records, 0, l.next - 1);
    if rows != [] {
      ReachedWithin(l, 0, rows);
    }
    RowsAreOrdered(l.records, 0, l.next - 1);
    forall id | id in l.records
      ensures l.records[id].sequence <= Watermark(l)
    {
      RowsAreStored(l.records, 0, l.next - 1, l.records[id]);
      var k :| 0 <= k < |rows| && rows[k] == l.records[id];
    }
  }

  /** `LIMIT limit + 1` and the page cut: all rows, or a non-empty strict prefix. */
  lemma PageGeometry(all: seq<Record>, limit: Limit, size: Record -> nat)
    ensures var rows := Limited(all, limit + 1);
            var page := PageOf(rows, limit, size);
            && page <= all && |page| <= |rows|
            && (|page| < |rows| ==> page != [])
            && (|page| == |rows| ==> page == all)
  {
    var rows := Limited(all, limit + 1);
    LimitedIsPrefix(all, limit + 1);
    PageIsLongestFit(rows, limit, size, |PageOf(rows, limit, size)|);
  }

  lemma FoldOneMorePage(all: seq<Record>, pos: nat, page: seq<Record>)
    requires pos <= |all| && page <= all[pos..]
    ensures pos + |page| <= |all|
    ensures Fold(Fold(map[], all[..pos]), page) == Fold(map[], all[..pos + |page|])
    ensures page == all[pos..] ==> Fold(Fold(map[], all[..pos]), page) == Fold(map[], all)
  {
    assert all[..pos] + page == all[..pos + |page|];
    FoldAppend(map[], all[..pos], page);
    if page == all[pos..] {
      assert all[..pos + |page|] == all;
    }
  }

  /** A snapshot page is the next stretch of the frozen rows, and the last page is the
      one that hands over to the live stream at the watermark. */
  lemma SnapshotPageShape(l: Lane, c: Cursor, limit: Limit, limits: Limits)
    requires c.SnapshotAt? && c.snapshot in l.snapshots && c.pos <= |l.snapshots[c.snapshot].rows|
    ensures var all, reply := l.snapshots[c.snapshot].rows, SnapshotPage(l, c, limit, limits);
            && reply.Page? && reply.rows <= all[c.pos..]
            && reply.next == (if reply.hasMore then c.(pos := c.pos + |reply.rows|)
                              else Incremental(c.checkpoint, c.exp))
            && (reply.hasMore ==> reply.rows != [])
            && (!reply.hasMore ==> reply.rows == all[c.pos..])
  {
    PageGeometry(l.snapshots[c.snapshot].rows[c.pos..], limit, limits.size);
  }

  lemma SnapshotPageAdvances(l: Lane, c: Cursor, view: View, limit: Limit, limits: Limits)
    requires ValidLane(l) && c.SnapshotAt? && Halfway(l, c, view)
    ensures var reply := SnapshotPage(l, c, limit, limits);
            && reply.Page?
            && (reply.hasMore ==> reply.next.SnapshotAt? && Halfway(l, reply.next, Fold(view, reply.rows)))
            && (!reply.hasMore ==> Current(l, Fold(view, reply.rows), c.checkpoint))
  {
    hide SnapshotPage, ValidLane, Fold, Current;
    SnapshotPageShape(l, c, limit, limits);
    var all, reply := l.snapshots[c.snapshot].rows, SnapshotPage(l, c, limit, limits);
    FoldOneMorePage(all, c.pos, reply.rows);
    if !reply.hasMore {
      WholeSnapshotIsCurrent(l, all, c.checkpoint);
    }
  }

  lemma ReachedWithin(l: Lane, checkpoint: nat, page: seq<Record>)
    requires ValidLane(l) && checkpoint < l.next && page != []
    requires page <= RowsBetween(l.records, checkpoint, l.next - 1)
    ensures checkpoint < page[|page| - 1].sequence < l.next
  {
    RowsAreOrdered(l.records, checkpoint, l.next - 1);
    assert page[|page| - 1] == RowsBetween(l.records, checkpoint, l.next - 1)[|page| - 1];
  }

  lemma CurrentEverywhere(l: Lane, view: View)
    requires ValidLane(l) && Current(l, view, l.next)
    ensures view == l.records
  {
  }

  lemma IncrementalPageAdvances(l: Lane, checkpoint: nat, view: View, limit: Limit, later: int, limits: Limits)
    requires ValidLane(l) && Current(l, view, checkpoint) && checkpoint < l.next
    ensures var reply := IncrementalPage(l, checkpoint, limit, later, limits);
            && reply.rows <= RowsBetween(l.records, checkpoint, l.next - 1)
            && (reply.hasMore ==> reply.rows != [])
            && checkpoint <= reply.next.checkpoint < l.next
            && Current(l, Fold(view, reply.rows), reply.next.checkpoint)
            && (!reply.hasMore ==> Fold(view, reply.rows) == l.records)
  {
    hide RowsBetween, PageOf, Limited, Current, Fold, DistinctSequences;
    var all := RowsBetween(l.records, checkpoint, l.next - 1);
    var reply := IncrementalPage(l, checkpoint, limit, later, limits);
    PageGeometry(all, limit, limits.size);
    if reply.rows != [] {
      ReachedWithin(l, checkpoint, reply.rows);
    }
    IncrementalStaysCurrent(l, view, checkpoint, reply.rows, reply.next.checkpoint);
    if !reply.hasMore {
      IncrementalStaysCurrent(l, view, checkpoint, reply.rows, l.next);
      CurrentEverywhere(l, Fold(view, reply.rows));
    }
  }

  /** Whatever requests do to the lane, a reader that is not served stays consistent. */
  lemma LaneChangeKeepsConsistent(s: System, m: Lane)
    requires Consistent(s) && ValidLane(m) && Advances(s.lane, m)
    requires forall n | n in s.lane.issued ::
               n in m.issued && (n in m.snapshots ==> n in s.lane.snapshots && m.snapshots[n] == s.lane.snapshots[n])
    ensures Consistent(s.(lane := m))
  {
    hide ValidLane, Current, Halfway, Advances;
    if s.reader.Reading? {
      var c := s.reader.cursor;
      if c.Incremental? {
        AdvancesKeepsNext(s.lane, m);
        CurrentSurvives(s.lane, m, s.reader.view, c.checkpoint);
      } else {
        AdvancesKeepsNext(s.lane, m);
        if c.snapshot in m.snapshots {
          HalfwaySurvives(s.lane, m, c, s.reader.view);
        }
      }
    }
  }

  lemma AdvancesKeepsNext(l: Lane, m: Lane)
    requires Advances(l, m)
    ensures l.next <= m.next
  {
  }

  lemma RequestKeepsConsistent(s: System, request: Request, candidates: seq<Candidate>, limit: Limit, took: nat,
                               limits: Limits)
    requires Consistent(s)
    ensures Consistent(s.(lane := Serve(s.lane, request, candidates, limit, s.clock, s.clock + took, limits).0))
  {
    hide Serve, Advances, Halfway, Current;
    var m := Serve(s.lane, request, candidates, limit, s.clock, s.clock + took, limits).0;
    ServeAdvances(s.lane, request, candidates, limit, s.clock, s.clock + took, limits);
    ServeKeepsValid(s.lane, request, candidates, limit, s.clock, s.clock + took, limits);
    forall n | n in s.lane.issued
      ensures n in m.issued && (n in m.snapshots ==> n in s.lane.snapshots && m.snapshots[n] == s.lane.snapshots[n])
    {
      ServeKeepsSnapshots(s.lane, request, candidates, limit, s.clock, s.clock + took, limits, n);
    }
    LaneChangeKeepsConsistent(s, m);
  }

  lemma ServeKeepsValid(l: Lane, request: Request, candidates: seq<Candidate>, limit: Limit, now: int, later: int,
                        limits: Limits)
    requires ValidLane(l)
    ensures ValidLane(Serve(l, request, candidates, limit, now, later, limits).0)
  {
    hide Refresh, SnapshotPage, IncrementalPage, RowsBetween, Watermark, Bytes, Active;
  }

  lemma FreezeIsHalfway(l: Lane, caller: Caller, name: string, now: int, later: int, limits: Limits)
    requires ValidLane(l) && Freeze(l, caller, name, now, later, limits).1.Some?
    ensures var (m, c) := Freeze(l, caller, name, now, later, limits);
            && ValidLane(m) && c.value.SnapshotAt? && c.value.checkpoint < m.next
            && c.value.snapshot in m.issued && Halfway(m, c.value, map[])
  {
    var (m, c) := Freeze(l, caller, name, now, later, limits);
    WatermarkBelowNext(l);
    FrozenRowsCover(l, Watermark(l));
    assert m.snapshots[name].rows[..0] == [];
    assert Covers(m, m.snapshots[name].rows, Watermark(l));
  }

  /** The first page of a fresh snapshot leaves its reader consistent. */
  lemma FirstPageIsConsistent(m: Lane, clock: int, c: Cursor, limit: Limit, limits: Limits)
    requires ValidLane(m) && c.SnapshotAt? && c.checkpoint < m.next && c.snapshot in m.issued && Halfway(m, c, map[])
    ensures Consistent(System(m, clock, Receive(Starting, SnapshotPage(m, c, limit, limits))))
  {
    SnapshotPageAdvances(m, c, map[], limit, limits);
    SnapshotPageShape(m, c, limit, limits);
    hide SnapshotPage, ValidLane, Covers, Current, Fold;
  }

  lemma StartingIsConsistent(m: Lane, clock: int)
    requires ValidLane(m)
    ensures Consistent(System(m, clock, Starting))
  {
  }

  lemma OpenKeepsConsistent(s: System, e: Event, limits: Limits)
    requires Consistent(s) && e.Poll? && e.delivered && s.reader.Starting?
    ensures Consistent(Next(s, e, limits))
  {
    hide Refresh, Freeze, SnapshotPage, ValidLane, Consistent, Halfway;
    ConsistentIsValid(s);
    var later := s.clock + e.took;
    match Refresh(s.lane, e.candidates, limits)
    case None => StartingIsConsistent(s.lane, later);
    case Some(l) =>
      var (m, cursor) := Freeze(l, e.caller, e.name, s.clock, later, limits);
      FreezeKeepsValid(l, e.caller, e.name, s.clock, later, limits);
      if cursor.Some? {
        FreezeIsHalfway(l, e.caller, e.name, s.clock, later, limits);
        FirstPageIsConsistent(m, later, cursor.value, e.limit, limits);
      } else {
        StartingIsConsistent(m, later);
      }
  }

  lemma FreezeKeepsValid(l: Lane, caller: Caller, name: string, now: int, later: int, limits: Limits)
    requires ValidLane(l)
    ensures ValidLane(Freeze(l, caller, name, now, later, limits).0)
  {
    hide RowsBetween, Watermark, Bytes, Active;
  }

  /** A live page leaves its reader current, and complete if nothing is left to send. */
  lemma LivePageOf(s: System, e: Event, limits: Limits)
    requires Consistent(s) && e.Poll?
    requires s.reader.Reading? && s.reader.cursor.Incremental? && s.reader.cursor.exp > s.clock
    ensures var (m, reply) := Answer(s, e, limits);
            reply.Page? ==>
              && Refresh(s.lane, e.candidates, limits) == Some(m)
              && reply.next.Incremental? && reply.next.checkpoint < m.next
              && Current(m, Fold(s.reader.view, reply.rows), reply.next.checkpoint)
              && (!reply.hasMore ==> Fold(s.reader.view, reply.rows) == m.records)
  {
    hide Refresh, IncrementalPage, Current, Fold, Halfway;
    if Refresh(s.lane, e.candidates, limits).Some? {
      var m := Refresh(s.lane, e.candidates, limits).value;
      RefreshAdvances(s.lane, e.candidates, limits);
      CurrentSurvives(s.lane, m, s.reader.view, s.reader.cursor.checkpoint);
      IncrementalPageAdvances(m, s.reader.cursor.checkpoint, s.reader.view, e.limit, s.clock + e.took, limits);
      LivePageKind(m, s.reader.cursor.checkpoint, e.limit, s.clock + e.took, limits);
    }
  }

  lemma LivePageKind(l: Lane, checkpoint: nat, limit: Limit, later: int, limits: Limits)
    requires ValidLane(l)
    ensures IncrementalPage(l, checkpoint, limit, later, limits).Page?
    ensures IncrementalPage(l, checkpoint, limit, later, limits).next.Incremental?
    ensures IncrementalPage(l, checkpoint, limit, later, limits).next.exp == later + CURSOR_TTL_SECONDS
  {
  }

  /** A page of a snapshot that is still there, or the demand to start again. */
  lemma FrozenPageKeepsConsistent(s: System, e: Event, limits: Limits)
    requires Consistent(s) && e.Poll? && e.delivered && s.reader.Reading?
    requires s.reader.cursor.SnapshotAt? && s.reader.cursor.exp > s.clock
    ensures Consistent(Next(s, e, limits))
  {
    hide ValidLane, Halfway, Current, Fold, SnapshotPage;
    var c, view := s.reader.cursor, s.reader.view;
    if c.snapshot in s.lane.snapshots {
      SnapshotPageAdvances(s.lane, c, view, e.limit, limits);
      HalfwayInRange(s.lane, c, view);
      SnapshotPageShape(s.lane, c, e.limit, limits);
    } else {
      GoneIsReset(s.lane, c, e.limit, limits);
    }
  }

  lemma HalfwayInRange(l: Lane, c: Cursor, view: View)
    requires c.SnapshotAt? && Halfway(l, c, view)
    ensures c.snapshot in l.snapshots && c.pos <= |l.snapshots[c.snapshot].rows|
  {
  }

  lemma GoneIsReset(l: Lane, c: Cursor, limit: Limit, limits: Limits)
    requires c.SnapshotAt? && c.snapshot !in l.snapshots
    ensures SnapshotPage(l, c, limit, limits) == ResetRequired
  {
  }

  lemma FollowKeepsConsistent(s: System, e: Event, limits: Limits)
    requires Consistent(s) && e.Poll? && e.delivered && s.reader.Reading?
    ensures Consistent(Next(s, e, limits))
  {
    hide ValidLane, Halfway, Current, Fold, SnapshotPage, IncrementalPage, Refresh;
    if s.reader.cursor.exp > s.clock {
      if s.reader.cursor.SnapshotAt? {
        FrozenPageKeepsConsistent(s, e, limits);
      } else {
        RequestKeepsConsistent(s, Ask(s.reader, e), e.candidates, e.limit, e.took, limits);
        LivePageOf(s, e, limits);
      }
    }
  }

  /** The clock plays no part in consistency. */
  lemma ClockKeepsConsistent(s: System, clock: int)
    requires Consistent(s)
    ensures Consistent(s.(clock := clock))
  {
  }

  lemma StepKeepsConsistent(s: System, e: Event, limits: Limits)
    requires Consistent(s)
    ensures Consistent(Next(s, e, limits))
  {
    hide Consistent, Serve;
    ConsistentIsValid(s);
    match e
    case Tick(seconds) => ClockKeepsConsistent(s, s.clock + seconds);
    case Other(request, candidates, limit, took) =>
      RequestKeepsConsistent(s, request, candidates, limit, took, limits);
      ClockKeepsConsistent(s.(lane := Next(s, e, limits).lane), s.clock + took);
    case Poll(_, _, candidates, limit, took, delivered) =>
      if !delivered {
        RequestKeepsConsistent(s, Ask(s.reader, e), candidates, limit, took, limits);
        ClockKeepsConsistent(s.(lane := Next(s, e, limits).lane), s.clock + took);
      } else if s.reader.Starting? {
        OpenKeepsConsistent(s, e, limits);
      } else {
        FollowKeepsConsistent(s, e, limits);
      }
  }

  lemma ConsistentIsValid(s: System)
    requires Consistent(s)
    ensures ValidLane(s.lane)
  {
  }

  function Initial(clock: int): System { System(EMPTY, clock, Starting) }

  lemma {:induction false} RunsAreConsistent(clock: int, events: seq<Event>, limits: Limits)
    ensures Consistent(Run(Initial(clock), events, limits))
    decreases |events|
  {
    if events != [] {
      RunsAreConsistent(clock, events[..|events| - 1], limits);
      StepKeepsConsistent(Run(Initial(clock), events[..|events| - 1], limits), events[|events| - 1], limits);
    }
  }

  // ---- Convergence -------------------------------------------------------

  /** Whenever, in any run, a live page says there is no more, the reader holds exactly
      the latest record of every external id, which is what the source lists now. */
  lemma Convergence(clock: int, events: seq<Event>, e: Event, limits: Limits)
    requires e.Poll? && e.delivered
    requires var s := Run(Initial(clock), events, limits);
             && s.reader.Reading? && s.reader.cursor.Incremental?
             && Answer(s, e, limits).1.Page? && !Answer(s, e, limits).1.hasMore
    ensures var t := Next(Run(Initial(clock), events, limits), e, limits);
            && t.reader.Reading? && t.reader.view == t.lane.records
            && (Functional(e.candidates) ==>
                  forall c | c in e.candidates :: c.id in t.reader.view && t.reader.view[c.id].content == c.content)
  {
    var s := Run(Initial(clock), events, limits);
    RunsAreConsistent(clock, events, limits);
    LivePageOf(s, e, limits);
    if Functional(e.candidates) {
      RefreshStoresSource(s.lane, e.candidates, limits);
    }
  }

  // ---- The refresh and its source ----------------------------------------

  /** No external id is listed with two different contents. */
  ghost predicate Functional(candidates: seq<Candidate>) {
    forall a, b | a in candidates && b in candidates && a.id == b.id :: a.content == b.content
  }

  lemma {:induction false} RefreshStoresSource(l: Lane, candidates: seq<Candidate>, limits: Limits)
    requires Functional(candidates) && Refresh(l, candidates, limits).Some?
    ensures forall c | c in candidates :: Unchanged(Refresh(l, candidates, limits).value, c)
    decreases |candidates|
  {
    if candidates != [] {
      var initial, last := candidates[..|candidates| - 1], candidates[|candidates| - 1];
      assert candidates == initial + [last];
      RefreshStoresSource(l, initial, limits);
    }
  }

  lemma {:induction false} RefreshIdleIff(l: Lane, candidates: seq<Candidate>, limits: Limits)
    ensures var m := Refresh(l, candidates, limits);
            && (m.Some? ==> m.value.next >= l.next)
            && (m == Some(l) <==> forall c | c in candidates :: Unchanged(l, c))
            && (m.Some? && m.value.next == l.next ==> m == Some(l))
    decreases |candidates|
  {
    if candidates != [] {
      var initial, last := candidates[..|candidates| - 1], candidates[|candidates| - 1];
      assert candidates == initial + [last];
      RefreshIdleIff(l, initial, limits);
    }
  }

  /** A lane whose source has stopped changing becomes quiet exactly when no external id
      is listed twice with different contents; otherwise every poll renumbers records. */
  lemma QuiescenceIff(l: Lane, candidates: seq<Candidate>, limits: Limits)
    requires Refresh(l, candidates, limits).Some?
    ensures var m := Refresh(l, candidates, limits).value;
            Refresh(m, candidates, limits) == Some(m) <==> Functional(candidates)
  {
    var m := Refresh(l, candidates, limits).value;
    RefreshIdleIff(m, candidates, limits);
    if Functional(candidates) {
      RefreshStoresSource(l, candidates, limits);
    }
  }
}
