/**
 One export lane of the dashboard connector (dashboard_connector.py): the stream
 counter, the stored latest record of every external id, and the frozen snapshots
 readers page through.

 The functions specify each request; the class `ExportLane` mutates the tables the
 way the source does and is proved against them.
 */
module ExportLanes {
  import opened Options

  const MAX_PAGE_BYTES := 4 * 1024 * 1024
  const PAGE_BUDGET := MAX_PAGE_BYTES - 16_384
  const MAX_RECORD_BYTES := 262_144
  const MAX_PROVENANCE_BYTES := 65_536
  const CURSOR_TTL_SECONDS := 86_400

  type Id = string

  /** The `limit` query parameter, checked before a page is built. */
  type Limit = n: nat | 1 <= n <= 500 witness 100

  /** A native record; `content` is its canonical JSON, standing for its fingerprint. */
  datatype Candidate = Candidate(id: Id, content: string)

  datatype Record = Record(id: Id, revision: nat, sequence: nat, content: string)

  datatype Snapshot = Snapshot(principal: string, watermark: nat, expires: int, rows: seq<Record>)

  /** Who asks, and how many snapshots it has in the other lanes. */
  datatype Caller = Caller(principal: string, elsewhere: nat)

  datatype Cursor =
    | SnapshotAt(snapshot: string, pos: nat, checkpoint: nat, exp: int)
    | Incremental(checkpoint: nat, exp: int)

  /** `issued` are the names given to snapshots so far; random names do not repeat. */
  datatype Lane = Lane(next: nat, records: map<Id, Record>, snapshots: map<string, Snapshot>, issued: set<string>)

  /** The encoded sizes of a record and of its provenance, and the configured capacity. */
  datatype Limits = Limits(size: Record -> nat, provenance: Record -> nat,
                           maxActive: nat, maxRecords: nat, maxBytes: nat)

  datatype Reply =
    | Page(rows: seq<Record>, next: Cursor, hasMore: bool)
    | ResetRequired
    | Unavailable
    | Unexportable

  const EMPTY := Lane(1, map[], map[], {})

  // ---- Table queries -----------------------------------------------------

  ghost predicate DistinctSequences(records: map<Id, Record>) {
    forall a, b | a in records && b in records && records[a].sequence == records[b].sequence :: a == b
  }

  ghost predicate ValidLane(l: Lane) {
    && DistinctSequences(l.records)
    && l.next >= 1 && l.snapshots.Keys <= l.issued
    && forall id | id in l.records ::
         && l.records[id].id == id
         && 1 <= l.records[id].sequence < l.next
         && l.records[id].revision >= 1
  }

  function AtSequence(records: map<Id, Record>, n: nat): seq<Record>
    requires DistinctSequences(records)
  {
    if exists id :: id in records && records[id].sequence == n then
      var id :| id in records && records[id].sequence == n;
      [records[id]]
    else []
  }

  /** `WHERE stream_sequence > lo AND stream_sequence <= hi ORDER BY stream_sequence`. */
  function RowsBetween(records: map<Id, Record>, lo: nat, hi: nat): seq<Record>
    requires DistinctSequences(records)
    decreases hi
  {
    if hi <= lo then [] else RowsBetween(records, lo, hi - 1) + AtSequence(records, hi)
  }

  function Limited(rows: seq<Record>, limit: nat): seq<Record> {
    if |rows| <= limit then rows else rows[..limit]
  }

  /** Encoded size of `rows`, with `separator` bytes counted after each. */
  function Bytes(rows: seq<Record>, size: Record -> nat, separator: nat): nat {
    if rows == [] then 0
    else Bytes(rows[..|rows| - 1], size, separator) + size(rows[|rows| - 1]) + separator
  }

  // ---- Requests as functions ---------------------------------------------

  function Exported(l: Lane, c: Candidate): Record {
    Record(c.id, if c.id in l.records then l.records[c.id].revision + 1 else 1, l.next, c.content)
  }

  predicate Unchanged(l: Lane, c: Candidate) {
    c.id in l.records && l.records[c.id].content == c.content
  }

  predicate Fits(r: Record, limits: Limits) {
    limits.size(r) <= MAX_RECORD_BYTES && limits.provenance(r) <= MAX_PROVENANCE_BYTES
  }

  /** One turn of the refresh loop; None when the record cannot be exported. */
  function RefreshOne(l: Lane, c: Candidate, limits: Limits): Option<Lane> {
    if Unchanged(l, c) then Some(l)
    else if !Fits(Exported(l, c), limits) then None
    else Some(l.(next := l.next + 1, records := l.records[c.id := Exported(l, c)]))
  }

  /** A whole refresh: one transaction, so None means nothing was stored. */
  function Refresh(l: Lane, candidates: seq<Candidate>, limits: Limits): (r: Option<Lane>)
    ensures ValidLane(l) && r.Some? ==> ValidLane(r.value)
    decreases |candidates|
  {
    if candidates == [] then Some(l)
    else
      var n := |candidates| - 1;
      match Refresh(l, candidates[..n], limits)
      case None => None
      case Some(l') => RefreshOne(l', candidates[n], limits)
  }

  function Purged(snapshots: map<string, Snapshot>, now: int): map<string, Snapshot> {
    map s | s in snapshots && snapshots[s].expires >= now :: snapshots[s]
  }

  function Active(snapshots: map<string, Snapshot>, principal: string): nat {
    |set s | s in snapshots && snapshots[s].principal == principal|
  }

  /** `n` rows are the page: they are among the first `limit`, a page is only empty when
      there are no rows, more than one row fits the byte budget, and one more would not. */
  ghost predicate IsFit(rows: seq<Record>, limit: nat, size: Record -> nat, n: nat) {
    var offered := |Limited(rows, limit)|;
    && n <= offered
    && (n == 0 ==> offered == 0)
    && (n >= 2 ==> Bytes(rows[..n], size, 1) <= 4 * 1024 * 1024 - 16_384)
    && (n < offered ==> Bytes(rows[..n + 1], size, 1) > 4 * 1024 * 1024 - 16_384)
  }

  function FitCount(rows: seq<Record>, limit: nat, size: Record -> nat, n: nat): (k: nat)
    requires n <= |Limited(rows, limit)|
    ensures k <= |Limited(rows, limit)|
    decreases |rows| - n
  {
    if n == |Limited(rows, limit)| || (n > 0 && Bytes(rows[..n + 1], size, 1) > PAGE_BUDGET) then n
    else FitCount(rows, limit, size, n + 1)
  }

  /** A page of `rows`, which were fetched with `LIMIT limit + 1`. */
  function PageOf(rows: seq<Record>, limit: nat, size: Record -> nat): seq<Record> {
    rows[..FitCount(rows, limit, size, 0)]
  }

  function SnapshotPage(l: Lane, c: Cursor, limit: Limit, limits: Limits): Reply
    requires c.SnapshotAt?
  {
    if c.snapshot !in l.snapshots then ResetRequired
    else
      var all := l.snapshots[c.snapshot].rows;
      var rows := Limited(if c.pos <= |all| then all[c.pos..] else [], limit + 1);
      var page := PageOf(rows, limit, limits.size);
      if |page| < |rows| then Page(page, c.(pos := c.pos + |page|), true)
      else Page(page, Incremental(c.checkpoint, c.exp), false)
  }

  /** The new cursor lives from the clock reading `later`, taken after the rows were read. */
  function IncrementalPage(l: Lane, checkpoint: nat, limit: Limit, later: int, limits: Limits): Reply
    requires ValidLane(l)
  {
    var rows := Limited(RowsBetween(l.records, checkpoint, l.next - 1), limit + 1);
    var page := PageOf(rows, limit, limits.size);
    var reached := if page == [] then checkpoint else page[|page| - 1].sequence;
    Page(page, Incremental(reached, later + CURSOR_TTL_SECONDS), |page| < |rows|)
  }

  function Watermark(l: Lane): nat
    requires ValidLane(l)
  {
    var rows := RowsBetween(l.records, 0, l.next - 1);
    if rows == [] then 0 else rows[|rows| - 1].sequence
  }

  /** Freeze a refreshed lane; `name` is the new snapshot's random name.  The snapshot expires
      by the clock reading `now`, taken before the rows are copied, but the cursor by `later`,
      taken after the commit. */
  function Freeze(l: Lane, caller: Caller, name: string, now: int, later: int, limits: Limits)
    : (Lane, Option<Cursor>)
    requires ValidLane(l)
  {
    var kept := Purged(l.snapshots, now);
    var watermark := Watermark(l);
    var rows := RowsBetween(l.records, 0, watermark);
    if Active(kept, caller.principal) + caller.elsewhere >= limits.maxActive
       || |rows| > limits.maxRecords || Bytes(rows, limits.size, 0) > limits.maxBytes then
      (l.(snapshots := kept), None)
    else if name in l.issued then (l, None)
    else
      (l.(snapshots := kept[name := Snapshot(caller.principal, watermark, now + CURSOR_TTL_SECONDS, rows)],
          issued := l.issued + {name}),
       Some(SnapshotAt(name, 0, watermark, later + CURSOR_TTL_SECONDS)))
  }

  datatype Request =
    | Open(caller: Caller, name: string)
    | Follow(cursor: Cursor)

  /** One request for a page, with its first and its last clock reading: the lane afterwards
      and the answer. */
  function Serve(l: Lane, request: Request, candidates: seq<Candidate>, limit: Limit, now: int, later: int,
                 limits: Limits): (Lane, Reply)
    requires ValidLane(l)
  {
    match request
    case Follow(c) =>
      if c.exp <= now then (l, ResetRequired)
      else if c.SnapshotAt? then (l, SnapshotPage(l, c, limit, limits))
      else
        (match Refresh(l, candidates, limits)
         case None => (l, Unexportable)
         case Some(l') =>
           (l', IncrementalPage(l', c.checkpoint, limit, later, limits)))
    case Open(caller, name) =>
      match Refresh(l, candidates, limits)
      case None => (l, Unexportable)
      case Some(l') =>
        var (l'', cursor) := Freeze(l', caller, name, now, later, limits);
        match cursor
        case None => (l'', Unavailable)
        case Some(c) => (l'', SnapshotPage(l'', c, limit, limits))
  }

  // ---- The lane as the source's mutable tables ---------------------------

  class ExportLane {
    const limits: Limits
    var next: nat
    var records: map<Id, Record>
    var snapshots: map<string, Snapshot>
    var issued: set<string>

    function View(): Lane reads this { Lane(next, records, snapshots, issued) }

    ghost predicate Valid() reads this { ValidLane(View()) }

    constructor (limits: Limits)
      ensures Valid() && View() == EMPTY && this.limits == limits
    {
      this.limits := limits;
      next, records, snapshots, issued := 1, map[], map[], {};
    }

    method NextSequence() returns (value: nat)
      modifies this`next
      ensures value == old(next) && next == old(next) + 1
    {
      value := next;
      next := value + 1;
    }

    /** Store every changed candidate under a new revision and sequence, or nothing. */
    method RefreshLane(candidates: seq<Candidate>) returns (stored: bool)
      requires Valid()
      modifies this`next, this`records
      ensures Valid()
      ensures stored <==> Refresh(old(View()), candidates, limits).Some?
      ensures View() == if stored then Refresh(old(View()), candidates, limits).value else old(View())
    {
      hide ValidLane, Refresh;
      RefreshEnds(View(), candidates, limits);
      var savedNext, savedRecords := next, records;
      var i := 0;
      while i < |candidates|
        invariant 0 <= i <= |candidates|
        invariant Refresh(old(View()), candidates[..i], limits) == Some(View())
      {
        var candidate := candidates[i];
        RefreshExtends(old(View()), candidates, i, limits);
        if !(candidate.id in records && records[candidate.id].content == candidate.content) {
          var revision := if candidate.id in records then records[candidate.id].revision + 1 else 1;
          var sequence := NextSequence();
          var r := Record(candidate.id, revision, sequence, candidate.content);
          if limits.size(r) > MAX_RECORD_BYTES || limits.provenance(r) > MAX_PROVENANCE_BYTES {
            FailureIsFinal(old(View()), candidates, i + 1, limits);
            next, records := savedNext, savedRecords;   // the transaction is rolled back
            return false;
          }
          records := records[candidate.id := r];
        }
        i := i + 1;
      }
      return true;
    }

    method FitPage(rows: seq<Record>, limit: nat) returns (selected: seq<Record>, hasMore: bool)
      ensures selected == PageOf(rows, limit, limits.size)
      ensures hasMore <==> |selected| < |rows|
    {
      selected := [];
      var used := 0;
      var i := 0;
      while i < |rows| && i < limit
        invariant i <= |Limited(rows, limit)| && selected == rows[..i]
        invariant used == Bytes(rows[..i], limits.size, 1)
        invariant FitCount(rows, limit, limits.size, 0) == FitCount(rows, limit, limits.size, i)
      {
        var size := limits.size(rows[i]) + 1;
        assert rows[..i + 1][..i] == rows[..i];
        if selected != [] && used + size > PAGE_BUDGET {
          break;
        }
        selected := selected + [rows[i]];
        used := used + size;
        i := i + 1;
      }
      hasMore := |selected| < |rows|;
    }

    method NewSnapshot(caller: Caller, name: string, candidates: seq<Candidate>, now: int, later: int)
      returns (stored: bool, cursor: Option<Cursor>)
      requires Valid()
      modifies this
      ensures Valid()
      ensures stored <==> Refresh(old(View()), candidates, limits).Some?
      ensures !stored ==> View() == old(View()) && cursor == None
      ensures stored ==>
        (View(), cursor) == Freeze(Refresh(old(View()), candidates, limits).value, caller, name, now, later, limits)
    {
      cursor := None;
      stored := RefreshLane(candidates);
      if !stored { return; }
      var kept := Purged(snapshots, now);
      if Active(kept, caller.principal) + caller.elsewhere >= limits.maxActive {
        snapshots := kept;
        return;
      }
      var watermark := Watermark(View());
      var rows := RowsBetween(records, 0, watermark);
      if |rows| > limits.maxRecords || Bytes(rows, limits.size, 0) > limits.maxBytes {
        snapshots := kept;
        return;
      }
      if name in issued { return; }     // the insert fails and the purge is rolled back
      snapshots := kept[name := Snapshot(caller.principal, watermark, now + CURSOR_TTL_SECONDS, rows)];
      issued := issued + {name};
      cursor := Some(SnapshotAt(name, 0, watermark, later + CURSOR_TTL_SECONDS));
    }

    method SnapshotRecords(cursor: Cursor, limit: Limit) returns (reply: Reply)
      requires cursor.SnapshotAt?
      ensures reply == SnapshotPage(View(), cursor, limit, limits)
    {
      if cursor.snapshot !in snapshots { return ResetRequired; }
      var all := snapshots[cursor.snapshot].rows;
      var rows := Limited(if cursor.pos <= |all| then all[cursor.pos..] else [], limit + 1);
      var page, hasMore := FitPage(rows, limit);
      if hasMore {
        return Page(page, cursor.(pos := cursor.pos + |page|), true);
      }
      return Page(page, Incremental(cursor.checkpoint, cursor.exp), false);
    }

    method IncrementalRecords(checkpoint: nat, limit: Limit, later: int) returns (reply: Reply)
      requires Valid()
      ensures reply == IncrementalPage(View(), checkpoint, limit, later, limits)
    {
      hide RowsBetween, Limited, PageOf;
      var rows := Limited(RowsBetween(records, checkpoint, next - 1), limit + 1);
      var page, hasMore := FitPage(rows, limit);
      var reached := if page == [] then checkpoint else page[|page| - 1].sequence;
      return Page(page, Incremental(reached, later + CURSOR_TTL_SECONDS), hasMore);
    }

    method PageRecords(cursor: Cursor, candidates: seq<Candidate>, limit: Limit, later: int) returns (reply: Reply)
      requires Valid()
      modifies this`next, this`records
      ensures Valid()
      ensures cursor.SnapshotAt? ==> View() == old(View()) && reply == SnapshotPage(View(), cursor, limit, limits)
      ensures cursor.Incremental? ==>
        match Refresh(old(View()), candidates, limits)
        case None => View() == old(View()) && reply == Unexportable
        case Some(l) => View() == l && reply == IncrementalPage(l, cursor.checkpoint, limit, later, limits)
    {
      if cursor.SnapshotAt? {
        reply := SnapshotRecords(cursor, limit);
      } else {
        var stored := RefreshLane(candidates);
        if !stored { return Unexportable; }
        reply := IncrementalRecords(cursor.checkpoint, limit, later);
      }
    }

    /** A page request: decode the cursor or open a snapshot, then build the page. */
    method ResourcePage(request: Request, candidates: seq<Candidate>, limit: Limit, now: int, later: int)
      returns (reply: Reply)
      requires Valid()
      modifies this
      ensures Valid() && (View(), reply) == Serve(old(View()), request, candidates, limit, now, later, limits)
    {
      match request
      case Follow(cursor) =>
        if cursor.exp <= now { return ResetRequired; }
        reply := PageRecords(cursor, candidates, limit, later);
      case Open(caller, name) =>
        var stored, cursor := NewSnapshot(caller, name, candidates, now, later);
        if !stored { return Unexportable; }
        if cursor == None { return Unavailable; }
        reply := PageRecords(cursor.value, candidates, limit, later);
    }
  }

  lemma RefreshEnds(l: Lane, candidates: seq<Candidate>, limits: Limits)
    ensures Refresh(l, candidates[..0], limits) == Some(l)
    ensures Refresh(l, candidates[..|candidates|], limits) == Refresh(l, candidates, limits)
  {
    assert candidates[..|candidates|] == candidates;
  }

  lemma RefreshExtends(l: Lane, candidates: seq<Candidate>, i: nat, limits: Limits)
    requires i < |candidates|
    ensures Refresh(l, candidates[..i + 1], limits) ==
            match Refresh(l, candidates[..i], limits)
            case None => None
            case Some(m) => RefreshOne(m, candidates[i], limits)
  {
    assert candidates[..i + 1][..i] == candidates[..i];
  }

  lemma FailureIsFinal(l: Lane, candidates: seq<Candidate>, n: nat, limits: Limits)
    requires n <= |candidates| && Refresh(l, candidates[..n], limits) == None
    ensures Refresh(l, candidates, limits) == None
    decreases |candidates|
  {
    if n == |candidates| {
      assert candidates[..n] == candidates;
    } else {
      assert candidates[..|candidates| - 1][..n] == candidates[..n];
      FailureIsFinal(l, candidates[..|candidates| - 1], n, limits);
    }
  }
}
