/**
 The limits of the export: which openings are granted, how much is ever frozen, and what an
 expired cursor gets.
 */
module ExportCapacity {
  import opened Options
  import opened ExportLanes
  import opened ExportSync
  import opened ExportProgress

  /** The caller's snapshots that have not expired. */
  ghost function OwnSnapshots(l: Lane, principal: string, now: int): set<string> {
    set s | s in l.snapshots && l.snapshots[s].expires >= now && l.snapshots[s].principal == principal
  }

  /** Every stored row, in order. */
  ghost function AllRows(l: Lane): seq<Record>
    requires ValidLane(l)
  {
    RowsBetween(l.records, 0, l.next - 1)
  }

  /** An opening under a new name is granted exactly if the refresh succeeds, the caller has fewer
      unexpired snapshots than allowed over all lanes, and all rows fit the limits of a snapshot;
      then it freezes all rows. */
  lemma OpeningGrantedIff(l: Lane, caller: Caller, name: string, candidates: seq<Candidate>, limit: Limit, now: int,
                          later: int, limits: Limits)
    requires ValidLane(l) && name !in l.issued
    ensures var (m, reply) := Serve(l, Open(caller, name), candidates, limit, now, later, limits);
            && (Refresh(l, candidates, limits).None? ==> m == l && reply == Unexportable)
            && (Refresh(l, candidates, limits).Some? ==>
                  var refreshed := Refresh(l, candidates, limits).value;
                  if && |OwnSnapshots(refreshed, caller.principal, now)| + caller.elsewhere < limits.maxActive
                     && |AllRows(refreshed)| <= limits.maxRecords
                     && Bytes(AllRows(refreshed), limits.size, 0) <= limits.maxBytes
                  then reply.Page? && name in m.snapshots && m.snapshots[name].rows == AllRows(refreshed)
                       && m.snapshots[name].principal == caller.principal
                  else reply == Unavailable && name !in m.snapshots)
  {
    hide Refresh, RowsBetween, ValidLane, Bytes, Fold, PageOf, Limited;
    if Refresh(l, candidates, limits).Some? {
      var refreshed := Refresh(l, candidates, limits).value;
      RefreshAdvances(l, candidates, limits);
      UnusedName(refreshed, name);
      AllBelowWatermark(refreshed);
      OwnAreActive(refreshed, caller.principal, now);
      FreezeDecides(refreshed, caller, name, now, later, limits);
    }
  }

  lemma UnusedName(l: Lane, name: string)
    requires ValidLane(l) && name !in l.issued
    ensures name !in l.snapshots
  {
  }

  lemma AllBelowWatermark(l: Lane)
    requires ValidLane(l)
    ensures RowsBetween(l.records, 0, Watermark(l)) == AllRows(l)
  {
    hide RowsBetween, Watermark;
    ValidIsDistinct(l);
    WatermarkBelowNext(l);
    RowsSplit(l.records, 0, Watermark(l), l.next - 1);
    NothingBehind(l.records, Watermark(l), l.next - 1);
  }

  lemma ValidIsDistinct(l: Lane)
    requires ValidLane(l)
    ensures DistinctSequences(l.records)
  {
  }

  lemma OwnAreActive(l: Lane, principal: string, now: int)
    ensures Active(Purged(l.snapshots, now), principal) == |OwnSnapshots(l, principal, now)|
  {
    var kept := Purged(l.snapshots, now);
    assert (set s | s in kept && kept[s].principal == principal) == OwnSnapshots(l, principal, now);
  }

  lemma FreezeDecides(l: Lane, caller: Caller, name: string, now: int, later: int, limits: Limits)
    requires ValidLane(l) && name !in l.issued && name !in l.snapshots
    requires RowsBetween(l.records, 0, Watermark(l)) == AllRows(l)
    requires Active(Purged(l.snapshots, now), caller.principal) == |OwnSnapshots(l, caller.principal, now)|
    ensures var (m, cursor) := Freeze(l, caller, name, now, later, limits);
            if && |OwnSnapshots(l, caller.principal, now)| + caller.elsewhere < limits.maxActive
               && |AllRows(l)| <= limits.maxRecords && Bytes(AllRows(l), limits.size, 0) <= limits.maxBytes
            then && cursor.Some? && cursor.value.SnapshotAt? && cursor.value.snapshot == name
                 && name in m.snapshots && m.snapshots[name].rows == AllRows(l)
                 && m.snapshots[name].principal == caller.principal
            else cursor.None? && name !in m.snapshots
  {
    hide RowsBetween, Watermark, Bytes, Active, OwnSnapshots, AllRows;
  }

  // ---- Over runs ------------------------------------------------------------------

  ghost predicate WithinLimits(l: Lane, limits: Limits) {
    forall s | s in l.snapshots ::
      |l.snapshots[s].rows| <= limits.maxRecords && Bytes(l.snapshots[s].rows, limits.size, 0) <= limits.maxBytes
  }

  lemma FreezeWithinLimits(l: Lane, caller: Caller, name: string, now: int, later: int, limits: Limits)
    requires ValidLane(l) && WithinLimits(l, limits)
    ensures WithinLimits(Freeze(l, caller, name, now, later, limits).0, limits)
  {
    hide RowsBetween, Watermark, Bytes, Active;
  }

  lemma ServeWithinLimits(l: Lane, request: Request, candidates: seq<Candidate>, limit: Limit, now: int, later: int,
                          limits: Limits)
    requires ValidLane(l) && WithinLimits(l, limits)
    ensures WithinLimits(Serve(l, request, candidates, limit, now, later, limits).0, limits)
  {
    hide Refresh, ValidLane, SnapshotPage, IncrementalPage, Freeze, Bytes;
    if Refresh(l, candidates, limits).Some? {
      RefreshAdvances(l, candidates, limits);
      if request.Open? {
        FreezeWithinLimits(Refresh(l, candidates, limits).value, request.caller, request.name, now, later, limits);
      }
    }
  }

  lemma {:induction false} RunWithinLimits(s: System, events: seq<Event>, limits: Limits)
    requires ValidLane(s.lane) && WithinLimits(s.lane, limits)
    ensures WithinLimits(Run(s, events, limits).lane, limits)
    decreases |events|
  {
    hide Serve, ValidLane, WithinLimits;
    if events != [] {
      var t, e := Run(s, events[..|events| - 1], limits), events[|events| - 1];
      RunWithinLimits(s, events[..|events| - 1], limits);
      if e.Other? {
        ServeWithinLimits(t.lane, e.request, e.candidates, e.limit, t.clock, t.clock + e.took, limits);
      } else if e.Poll? {
        ServeWithinLimits(t.lane, Ask(t.reader, e), e.candidates, e.limit, t.clock, t.clock + e.took, limits);
      }
    }
  }

  /** In every run no snapshot holds more records or bytes than allowed. */
  lemma SnapshotsStayWithinLimits(clock: int, events: seq<Event>, limits: Limits)
    ensures WithinLimits(Run(Initial(clock), events, limits).lane, limits)
  {
    hide Run;
    RunWithinLimits(Initial(clock), events, limits);
  }

  // ---- Expiry ----------------------------------------------------------------------

  /** A cursor is refused from its expiry on, and the request changes nothing. */
  lemma ExpiredCursorsAreRefused(l: Lane, c: Cursor, candidates: seq<Candidate>, limit: Limit, now: int, later: int,
                                 limits: Limits)
    requires ValidLane(l) && now >= c.exp
    ensures Serve(l, Follow(c), candidates, limit, now, later, limits) == (l, ResetRequired)
  {
  }

  /** Cursors of live pages last a day from the last clock reading, so a reader that asks once a day
      is never refused. */
  lemma LiveCursorsLastADay(l: Lane, c: Cursor, candidates: seq<Candidate>, limit: Limit, now: int, later: int,
                            limits: Limits)
    requires ValidLane(l) && c.Incremental? && now < c.exp && Refresh(l, candidates, limits).Some?
    ensures var reply := Serve(l, Follow(c), candidates, limit, now, later, limits).1;
            reply.Page? && reply.next.Incremental? && reply.next.exp == later + 24 * 60 * 60
  {
    hide Refresh, IncrementalPage;
    LivePageKind(Refresh(l, candidates, limits).value, c.checkpoint, limit, later, limits);
  }

  /** Sizes add up, with the separator behind every row. */
  lemma {:induction false} BytesAddUp(a: seq<Record>, b: seq<Record>, r: Record, size: Record -> nat, separator: nat)
    ensures Bytes([r], size, separator) == size(r) + separator
    ensures Bytes(a + b, size, separator) == Bytes(a, size, separator) + Bytes(b, size, separator)
    decreases |b|
  {
    assert [r][..0] == [];
    if b == [] {
      assert a + b == a;
    } else {
      BytesAddUp(a, b[..|b| - 1], r, size, separator);
      assert (a + b)[..|a + b| - 1] == a + b[..|b| - 1];
    }
  }
}
