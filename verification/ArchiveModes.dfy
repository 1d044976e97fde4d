/**
 What the archive does to the hot table (archive.py, `run_archive_cycle` and
 `_evict_verified_existing_copies`): copy mode leaves it alone, move mode takes out what it has
 just sealed, recent events stay, and a damaged segment stops the eviction of duplicates.
 */
module ArchiveModes {
  import opened Options
  import opened ArchiveSegments
  import opened ArchiveLifecycle

  ghost predicate InRows(rows: Rows, id: LogId) { exists i :: 0 <= i < |rows| && rows[i].0 == id }

  // ---- One step ------------------------------------------------------------------

  lemma IdsAreInRows(rows: Rows, id: LogId)
    ensures id in Ids(rows) <==> InRows(rows, id)
  {
    if id in Ids(rows) {
      var r :| r in rows && r.0 == id;
      var i :| 0 <= i < |rows| && rows[i] == r;
    }
  }

  /** A commit in copy mode leaves the hot table as it is; in move mode it takes out exactly the
      rows of the segment and changes no other. */
  lemma CommitByMode(s: System, a: nat, move: bool)
    requires StageOf(s, a).Written?
    ensures var t, rows := Next(s, Commit(a, move)), StageOf(s, a).rows;
            && (!move ==> t.store.hot == s.store.hot)
            && (forall id :: id in t.store.hot <==> id in s.store.hot && !(move && InRows(rows, id)))
            && (forall id | id in t.store.hot :: t.store.hot[id] == s.store.hot[id])
  {
    hide Ids;
    var rows := StageOf(s, a).rows;
    forall id: LogId
      ensures id in Ids(rows) <==> InRows(rows, id)
    {
      IdsAreInRows(rows, id);
    }
  }

  /** After a move commit a log of the segment is in the archive instead. */
  lemma MovedIsArchived(s: System, a: nat, id: LogId)
    requires Invariant(s) && StageOf(s, a).Written? && InRows(StageOf(s, a).rows, id)
    ensures var t := Next(s, Commit(a, true));
            id !in t.store.hot && id in t.everything && id in t.store.catalog && Archives(t, t.store.catalog[id], id)
  {
    hide Ids, Next, Invariant, Archives;
    var e := Commit(a, true);
    CommitByMode(s, a, true);
    NextKeepsInvariant(s, e);
    RowIsKnown(s, a, id);
    KnownStays(s, e, id);
    InvariantFinds(Next(s, e), id);
  }

  lemma RowIsKnown(s: System, a: nat, id: LogId)
    requires Invariant(s) && StageOf(s, a).Written? && InRows(StageOf(s, a).rows, id)
    ensures id in s.everything
  {
    hide HotOk, SealedOk, CatalogOk, Built;
    var rows := StageOf(s, a).rows;
    assert StageOk(s, s.stages[a]);
    var i :| 0 <= i < |rows| && rows[i].0 == id;
    assert rows[i] in rows;
  }

  lemma KnownStays(s: System, e: Step, id: LogId)
    requires Invariant(s) && id in s.everything
    ensures id in Next(s, e).everything
  {
    hide Next, Invariant;
    NextExtends(s, e);
  }

  lemma InvariantFinds(s: System, id: LogId)
    requires Invariant(s) && id in s.everything && id !in s.store.hot
    ensures id in s.store.catalog && Archives(s, s.store.catalog[id], id)
  {
    hide SealedOk, StagesOk;
  }

  // ---- Runs that only copy ----------------------------------------------------------

  predicate Evicts(e: Step) { e.Evict? || (e.Commit? && e.move) }

  ghost predicate AllHot(s: System) { s.store.hot == s.everything }

  lemma CopyStep(s: System, e: Step)
    requires AllHot(s) && !Evicts(e)
    ensures AllHot(Next(s, e))
  {
    hide Ids, Built, CanSelect, AllVerified, Duplicated;
    if e.Commit? && StageOf(s, e.archiver).Written? {
      CommitByMode(s, e.archiver, false);
    }
  }

  lemma {:induction false} CopyRun(s: System, steps: seq<Step>)
    requires AllHot(s) && forall e | e in steps :: !Evicts(e)
    ensures AllHot(Run(s, steps))
    decreases |steps|
  {
    hide Next, Evicts, AllHot;
    if steps != [] {
      CopyStep(s, steps[0]);
      CopyRun(Next(s, steps[0]), steps[1..]);
    }
  }

  /** In every run without a move commit and without an eviction the hot table holds every event
      ever ingested, as it was ingested. */
  lemma CopyingKeepsEverythingHot(steps: seq<Step>)
    requires forall e | e in steps :: !e.Evict? && !(e.Commit? && e.move)
    ensures Run(START, steps).store.hot == Run(START, steps).everything
  {
    hide Run;
    CopyRun(START, steps);
  }

  // ---- Recent events ------------------------------------------------------------------

  /** The rows in work are older than the bound. */
  ghost predicate OldStage(s: System, stage: Stage, bound: int) {
    match stage
    case Idle => true
    case Selected(rows) => forall i | 0 <= i < |rows| :: rows[i].1.received < bound
    case Written(_, rows, _) => forall i | 0 <= i < |rows| :: rows[i].1.received < bound
    case Evicting(ids) => forall id | id in ids :: id in s.everything && s.everything[id].received < bound
  }

  ghost predicate RecentIsHot(s: System, bound: int) {
    && (forall id | id in s.everything && s.everything[id].received >= bound :: id in s.store.hot)
    && (forall a | a in s.stages :: OldStage(s, s.stages[a], bound))
  }

  /** The cutoffs that archivers use lie at or before the bound. */
  predicate CutsBefore(e: Step, bound: int) {
    (e.Select? || e.SelectDuplicates?) ==> e.cutoff <= bound
  }

  lemma StageStaysOld(s: System, e: Step, stage: Stage, bound: int)
    requires Invariant(s) && OldStage(s, stage, bound)
    ensures OldStage(Next(s, e), stage, bound)
  {
    hide Next, Invariant;
    NextExtends(s, e);
  }

  lemma NewStageIsOld(s: System, e: Step, a: nat, bound: int)
    requires Invariant(s) && RecentIsHot(s, bound) && CutsBefore(e, bound) && a in Next(s, e).stages
    requires !(a in s.stages && Next(s, e).stages[a] == s.stages[a])
    ensures OldStage(Next(s, e), Next(s, e).stages[a], bound)
  {
    hide SealedOk, CatalogOk, StagesOk, Built, Ids, AllVerified, DistinctIds;
    match e
    case Ingest(_, _) =>
    case Select(_, cutoff, rows) => assert forall i | 0 <= i < |rows| :: rows[i] in rows;
    case WriteFile(_, _) => assert OldStage(s, s.stages[a], bound);
    case WritePartOfFile(_, _, _) =>
    case Commit(_, _) =>
    case SelectDuplicates(_, _, _) =>
    case Evict(_) =>
    case Crash(_) =>
  }

  lemma RecentStep(s: System, e: Step, bound: int)
    requires Invariant(s) && RecentIsHot(s, bound) && CutsBefore(e, bound)
    ensures RecentIsHot(Next(s, e), bound)
  {
    var t := Next(s, e);
    RecentStaysInHot(s, e, bound);
    hide Next, Invariant, OldStage, CutsBefore;
    forall a | a in t.stages
      ensures OldStage(t, t.stages[a], bound)
    {
      if a in s.stages && t.stages[a] == s.stages[a] {
        StageStaysOld(s, e, s.stages[a], bound);
      } else {
        NewStageIsOld(s, e, a, bound);
      }
    }
  }

  lemma RecentStaysInHot(s: System, e: Step, bound: int)
    requires Invariant(s) && RecentIsHot(s, bound)
    ensures var t := Next(s, e);
            forall id | id in t.everything && t.everything[id].received >= bound :: id in t.store.hot
  {
    hide Ids, Built, CanSelect, AllVerified, Duplicated, SealedOk, CatalogOk;
    if e.Commit? && StageOf(s, e.archiver).Written? {
      var rows := StageOf(s, e.archiver).rows;
      CommitByMode(s, e.archiver, e.move);
      assert OldStage(s, s.stages[e.archiver], bound) && StageOk(s, s.stages[e.archiver]);
      assert forall i | 0 <= i < |rows| :: rows[i] in rows && rows[i].1.received < bound;
    } else if e.Evict? && StageOf(s, e.archiver).Evicting? {
      assert OldStage(s, s.stages[e.archiver], bound);
    }
  }

  lemma {:induction false} RecentRun(s: System, steps: seq<Step>, bound: int)
    requires Invariant(s) && RecentIsHot(s, bound) && forall e | e in steps :: CutsBefore(e, bound)
    ensures RecentIsHot(Run(s, steps), bound)
    decreases |steps|
  {
    hide Next, Invariant, RecentIsHot, CutsBefore;
    if steps != [] {
      NextKeepsInvariant(s, steps[0]);
      RecentStep(s, steps[0], bound);
      RecentRun(Next(s, steps[0]), steps[1..], bound);
    }
  }

  /** In every run, in both modes, an event received at or after every cutoff used stays hot. */
  lemma RecentEventsStayHot(steps: seq<Step>, bound: int, id: LogId)
    requires forall e | e in steps && (e.Select? || e.SelectDuplicates?) :: e.cutoff <= bound
    requires id in Run(START, steps).everything && Run(START, steps).everything[id].received >= bound
    ensures id in Run(START, steps).store.hot
  {
    hide Run;
    RecentRun(START, steps, bound);
  }

  /** Any hot rows older than the cutoff that are catalogued nowhere can be archived, and become
      the segment that the archiver writes. */
  lemma OldRowsAreWritten(s: System, a: nat, cutoff: int, rows: Rows, segment: SegmentId)
    requires StageOf(s, a) == Idle && DistinctIds(rows) && segment !in s.files
    requires forall r | r in rows ::
               r.0 in s.store.hot && s.store.hot[r.0] == r.1 && r.1.received < cutoff && r.0 !in s.store.catalog
    ensures var t := Next(Next(s, Select(a, cutoff, rows)), WriteFile(a, segment));
            t.store == s.store && segment in t.files && t.files[segment] == Built(rows)
            && StageOf(t, a) == Written(segment, rows, Built(rows))
  {
    hide Built, DistinctIds;
  }

  // ---- Verification ---------------------------------------------------------------------

  /** On disk the segment is exactly what was sealed. */
  predicate Intact(s: Store, files: map<SegmentId, File>, segment: SegmentId) {
    segment in s.sealed && segment in files && files[segment] == s.sealed[segment]
  }

  /** Duplicates verify exactly if each is catalogued in an intact segment that holds it. */
  lemma VerifiesIffIntact(s: Store, files: map<SegmentId, File>, ids: set<LogId>)
    ensures AllVerified(s, files, ids) <==>
            forall id | id in ids :: id in s.catalog && Intact(s, files, s.catalog[id]) && id in files[s.catalog[id]]
  {
  }

  /** One damaged or missing segment, or one that lacks the log, and no duplicate is selected. */
  lemma DamageStopsEviction(s: System, a: nat, cutoff: int, ids: set<LogId>, id: LogId)
    requires id in ids && id in s.store.catalog
    requires !Intact(s.store, s.files, s.store.catalog[id]) || id !in s.files[s.store.catalog[id]]
    ensures Next(s, SelectDuplicates(a, cutoff, ids)) == s
  {
    hide Intact, Duplicated, AllVerified;
    VerifiesIffIntact(s.store, s.files, ids);
  }

  /** Intact segments and old, hot, catalogued rows: the duplicates are selected, and evicted by
      the next step. */
  lemma IntactIsEvicted(s: System, a: nat, cutoff: int, ids: set<LogId>)
    requires StageOf(s, a) == Idle
    requires forall id | id in ids ::
               && id in s.store.hot && s.store.hot[id].received < cutoff
               && id in s.store.catalog && Intact(s.store, s.files, s.store.catalog[id])
               && id in s.files[s.store.catalog[id]]
    ensures var t := Next(Next(s, SelectDuplicates(a, cutoff, ids)), Evict(a));
            t.store.hot == s.store.hot - ids && t.store.catalog == s.store.catalog && t.store.sealed == s.store.sealed
  {
  }

  // ---- What reads back ------------------------------------------------------------------

  lemma {:induction false} PairsAre(fields: seq<Field>)
    ensures |Pairs(fields)| == |fields|
    ensures forall k | 0 <= k < |fields| ::
              Pairs(fields)[k].0 == fields[k].name
              && Pairs(fields)[k].1 == if fields[k].value.None? then "" else fields[k].value.value
    decreases |fields|
  {
    if fields != [] {
      PairsAre(fields[1..]);
    }
  }

  /** Every archived row reads back with its own time and columns, its text or "" if it had none,
      and its field pairs with "" for missing values, each as often as it was there. */
  lemma RowsReadBack(rows: Rows, i: nat, pairs: seq<(string, string)>)
    requires DistinctIds(rows) && i < |rows| && |pairs| == |rows[i].1.fields|
    requires forall k | 0 <= k < |pairs| ::
               var f := rows[i].1.fields[k];
               pairs[k].0 == f.name && pairs[k].1 == if f.value.None? then "" else f.value.value
    ensures var e := rows[i].1;
            && rows[i].0 in Built(rows)
            && var got := Built(rows)[rows[i].0];
               && got.received == e.received && got.columns == e.columns
               && got.raw == (if e.raw.None? then "" else e.raw.value)
               && got.fields == multiset(pairs)
  {
    hide Built, DistinctIds;
    BuiltReadsBack(rows, i);
    PairsAre(rows[i].1.fields);
    assert pairs == Pairs(rows[i].1.fields);
  }
}
