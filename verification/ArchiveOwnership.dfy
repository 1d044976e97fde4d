/**
 How often a log is sealed (archive.py, `run_archive_cycle` and `_catalog_segment`): no log is
 in two sealed segments exactly as long as no commit seals a log that is catalogued already.
 */
module ArchiveOwnership {
  import opened ArchiveSegments
  import opened ArchiveLifecycle

  // ---- One commit ------------------------------------------------------------

  /** Every sealed log has its catalogue owner as its only segment. */
  ghost predicate SoleOwners(s: Store) {
    && (forall g, id | g in s.sealed && id in s.sealed[g] :: id in s.catalog && s.catalog[id] == g)
    && (forall id | id in s.catalog :: s.catalog[id] in s.sealed && id in s.sealed[s.catalog[id]])
  }

  ghost predicate SealedOnce(s: Store) {
    forall g, h, id | g in s.sealed && h in s.sealed && id in s.sealed[g] && id in s.sealed[h] :: g == h
  }

  lemma SoleOwnersSealOnce(s: Store)
    requires SoleOwners(s)
    ensures SealedOnce(s)
  {
    forall g, h, id | g in s.sealed && h in s.sealed && id in s.sealed[g] && id in s.sealed[h]
      ensures g == h
    {
      assert s.catalog[id] == g;
    }
  }

  /** A catalogued log that is sealed again is in two segments. */
  lemma SealAgain(s: Store, segment: SegmentId, file: File, ids: set<LogId>, move: bool, id: LogId)
    requires SoleOwners(s) && file.Keys == ids && segment !in s.sealed
    requires id in ids && id in s.catalog
    ensures !SealedOnce(Seal(s, segment, file, ids, move))
  {
    var t := Seal(s, segment, file, ids, move);
    var g := s.catalog[id];
    assert g in t.sealed && id in t.sealed[g] && segment in t.sealed && id in t.sealed[segment] && g != segment;
  }

  lemma SealNew(s: Store, segment: SegmentId, file: File, ids: set<LogId>, move: bool)
    requires SoleOwners(s) && file.Keys == ids && segment !in s.sealed && ids !! s.catalog.Keys
    ensures SoleOwners(Seal(s, segment, file, ids, move))
  {
    var t := Seal(s, segment, file, ids, move);
    forall g, id | g in t.sealed && id in t.sealed[g]
      ensures id in t.catalog && t.catalog[id] == g
    {
      if g != segment {
        assert g in s.sealed && id in s.sealed[g];
      }
    }
  }

  /** Sealing a segment keeps every log in one segment if and only if none of its logs was
      catalogued before. */
  lemma SealOwnsOnceIff(s: Store, segment: SegmentId, file: File, ids: set<LogId>, move: bool)
    requires SoleOwners(s) && file.Keys == ids && segment !in s.sealed
    ensures SoleOwners(Seal(s, segment, file, ids, move)) <==> ids !! s.catalog.Keys
    ensures SealedOnce(Seal(s, segment, file, ids, move)) <==> ids !! s.catalog.Keys
  {
    hide SoleOwners, SealedOnce, Seal;
    if ids !! s.catalog.Keys {
      SealNew(s, segment, file, ids, move);
      SoleOwnersSealOnce(Seal(s, segment, file, ids, move));
    } else {
      var id :| id in ids && id in s.catalog.Keys;
      SealAgain(s, segment, file, ids, move, id);
      if SoleOwners(Seal(s, segment, file, ids, move)) {
        SoleOwnersSealOnce(Seal(s, segment, file, ids, move));
      }
    }
  }

  // ---- Runs ----------------------------------------------------------------------

  /** The step commits a segment with a log that is catalogued already. */
  ghost predicate Reseals(s: System, e: Step) {
    e.Commit? && StageOf(s, e.archiver).Written? && !(Ids(StageOf(s, e.archiver).rows) !! s.store.catalog.Keys)
  }

  ghost predicate NeverReseals(s: System, steps: seq<Step>)
    decreases |steps|
  {
    steps == [] || (!Reseals(s, steps[0]) && NeverReseals(Next(s, steps[0]), steps[1..]))
  }

  /** Segments about to be committed are new, and no two archivers have the same one. */
  ghost predicate Fresh(s: System) {
    && (forall a | a in s.stages && s.stages[a].Written? :: s.stages[a].segment !in s.store.sealed)
    && (forall a, b | a in s.stages && b in s.stages && s.stages[a].Written? && s.stages[b].Written?
                      && s.stages[a].segment == s.stages[b].segment :: a == b)
  }

  lemma BuiltKeys(rows: Rows)
    requires DistinctIds(rows)
    ensures Built(rows).Keys == Ids(rows)
  {
    forall id | id in Built(rows)
      ensures id in Ids(rows)
    {
      BuiltOnlyRows(rows, id);
      var i :| 0 <= i < |rows| && rows[i].0 == id;
      assert rows[i] in rows;
    }
    forall r | r in rows
      ensures r.0 in Built(rows)
    {
      var i :| 0 <= i < |rows| && rows[i] == r;
      BuiltReadsBack(rows, i);
    }
  }

  lemma CommitIsSeal(s: System, e: Step)
    requires e.Commit? && StageOf(s, e.archiver).Written?
    ensures var Written(segment, rows, file) := StageOf(s, e.archiver);
            Next(s, e) == s.(store := Seal(s.store, segment, file, Ids(rows), e.move),
                             stages := s.stages[e.archiver := Idle])
  {
    hide Seal, Ids;
  }

  lemma CommitIsFresh(s: System, e: Step)
    requires Invariant(s) && Fresh(s) && e.Commit? && StageOf(s, e.archiver).Written?
    ensures Fresh(Next(s, e))
  {
    hide Built, Ids, Seal, Invariant;
    CommitIsSeal(s, e);
    SealIsOneMore(s.store, StageOf(s, e.archiver).segment, StageOf(s, e.archiver).file,
                  Ids(StageOf(s, e.archiver).rows), e.move);
  }

  lemma SealIsOneMore(s: Store, segment: SegmentId, file: File, ids: set<LogId>, move: bool)
    ensures Seal(s, segment, file, ids, move).sealed == s.sealed[segment := file]
  {
  }

  /** Sealed segments and segments about to be committed have their files. */
  ghost predicate FilesExist(s: System) {
    && s.store.sealed.Keys <= s.files.Keys
    && (forall a | a in s.stages && s.stages[a].Written? :: s.stages[a].segment in s.files)
  }

  lemma InvariantFilesExist(s: System)
    requires Invariant(s)
    ensures FilesExist(s)
  {
    hide Built, Ids, HotOk, CatalogOk, Genuine;
    assert forall a | a in s.stages && s.stages[a].Written? :: StageOk(s, s.stages[a]);
  }

  lemma OtherStepsAreFresh(s: System, e: Step)
    requires FilesExist(s) && Fresh(s) && !(e.Commit? && StageOf(s, e.archiver).Written?)
    ensures Fresh(Next(s, e))
    ensures Next(s, e).store.sealed == s.store.sealed && Next(s, e).store.catalog == s.store.catalog
  {
    hide Built, Ids, CanSelect, AllVerified, Duplicated, Seal;
  }

  ghost predicate Owned(s: System) { Invariant(s) && Fresh(s) && SoleOwners(s.store) }

  /** A step keeps every log in one sealed segment if and only if it seals no log again. */
  lemma StepOwnsOnceIff(s: System, e: Step)
    requires Owned(s)
    ensures !Reseals(s, e) ==> Owned(Next(s, e))
    ensures Reseals(s, e) ==> !SealedOnce(Next(s, e).store)
  {
    hide Invariant, Fresh, SoleOwners, SealedOnce, Seal, Next;
    NextKeepsInvariant(s, e);
    if e.Commit? && StageOf(s, e.archiver).Written? {
      var Written(segment, rows, file) := StageOf(s, e.archiver);
      CommitIsFresh(s, e);
      CommitIsSeal(s, e);
      WrittenIsReady(s, e.archiver);
      SealOwnsOnceIff(s.store, segment, file, Ids(rows), e.move);
    } else {
      InvariantFilesExist(s);
      OtherStepsAreFresh(s, e);
      SameOwners(s.store, Next(s, e).store);
    }
  }

  lemma WrittenIsReady(s: System, a: nat)
    requires Invariant(s) && Fresh(s) && StageOf(s, a).Written?
    ensures StageOf(s, a).file.Keys == Ids(StageOf(s, a).rows) && StageOf(s, a).segment !in s.store.sealed
  {
    hide Built, HotOk, SealedOk, CatalogOk, Ids;
    assert StageOk(s, s.stages[a]);
    BuiltKeys(StageOf(s, a).rows);
  }

  lemma SameOwners(s: Store, t: Store)
    requires t.sealed == s.sealed && t.catalog == s.catalog && SoleOwners(s)
    ensures SoleOwners(t)
  {
  }

  /** Nothing undoes a second sealing. */
  lemma {:induction false} TwiceStays(s: System, steps: seq<Step>)
    requires Invariant(s) && !SealedOnce(s.store)
    ensures !SealedOnce(Run(s, steps).store)
    decreases |steps|
  {
    hide Invariant, SealedOnce, Next, Extends;
    if steps != [] {
      NextExtends(s, steps[0]);
      NextKeepsInvariant(s, steps[0]);
      TwiceExtends(s, Next(s, steps[0]));
      TwiceStays(Next(s, steps[0]), steps[1..]);
    }
  }

  lemma TwiceExtends(s: System, t: System)
    requires Extends(s, t) && !SealedOnce(s.store)
    ensures !SealedOnce(t.store)
  {
    var g, h, id :| && g in s.store.sealed && h in s.store.sealed
                    && id in s.store.sealed[g] && id in s.store.sealed[h] && g != h;
    assert g in t.store.sealed && h in t.store.sealed && id in t.store.sealed[g] && id in t.store.sealed[h];
  }

  lemma {:induction false} RunsOwnOnceIff(s: System, steps: seq<Step>)
    requires Owned(s)
    ensures SealedOnce(Run(s, steps).store) <==> NeverReseals(s, steps)
    decreases |steps|
  {
    hide Owned, SealedOnce, Next, Reseals;
    OwnedSealsOnce(s);
    if steps != [] {
      StepOwnsOnceIff(s, steps[0]);
      if Reseals(s, steps[0]) {
        OwnedNext(s, steps[0]);
        TwiceStays(Next(s, steps[0]), steps[1..]);
      } else {
        RunsOwnOnceIff(Next(s, steps[0]), steps[1..]);
      }
    }
  }

  lemma OwnedNext(s: System, e: Step)
    requires Owned(s)
    ensures Invariant(Next(s, e))
  {
    hide Invariant, Next;
    NextKeepsInvariant(s, e);
  }

  lemma OwnedSealsOnce(s: System)
    requires Owned(s)
    ensures SealedOnce(s.store)
  {
    hide Invariant;
    SoleOwnersSealOnce(s.store);
  }

  /** In every run with any number of archivers and crashes, no log is in two sealed segments if
      and only if no commit seals a log that is catalogued already. */
  lemma LogsAreSealedOnceIff(steps: seq<Step>)
    ensures SealedOnce(Run(START, steps).store) <==> NeverReseals(START, steps)
  {
    hide Run, NeverReseals, SealedOnce;
    RunsOwnOnceIff(START, steps);
  }

  // ---- One archiver ----------------------------------------------------------------

  predicate ByOneArchiver(e: Step) { e.Ingest? || e.archiver == 0 }

  /** The only archiver's rows are catalogued nowhere yet. */
  ghost predicate Alone(s: System) {
    forall a | a in s.stages :: a == 0 && Uncatalogued(s, s.stages[a])
  }

  ghost predicate Uncatalogued(s: System, stage: Stage) {
    match stage
    case Selected(rows) => Ids(rows) !! s.store.catalog.Keys
    case Written(_, rows, _) => Ids(rows) !! s.store.catalog.Keys
    case _ => true
  }

  lemma AloneNext(s: System, e: Step)
    requires Alone(s) && ByOneArchiver(e)
    ensures Alone(Next(s, e)) && !Reseals(s, e)
  {
    hide Built, AllVerified, DistinctIds;
    assert 0 in s.stages ==> Uncatalogued(s, s.stages[0]);
  }

  lemma {:induction false} AloneNeverReseals(s: System, steps: seq<Step>)
    requires Alone(s) && forall e | e in steps :: ByOneArchiver(e)
    ensures NeverReseals(s, steps)
    decreases |steps|
  {
    hide Alone, Next, Reseals;
    if steps != [] {
      AloneNext(s, steps[0]);
      AloneNeverReseals(Next(s, steps[0]), steps[1..]);
    }
  }

  /** With a single archiver, crashes included, no log is in two sealed segments ... */
  lemma OneArchiverSealsOnce(steps: seq<Step>)
    requires forall e | e in steps :: ByOneArchiver(e)
    ensures SealedOnce(Run(START, steps).store)
  {
    hide Run, NeverReseals, SealedOnce;
    AloneNeverReseals(START, steps);
    LogsAreSealedOnceIff(steps);
  }

  lemma RunOne(s: System, e: Step, rest: seq<Step>)
    ensures Run(s, [e] + rest) == Run(Next(s, e), rest)
  {
    assert ([e] + rest)[1..] == rest;
  }

  lemma RunSeven(s: System, a: Step, b: Step, c: Step, d: Step, e: Step, f: Step, g: Step)
    ensures Run(s, [a, b, c, d, e, f, g]) ==
            Next(Next(Next(Next(Next(Next(Next(s, a), b), c), d), e), f), g)
  {
    hide Next;
    RunOne(Next(Next(Next(Next(Next(Next(s, a), b), c), d), e), f), g, []);
    RunOne(Next(Next(Next(Next(Next(s, a), b), c), d), e), f, [g]);
    RunOne(Next(Next(Next(Next(s, a), b), c), d), e, [f, g]);
    RunOne(Next(Next(Next(s, a), b), c), d, [e, f, g]);
    RunOne(Next(Next(s, a), b), c, [d, e, f, g]);
    RunOne(Next(s, a), b, [c, d, e, f, g]);
    RunOne(s, a, [b, c, d, e, f, g]);
  }

  lemma BothCommit(s: System, rows: Rows)
    requires StageOf(s, 0) == Selected(rows) && StageOf(s, 1) == Selected(rows) && s.files == map[]
    ensures var written := Next(Next(s, WriteFile(0, "g")), WriteFile(1, "h"));
            var t := Next(Next(written, Commit(0, false)), Commit(1, false));
            t.store.sealed == s.store.sealed["g" := Built(rows)]["h" := Built(rows)]
  {
    hide Built, Ids, Catalogued;
    var u := Next(Next(s, WriteFile(0, "g")), WriteFile(1, "h"));
    assert StageOf(u, 0) == Written("g", rows, Built(rows)) && StageOf(u, 1) == Written("h", rows, Built(rows));
  }

  /** ... and with two, one may be: both select the row before either commits. */
  lemma TwoArchiversMaySealTwice(event: Event)
    ensures var rows := [(1, event)];
            var c := event.received + 1;
            var s := Run(START, [Ingest(1, event), Select(0, c, rows), Select(1, c, rows), WriteFile(0, "g"),
                                 WriteFile(1, "h"), Commit(0, false), Commit(1, false)]);
            "g" in s.store.sealed && "h" in s.store.sealed && 1 in s.store.sealed["g"] && 1 in s.store.sealed["h"]
  {
    var rows: Rows := [(1, event)];
    var c := event.received + 1;
    BuiltReadsBack(rows, 0);
    RunSeven(START, Ingest(1, event), Select(0, c, rows), Select(1, c, rows), WriteFile(0, "g"),
             WriteFile(1, "h"), Commit(0, false), Commit(1, false));
    var s1 := Next(START, Ingest(1, event));
    assert CanSelect(s1, c, rows);
    var s3 := Next(Next(s1, Select(0, c, rows)), Select(1, c, rows));
    BothCommit(s3, rows);
  }
}
