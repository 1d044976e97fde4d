/**
 The archive lifecycle (archive.py): select cold rows, build a segment file, verify
 it, catalogue it and perhaps evict the hot copies.  Ingest goes on meanwhile, any
 number of archivers may run, and each may crash between any two steps.
 */
module ArchiveLifecycle {
  import opened ArchiveSegments

  type SegmentId = string
  type File = map<LogId, Archived>

  /** The database: hot rows, the sealed segments' files' digests (a file stands for its
      own digest), and the occurrence catalogue. */
  datatype Store = Store(hot: map<LogId, Event>, sealed: map<SegmentId, File>, catalog: map<LogId, SegmentId>)

  // ---- The database transactions -----------------------------------------

  /** `ON CONFLICT(log_id) DO NOTHING`: an id keeps the segment it was first catalogued in. */
  function Catalogued(catalog: map<LogId, SegmentId>, ids: set<LogId>, segment: SegmentId): map<LogId, SegmentId> {
    map id | id in catalog.Keys + ids :: if id in catalog then catalog[id] else segment
  }

  /** The one commit that seals a segment and, in move mode, evicts its hot copies. */
  function Seal(s: Store, segment: SegmentId, file: File, ids: set<LogId>, move: bool): Store {
    Store(if move then s.hot - ids else s.hot, s.sealed[segment := file], Catalogued(s.catalog, ids, segment))
  }

  /** Rows old enough to archive and not catalogued yet. */
  predicate Eligible(s: Store, cutoff: int, id: LogId) {
    id in s.hot && s.hot[id].received < cutoff && id !in s.catalog
  }

  /** Hot rows that a sealed segment already holds. */
  predicate Duplicated(s: Store, cutoff: int, id: LogId) {
    id in s.hot && s.hot[id].received < cutoff && id in s.catalog && s.catalog[id] in s.sealed
  }

  /** `_verify_segment`: the file is the one that was sealed and holds the ids. */
  predicate Verified(files: map<SegmentId, File>, segment: SegmentId, sealed: File, ids: set<LogId>) {
    segment in files && files[segment] == sealed && ids <= files[segment].Keys
  }

  /** `_evict_verified_existing_copies`, its checks: every referenced segment verifies. */
  predicate AllVerified(s: Store, files: map<SegmentId, File>, ids: set<LogId>) {
    forall id | id in ids :: id in s.catalog && s.catalog[id] in s.sealed
                             && Verified(files, s.catalog[id], s.sealed[s.catalog[id]], {id})
  }

  const CHUNK := 500

  function Elements(ids: seq<LogId>): set<LogId> { set id | id in ids }

  class ArchiveStore {
    var hot: map<LogId, Event>
    var sealed: map<SegmentId, File>
    var catalog: map<LogId, SegmentId>

    function View(): Store reads this { Store(hot, sealed, catalog) }

    constructor ()
      ensures View() == Store(map[], map[], map[])
    {
      hot, sealed, catalog := map[], map[], map[];
    }

    method CatalogSegment(segment: SegmentId, file: File, ids: seq<LogId>)
      modifies this`sealed, this`catalog
      ensures sealed == old(sealed)[segment := file]
      ensures catalog == Catalogued(old(catalog), Elements(ids), segment)
    {
      hide Elements, Catalogued;
      sealed := sealed[segment := file];
      var i := 0;
      CatalogNone(catalog, segment);
      while i < |ids|
        invariant i <= |ids|
        invariant sealed == old(sealed)[segment := file]
        invariant catalog == Catalogued(old(catalog), Elements(ids[..i]), segment)
      {
        CatalogNext(old(catalog), ids, i, segment);
        if ids[i] !in catalog {
          catalog := catalog[ids[i] := segment];
        }
        i := i + 1;
      }
      assert ids[..i] == ids;
    }

    /** Delete in chunks, counting the rows that were really there. */
    method RemoveHotCopies(ids: seq<LogId>) returns (removed: nat)
      modifies this`hot
      ensures hot == old(hot) - Elements(ids)
      ensures removed == |old(hot)| - |hot|
    {
      hide Elements;
      removed := 0;
      var pos := 0;
      NoElements(ids, hot);
      while pos < |ids|
        invariant pos <= |ids|
        invariant hot == old(hot) - Elements(ids[..pos])
        invariant removed == |old(hot)| - |hot|
      {
        var end := if pos + CHUNK <= |ids| then pos + CHUNK else |ids|;
        var chunk := Elements(ids[pos..end]);
        ElementsAppend(ids[..pos], ids[pos..end]);
        assert ids[..end] == ids[..pos] + ids[pos..end];
        RemovalShrinks(hot, chunk);
        RemoveTwice(old(hot), Elements(ids[..pos]), chunk);
        removed := removed + (|hot| - |hot - chunk|);
        hot := hot - chunk;
        pos := end;
      }
    }

    /** Catalogue the sealed segment and, in move mode, evict its hot copies, in one
        transaction. */
    method SealSegment(segment: SegmentId, file: File, ids: seq<LogId>, move: bool) returns (evicted: nat)
      modifies this
      ensures View() == Seal(old(View()), segment, file, Elements(ids), move)
      ensures evicted == |old(hot)| - |hot|
    {
      CatalogSegment(segment, file, ids);
      evicted := 0;
      if move {
        evicted := RemoveHotCopies(ids);
      }
    }

    /** Evict duplicates only if every segment they are catalogued in verifies; otherwise
        an error is raised and nothing is removed. */
    method EvictVerifiedExisting(files: map<SegmentId, File>, cutoff: int, ids: seq<LogId>)
      returns (ok: bool, removed: nat)
      requires forall id | id in ids :: Duplicated(View(), cutoff, id)
      modifies this`hot
      ensures ok <==> AllVerified(old(View()), files, Elements(ids))
      ensures hot == if ok then old(hot) - Elements(ids) else old(hot)
      ensures removed == |old(hot)| - |hot|
    {
      var i := 0;
      while i < |ids|
        invariant i <= |ids| && View() == old(View())
        invariant AllVerified(View(), files, Elements(ids[..i]))
      {
        assert Duplicated(View(), cutoff, ids[i]);
        var segment := catalog[ids[i]];
        if !Verified(files, segment, sealed[segment], {ids[i]}) {
          return false, 0;
        }
        assert ids[..i + 1] == ids[..i] + [ids[i]];
        i := i + 1;
      }
      assert ids[..i] == ids;
      removed := RemoveHotCopies(ids);
      ok := true;
    }
  }

  lemma NoElements(ids: seq<LogId>, m: map<LogId, Event>)
    ensures m - Elements(ids[..0]) == m && ids[..|ids|] == ids
  {
  }

  lemma CatalogNone(catalog: map<LogId, SegmentId>, segment: SegmentId)
    ensures Catalogued(catalog, Elements([]), segment) == catalog
  {
  }

  lemma CatalogNext(catalog: map<LogId, SegmentId>, ids: seq<LogId>, i: nat, segment: SegmentId)
    requires i < |ids|
    ensures var c := Catalogued(catalog, Elements(ids[..i]), segment);
            Catalogued(catalog, Elements(ids[..i + 1]), segment) == if ids[i] in c then c else c[ids[i] := segment]
  {
    assert ids[..i + 1] == ids[..i] + [ids[i]];
  }

  lemma ElementsAppend(a: seq<LogId>, b: seq<LogId>)
    ensures Elements(a + b) == Elements(a) + Elements(b)
  {
  }

  lemma RemoveTwice(m: map<LogId, Event>, a: set<LogId>, b: set<LogId>)
    ensures (m - a) - b == m - (a + b)
  {
  }

  lemma RemovalShrinks(m: map<LogId, Event>, ids: set<LogId>)
    ensures |m - ids| <= |m|
  {
    assert (m - ids).Keys <= m.Keys;
    KeysShrink((m - ids).Keys, m.Keys);
  }

  lemma KeysShrink(a: set<LogId>, b: set<LogId>)
    requires a <= b
    ensures |a| <= |b|
  {
    if x :| x in a {
      KeysShrink(a - {x}, b - {x});
    }
  }

  // ---- Any number of archivers -------------------------------------------

  datatype Stage =
    | Idle
    | Selected(rows: Rows)                      // rows read, lock released
    | Written(segment: SegmentId, rows: Rows, file: File)   // file closed, digested and verified
    | Evicting(ids: set<LogId>)                 // duplicates found and their segments verified

  datatype System = System(store: Store, files: map<SegmentId, File>, stages: map<nat, Stage>,
                           everything: map<LogId, Event>)

  function StageOf(s: System, archiver: nat): Stage {
    if archiver in s.stages then s.stages[archiver] else Idle
  }

  datatype Step =
    | Ingest(id: LogId, event: Event)
    | Select(archiver: nat, cutoff: int, rows: Rows)
    | WriteFile(archiver: nat, segment: SegmentId)
    | WritePartOfFile(archiver: nat, segment: SegmentId, part: File)   // then crash
    | Commit(archiver: nat, move: bool)
    | SelectDuplicates(archiver: nat, cutoff: int, ids: set<LogId>)
    | Evict(archiver: nat)
    | Crash(archiver: nat)

  predicate CanSelect(s: System, cutoff: int, rows: Rows) {
    && DistinctIds(rows)
    && forall r | r in rows :: Eligible(s.store, cutoff, r.0) && s.store.hot[r.0] == r.1
  }

  /** A step that is not enabled changes nothing.  Log ids are never reused, and a segment
      id, made from the time and the ids, names no earlier file. */
  function Next(s: System, e: Step): System {
    match e
    case Ingest(id, event) =>
      if id in s.everything then s
      else s.(store := s.store.(hot := s.store.hot[id := event]), everything := s.everything[id := event])
    case Select(a, cutoff, rows) =>
      if StageOf(s, a) != Idle || !CanSelect(s, cutoff, rows) then s
      else s.(stages := s.stages[a := Selected(rows)])
    case WriteFile(a, segment) =>
      if !StageOf(s, a).Selected? || segment in s.files then s
      else
        var rows := StageOf(s, a).rows;
        s.(files := s.files[segment := Built(rows)], stages := s.stages[a := Written(segment, rows, Built(rows))])
    case WritePartOfFile(a, segment, part) =>
      if !StageOf(s, a).Selected? || segment in s.files then s
      else s.(files := s.files[segment := part], stages := s.stages[a := Idle])
    case Commit(a, move) =>
      if !StageOf(s, a).Written? then s
      else
        var Written(segment, rows, file) := StageOf(s, a);
        s.(store := Seal(s.store, segment, file, Ids(rows), move), stages := s.stages[a := Idle])
    case SelectDuplicates(a, cutoff, ids) =>
      if StageOf(s, a) != Idle || !(forall id | id in ids :: Duplicated(s.store, cutoff, id))
         || !AllVerified(s.store, s.files, ids) then s
      else s.(stages := s.stages[a := Evicting(ids)])
    case Evict(a) =>
      if !StageOf(s, a).Evicting? then s
      else s.(store := s.store.(hot := s.store.hot - StageOf(s, a).ids), stages := s.stages[a := Idle])
    case Crash(a) => s.(stages := s.stages[a := Idle])
  }

  function Ids(rows: Rows): set<LogId> { set r | r in rows :: r.0 }

  function Run(s: System, steps: seq<Step>): System
    decreases |steps|
  {
    if steps == [] then s else Run(Next(s, steps[0]), steps[1..])
  }

  const START := System(Store(map[], map[], map[]), map[], map[], map[])

  // ---- Safety ------------------------------------------------------------

  /** The log can be found: hot and unaltered, or in its catalogued sealed segment. */
  ghost predicate Findable(s: System, id: LogId)
    requires id in s.everything
  {
    || (id in s.store.hot && s.store.hot[id] == s.everything[id])
    || (&& id in s.store.catalog
        && Archives(s, s.store.catalog[id], id))
  }

  /** A sealed segment, unchanged on disk, reads the id back as the event it was. */
  ghost predicate Archives(s: System, segment: SegmentId, id: LogId)
    requires id in s.everything
  {
    && segment in s.store.sealed && segment in s.files
    && s.files[segment] == s.store.sealed[segment]
    && id in s.files[segment] && s.files[segment][id] == Restored(s.everything[id])
  }

  ghost predicate Genuine(s: System, rows: Rows) {
    DistinctIds(rows) && forall r | r in rows :: r.0 in s.everything && s.everything[r.0] == r.1
  }

  ghost predicate StageOk(s: System, stage: Stage) {
    match stage
    case Idle => true
    case Selected(rows) => Genuine(s, rows)
    case Written(segment, rows, file) =>
      Genuine(s, rows) && file == Built(rows) && segment in s.files && s.files[segment] == file
    case Evicting(ids) => ids <= s.store.catalog.Keys
  }

  ghost predicate HotOk(s: System) {
    && (forall id | id in s.store.hot :: id in s.everything && s.store.hot[id] == s.everything[id])
    && (forall id | id in s.everything :: id in s.store.hot || id in s.store.catalog)
  }

  ghost predicate SealedOk(s: System) {
    forall g | g in s.store.sealed :: g in s.files && s.files[g] == s.store.sealed[g]
  }

  ghost predicate CatalogOk(s: System) {
    forall id | id in s.store.catalog :: id in s.everything && Archives(s, s.store.catalog[id], id)
  }

  ghost predicate StagesOk(s: System) {
    forall a | a in s.stages :: StageOk(s, s.stages[a])
  }

  ghost predicate Invariant(s: System) { HotOk(s) && SealedOk(s) && CatalogOk(s) && StagesOk(s) }

  /** Files, sealed segments, the catalogue and the history only grow. */
  ghost predicate Extends(s: System, t: System) {
    && (forall id | id in s.everything :: id in t.everything && t.everything[id] == s.everything[id])
    && (forall g | g in s.files :: g in t.files && t.files[g] == s.files[g])
    && (forall g | g in s.store.sealed :: g in t.store.sealed && t.store.sealed[g] == s.store.sealed[g])
    && (forall id | id in s.store.catalog :: id in t.store.catalog && t.store.catalog[id] == s.store.catalog[id])
  }

  lemma GenuineFileArchives(s: System, rows: Rows, id: LogId)
    requires Genuine(s, rows) && id in Ids(rows)
    ensures id in s.everything && id in Built(rows) && Built(rows)[id] == Restored(s.everything[id])
  {
    var i :| 0 <= i < |rows| && rows[i].0 == id;
    BuiltReadsBack(rows, i);
    assert rows[i] in rows;
  }

  lemma NextExtends(s: System, e: Step)
    requires Invariant(s)
    ensures Extends(s, Next(s, e))
  {
    hide Built, Ids, HotOk, CatalogOk, CanSelect, AllVerified;
    assert e.Commit? && e.archiver in s.stages ==> StageOk(s, s.stages[e.archiver]);
  }

  lemma NextKeepsHot(s: System, e: Step)
    requires Invariant(s)
    ensures HotOk(Next(s, e))
  {
    hide Built, SealedOk, CatalogOk, CanSelect, AllVerified;
    assert e.Evict? && e.archiver in s.stages ==> StageOk(s, s.stages[e.archiver]);
    if e.Commit? && StageOf(s, e.archiver).Written? {
      var rows := StageOf(s, e.archiver).rows;
      assert StageOk(s, s.stages[e.archiver]);
      assert forall id | id in Ids(rows) :: id in s.everything;
    }
  }

  lemma NextKeepsSealed(s: System, e: Step)
    requires Invariant(s)
    ensures SealedOk(Next(s, e))
  {
    hide Built, Ids, HotOk, CatalogOk, CanSelect, AllVerified;
    assert e.Commit? && e.archiver in s.stages ==> StageOk(s, s.stages[e.archiver]);
  }

  lemma NextKeepsCatalog(s: System, e: Step)
    requires Invariant(s)
    ensures CatalogOk(Next(s, e))
  {
    NextExtends(s, e);
    hide HotOk, SealedOk, CanSelect, AllVerified, Built, Ids;
    var t := Next(s, e);
    if e.Commit? && StageOf(s, e.archiver).Written? {
      var Written(segment, rows, file) := StageOf(s, e.archiver);
      assert StageOk(s, s.stages[e.archiver]);
      forall id | id in t.store.catalog
        ensures id in t.everything && Archives(t, t.store.catalog[id], id)
      {
        if id in s.store.catalog {
          assert Archives(s, s.store.catalog[id], id);
        } else {
          GenuineFileArchives(s, rows, id);
        }
      }
    } else {
      forall id | id in t.store.catalog
        ensures id in t.everything && Archives(t, t.store.catalog[id], id)
      {
        assert Archives(s, s.store.catalog[id], id);
      }
    }
  }

  lemma StageSurvives(s: System, t: System, stage: Stage)
    requires StageOk(s, stage) && Extends(s, t)
    ensures StageOk(t, stage)
  {
    hide Built;
  }

  lemma NextKeepsStages(s: System, e: Step)
    requires Invariant(s)
    ensures StagesOk(Next(s, e))
  {
    NextExtends(s, e);
    hide HotOk, SealedOk, CatalogOk, Built, Ids, Extends;
    var t := Next(s, e);
    forall a | a in t.stages
      ensures StageOk(t, t.stages[a])
    {
      if a in s.stages && t.stages[a] == s.stages[a] {
        StageSurvives(s, t, s.stages[a]);
      } else {
        NewStageOk(s, e, a);
      }
    }
  }

  /** The stage an archiver enters. */
  lemma NewStageOk(s: System, e: Step, a: nat)
    requires Invariant(s) && a in Next(s, e).stages
    requires !(a in s.stages && Next(s, e).stages[a] == s.stages[a])
    ensures StageOk(Next(s, e), Next(s, e).stages[a])
  {
    hide SealedOk, CatalogOk, Built, Ids;
    match e
    case Ingest(_, _) =>
    case Select(_, _, _) =>
    case WriteFile(_, _) => assert StageOk(s, s.stages[a]);
    case WritePartOfFile(_, _, _) =>
    case Commit(_, _) =>
    case SelectDuplicates(_, _, _) =>
    case Evict(_) =>
    case Crash(_) =>
  }

  lemma NextKeepsInvariant(s: System, e: Step)
    requires Invariant(s)
    ensures Invariant(Next(s, e))
  {
    NextKeepsHot(s, e);
    NextKeepsSealed(s, e);
    NextKeepsCatalog(s, e);
    NextKeepsStages(s, e);
    hide Next, HotOk, SealedOk, CatalogOk, StagesOk;
  }

  lemma {:induction false} RunKeepsInvariant(s: System, steps: seq<Step>)
    requires Invariant(s)
    ensures Invariant(Run(s, steps))
    decreases |steps|
  {
    if steps != [] {
      NextKeepsInvariant(s, steps[0]);
      RunKeepsInvariant(Next(s, steps[0]), steps[1..]);
    }
  }

  /** No log is ever lost, whatever the interleaving, the mode and the crashes. */
  lemma NothingIsLost(steps: seq<Step>)
    ensures forall id | id in Run(START, steps).everything :: Findable(Run(START, steps), id)
  {
    RunKeepsInvariant(START, steps);
  }
}
