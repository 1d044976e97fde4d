/**
 The law of revisions: every stored version takes one sequence number, so nothing is numbered
 twice and no revision is skipped.
 */
module ExportRevisions {
  import opened Options
  import opened ExportLanes
  import opened ExportSync

  // ---- Over runs --------------------------------------------------------------

  /** The revisions of all records together. */
  ghost function Total(records: map<Id, Record>): nat
    decreases |records|
  {
    if records == map[] then 0
    else
      var id :| id in records;
      records[id].revision + Total(records - {id})
  }

  lemma {:induction false} TotalWithout(records: map<Id, Record>, id: Id)
    requires id in records
    ensures Total(records) == records[id].revision + Total(records - {id})
    decreases |records|
  {
    var first :| first in records && Total(records) == records[first].revision + Total(records - {first});
    if first != id {
      TotalWithout(records - {first}, id);
      TotalWithout(records - {id}, first);
      assert records - {first} - {id} == records - {id} - {first};
    }
  }

  lemma TotalAfter(records: map<Id, Record>, r: Record)
    ensures Total(records[r.id := r]) ==
            Total(records) + r.revision - if r.id in records then records[r.id].revision else 0
  {
    hide Total;
    var after := records[r.id := r];
    TotalWithout(after, r.id);
    if r.id in records {
      TotalWithout(records, r.id);
      assert after - {r.id} == records - {r.id};
    } else {
      assert after - {r.id} == records;
    }
  }

  lemma {:induction false} RefreshCounts(l: Lane, candidates: seq<Candidate>, limits: Limits)
    requires Refresh(l, candidates, limits).Some?
    ensures var m := Refresh(l, candidates, limits).value;
            m.next - l.next == Total(m.records) - Total(l.records)
    decreases |candidates|
  {
    hide Total;
    if candidates != [] {
      var front, last := candidates[..|candidates| - 1], candidates[|candidates| - 1];
      RefreshCounts(l, front, limits);
      var k := Refresh(l, front, limits).value;
      var m := Refresh(l, candidates, limits).value;
      if m != k {
        TotalAfter(k.records, m.records[last.id]);
      }
    }
  }

  ghost predicate Counted(l: Lane) { l.next == Total(l.records) + 1 }

  lemma ServeCounts(l: Lane, request: Request, candidates: seq<Candidate>, limit: Limit, now: int, later: int,
                    limits: Limits)
    requires ValidLane(l) && Counted(l)
    ensures Counted(Serve(l, request, candidates, limit, now, later, limits).0)
  {
    hide Refresh, ValidLane, SnapshotPage, IncrementalPage, Freeze, Total;
    if Refresh(l, candidates, limits).Some? {
      var m := Refresh(l, candidates, limits).value;
      RefreshCounts(l, candidates, limits);
      if request.Open? {
        FreezeChanges(m, request.caller, request.name, now, later, limits);
      }
    }
  }

  lemma NextCounts(s: System, e: Event, limits: Limits)
    requires ValidLane(s.lane) && Counted(s.lane)
    ensures Counted(Next(s, e, limits).lane)
  {
    hide Serve, ValidLane, Counted;
    if e.Other? {
      ServeCounts(s.lane, e.request, e.candidates, e.limit, s.clock, s.clock + e.took, limits);
    } else if e.Poll? {
      ServeCounts(s.lane, Ask(s.reader, e), e.candidates, e.limit, s.clock, s.clock + e.took, limits);
    }
  }

  lemma StartIsCounted(clock: int)
    ensures ValidLane(Initial(clock).lane) && Counted(Initial(clock).lane)
  {
  }

  lemma {:induction false} RunCounts(s: System, events: seq<Event>, limits: Limits)
    requires ValidLane(s.lane) && Counted(s.lane)
    ensures Counted(Run(s, events, limits).lane)
    decreases |events|
  {
    hide Next, ValidLane, Counted;
    if events != [] {
      RunCounts(s, events[..|events| - 1], limits);
      NextCounts(Run(s, events[..|events| - 1], limits), events[|events| - 1], limits);
    }
  }

  /** In every run from an empty lane the revisions of all records add up to the number of
      sequence numbers given out: each stored version took exactly one. */
  lemma RevisionsAddUp(clock: int, events: seq<Event>, limits: Limits)
    ensures ValidLane(Initial(clock).lane)
    ensures var l := Run(Initial(clock), events, limits).lane;
            l.next - 1 == Total(l.records)
  {
    StartIsCounted(clock);
    RunCounts(Initial(clock), events, limits);
  }

  // ---- One refresh --------------------------------------------------------------

  ghost predicate DistinctCandidates(candidates: seq<Candidate>) {
    forall i, j | 0 <= i < j < |candidates| :: candidates[i].id != candidates[j].id
  }

  /** Not stored, or stored with another content. */
  predicate Changed(l: Lane, c: Candidate) { c.id !in l.records || l.records[c.id].content != c.content }

  function ChangesAmong(l: Lane, candidates: seq<Candidate>): nat {
    if candidates == [] then 0
    else ChangesAmong(l, candidates[..|candidates| - 1]) + if Changed(l, candidates[|candidates| - 1]) then 1 else 0
  }

  /** The next version of the `i`-th candidate: one revision on, or the first, under the sequence
      number after those of the changes before it. */
  function NextVersion(l: Lane, candidates: seq<Candidate>, i: nat): Record
    requires i < |candidates|
  {
    var c := candidates[i];
    Record(c.id, if c.id in l.records then l.records[c.id].revision + 1 else 1,
           l.next + ChangesAmong(l, candidates[..i]), c.content)
  }

  predicate TooLarge(r: Record, limits: Limits) { limits.size(r) > 262_144 || limits.provenance(r) > 65_536 }

  ghost predicate AnyTooLarge(l: Lane, candidates: seq<Candidate>, limits: Limits) {
    exists i | 0 <= i < |candidates| :: Changed(l, candidates[i]) && TooLarge(NextVersion(l, candidates, i), limits)
  }

  /** What a successful refresh has done. */
  ghost predicate Refreshed(l: Lane, candidates: seq<Candidate>, m: Lane) {
    && m.next == l.next + ChangesAmong(l, candidates)
    && (forall i | 0 <= i < |candidates| ::
          && candidates[i].id in m.records
          && m.records[candidates[i].id] ==
             if Changed(l, candidates[i]) then NextVersion(l, candidates, i) else l.records[candidates[i].id])
    && (forall id | (forall i | 0 <= i < |candidates| :: candidates[i].id != id) :: Same(l, m, id))
  }

  predicate Same(l: Lane, m: Lane, id: Id) {
    (id in m.records <==> id in l.records) && (id in l.records ==> m.records[id] == l.records[id])
  }

  lemma VersionOfPrefix(l: Lane, candidates: seq<Candidate>, n: nat, i: nat)
    requires i < n <= |candidates|
    ensures NextVersion(l, candidates[..n], i) == NextVersion(l, candidates, i)
  {
    assert candidates[..n][..i] == candidates[..i];
  }

  /** One candidate more, whose id was not among those before it. */
  lemma OneMore(l: Lane, candidates: seq<Candidate>, k: Lane, limits: Limits)
    requires candidates != [] && DistinctCandidates(candidates)
    requires Refreshed(l, candidates[..|candidates| - 1], k)
    ensures var n := |candidates| - 1;
            var m := RefreshOne(k, candidates[n], limits);
            && (m.None? <==> Changed(l, candidates[n]) && TooLarge(NextVersion(l, candidates, n), limits))
            && (m.Some? ==> Refreshed(l, candidates, m.value))
  {
    var n := |candidates| - 1;
    var c := candidates[n];
    var front := candidates[..n];
    assert forall i | 0 <= i < n :: front[i].id == candidates[i].id && candidates[i].id != c.id;
    assert Same(l, k, c.id);
    assert c.id in l.records ==> k.records[c.id] == l.records[c.id];
    assert Exported(k, c) == NextVersion(l, candidates, n);
    var m := RefreshOne(k, c, limits);
    if m.Some? {
      OneMoreStored(l, candidates, k, m.value, limits);
    }
  }

  lemma OneMoreStored(l: Lane, candidates: seq<Candidate>, k: Lane, m: Lane, limits: Limits)
    requires candidates != [] && DistinctCandidates(candidates)
    requires Refreshed(l, candidates[..|candidates| - 1], k)
    requires var c := candidates[|candidates| - 1];
             && Same(l, k, c.id)
             && m.next == k.next + (if Changed(l, c) then 1 else 0)
             && m.records == if Changed(l, c) then k.records[c.id := NextVersion(l, candidates, |candidates| - 1)]
                             else k.records
    ensures Refreshed(l, candidates, m)
  {
    hide NextVersion;
    var n := |candidates| - 1;
    var c := candidates[n];
    var front := candidates[..n];
    forall i | 0 <= i < |candidates|
      ensures && candidates[i].id in m.records
              && m.records[candidates[i].id] ==
                 if Changed(l, candidates[i]) then NextVersion(l, candidates, i) else l.records[candidates[i].id]
    {
      if i < n {
        VersionOfPrefix(l, candidates, n, i);
        assert front[i] == candidates[i] && candidates[i].id != c.id;
      }
    }
    forall id | (forall i | 0 <= i < |candidates| :: candidates[i].id != id)
      ensures Same(l, m, id)
    {
      assert candidates[n].id != id;
      assert forall i | 0 <= i < n :: front[i] == candidates[i];
      assert Same(l, k, id);
    }
  }

  /** A refresh fails exactly if the next version of some changed candidate is too large; otherwise
      every changed record is one revision on, or at its first, under consecutive new sequence
      numbers in the order of the candidates, and every other record is as it was. */
  lemma {:induction false} RefreshIsExact(l: Lane, candidates: seq<Candidate>, limits: Limits)
    requires DistinctCandidates(candidates)
    ensures Refresh(l, candidates, limits).None? <==> AnyTooLarge(l, candidates, limits)
    ensures Refresh(l, candidates, limits).Some? ==> Refreshed(l, candidates, Refresh(l, candidates, limits).value)
    decreases |candidates|
  {
    hide Changed, TooLarge, RefreshOne, NextVersion, Refreshed;
    if candidates == [] {
      NothingRefreshed(l);
    } else {
      var n := |candidates| - 1;
      var front := candidates[..n];
      FrontIsDistinct(candidates);
      RefreshIsExact(l, front, limits);
      forall i | 0 <= i < n
        ensures NextVersion(l, front, i) == NextVersion(l, candidates, i) && front[i] == candidates[i]
      {
        VersionOfPrefix(l, candidates, n, i);
      }
      if Refresh(l, front, limits).Some? {
        OneMore(l, candidates, Refresh(l, front, limits).value, limits);
      }
    }
  }

  lemma FrontIsDistinct(candidates: seq<Candidate>)
    requires candidates != [] && DistinctCandidates(candidates)
    ensures DistinctCandidates(candidates[..|candidates| - 1])
  {
  }

  lemma NothingRefreshed(l: Lane)
    ensures Refreshed(l, [], l)
  {
  }
}
