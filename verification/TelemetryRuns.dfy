/**
 All interleavings of several monitors over one shared state row, and the receipts they keep.
 */
module TelemetryRuns {
  import opened Options
  import opened TelemetrySilence

  // ---- What one commit does to one key ------------------------------------------------

  lemma {:induction false} EntryAt(r: Row, c: Config, snapshot: Pending, now: int, n: nat, i: nat)
    requires DistinctExpected(c) && i < n <= |c.expected|
    ensures var (key, limit) := c.expected[i];
            key in NewEntries(r, c, snapshot, now, n)
            && NewEntries(r, c, snapshot, now, n)[key] == Judged(MergedEntry(r, c, snapshot, key, now), now, limit)
    decreases n
  {
    hide Judged, MergedEntry;
    if i < n - 1 {
      EntryAt(r, c, snapshot, now, n - 1, i);
      assert c.expected[i].0 != c.expected[n - 1].0;
    }
  }

  lemma {:induction false} AlertsAre(r: Row, c: Config, snapshot: Pending, now: int, n: nat)
    requires DistinctExpected(c) && n <= |c.expected|
    ensures forall a | a in NewAlerts(r, c, snapshot, now, n) ::
              exists i :: 0 <= i < n && RaisedAt(r, c, snapshot, now, i, a)
    ensures forall i, j | 0 <= i < j < |NewAlerts(r, c, snapshot, now, n)| ::
              NewAlerts(r, c, snapshot, now, n)[i].key != NewAlerts(r, c, snapshot, now, n)[j].key
    decreases n
  {
    hide Raises, MergedEntry;
    if n > 0 {
      AlertsAre(r, c, snapshot, now, n - 1);
      var front := NewAlerts(r, c, snapshot, now, n - 1);
      forall a | a in front
        ensures a.key != c.expected[n - 1].0
      {
        var i :| 0 <= i < n - 1 && RaisedAt(r, c, snapshot, now, i, a);
      }
      assert forall i | 0 <= i < |front| :: front[i] in front;
      var (key, limit) := c.expected[n - 1];
      var e := MergedEntry(r, c, snapshot, key, now);
      if Raises(e, now, limit) {
        assert RaisedAt(r, c, snapshot, now, n - 1, AlertFor(e, key, now));
      }
    }
  }

  ghost predicate RaisedAt(r: Row, c: Config, snapshot: Pending, now: int, i: nat, a: Alert)
    requires i < |c.expected|
  {
    var (key, limit) := c.expected[i];
    var e := MergedEntry(r, c, snapshot, key, now);
    Raises(e, now, limit) && a == AlertFor(e, key, now)
  }

  /** The merge takes the newest receipt of the snapshot and never goes back. */
  lemma {:induction false} ReceivedIsNewest(c: Config, snapshot: Pending, key: string)
    ensures forall k | 0 <= k < |snapshot| && c.profile(snapshot[k].0) == Some(key) ::
              NotOlder(At(Received(c, snapshot, key)), Some(snapshot[k].1.received))
    ensures Received(c, snapshot, key).Some? ==>
              exists k :: 0 <= k < |snapshot| && c.profile(snapshot[k].0) == Some(key)
                          && snapshot[k].1 == Received(c, snapshot, key).value
    decreases |snapshot|
  {
    if snapshot != [] {
      var n := |snapshot| - 1;
      ReceivedIsNewest(c, snapshot[..n], key);
      assert forall k | 0 <= k < n :: snapshot[..n][k] == snapshot[k];
    }
  }

  lemma MergeIsNewest(e: Entry, o: Option<Observation>)
    ensures NotOlder(At(Merged(e, o).last), At(e.last)) && NotOlder(At(Merged(e, o).last), At(o))
    ensures Merged(e, o).last == e.last || Merged(e, o).last == o
    ensures Merged(e, o).outage == e.outage
  {
  }

  // ---- The interleavings ----------------------------------------------------------------

  /** Where a monitor is in `tick`: it reads the clock, copies its receipts, commits, clears. */
  datatype Phase = Idle | Timed(now: int) | Ready(now: int, snapshot: Pending) | Done(snapshot: Pending)

  datatype Monitor = Monitor(pending: Pending, phase: Phase)

  datatype Receipt = Receipt(monitor: nat, key: string, o: Observation)

  /** `observed` and `dropped` record what was observed and what left by eviction or a crash. */
  datatype System = System(row: Row, clock: int, latest: int, monitors: seq<Monitor>,
                           observed: set<Receipt>, dropped: set<Receipt>)

  datatype Step =
    | Pass(time: nat)
    | Observe(m: nat, key: string, event: string)
    | ReadClock(m: nat)
    | Copy(m: nat)
    | Commit(m: nat)
    | Abort(m: nat)
    | Clear(m: nat)
    | Crash(m: nat)

  function Items(m: nat, pending: Pending): (r: set<Receipt>)
    ensures forall k | 0 <= k < |pending| :: Receipt(m, pending[k].0, pending[k].1) in r
  {
    if pending == [] then {}
    else Items(m, pending[..|pending| - 1]) + {Receipt(m, pending[|pending| - 1].0, pending[|pending| - 1].1)}
  }

  function SetMonitor(s: System, m: nat, monitor: Monitor): System
    requires m < |s.monitors|
  {
    s.(monitors := s.monitors[m := monitor])
  }

  function SetPhase(s: System, m: nat, phase: Phase): System
    requires m < |s.monitors|
  {
    SetMonitor(s, m, s.monitors[m].(phase := phase))
  }

  function ObserveOn(s: System, m: nat, key: string, event: string): System
    requires m < |s.monitors|
  {
    var o := Observation(s.clock, event);
    var p := s.monitors[m].pending;
    var evicted := if |Put(p, key, o)| > MAX_PENDING then Items(m, Put(p, key, o)[..1]) else {};
    SetMonitor(s, m, s.monitors[m].(pending := Observed(p, key, o)))
    .(observed := s.observed + {Receipt(m, key, o)}, dropped := s.dropped + evicted)
  }

  function CommitOn(s: System, c: Config, m: nat): System
    requires m < |s.monitors| && s.monitors[m].phase.Ready?
  {
    var p := s.monitors[m].phase;
    SetPhase(s, m, Done(p.snapshot)).(row := Committed(s.row, c, p.snapshot, p.now),
                                      latest := if p.now > s.latest then p.now else s.latest)
  }

  /** A step that is not enabled does nothing. */
  function Next(s: System, c: Config, step: Step): System {
    if step.Pass? then s.(clock := s.clock + step.time)
    else if step.m >= |s.monitors| then s
    else
      var monitor := s.monitors[step.m];
      match step
      case Observe(m, key, event) => ObserveOn(s, m, key, event)
      case ReadClock(m) => if monitor.phase.Idle? then SetPhase(s, m, Timed(s.clock)) else s
      case Copy(m) =>
        if monitor.phase.Timed? then SetPhase(s, m, Ready(monitor.phase.now, monitor.pending)) else s
      case Commit(m) => if monitor.phase.Ready? then CommitOn(s, c, m) else s
      case Abort(m) => if monitor.phase.Ready? then SetPhase(s, m, Idle) else s
      case Clear(m) =>
        if monitor.phase.Done?
        then SetMonitor(s, m, Monitor(Cleared(monitor.pending, monitor.phase.snapshot), Idle))
        else s
      case Crash(m) =>
        SetMonitor(s, m, Monitor([], Idle)).(dropped := s.dropped + Items(m, monitor.pending))
  }

  function Start(n: nat): System {
    System(Row(map[], []), 0, 0, seq(n, i => Monitor([], Idle)), {}, {})
  }

  function Run(s: System, c: Config, steps: seq<Step>): System
    decreases |steps|
  {
    if steps == [] then s else Run(Next(s, c, steps[0]), c, steps[1..])
  }

  // ---- Receipts are kept ------------------------------------------------------------------

  ghost predicate Held(pending: Pending, key: string, time: int) {
    exists i :: 0 <= i < |pending| && pending[i].0 == key && pending[i].1.received >= time
  }

  /** The row has recorded a receipt at least as new for the key's profile. */
  ghost predicate Recorded(row: Row, target: string, time: int) {
    target in row.entries && NotOlder(At(row.entries[target].last), Some(time))
  }

  ghost predicate IsExpected(c: Config, target: string) {
    exists i :: 0 <= i < |c.expected| && c.expected[i].0 == target
  }

  ghost predicate SnapshotRecorded(row: Row, c: Config, snapshot: Pending) {
    forall k | 0 <= k < |snapshot| && c.profile(snapshot[k].0).Some? && IsExpected(c, c.profile(snapshot[k].0).value) ::
      Recorded(row, c.profile(snapshot[k].0).value, snapshot[k].1.received)
  }

  /** Still pending, or superseded by a newer one that was dropped, or merged by a commit. */
  ghost predicate Kept(s: System, c: Config, r: Receipt)
    requires r.monitor < |s.monitors|
  {
    || Held(s.monitors[r.monitor].pending, r.key, r.o.received)
    || (exists d :: d in s.dropped && d.monitor == r.monitor && d.key == r.key && d.o.received >= r.o.received)
    || (c.profile(r.key).Some? && Recorded(s.row, c.profile(r.key).value, r.o.received))
  }

  ghost predicate Expected(c: Config, r: Receipt) {
    c.profile(r.key).Some? && IsExpected(c, c.profile(r.key).value)
  }

  ghost predicate ReceiptsOk(s: System, c: Config) {
    && (forall m | 0 <= m < |s.monitors| :: MonitorOk(s, c, s.monitors[m]))
    && (forall r | r in s.observed :: r.monitor < |s.monitors| && (Expected(c, r) ==> Kept(s, c, r)))
  }

  ghost predicate MonitorOk(s: System, c: Config, m: Monitor) {
    && (forall i | 0 <= i < |m.pending| :: m.pending[i].1.received <= s.clock)
    && (m.phase.Done? ==> SnapshotRecorded(s.row, c, m.phase.snapshot))
  }

  /** A commit records every receipt of its snapshot that belongs to an expected key. */
  lemma CommitRecords(r: Row, c: Config, snapshot: Pending, now: int)
    requires DistinctExpected(c)
    ensures SnapshotRecorded(Committed(r, c, snapshot, now), c, snapshot)
  {
    hide Judged, Received, DistinctExpected;
    var t := Committed(r, c, snapshot, now);
    forall k | 0 <= k < |snapshot| && c.profile(snapshot[k].0).Some? && IsExpected(c, c.profile(snapshot[k].0).value)
      ensures Recorded(t, c.profile(snapshot[k].0).value, snapshot[k].1.received)
    {
      var target := c.profile(snapshot[k].0).value;
      var i :| 0 <= i < |c.expected| && c.expected[i].0 == target;
      EntryAt(r, c, snapshot, now, |c.expected|, i);
      ReceivedIsNewest(c, snapshot, target);
      MergeIsNewest(EntryOf(r, target, now), Received(c, snapshot, target));
      JudgedKeepsReceipt(MergedEntry(r, c, snapshot, target, now), now, c.expected[i].1);
    }
  }

  lemma JudgedKeepsReceipt(e: Entry, now: int, limit: int)
    ensures Judged(e, now, limit).last == e.last
  {
  }

  /** A commit forgets no recorded receipt of an expected key. */
  lemma CommitForgetsNothing(r: Row, c: Config, snapshot: Pending, now: int, target: string, time: int)
    requires DistinctExpected(c) && IsExpected(c, target) && Recorded(r, target, time)
    ensures Recorded(Committed(r, c, snapshot, now), target, time)
  {
    hide Judged, Received, DistinctExpected;
    var i :| 0 <= i < |c.expected| && c.expected[i].0 == target;
    EntryAt(r, c, snapshot, now, |c.expected|, i);
    MergeIsNewest(EntryOf(r, target, now), Received(c, snapshot, target));
    JudgedKeepsReceipt(MergedEntry(r, c, snapshot, target, now), now, c.expected[i].1);
  }

  lemma {:induction false} PutMeans(pending: Pending, key: string, o: Observation)
    requires forall i | 0 <= i < |pending| :: pending[i].1.received <= o.received
    ensures Put(pending, key, o) != []
    ensures Held(Put(pending, key, o), key, o.received)
    ensures forall k, time | Held(pending, k, time) :: Held(Put(pending, key, o), k, time)
    ensures forall i | 0 <= i < |Put(pending, key, o)| :: Put(pending, key, o)[i].1.received <= o.received
    decreases |pending|
  {
    var put := Put(pending, key, o);
    if pending == [] {
      assert put[0] == (key, o);
    } else if pending[0].0 == key {
      assert put[0] == (key, o);
      forall k, time | Held(pending, k, time)
        ensures Held(put, k, time)
      {
        var i :| 0 <= i < |pending| && pending[i].0 == k && pending[i].1.received >= time;
        assert put[i].0 == k && put[i].1.received >= time;
      }
    } else {
      var rest := pending[1..];
      PutMeans(rest, key, o);
      assert put == [pending[0]] + Put(rest, key, o);
      HeldOfFirst(pending[0], rest);
      HeldOfFirst(pending[0], Put(rest, key, o));
      assert pending == [pending[0]] + rest;
    }
  }

  lemma HeldOfFirst(first: (string, Observation), rest: Pending)
    ensures forall k, time ::
              Held([first] + rest, k, time) <==> (first.0 == k && first.1.received >= time) || Held(rest, k, time)
  {
    forall k, time
      ensures Held([first] + rest, k, time) <==> (first.0 == k && first.1.received >= time) || Held(rest, k, time)
    {
      var all := [first] + rest;
      if first.0 == k && first.1.received >= time {
        assert all[0] == first;
      }
      if i :| 0 <= i < |rest| && rest[i].0 == k && rest[i].1.received >= time {
        assert all[i + 1] == rest[i];
      }
      if i :| 0 <= i < |all| && all[i].0 == k && all[i].1.received >= time {
        assert i == 0 || rest[i - 1] == all[i];
      }
    }
  }

  /** Clearing removes only what the snapshot had. */
  lemma {:induction false} ClearedHeld(pending: Pending, snapshot: Pending, key: string, time: int)
    requires Held(pending, key, time)
    ensures Held(Cleared(pending, snapshot), key, time) || Held(snapshot, key, time)
    ensures forall x | x in Cleared(pending, snapshot) :: x in pending
    decreases |pending|
  {
    var i :| 0 <= i < |pending| && pending[i].0 == key && pending[i].1.received >= time;
    ClearedSplits(pending, snapshot, i);
    if pending[i] in snapshot {
      var k :| 0 <= k < |snapshot| && snapshot[k] == pending[i];
    } else {
      var k :| 0 <= k < |Cleared(pending, snapshot)| && Cleared(pending, snapshot)[k] == pending[i];
    }
    ClearedIsPart(pending, snapshot);
  }

  lemma {:induction false} ClearedSplits(pending: Pending, snapshot: Pending, i: nat)
    requires i < |pending|
    ensures pending[i] in snapshot || pending[i] in Cleared(pending, snapshot)
    decreases |pending|
  {
    if i < |pending| - 1 {
      ClearedSplits(pending[..|pending| - 1], snapshot, i);
    }
  }

  lemma {:induction false} ClearedIsPart(pending: Pending, snapshot: Pending)
    ensures forall x | x in Cleared(pending, snapshot) :: x in pending
    decreases |pending|
  {
    if pending != [] {
      ClearedIsPart(pending[..|pending| - 1], snapshot);
      assert pending == pending[..|pending| - 1] + [pending[|pending| - 1]];
    }
  }

  lemma ObserveKeepsReceipts(s: System, c: Config, m: nat, key: string, event: string)
    requires ReceiptsOk(s, c) && m < |s.monitors|
    ensures ReceiptsOk(ObserveOn(s, m, key, event), c)
  {
    hide Recorded, IsExpected, SnapshotRecorded, Items, Put, Held;
    var t := ObserveOn(s, m, key, event);
    var o := Observation(s.clock, event);
    var p := s.monitors[m].pending;
    var put := Put(p, key, o);
    PutMeans(p, key, o);
    assert put == [put[0]] + put[1..];
    HeldOfFirst(put[0], put[1..]);
    DroppedFirst(m, put);
    forall r | r in t.observed
      ensures r.monitor < |t.monitors| && (Expected(c, r) ==> Kept(t, c, r))
    {
      if r == Receipt(m, key, o) {
        ObservedIsKept(s, c, m, key, event, r);
      } else if Expected(c, r) && r.monitor == m && Held(p, r.key, r.o.received) {
        ObservedIsKept(s, c, m, key, event, r);
      }
    }
  }

  lemma DroppedFirst(m: nat, put: Pending)
    requires put != []
    ensures Receipt(m, put[0].0, put[0].1) in Items(m, put[..1])
  {
    assert put[..1][0] == put[0];
  }

  lemma ObservedIsKept(s: System, c: Config, m: nat, key: string, event: string, r: Receipt)
    requires m < |s.monitors| && r.monitor == m
    requires forall i | 0 <= i < |s.monitors[m].pending| :: s.monitors[m].pending[i].1.received <= s.clock
    requires Held(Put(s.monitors[m].pending, key, Observation(s.clock, event)), r.key, r.o.received)
    ensures Kept(ObserveOn(s, m, key, event), c, r)
  {
    hide Recorded, Items, Put, Held;
    var put := Put(s.monitors[m].pending, key, Observation(s.clock, event));
    PutMeans(s.monitors[m].pending, key, Observation(s.clock, event));
    assert put == [put[0]] + put[1..];
    HeldOfFirst(put[0], put[1..]);
    DroppedFirst(m, put);
  }

  lemma CommitKeepsReceipts(s: System, c: Config, m: nat)
    requires ReceiptsOk(s, c) && DistinctExpected(c) && m < |s.monitors| && s.monitors[m].phase.Ready?
    ensures ReceiptsOk(CommitOn(s, c, m), c)
  {
    hide Recorded, IsExpected, Committed, Held, DistinctExpected;
    var t := CommitOn(s, c, m);
    var p := s.monitors[m].phase;
    CommitRecords(s.row, c, p.snapshot, p.now);
    forall target, time | IsExpected(c, target) && Recorded(s.row, target, time)
      ensures Recorded(t.row, target, time)
    {
      CommitForgetsNothing(s.row, c, p.snapshot, p.now, target, time);
    }
  }

  lemma ClearKeepsReceipts(s: System, c: Config, m: nat)
    requires ReceiptsOk(s, c) && m < |s.monitors| && s.monitors[m].phase.Done?
    ensures ReceiptsOk(Next(s, c, Clear(m)), c)
  {
    hide Recorded, IsExpected, Cleared, Held;
    var t := Next(s, c, Clear(m));
    var p, snapshot := s.monitors[m].pending, s.monitors[m].phase.snapshot;
    ClearedIsPart(p, snapshot);
    forall i | 0 <= i < |t.monitors[m].pending|
      ensures t.monitors[m].pending[i].1.received <= t.clock
    {
      assert t.monitors[m].pending[i] in p;
    }
    forall r | r in t.observed && Expected(c, r) && r.monitor == m && Held(p, r.key, r.o.received)
      ensures Kept(t, c, r)
    {
      ClearedHeld(p, snapshot, r.key, r.o.received);
      if Held(snapshot, r.key, r.o.received) {
        HeldIsRecorded(s.row, c, snapshot, r);
      }
    }
  }

  lemma HeldIsRecorded(row: Row, c: Config, snapshot: Pending, r: Receipt)
    requires SnapshotRecorded(row, c, snapshot) && Expected(c, r) && Held(snapshot, r.key, r.o.received)
    ensures Recorded(row, c.profile(r.key).value, r.o.received)
  {
    hide IsExpected;
    var k :| 0 <= k < |snapshot| && snapshot[k].0 == r.key && snapshot[k].1.received >= r.o.received;
    assert Recorded(row, c.profile(snapshot[k].0).value, snapshot[k].1.received);
  }

  lemma CrashKeepsReceipts(s: System, c: Config, m: nat)
    requires ReceiptsOk(s, c) && m < |s.monitors|
    ensures ReceiptsOk(Next(s, c, Crash(m)), c)
  {
    hide Recorded, IsExpected, Items, SnapshotRecorded;
    var t := Next(s, c, Crash(m));
    var p := s.monitors[m].pending;
    forall r | r in t.observed && Expected(c, r) && r.monitor == m && Held(p, r.key, r.o.received)
      ensures Kept(t, c, r)
    {
      var i :| 0 <= i < |p| && p[i].0 == r.key && p[i].1.received >= r.o.received;
      assert Receipt(m, p[i].0, p[i].1) in Items(m, p);
    }
  }

  lemma PhaseKeepsReceipts(s: System, c: Config, m: nat, phase: Phase)
    requires ReceiptsOk(s, c) && m < |s.monitors| && !phase.Done?
    ensures ReceiptsOk(SetPhase(s, m, phase), c)
  {
    hide Recorded, IsExpected, Held, SnapshotRecorded;
  }

  lemma PassKeepsReceipts(s: System, c: Config, d: nat)
    requires ReceiptsOk(s, c)
    ensures ReceiptsOk(s.(clock := s.clock + d), c)
  {
    hide Recorded, IsExpected, Held, SnapshotRecorded;
  }

  lemma NextKeepsReceipts(s: System, c: Config, step: Step)
    requires ReceiptsOk(s, c) && DistinctExpected(c)
    ensures ReceiptsOk(Next(s, c, step), c)
  {
    hide ReceiptsOk, ObserveOn, CommitOn, DistinctExpected, Cleared, Items;
    if step.Pass? {
      PassKeepsReceipts(s, c, step.time);
    } else if step.m < |s.monitors| {
      var monitor := s.monitors[step.m];
      match step
      case Observe(m, key, event) => ObserveKeepsReceipts(s, c, m, key, event);
      case ReadClock(m) => PhaseKeepsReceipts(s, c, m, Timed(s.clock));
      case Copy(m) =>
        if monitor.phase.Timed? {
          PhaseKeepsReceipts(s, c, m, Ready(monitor.phase.now, monitor.pending));
        }
      case Commit(m) => if monitor.phase.Ready? { CommitKeepsReceipts(s, c, m); }
      case Abort(m) => PhaseKeepsReceipts(s, c, m, Idle);
      case Clear(m) => if monitor.phase.Done? { ClearKeepsReceipts(s, c, m); }
      case Crash(m) => CrashKeepsReceipts(s, c, m);
    }
  }

  lemma {:induction false} RunKeepsReceipts(s: System, c: Config, steps: seq<Step>)
    requires ReceiptsOk(s, c) && DistinctExpected(c)
    ensures ReceiptsOk(Run(s, c, steps), c)
    decreases |steps|
  {
    hide Next, DistinctExpected, ReceiptsOk;
    if steps != [] {
      NextKeepsReceipts(s, c, steps[0]);
      RunKeepsReceipts(Next(s, c, steps[0]), c, steps[1..]);
    }
  }

  /** Over every interleaving, a receipt for an expected key is still pending in its monitor, or
      superseded by a newer one, or recorded in the shared row, unless it or a newer one was
      dropped by the cap or a crash. */
  lemma ReceiptsAreKept(n: nat, c: Config, steps: seq<Step>)
    requires DistinctExpected(c)
    ensures ReceiptsOk(Run(Start(n), c, steps), c)
  {
    hide Run, DistinctExpected;
    RunKeepsReceipts(Start(n), c, steps);
  }

  /** A receipt is dropped by the cap only when a thousand other keys are pending. */
  lemma EvictsOnlyWhenFull(s: System, m: nat, key: string, event: string)
    requires m < |s.monitors|
    ensures ObserveOn(s, m, key, event).dropped != s.dropped ==> |s.monitors[m].pending| >= 1000
  {
    PutGrowsByOne(s.monitors[m].pending, key, Observation(s.clock, event));
  }

  lemma {:induction false} PutGrowsByOne(pending: Pending, key: string, o: Observation)
    ensures |Put(pending, key, o)| <= |pending| + 1
    ensures (exists i :: 0 <= i < |pending| && pending[i].0 == key) ==> |Put(pending, key, o)| == |pending|
    decreases |pending|
  {
    if pending != [] && pending[0].0 != key {
      PutGrowsByOne(pending[1..], key, o);
      if i :| 0 <= i < |pending| && pending[i].0 == key {
        assert pending[1..][i - 1].0 == key;
      }
    }
  }
}
