/**
 When outage alerts are separated by a newer receipt: exactly as long as no commit closes an
 outage on the receipt that its alert already told of.
 */
module TelemetryOutages {
  import opened Options
  import opened TelemetrySilence
  import opened TelemetryRuns

  /** Any two alerts of a key are separated by a strictly newer recorded receipt. */
  ghost predicate Separated(alerts: seq<Alert>) {
    forall i, j | 0 <= i < j < |alerts| && alerts[i].key == alerts[j].key :: Newer(alerts[j].last, alerts[i].last)
  }

  /** What the entry of the alert's key has recorded since: nothing older, and something newer
      once the outage is closed. */
  ghost predicate Followed(r: Row, c: Config, a: Alert) {
    && IsExpected(c, a.key) && a.key in r.entries
    && NotOlder(At(r.entries[a.key].last), a.last)
    && (!r.entries[a.key].outage ==> Newer(At(r.entries[a.key].last), a.last))
  }

  ghost predicate AlertsOk(r: Row, c: Config) {
    (forall k | 0 <= k < |r.alerts| :: Followed(r, c, r.alerts[k])) && Separated(r.alerts)
  }

  /** The commit closes the outage of the `i`-th expected key although the receipt it merged is
      not newer than the alert's: the reading `now` still lies within the limit after it. */
  predicate ClosesOn(r: Row, c: Config, snapshot: Pending, now: int, i: nat, a: Alert)
    requires i < |c.expected|
  {
    var (key, limit) := c.expected[i];
    var e := MergedEntry(r, c, snapshot, key, now);
    && key == a.key && key in r.entries && r.entries[key].outage
    && !Newer(At(e.last), a.last) && StatusOf(e, now, limit) == Receiving
  }

  predicate ClosesAfter(r: Row, c: Config, snapshot: Pending, now: int, a: Alert) {
    exists i | 0 <= i < |c.expected| :: ClosesOn(r, c, snapshot, now, i, a)
  }

  predicate ClosesEarly(r: Row, c: Config, snapshot: Pending, now: int) {
    exists k | 0 <= k < |r.alerts| :: ClosesAfter(r, c, snapshot, now, r.alerts[k])
  }

  // ---- One commit --------------------------------------------------------------

  lemma AlertSurvives(r: Row, c: Config, snapshot: Pending, now: int, i: nat, a: Alert)
    requires DistinctExpected(c) && Followed(r, c, a) && i < |c.expected| && c.expected[i].0 == a.key
    ensures Followed(Committed(r, c, snapshot, now), c, a) <==> !ClosesOn(r, c, snapshot, now, i, a)
  {
    hide DistinctExpected, Received;
    EntryAt(r, c, snapshot, now, |c.expected|, i);
    MergeIsNewest(r.entries[a.key], Received(c, snapshot, a.key));
  }

  lemma NewAlertFollowed(r: Row, c: Config, snapshot: Pending, now: int, i: nat, a: Alert)
    requires DistinctExpected(c) && i < |c.expected| && RaisedAt(r, c, snapshot, now, i, a)
    ensures Followed(Committed(r, c, snapshot, now), c, a)
  {
    hide DistinctExpected, Received;
    EntryAt(r, c, snapshot, now, |c.expected|, i);
    assert c.expected[i].0 == a.key;
  }

  /** A new alert of a key follows a closed outage, so its receipt is newer than any before. */
  lemma NewAlertIsNewer(r: Row, c: Config, snapshot: Pending, now: int, i: nat, a: Alert, earlier: Alert)
    requires i < |c.expected| && RaisedAt(r, c, snapshot, now, i, a)
    requires Followed(r, c, earlier) && earlier.key == a.key
    ensures Newer(a.last, earlier.last)
  {
    hide Received;
    MergeIsNewest(r.entries[a.key], Received(c, snapshot, a.key));
  }

  lemma NewAlertsAreOk(r: Row, c: Config, snapshot: Pending, now: int)
    requires DistinctExpected(c) && AlertsOk(r, c)
    ensures var t := Committed(r, c, snapshot, now);
            r.alerts <= t.alerts && forall k | |r.alerts| <= k < |t.alerts| :: Followed(t, c, t.alerts[k])
    ensures Separated(Committed(r, c, snapshot, now).alerts)
  {
    hide Followed, RaisedAt, Newer, NewAlerts, NewEntries, DistinctExpected;
    var t := Committed(r, c, snapshot, now);
    var more := NewAlerts(r, c, snapshot, now, |c.expected|);
    AlertsAre(r, c, snapshot, now, |c.expected|);
    forall k | |r.alerts| <= k < |t.alerts|
      ensures Followed(t, c, t.alerts[k])
    {
      var a := more[k - |r.alerts|];
      assert a in more;
      var i :| 0 <= i < |c.expected| && RaisedAt(r, c, snapshot, now, i, a);
      NewAlertFollowed(r, c, snapshot, now, i, a);
    }
    forall i, j | 0 <= i < j < |t.alerts| && t.alerts[i].key == t.alerts[j].key
      ensures Newer(t.alerts[j].last, t.alerts[i].last)
    {
      if j >= |r.alerts| {
        var a := more[j - |r.alerts|];
        assert a in more;
        assert i < |r.alerts|;
        var k :| 0 <= k < |c.expected| && RaisedAt(r, c, snapshot, now, k, a);
        NewAlertIsNewer(r, c, snapshot, now, k, a, r.alerts[i]);
      }
    }
  }

  /** A commit keeps the alerts as they should be if and only if it closes no outage early. */
  lemma CommitKeepsAlertsIff(r: Row, c: Config, snapshot: Pending, now: int)
    requires DistinctExpected(c) && AlertsOk(r, c)
    ensures AlertsOk(Committed(r, c, snapshot, now), c) <==> !ClosesEarly(r, c, snapshot, now)
  {
    hide Followed, Committed, DistinctExpected, ClosesAfter, IsExpected, Newer;
    var t := Committed(r, c, snapshot, now);
    NewAlertsAreOk(r, c, snapshot, now);
    forall k | 0 <= k < |r.alerts|
      ensures Followed(t, c, r.alerts[k]) <==> !ClosesAfter(r, c, snapshot, now, r.alerts[k])
    {
      OneAlert(r, c, snapshot, now, r.alerts[k]);
    }
    if ClosesEarly(r, c, snapshot, now) {
      var k :| 0 <= k < |r.alerts| && ClosesAfter(r, c, snapshot, now, r.alerts[k]);
      assert !Followed(t, c, t.alerts[k]);
    }
  }

  lemma OneAlert(r: Row, c: Config, snapshot: Pending, now: int, a: Alert)
    requires DistinctExpected(c) && Followed(r, c, a)
    ensures Followed(Committed(r, c, snapshot, now), c, a) <==> !ClosesAfter(r, c, snapshot, now, a)
  {
    hide Committed, MergedEntry;
    var n :| 0 <= n < |c.expected| && c.expected[n].0 == a.key;
    AlertSurvives(r, c, snapshot, now, n, a);
    forall i | 0 <= i < |c.expected| && i != n
      ensures !ClosesOn(r, c, snapshot, now, i, a)
    {
      assert c.expected[i].0 != c.expected[n].0;
    }
  }

  // ---- Runs --------------------------------------------------------------------

  predicate Commits(s: System, step: Step) {
    step.Commit? && step.m < |s.monitors| && s.monitors[step.m].phase.Ready?
  }

  predicate Early(s: System, c: Config, step: Step) {
    Commits(s, step)
    && ClosesEarly(s.row, c, s.monitors[step.m].phase.snapshot, s.monitors[step.m].phase.now)
  }

  predicate NeverEarly(s: System, c: Config, steps: seq<Step>)
    decreases |steps|
  {
    steps == [] || (!Early(s, c, steps[0]) && NeverEarly(Next(s, c, steps[0]), c, steps[1..]))
  }

  /** Only a commit touches the row. */
  lemma RowAfter(s: System, c: Config, step: Step)
    ensures Next(s, c, step).row ==
            if Commits(s, step)
            then Committed(s.row, c, s.monitors[step.m].phase.snapshot, s.monitors[step.m].phase.now)
            else s.row
  {
    hide Committed, Observed, Cleared, Items;
  }

  lemma {:induction false} RunKeepsAlerts(s: System, c: Config, steps: seq<Step>)
    requires DistinctExpected(c) && AlertsOk(s.row, c) && NeverEarly(s, c, steps)
    ensures AlertsOk(Run(s, c, steps).row, c)
    decreases |steps|
  {
    hide Next, AlertsOk, DistinctExpected, ClosesEarly, Committed;
    if steps != [] {
      RowAfter(s, c, steps[0]);
      if Commits(s, steps[0]) {
        var p := s.monitors[steps[0].m].phase;
        CommitKeepsAlertsIff(s.row, c, p.snapshot, p.now);
      }
      RunKeepsAlerts(Next(s, c, steps[0]), c, steps[1..]);
    }
  }

  /** Over every interleaving in which no commit closes an outage early, any two outage alerts of
      a key are separated by a strictly newer recorded receipt. */
  lemma OutagesAreSeparated(n: nat, c: Config, steps: seq<Step>)
    requires DistinctExpected(c) && NeverEarly(Start(n), c, steps)
    ensures AlertsOk(Run(Start(n), c, steps).row, c)
    ensures Separated(Run(Start(n), c, steps).row.alerts)
  {
    hide DistinctExpected, NeverEarly, Run, Followed, Newer;
    RunKeepsAlerts(Start(n), c, steps);
  }

  // ---- An outage closed early is alerted again ---------------------------------------

  lemma {:induction false} RaisedIsListed(r: Row, c: Config, snapshot: Pending, now: int, n: nat, i: nat)
    requires i < n <= |c.expected|
    requires Raises(MergedEntry(r, c, snapshot, c.expected[i].0, now), now, c.expected[i].1)
    ensures AlertFor(MergedEntry(r, c, snapshot, c.expected[i].0, now), c.expected[i].0, now)
            in NewAlerts(r, c, snapshot, now, n)
    decreases n
  {
    hide Raises, MergedEntry;
    if i < n - 1 {
      RaisedIsListed(r, c, snapshot, now, n - 1, i);
    }
  }

  /** A reading by which every recorded receipt is older than its limit. */
  function AllSilent(r: Row, c: Config, n: nat): int
    requires n <= |c.expected|
  {
    if n == 0 then 0
    else
      var (key, limit) := c.expected[n - 1];
      var own :=
        if key in r.entries && r.entries[key].last.Some? then r.entries[key].last.value.received + limit + 1 else 0;
      var before := AllSilent(r, c, n - 1);
      if own > before then own else before
  }

  lemma {:induction false} SilentBy(r: Row, c: Config, n: nat, i: nat)
    requires i < n <= |c.expected| && c.expected[i].0 in r.entries && r.entries[c.expected[i].0].last.Some?
    ensures r.entries[c.expected[i].0].last.value.received + c.expected[i].1 < AllSilent(r, c, n)
    decreases n
  {
    if i < n - 1 {
      SilentBy(r, c, n - 1, i);
    }
  }

  lemma NoneReceiving(r: Row, c: Config, now: int)
    requires now >= AllSilent(r, c, |c.expected|)
    ensures !ClosesEarly(r, c, [], now)
  {
    forall k, i | 0 <= k < |r.alerts| && 0 <= i < |c.expected|
      ensures !ClosesOn(r, c, [], now, i, r.alerts[k])
    {
      if c.expected[i].0 in r.entries && r.entries[c.expected[i].0].last.Some? {
        SilentBy(r, c, |c.expected|, i);
      }
    }
  }

  /** A closed outage whose receipt is still the one an alert told of is alerted again. */
  lemma AlertedAgain(r: Row, c: Config, now: int, i: nat, k: nat)
    requires i < |c.expected| && k < |r.alerts| && now >= AllSilent(r, c, |c.expected|)
    requires c.expected[i].0 == r.alerts[k].key && r.alerts[k].key in r.entries
    requires var e := r.entries[r.alerts[k].key]; !e.outage && e.last.Some? && !Newer(At(e.last), r.alerts[k].last)
    requires c.expected[i].1 >= 0
    ensures !Separated(Committed(r, c, [], now).alerts)
  {
    var key, limit := c.expected[i].0, c.expected[i].1;
    SilentBy(r, c, |c.expected|, i);
    var e := MergedEntry(r, c, [], key, now);
    assert e == r.entries[key];
    assert Raises(e, now, limit);
    RaisedIsListed(r, c, [], now, |c.expected|, i);
    hide NewAlerts;
    var more := NewAlerts(r, c, [], now, |c.expected|);
    var j :| 0 <= j < |more| && more[j] == AlertFor(e, key, now);
    var alerts := Committed(r, c, [], now).alerts;
    assert alerts[|r.alerts| + j] == more[j] && alerts[k] == r.alerts[k];
  }

  /** The monitor starts anew, time passes, and it ticks with no receipts. */
  function LateTick(m: nat, time: nat): seq<Step> {
    [Crash(m), Pass(time), ReadClock(m), Copy(m), Commit(m)]
  }

  lemma TickOfNothing(s: System, c: Config, m: nat, time: nat)
    requires m < |s.monitors|
    ensures Run(s, c, LateTick(m, time)).row == Committed(s.row, c, [], s.clock + time)
    ensures !ClosesEarly(s.row, c, [], s.clock + time) ==> NeverEarly(s, c, LateTick(m, time))
  {
    hide Committed, Items, ClosesEarly;
    var steps := LateTick(m, time);
    var s1 := Next(s, c, steps[0]);
    var s2 := Next(s1, c, steps[1]);
    var s3 := Next(s2, c, steps[2]);
    var s4 := Next(s3, c, steps[3]);
    assert s4.row == s.row && s4.monitors[m].phase == Ready(s.clock + time, []);
    RunOne(s, c, steps);
    RunOne(s1, c, steps[1..]);
    RunOne(s2, c, steps[2..]);
    RunOne(s3, c, steps[3..]);
    RunOne(s4, c, steps[4..]);
    assert steps[1..][1..] == steps[2..] && steps[2..][1..] == steps[3..] && steps[3..][1..] == steps[4..];
    assert steps[4..][1..] == [];
  }

  lemma RunOne(s: System, c: Config, steps: seq<Step>)
    requires steps != []
    ensures Run(s, c, steps) == Run(Next(s, c, steps[0]), c, steps[1..])
    ensures NeverEarly(s, c, steps) <==> !Early(s, c, steps[0]) && NeverEarly(Next(s, c, steps[0]), c, steps[1..])
    ensures Run(s, c, []) == s && NeverEarly(s, c, [])
  {
    hide Next;
  }

  /** From any state with its alerts in order, a commit leaves them separated in every later run
      that closes no outage early if and only if it closes none itself. */
  lemma SeparationIff(s: System, c: Config, m: nat)
    requires Sane(c) && AlertsOk(s.row, c) && Commits(s, Commit(m))
    ensures var t := Next(s, c, Commit(m));
            (forall steps | NeverEarly(t, c, steps) :: Separated(Run(t, c, steps).row.alerts))
              <==> !Early(s, c, Commit(m))
  {
    hide Run, NeverEarly, Followed, Committed, ClosesEarly, Newer, Next, DistinctExpected;
    SaneIsDistinct(c);
    var t := Next(s, c, Commit(m));
    var p := s.monitors[m].phase;
    RowAfter(s, c, Commit(m));
    CommitKeepsAlertsIff(s.row, c, p.snapshot, p.now);
    if !Early(s, c, Commit(m)) {
      forall steps | NeverEarly(t, c, steps)
        ensures Separated(Run(t, c, steps).row.alerts)
      {
        RunKeepsAlerts(t, c, steps);
      }
    } else {
      var time := EarlyRepeats(s, c, m);
      assert !Separated(Run(t, c, LateTick(m, time)).row.alerts);
    }
  }

  /** The continuation that alerts twice on one receipt. */
  lemma EarlyRepeats(s: System, c: Config, m: nat) returns (time: nat)
    requires Sane(c) && AlertsOk(s.row, c) && Commits(s, Commit(m)) && Early(s, c, Commit(m))
    ensures var t := Next(s, c, Commit(m));
            NeverEarly(t, c, LateTick(m, time)) && !Separated(Run(t, c, LateTick(m, time)).row.alerts)
  {
    hide Run, NeverEarly, Next, Committed, AllSilent, StatusOf, MergedEntry, LateTick;
    var t := Next(s, c, Commit(m));
    var p := s.monitors[m].phase;
    RowAfter(s, c, Commit(m));
    MonitorsStay(s, c, Commit(m));
    var k :| 0 <= k < |s.row.alerts| && ClosesAfter(s.row, c, p.snapshot, p.now, s.row.alerts[k]);
    var i :| 0 <= i < |c.expected| && ClosesOn(s.row, c, p.snapshot, p.now, i, s.row.alerts[k]);
    ClosedEntry(s.row, c, p.snapshot, p.now, i, s.row.alerts[k]);
    var silent := AllSilent(t.row, c, |c.expected|);
    time := if silent > t.clock then silent - t.clock else 0;
    AlertsAfter(s.row, c, p.snapshot, p.now, k);
    AlertedAgain(t.row, c, t.clock + time, i, k);
    NoneReceiving(t.row, c, t.clock + time);
    TickOfNothing(t, c, m, time);
  }

  lemma AlertsAfter(r: Row, c: Config, snapshot: Pending, now: int, k: nat)
    requires k < |r.alerts|
    ensures k < |Committed(r, c, snapshot, now).alerts| && Committed(r, c, snapshot, now).alerts[k] == r.alerts[k]
  {
    hide NewAlerts, NewEntries;
  }

  lemma MonitorsStay(s: System, c: Config, step: Step)
    ensures |Next(s, c, step).monitors| == |s.monitors|
  {
    hide Committed, Observed, Cleared, Items;
  }

  lemma ClosedEntry(r: Row, c: Config, snapshot: Pending, now: int, i: nat, a: Alert)
    requires DistinctExpected(c) && i < |c.expected| && ClosesOn(r, c, snapshot, now, i, a)
    ensures var t := Committed(r, c, snapshot, now);
            a.key in t.entries && !t.entries[a.key].outage && t.entries[a.key].last.Some?
            && !Newer(At(t.entries[a.key].last), a.last)
  {
    hide DistinctExpected, Received;
    EntryAt(r, c, snapshot, now, |c.expected|, i);
  }

  /** The limits are not negative, as the configuration demands. */
  ghost predicate Sane(c: Config) {
    DistinctExpected(c) && forall i | 0 <= i < |c.expected| :: c.expected[i].1 >= 0
  }

  lemma SaneIsDistinct(c: Config)
    requires Sane(c)
    ensures DistinctExpected(c)
  {
  }

  /** Without a newer receipt a commit closes an outage exactly when its clock reading still
      lies within the limit after the recorded receipt. */
  lemma ClosesWithoutReceiptIff(e: Entry, o: Option<Observation>, now: int, limit: int)
    requires e.outage && limit >= 0 && !Newer(At(o), At(e.last))
    ensures !Judged(Merged(e, o), now, limit).outage <==> e.last.Some? && now - e.last.value.received <= limit
  {
  }

  // ---- Commits in the order of their readings -----------------------------------------

  /** A commit whose clock reading is older than that of a commit before it. */
  predicate Late(s: System, step: Step) { Commits(s, step) && s.monitors[step.m].phase.now < s.latest }

  predicate InOrder(s: System, c: Config, steps: seq<Step>)
    decreases |steps|
  {
    steps == [] || (!Late(s, steps[0]) && InOrder(Next(s, c, steps[0]), c, steps[1..]))
  }

  /** The alert told of a silence longer than its key's limit, at a reading already committed. */
  ghost predicate Told(c: Config, a: Alert, latest: int) {
    a.now <= latest
    && exists i | 0 <= i < |c.expected| :: ToldOn(c, a, i)
  }

  predicate ToldOn(c: Config, a: Alert, i: nat)
    requires i < |c.expected|
  {
    c.expected[i].0 == a.key && a.now - a.anchor > c.expected[i].1 && (a.last.Some? ==> a.anchor == a.last.value)
  }

  ghost predicate AllTold(r: Row, c: Config, latest: int) {
    forall k | 0 <= k < |r.alerts| :: Told(c, r.alerts[k], latest)
  }

  lemma NotEarlyInOrder(r: Row, c: Config, snapshot: Pending, now: int, a: Alert, latest: int)
    requires Sane(c) && Followed(r, c, a) && Told(c, a, latest) && latest <= now
    ensures !ClosesAfter(r, c, snapshot, now, a)
  {
    hide Received;
    var n :| 0 <= n < |c.expected| && ToldOn(c, a, n);
    MergeIsNewest(r.entries[a.key], Received(c, snapshot, a.key));
    forall i | 0 <= i < |c.expected|
      ensures !ClosesOn(r, c, snapshot, now, i, a)
    {
      assert i != n ==> c.expected[i].0 != c.expected[n].0;
    }
  }

  lemma NewAlertsAreTold(r: Row, c: Config, snapshot: Pending, now: int, latest: int)
    requires Sane(c) && AllTold(r, c, latest) && latest <= now
    ensures AllTold(Committed(r, c, snapshot, now), c, now)
  {
    hide NewAlerts, NewEntries, RaisedAt, Told;
    var t := Committed(r, c, snapshot, now);
    var more := NewAlerts(r, c, snapshot, now, |c.expected|);
    SaneIsDistinct(c);
    AlertsAre(r, c, snapshot, now, |c.expected|);
    forall k | 0 <= k < |t.alerts|
      ensures Told(c, t.alerts[k], now)
    {
      if k < |r.alerts| {
        assert t.alerts[k] == r.alerts[k];
        ToldLater(c, r.alerts[k], latest, now);
      } else {
        var a := more[k - |r.alerts|];
        assert a in more;
        var i :| 0 <= i < |c.expected| && RaisedAt(r, c, snapshot, now, i, a);
        RaisedIsTold(r, c, snapshot, now, i, a);
      }
    }
  }

  lemma ToldLater(c: Config, a: Alert, latest: int, now: int)
    requires Told(c, a, latest) && latest <= now
    ensures Told(c, a, now)
  {
    var i :| 0 <= i < |c.expected| && ToldOn(c, a, i);
  }

  lemma RaisedIsTold(r: Row, c: Config, snapshot: Pending, now: int, i: nat, a: Alert)
    requires Sane(c) && i < |c.expected| && RaisedAt(r, c, snapshot, now, i, a)
    ensures Told(c, a, now)
  {
    hide Received, DistinctExpected;
    assert ToldOn(c, a, i);
  }

  lemma LatestAfter(s: System, c: Config, step: Step)
    ensures Next(s, c, step).latest ==
            if Commits(s, step) && s.monitors[step.m].phase.now > s.latest
              then s.monitors[step.m].phase.now else s.latest
  {
    hide Committed, Observed, Cleared, Items;
  }

  /** Commits in the order of their clock readings never close an outage early. */
  lemma {:induction false} InOrderIsNeverEarly(s: System, c: Config, steps: seq<Step>)
    requires Sane(c) && AlertsOk(s.row, c) && AllTold(s.row, c, s.latest) && InOrder(s, c, steps)
    ensures NeverEarly(s, c, steps)
    decreases |steps|
  {
    hide Next, DistinctExpected, Committed, Followed, Told, Newer, ClosesAfter;
    if steps != [] {
      SaneIsDistinct(c);
      RowAfter(s, c, steps[0]);
      LatestAfter(s, c, steps[0]);
      if Commits(s, steps[0]) {
        var p := s.monitors[steps[0].m].phase;
        forall k | 0 <= k < |s.row.alerts|
          ensures !ClosesAfter(s.row, c, p.snapshot, p.now, s.row.alerts[k])
        {
          NotEarlyInOrder(s.row, c, p.snapshot, p.now, s.row.alerts[k], s.latest);
        }
        CommitKeepsAlertsIff(s.row, c, p.snapshot, p.now);
        NewAlertsAreTold(s.row, c, p.snapshot, p.now, s.latest);
      }
      InOrderIsNeverEarly(Next(s, c, steps[0]), c, steps[1..]);
    }
  }

  // ---- The failing run --------------------------------------------------------------------

  const KEY := "h|s"

  const RECEIPT := Observation(0, "")

  function OneHost(limit: nat): Config { Config([(KEY, limit)], key => Some(key)) }

  /** A receipt at time 0 and its tick. */
  const FIRST_TICK: seq<Step> := [Observe(0, KEY, ""), ReadClock(0), Copy(0), Commit(0), Clear(0)]

  /** A second monitor reads the clock and copies nothing; the limit passes. */
  function SecondReads(limit: nat): seq<Step> { [ReadClock(1), Copy(1), Pass(limit + 1)] }

  /** The first monitor alerts. */
  const ALERTS: seq<Step> := [ReadClock(0), Copy(0), Commit(0)]

  /** The row after the first receipt, after the alert, and after the early commit. */
  function FirstRow(): Row { Row(map[KEY := Entry(0, Some(RECEIPT), false, Receiving)], []) }

  function AlertedRow(limit: nat): Row {
    Row(map[KEY := Entry(0, Some(RECEIPT), true, Silent)], [Alert(KEY, Some(0), 0, limit + 1)])
  }

  lemma OneHostEntries(r: Row, snapshot: Pending, now: int, limit: nat)
    ensures var c := OneHost(limit);
            var e := MergedEntry(r, c, snapshot, KEY, now);
            Committed(r, c, snapshot, now) ==
            Row(map[KEY := Judged(e, now, limit)],
                r.alerts + if Raises(e, now, limit) then [AlertFor(e, KEY, now)] else [])
  {
    hide Judged, MergedEntry, Raises;
    var c := OneHost(limit);
    assert NewEntries(r, c, snapshot, now, 0) == map[] && NewAlerts(r, c, snapshot, now, 0) == [];
  }

  lemma EarlyRows(limit: nat)
    ensures var c := OneHost(limit);
            && Committed(Row(map[], []), c, [(KEY, RECEIPT)], 0) == FirstRow()
            && Committed(FirstRow(), c, [], limit + 1) == AlertedRow(limit)
            && ClosesEarly(AlertedRow(limit), c, [], 0)
  {
    var c := OneHost(limit);
    OneHostEntries(Row(map[], []), [(KEY, RECEIPT)], 0, limit);
    OneHostEntries(FirstRow(), [], limit + 1, limit);
    assert [(KEY, RECEIPT)][..0] == [];
    assert Received(c, [], KEY) == None && Received(c, [(KEY, RECEIPT)], KEY) == Some(RECEIPT);
    assert ClosesOn(AlertedRow(limit), c, [], 0, 0, AlertedRow(limit).alerts[0]);
  }

  function AfterTick(limit: nat): System {
    System(FirstRow(), 0, 0, [Monitor([], Idle), Monitor([], Idle)], {Receipt(0, KEY, RECEIPT)}, {})
  }

  function AfterLimit(limit: nat): System {
    AfterTick(limit).(clock := limit + 1, monitors := [Monitor([], Idle), Monitor([], Ready(0, []))])
  }

  function AfterAlert(limit: nat): System {
    AfterLimit(limit).(row := AlertedRow(limit), latest := limit + 1,
                       monitors := [Monitor([], Done([])), Monitor([], Ready(0, []))])
  }

  lemma FirstTick(limit: nat)
    ensures Run(Start(2), OneHost(limit), FIRST_TICK) == AfterTick(limit)
    ensures NeverEarly(Start(2), OneHost(limit), FIRST_TICK)
  {
    hide Committed, Items, ClosesEarly, Received, Run, NeverEarly, Next;
    var c := OneHost(limit);
    var s3 := BeforeCommit();
    FirstCopy(limit);
    FirstCommit(limit);
    var s4 := AfterCommit();
    RunAt(s3, c, FIRST_TICK, 3);
    RunAt(s4, c, FIRST_TICK, 4);
    RunNone(AfterTick(limit), c);
    assert FIRST_TICK[3..] == [Commit(0), Clear(0)] && FIRST_TICK[5..] == [];
    RunsJoin(Start(2), c, FIRST_TICK[..3], FIRST_TICK[3..]);
    assert FIRST_TICK[..3] + FIRST_TICK[3..] == FIRST_TICK;
  }

  function BeforeCommit(): System {
    var first: Pending := [(KEY, RECEIPT)];
    System(Row(map[], []), 0, 0, [Monitor(first, Ready(0, first)), Monitor([], Idle)], {Receipt(0, KEY, RECEIPT)}, {})
  }

  function AfterCommit(): System {
    var first: Pending := [(KEY, RECEIPT)];
    System(FirstRow(), 0, 0, [Monitor(first, Done(first)), Monitor([], Idle)], {Receipt(0, KEY, RECEIPT)}, {})
  }

  /** The first monitor observes, reads the clock and copies. */
  lemma FirstCopy(limit: nat)
    ensures Run(Start(2), OneHost(limit), FIRST_TICK[..3]) == BeforeCommit()
    ensures NeverEarly(Start(2), OneHost(limit), FIRST_TICK[..3])
  {
    var c, steps := OneHost(limit), FIRST_TICK[..3];
    hide Committed, Items, ClosesEarly, Received;
    var first: Pending := [(KEY, RECEIPT)];
    var s0 := Start(2);
    var s1 := Next(s0, c, steps[0]);
    assert s1.monitors == [Monitor(first, Idle), Monitor([], Idle)];
    var s2 := Next(s1, c, steps[1]);
    RunAt(s0, c, steps, 0);
    RunAt(s1, c, steps, 1);
    RunAt(s2, c, steps, 2);
    assert steps[0..] == steps && steps[3..] == [];
    assert Next(s2, c, steps[2]) == BeforeCommit();
  }

  /** It commits and clears. */
  lemma FirstCommit(limit: nat)
    ensures Next(BeforeCommit(), OneHost(limit), Commit(0)) == AfterCommit()
    ensures Next(AfterCommit(), OneHost(limit), Clear(0)) == AfterTick(limit)
    ensures !Early(BeforeCommit(), OneHost(limit), Commit(0))
  {
    EarlyRows(limit);
    hide Committed, Items, ClosesEarly, Received;
    ClearedAll([(KEY, RECEIPT)]);
    NoAlertsNotEarly(BeforeCommit().row, OneHost(limit), [(KEY, RECEIPT)], 0);
  }

  lemma SecondReading(limit: nat)
    ensures Run(AfterTick(limit), OneHost(limit), SecondReads(limit)) == AfterLimit(limit)
    ensures NeverEarly(AfterTick(limit), OneHost(limit), SecondReads(limit))
  {
    var c, steps := OneHost(limit), SecondReads(limit);
    hide Committed, Items, ClosesEarly, Received;
    var s0 := AfterTick(limit);
    var s1 := Next(s0, c, steps[0]);
    var s2 := Next(s1, c, steps[1]);
    RunAt(s0, c, steps, 0);
    RunAt(s1, c, steps, 1);
    RunAt(s2, c, steps, 2);
    assert steps[0..] == steps && steps[3..] == [];
    assert Next(s2, c, steps[2]) == AfterLimit(limit);
  }

  lemma Alerting(limit: nat)
    ensures Run(AfterLimit(limit), OneHost(limit), ALERTS) == AfterAlert(limit)
    ensures NeverEarly(AfterLimit(limit), OneHost(limit), ALERTS)
  {
    var c := OneHost(limit);
    EarlyRows(limit);
    hide Committed, Items, ClosesEarly, Received;
    NoAlertsNotEarly(FirstRow(), c, [], limit + 1);
    var s0 := AfterLimit(limit);
    var s1 := Next(s0, c, ALERTS[0]);
    var s2 := Next(s1, c, ALERTS[1]);
    assert s2.monitors[0] == Monitor([], Ready(limit + 1, []));
    RunAt(s0, c, ALERTS, 0);
    RunAt(s1, c, ALERTS, 1);
    RunAt(s2, c, ALERTS, 2);
    assert ALERTS[0..] == ALERTS && ALERTS[3..] == [];
    assert Next(s2, c, ALERTS[2]) == AfterAlert(limit);
  }

  lemma AlertReached(limit: nat)
    ensures var steps := FIRST_TICK + SecondReads(limit) + ALERTS;
            Run(Start(2), OneHost(limit), steps) == AfterAlert(limit) && NeverEarly(Start(2), OneHost(limit), steps)
  {
    hide Run, NeverEarly, Next;
    var c := OneHost(limit);
    FirstTick(limit);
    SecondReading(limit);
    Alerting(limit);
    RunsJoin(Start(2), c, FIRST_TICK, SecondReads(limit));
    RunsJoin(Start(2), c, FIRST_TICK + SecondReads(limit), ALERTS);
  }

  lemma RunAt(s: System, c: Config, steps: seq<Step>, i: nat)
    requires i < |steps|
    ensures Run(s, c, steps[i..]) == Run(Next(s, c, steps[i]), c, steps[i + 1..])
    ensures NeverEarly(s, c, steps[i..])
            <==> !Early(s, c, steps[i]) && NeverEarly(Next(s, c, steps[i]), c, steps[i + 1..])
    ensures Run(s, c, []) == s && NeverEarly(s, c, [])
  {
    hide Next;
    RunOne(s, c, steps[i..]);
    assert steps[i..][1..] == steps[i + 1..];
  }

  lemma {:induction false} RunsJoin(s: System, c: Config, a: seq<Step>, b: seq<Step>)
    ensures Run(Run(s, c, a), c, b) == Run(s, c, a + b)
    ensures NeverEarly(s, c, a + b) <==> NeverEarly(s, c, a) && NeverEarly(Run(s, c, a), c, b)
    decreases |a|
  {
    hide Next, Early;
    if a == [] {
      assert a + b == b;
    } else {
      assert (a + b)[1..] == a[1..] + b;
      RunsJoin(Next(s, c, a[0]), c, a[1..], b);
    }
  }

  /** For every limit two monitors have a run with two outage alerts on one receipt. */
  lemma OneReceiptAlertedTwice(limit: nat)
    ensures exists steps :: !Separated(Run(Start(2), OneHost(limit), steps).row.alerts)
  {
    hide Run, NeverEarly, Next, Committed, ClosesEarly, Followed, Separated, DistinctExpected;
    var c := OneHost(limit);
    var steps := FIRST_TICK + SecondReads(limit) + ALERTS;
    OneHostIsSane(limit);
    EarlyRows(limit);
    AlertReached(limit);
    StartAlertsOk(c);
    RunKeepsAlerts(Start(2), c, steps);
    var s := AfterAlert(limit);
    var time := EarlyRepeats(s, c, 1);
    RunsJoin(Start(2), c, steps, [Commit(1)]);
    RunAt(s, c, [Commit(1)], 0);
    RunNone(Next(s, c, Commit(1)), c);
    assert [Commit(1)][0..] == [Commit(1)] && [Commit(1)][1..] == [];
    RunsJoin(Start(2), c, steps + [Commit(1)], LateTick(1, time));
    var all := steps + [Commit(1)] + LateTick(1, time);
    assert !Separated(Run(Start(2), c, all).row.alerts);
  }

  lemma RunNone(s: System, c: Config)
    ensures Run(s, c, []) == s && NeverEarly(s, c, [])
  {
  }

  lemma OneHostIsSane(limit: nat)
    ensures Sane(OneHost(limit)) && DistinctExpected(OneHost(limit))
  {
  }

  lemma StartAlertsOk(c: Config)
    ensures AlertsOk(Start(2).row, c)
  {
  }

  lemma ClearedAll(p: Pending)
    requires |p| == 1
    ensures Cleared(p, p) == []
  {
    assert p[..0] == [];
  }

  lemma NoAlertsNotEarly(r: Row, c: Config, snapshot: Pending, now: int)
    requires r.alerts == []
    ensures !ClosesEarly(r, c, snapshot, now)
  {
  }
}
