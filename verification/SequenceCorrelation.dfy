/**
 The "A then B" correlation (correlations.py, `_run_sequence`): one pass over the rows of a
 key with a pruned list of recent A rows, against its quadratic definition.
 */
module SequenceCorrelation {
  import opened Options

  /** A fetched row; `time` is `None` if the timestamp does not parse, `key` is "" if it has none. */
  datatype Row = Row(id: nat, key: string, time: Option<int>, isA: bool, isB: bool)

  /** Positions in the rows of one key. */
  datatype Report = Report(causes: seq<nat>, effect: nat)

  ghost predicate TimeOrdered(rows: seq<Row>) {
    forall i, j | 0 <= i < j < |rows| && rows[i].time.Some? && rows[j].time.Some? ::
      rows[i].time.value <= rows[j].time.value
  }

  predicate Since(row: Row, cutoff: Option<int>) {
    row.time.Some? && (cutoff.None? || row.time.value >= cutoff.value)
  }

  // ---- The definition: look back over everything since the last report -------

  /** The A rows in [from, until) that are not older than the cutoff. */
  function Window(rows: seq<Row>, from: nat, until: nat, cutoff: Option<int>): seq<nat>
    requires until <= |rows|
  {
    if until <= from then []
    else
      Window(rows, from, until - 1, cutoff)
      + if rows[until - 1].isA && Since(rows[until - 1], cutoff) then [until - 1] else []
  }

  function Start(reports: seq<Report>): nat {
    if reports == [] then 0 else reports[|reports| - 1].effect + 1
  }

  /** The reports on the first `n` rows; `None` if the run fails. */
  function Reports(rows: seq<Row>, n: nat, gap: nat, min: int): Option<seq<Report>>
    requires n <= |rows|
  {
    if n == 0 then Some([])
    else
      var before := Reports(rows, n - 1, gap, min);
      if before.None? || rows[n - 1].time.None? || !rows[n - 1].isB then before
      else
        var from := Start(before.value);
        var causes := Window(rows, from, n, Some(rows[n - 1].time.value - gap));
        if Window(rows, from, n, None) == [] || |causes| < min then before
        else if causes == [] then None
        else Some(before.value + [Report(causes, n - 1)])
  }

  // ---- The one pass -----------------------------------------------------------

  function Pruned(rows: seq<Row>, recent: seq<nat>, cutoff: int): seq<nat>
    requires forall k | 0 <= k < |recent| :: recent[k] < |rows|
  {
    if recent == [] then []
    else Pruned(rows, recent[..|recent| - 1], cutoff)
         + if Since(rows[recent[|recent| - 1]], Some(cutoff)) then [recent[|recent| - 1]] else []
  }

  lemma {:induction false} WindowInRange(rows: seq<Row>, from: nat, until: nat, cutoff: Option<int>)
    requires until <= |rows|
    ensures forall k | 0 <= k < |Window(rows, from, until, cutoff)| ::
              from <= Window(rows, from, until, cutoff)[k] < until
    ensures forall k, m | 0 <= k < m < |Window(rows, from, until, cutoff)| ::
              Window(rows, from, until, cutoff)[k] < Window(rows, from, until, cutoff)[m]
    decreases until
  {
    if from < until {
      WindowInRange(rows, from, until - 1, cutoff);
    }
  }

  lemma PrunedLast(rows: seq<Row>, recent: seq<nat>, last: nat, cutoff: int)
    requires last < |rows| && forall k | 0 <= k < |recent| :: recent[k] < |rows|
    ensures Pruned(rows, recent + [last], cutoff) ==
            if Since(rows[last], Some(cutoff)) then Pruned(rows, recent, cutoff) + [last]
            else Pruned(rows, recent, cutoff)
  {
    assert (recent + [last])[..|recent|] == recent;
  }

  lemma WindowLast(rows: seq<Row>, from: nat, until: nat, cutoff: Option<int>)
    requires from < until <= |rows|
    ensures Window(rows, from, until, cutoff) ==
            if rows[until - 1].isA && Since(rows[until - 1], cutoff)
            then Window(rows, from, until - 1, cutoff) + [until - 1]
            else Window(rows, from, until - 1, cutoff)
  {
  }

  lemma NothingBetween(rows: seq<Row>, from: nat, until: nat, older: Option<int>, cutoff: int)
    requires until <= from && until <= |rows|
    ensures Window(rows, from, until, older) == [] == Window(rows, from, until, Some(cutoff))
    ensures Pruned(rows, [], cutoff) == []
  {
  }

  /** Pruning is harmless: cutting an older window again gives the window itself. */
  lemma {:induction false} PruningIsHarmless(rows: seq<Row>, from: nat, until: nat, older: Option<int>, cutoff: int)
    requires until <= |rows| && (older.None? || older.value <= cutoff)
    ensures forall k | 0 <= k < |Window(rows, from, until, older)| :: Window(rows, from, until, older)[k] < |rows|
    ensures Pruned(rows, Window(rows, from, until, older), cutoff) == Window(rows, from, until, Some(cutoff))
    decreases until
  {
    hide Window, Pruned;
    WindowInRange(rows, from, until, older);
    if from < until {
      PruningIsHarmless(rows, from, until - 1, older, cutoff);
      WindowLast(rows, from, until, older);
      WindowLast(rows, from, until, Some(cutoff));
      PrunedLast(rows, Window(rows, from, until - 1, older), until - 1, cutoff);
    } else {
      NothingBetween(rows, from, until, older, cutoff);
    }
  }

  lemma {:induction false} SomeInWider(rows: seq<Row>, from: nat, until: nat, cutoff: Option<int>)
    requires until <= |rows| && Window(rows, from, until, cutoff) != []
    ensures Window(rows, from, until, None) != []
    decreases until
  {
    if from < until && Window(rows, from, until - 1, cutoff) != [] {
      SomeInWider(rows, from, until - 1, cutoff);
    }
  }

  /** The list of recent A rows is the window behind some cutoff that no later row looks beyond. */
  ghost predicate Recent(rows: seq<Row>, recent: seq<nat>, from: nat, n: nat, gap: nat, cutoff: Option<int>) {
    && from <= n <= |rows| && recent == Window(rows, from, n, cutoff)
    && (recent == [] ==> Window(rows, from, n, None) == [])
    && (cutoff.Some? ==> forall j | n <= j < |rows| && rows[j].time.Some? :: cutoff.value <= rows[j].time.value - gap)
  }

  lemma NothingRecent(rows: seq<Row>, gap: nat)
    ensures Recent(rows, [], 0, 0, gap, None)
  {
  }

  lemma SkipRow(rows: seq<Row>, recent: seq<nat>, from: nat, n: nat, gap: nat, cutoff: Option<int>)
    requires n < |rows| && Recent(rows, recent, from, n, gap, cutoff)
    requires !rows[n].isA || rows[n].time.None?
    ensures Recent(rows, recent, from, n + 1, gap, cutoff)
  {
  }

  lemma AddCause(rows: seq<Row>, recent: seq<nat>, from: nat, n: nat, gap: nat, cutoff: Option<int>)
    requires TimeOrdered(rows) && n < |rows| && Recent(rows, recent, from, n, gap, cutoff)
    requires rows[n].isA && rows[n].time.Some?
    ensures forall k | 0 <= k < |recent + [n]| :: (recent + [n])[k] < |rows|
    ensures var cut := rows[n].time.value - gap;
            Recent(rows, Pruned(rows, recent + [n], cut), from, n + 1, gap, Some(cut))
  {
    hide Window, Pruned;
    var cut := rows[n].time.value - gap;
    WindowInRange(rows, from, n, cutoff);
    WindowLast(rows, from, n + 1, cutoff);
    WindowLast(rows, from, n + 1, Some(cut));
    PruningIsHarmless(rows, from, n + 1, cutoff, cut);
  }

  lemma Forget(rows: seq<Row>, recent: seq<nat>, from: nat, n: nat, gap: nat, cutoff: Option<int>)
    requires Recent(rows, recent, from, n, gap, cutoff)
    ensures Recent(rows, [], n, n, gap, cutoff)
  {
  }

  /** What the pruned list says at a B row is what looking back says. */
  lemma LookBack(rows: seq<Row>, recent: seq<nat>, from: nat, n: nat, gap: nat, cutoff: Option<int>, now: int)
    requires Recent(rows, recent, from, n, gap, cutoff) && (cutoff.None? || cutoff.value <= now - gap)
    ensures forall k | 0 <= k < |recent| :: recent[k] < |rows|
    ensures Pruned(rows, recent, now - gap) == Window(rows, from, n, Some(now - gap))
    ensures recent == [] <==> Window(rows, from, n, None) == []
  {
    PruningIsHarmless(rows, from, n, cutoff, now - gap);
    if recent != [] {
      SomeInWider(rows, from, n, cutoff);
    }
  }

  lemma InRange(rows: seq<Row>, recent: seq<nat>, from: nat, n: nat, gap: nat, cutoff: Option<int>)
    requires Recent(rows, recent, from, n, gap, cutoff)
    ensures forall k | 0 <= k < |recent| :: recent[k] < n
    ensures cutoff.Some? && n < |rows| && rows[n].time.Some? ==> cutoff.value <= rows[n].time.value - gap
  {
    WindowInRange(rows, from, n, cutoff);
  }

  lemma {:induction false} FailureStays(rows: seq<Row>, n: nat, m: nat, gap: nat, min: int)
    requires n <= m <= |rows| && Reports(rows, n, gap, min).None?
    ensures Reports(rows, m, gap, min).None?
    decreases m
  {
    if m > n {
      FailureStays(rows, n, m - 1, gap, min);
    }
  }

  /** At a B row: the reports grow exactly as the definition says. */
  lemma EffectRow(rows: seq<Row>, reports: seq<Report>, recent: seq<nat>, n: nat, gap: nat, min: int,
                  cutoff: Option<int>)
    requires n < |rows| && Reports(rows, n, gap, min) == Some(reports) && rows[n].time.Some?
    requires Recent(rows, recent, Start(reports), n + 1, gap, cutoff)
    requires cutoff.None? || cutoff.value <= rows[n].time.value - gap
    ensures forall k | 0 <= k < |recent| :: recent[k] < |rows|
    ensures var causes := Pruned(rows, recent, rows[n].time.value - gap);
            Reports(rows, n + 1, gap, min) ==
            if !rows[n].isB || recent == [] || |causes| < min then Some(reports)
            else if causes == [] then None
            else Some(reports + [Report(causes, n)])
  {
    hide Recent, Window, Pruned;
    LookBack(rows, recent, Start(reports), n + 1, gap, cutoff, rows[n].time.value);
  }

  method RunKey(rows: seq<Row>, gap: nat, min: int) returns (r: Option<seq<Report>>)
    requires TimeOrdered(rows)
    ensures r == Reports(rows, |rows|, gap, min)
  {
    hide Recent, Window, Pruned, TimeOrdered, Reports;
    var recent: seq<nat> := [];
    var reports: seq<Report> := [];
    ghost var cutoff: Option<int> := None;
    NothingRecent(rows, gap);
    NoReports(rows, gap, min);
    for n := 0 to |rows|
      invariant Reports(rows, n, gap, min) == Some(reports)
      invariant Recent(rows, recent, Start(reports), n, gap, cutoff)
    {
      InRange(rows, recent, Start(reports), n, gap, cutoff);
      if rows[n].time.None? {
        SkipRow(rows, recent, Start(reports), n, gap, cutoff);
        UnreadableRow(rows, n, gap, min);
      } else {
        var now := rows[n].time.value;
        if rows[n].isA {
          AddCause(rows, recent, Start(reports), n, gap, cutoff);
          recent := Pruned(rows, recent + [n], now - gap);
          cutoff := Some(now - gap);
        } else {
          SkipRow(rows, recent, Start(reports), n, gap, cutoff);
        }
        EffectRow(rows, reports, recent, n, gap, min, cutoff);
        if rows[n].isB && recent != [] {
          var causes := Pruned(rows, recent, now - gap);
          if |causes| >= min {
            if causes == [] {
              FailureStays(rows, n + 1, |rows|, gap, min);
              return None;
            }
            Forget(rows, recent, Start(reports), n + 1, gap, cutoff);
            reports := reports + [Report(causes, n)];
            recent := [];
          }
        }
      }
    }
    r := Some(reports);
  }

  lemma UnreadableRow(rows: seq<Row>, n: nat, gap: nat, min: int)
    requires n < |rows| && rows[n].time.None?
    ensures Reports(rows, n + 1, gap, min) == Reports(rows, n, gap, min)
  {
  }

  // ---- What a run reports --------------------------------------------------------

  /** A row counts as a cause for the effect: an A row no more than the gap before it. */
  ghost predicate IsCause(rows: seq<Row>, i: nat, effect: nat, gap: nat)
    requires effect < |rows| && rows[effect].time.Some?
  {
    i <= effect && rows[i].isA && rows[i].time.Some? && rows[effect].time.value - rows[i].time.value <= gap
  }

  ghost predicate StrictlyIncreasing(s: seq<nat>) {
    forall i, j | 0 <= i < j < |s| :: s[i] < s[j]
  }

  ghost predicate ReportOk(rows: seq<Row>, r: Report, from: nat, gap: nat, min: int) {
    && r.effect < |rows| && rows[r.effect].isB && rows[r.effect].time.Some?
    && |r.causes| >= min && r.causes != [] && StrictlyIncreasing(r.causes)
    && forall i: nat :: i in r.causes <==> from <= i && IsCause(rows, i, r.effect, gap)
  }

  /** Each report lists exactly the causes since the report before it. */
  ghost predicate AllReportsOk(rows: seq<Row>, reports: seq<Report>, gap: nat, min: int) {
    forall k | 0 <= k < |reports| :: ReportOk(rows, reports[k], Start(reports[..k]), gap, min)
  }

  lemma {:induction false} WindowIs(rows: seq<Row>, from: nat, until: nat, cutoff: Option<int>)
    requires until <= |rows|
    ensures forall i: nat ::
              i in Window(rows, from, until, cutoff) <==> from <= i < until && rows[i].isA && Since(rows[i], cutoff)
    decreases until
  {
    if from < until {
      WindowIs(rows, from, until - 1, cutoff);
    }
  }

  lemma {:induction false} ReportsAreExact(rows: seq<Row>, n: nat, gap: nat, min: int)
    requires n <= |rows| && Reports(rows, n, gap, min).Some?
    ensures AllReportsOk(rows, Reports(rows, n, gap, min).value, gap, min)
    ensures Start(Reports(rows, n, gap, min).value) <= n
    decreases n
  {
    hide Window, ReportOk, Reports, AllReportsOk;
    if n > 0 {
      ReportsLast(rows, n, gap, min);
      ReportsAreExact(rows, n - 1, gap, min);
      var before := Reports(rows, n - 1, gap, min).value;
      var after := Reports(rows, n, gap, min).value;
      if after != before {
        var causes := Window(rows, Start(before), n, Some(rows[n - 1].time.value - gap));
        NewReportOk(rows, Start(before), n - 1, gap, min, causes);
        OneMoreReport(rows, before, Report(causes, n - 1), gap, min);
      }
    } else {
      NoReports(rows, gap, min);
    }
  }

  lemma NoReports(rows: seq<Row>, gap: nat, min: int)
    ensures Reports(rows, 0, gap, min) == Some([]) && AllReportsOk(rows, [], gap, min)
  {
  }

  /** One row later: the same reports, or one more with the whole window as its causes. */
  lemma ReportsLast(rows: seq<Row>, n: nat, gap: nat, min: int)
    requires 0 < n <= |rows| && Reports(rows, n, gap, min).Some?
    ensures Reports(rows, n - 1, gap, min).Some?
    ensures Reports(rows, n, gap, min) != Reports(rows, n - 1, gap, min) ==>
              rows[n - 1].isB && rows[n - 1].time.Some?
    ensures Reports(rows, n, gap, min) != Reports(rows, n - 1, gap, min) ==>
              var before := Reports(rows, n - 1, gap, min).value;
              var causes := Window(rows, Start(before), n, Some(rows[n - 1].time.value - gap));
              causes != [] && |causes| >= min
              && Reports(rows, n, gap, min) == Some(before + [Report(causes, n - 1)])
  {
    hide Window;
  }

  lemma NewReportOk(rows: seq<Row>, from: nat, effect: nat, gap: nat, min: int, causes: seq<nat>)
    requires effect < |rows| && rows[effect].isB && rows[effect].time.Some?
    requires causes == Window(rows, from, effect + 1, Some(rows[effect].time.value - gap))
    requires |causes| >= min && causes != []
    ensures ReportOk(rows, Report(causes, effect), from, gap, min)
  {
    WindowIs(rows, from, effect + 1, Some(rows[effect].time.value - gap));
    WindowInRange(rows, from, effect + 1, Some(rows[effect].time.value - gap));
  }

  lemma OneMoreReport(rows: seq<Row>, reports: seq<Report>, r: Report, gap: nat, min: int)
    requires AllReportsOk(rows, reports, gap, min) && ReportOk(rows, r, Start(reports), gap, min)
    ensures AllReportsOk(rows, reports + [r], gap, min)
  {
    hide ReportOk;
    var more := reports + [r];
    forall k | 0 <= k < |more|
      ensures ReportOk(rows, more[k], Start(more[..k]), gap, min)
    {
      assert more[..k] == reports[..k];
      assert reports[..|reports|] == reports;
    }
  }

  /** No row is a cause in two reports, and no effect is a cause later. */
  lemma CausesAreNotShared(rows: seq<Row>, gap: nat, min: int, i: nat, j: nat)
    requires Reports(rows, |rows|, gap, min).Some?
    requires i < j < |Reports(rows, |rows|, gap, min).value|
    ensures var r := Reports(rows, |rows|, gap, min).value;
            (forall c | c in r[j].causes :: c !in r[i].causes && c != r[i].effect)
  {
    hide Reports;
    ReportsAreExact(rows, |rows|, gap, min);
    var r := Reports(rows, |rows|, gap, min).value;
    EffectsIncrease(rows, r, gap, min, i, j);
    assert r[..j][j - 1] == r[j - 1];
  }

  lemma {:induction false} EffectsIncrease(rows: seq<Row>, r: seq<Report>, gap: nat, min: int, i: nat, j: nat)
    requires AllReportsOk(rows, r, gap, min) && i < j < |r|
    ensures r[i].effect <= r[j - 1].effect < r[j].effect
    decreases j
  {
    assert ReportOk(rows, r[j], Start(r[..j]), gap, min);
    assert Start(r[..j]) == r[j - 1].effect + 1 by {
      assert r[..j][j - 1] == r[j - 1];
    }
    assert r[j].causes[0] in r[j].causes;
    if i < j - 1 {
      EffectsIncrease(rows, r, gap, min, i, j - 1);
    }
  }

  /** A B row that is not reported saw fewer than the required causes since the last report. */
  lemma SilentEffects(rows: seq<Row>, n: nat, gap: nat, min: int)
    requires n < |rows| && min >= 1 && rows[n].isB && rows[n].time.Some?
    requires Reports(rows, n, gap, min).Some?
    ensures var before := Reports(rows, n, gap, min).value;
            Reports(rows, n + 1, gap, min) == Some(before)
            <==> |Window(rows, Start(before), n + 1, Some(rows[n].time.value - gap))| < min
  {
    hide Window;
    var before := Reports(rows, n, gap, min).value;
    if Window(rows, Start(before), n + 1, Some(rows[n].time.value - gap)) != [] {
      SomeInWider(rows, Start(before), n + 1, Some(rows[n].time.value - gap));
    }
  }

  /** With a positive minimum a run never fails. */
  lemma {:induction false} PositiveMinimumSucceeds(rows: seq<Row>, n: nat, gap: nat, min: int)
    requires n <= |rows| && min >= 1
    ensures Reports(rows, n, gap, min).Some?
    decreases n
  {
    if n > 0 {
      PositiveMinimumSucceeds(rows, n - 1, gap, min);
    }
  }

  function TooOld(gap: nat): seq<Row> {
    [Row(1, "k", Some(0), true, false), Row(2, "k", Some(gap + 1), false, true)]
  }

  /** Without a positive minimum, an A row too old for the B row after it makes the run fail:
      the empty window passes the count and then has no first row. */
  lemma TooOldFails(gap: nat, min: int)
    requires min <= 0
    ensures TimeOrdered(TooOld(gap)) && Reports(TooOld(gap), 2, gap, min) == None
  {
    var rows := TooOld(gap);
    assert Reports(rows, 1, gap, min) == Some([]);
    assert Window(rows, 0, 1, None) == [0];
    assert Window(rows, 0, 1, Some(1)) == [];
  }

  /** Runs are safe from that failure exactly when the minimum is positive. */
  lemma NeverFailsIff(gap: nat, min: int)
    ensures (forall rows | TimeOrdered(rows) :: Reports(rows, |rows|, gap, min).Some?) <==> min >= 1
  {
    hide Reports;
    if min >= 1 {
      forall rows | TimeOrdered(rows)
        ensures Reports(rows, |rows|, gap, min).Some?
      {
        PositiveMinimumSucceeds(rows, |rows|, gap, min);
      }
    } else {
      TooOldFails(gap, min);
      assert |TooOld(gap)| == 2;
    }
  }

  // ---- All keys -------------------------------------------------------------------

  predicate Relevant(row: Row) { (row.isA || row.isB) && row.key != "" }

  /** The relevant rows of a key, in order. */
  function OfKey(rows: seq<Row>, key: string): seq<Row> {
    if rows == [] then []
    else OfKey(rows[..|rows| - 1], key)
         + if Relevant(rows[|rows| - 1]) && rows[|rows| - 1].key == key then [rows[|rows| - 1]] else []
  }

  /** `span` is the time from the first cause to the effect. */
  datatype Finding = Finding(key: string, logIds: seq<nat>, count: nat, span: int)

  function IdsAt(rows: seq<Row>, positions: seq<nat>): seq<nat>
    requires forall k | 0 <= k < |positions| :: positions[k] < |rows|
  {
    seq(|positions|, k requires 0 <= k < |positions| => rows[positions[k]].id)
  }

  function FindingOf(key: string, rows: seq<Row>, r: Report): Finding
    requires InRows(rows, r)
  {
    Finding(key, IdsAt(rows, r.causes) + [rows[r.effect].id], |r.causes|, SpanOf(rows, r))
  }

  function SpanOf(rows: seq<Row>, r: Report): int
    requires InRows(rows, r)
  {
    if r.causes != [] && rows[r.causes[0]].time.Some? && rows[r.effect].time.Some?
    then rows[r.effect].time.value - rows[r.causes[0]].time.value
    else 0
  }

  /** The first cause lies no farther back than the gap. */
  lemma SpansAreWithinGap(rows: seq<Row>, gap: nat, min: int, k: nat)
    requires TimeOrdered(rows) && Reports(rows, |rows|, gap, min).Some?
    requires k < |Reports(rows, |rows|, gap, min).value|
    ensures var r := Reports(rows, |rows|, gap, min).value[k];
            InRows(rows, r) && 0 <= SpanOf(rows, r) <= gap
  {
    hide Reports;
    ReportsAreExact(rows, |rows|, gap, min);
    ReportsInPositions(rows, gap, min);
    var reports := Reports(rows, |rows|, gap, min).value;
    var r := reports[k];
    assert ReportOk(rows, r, Start(reports[..k]), gap, min);
    assert r.causes[0] in r.causes;
  }

  ghost predicate InRows(rows: seq<Row>, r: Report) {
    r.effect < |rows| && forall k | 0 <= k < |r.causes| :: r.causes[k] < |rows|
  }

  ghost predicate InPositions(rows: seq<Row>, reports: seq<Report>) {
    forall m | 0 <= m < |reports| :: InRows(rows, reports[m])
  }

  function Findings(key: string, rows: seq<Row>, reports: seq<Report>): seq<Finding>
    requires InPositions(rows, reports)
  {
    if reports == [] then []
    else Findings(key, rows, reports[..|reports| - 1]) + [FindingOf(key, rows, reports[|reports| - 1])]
  }

  /** A finding lists the ids of its causes and then of its effect, counts the causes, and gives the
      time from the first of them to the effect. */
  lemma {:induction false} FindingsTell(key: string, rows: seq<Row>, reports: seq<Report>, k: nat)
    requires InPositions(rows, reports) && k < |reports|
    ensures |Findings(key, rows, reports)| == |reports|
    ensures var f, r := Findings(key, rows, reports)[k], reports[k];
            && f.key == key && f.count == |r.causes| && |f.logIds| == |r.causes| + 1
            && (forall j | 0 <= j < |r.causes| :: f.logIds[j] == rows[r.causes[j]].id)
            && f.logIds[|r.causes|] == rows[r.effect].id
            && (r.causes != [] && rows[r.causes[0]].time.Some? && rows[r.effect].time.Some? ==>
                  rows[r.causes[0]].time.value + f.span == rows[r.effect].time.value)
    decreases |reports|
  {
    FindingsCount(key, rows, reports[..|reports| - 1]);
    if k < |reports| - 1 {
      FindingsTell(key, rows, reports[..|reports| - 1], k);
    }
  }

  lemma {:induction false} FindingsCount(key: string, rows: seq<Row>, reports: seq<Report>)
    requires InPositions(rows, reports)
    ensures |Findings(key, rows, reports)| == |reports|
    decreases |reports|
  {
    if reports != [] {
      FindingsCount(key, rows, reports[..|reports| - 1]);
    }
  }

  lemma ReportsInPositions(rows: seq<Row>, gap: nat, min: int)
    requires Reports(rows, |rows|, gap, min).Some?
    ensures InPositions(rows, Reports(rows, |rows|, gap, min).value)
  {
    hide Reports;
    ReportsAreExact(rows, |rows|, gap, min);
    var r := Reports(rows, |rows|, gap, min).value;
    forall m | 0 <= m < |r|
      ensures InRows(rows, r[m])
    {
      assert ReportOk(rows, r[m], Start(r[..m]), gap, min);
      assert forall k | 0 <= k < |r[m].causes| :: r[m].causes[k] in r[m].causes;
    }
  }

  /** The keys of the relevant rows in order of first appearance. */
  function Keys(rows: seq<Row>): (keys: seq<string>)
    ensures forall key :: key in keys <==> OfKey(rows, key) != []
    ensures forall i, j | 0 <= i < j < |keys| :: keys[i] != keys[j]
  {
    if rows == [] then []
    else
      var front, last := Keys(rows[..|rows| - 1]), rows[|rows| - 1];
      if Relevant(last) && last.key !in front then front + [last.key] else front
  }

  /** The reports of the keys one after another, each key judged on its own rows alone. */
  function AllFindings(rows: seq<Row>, keys: seq<string>, gap: nat, min: int): Option<seq<Finding>> {
    if keys == [] then Some([])
    else
      var key := keys[|keys| - 1];
      var before := AllFindings(rows, keys[..|keys| - 1], gap, min);
      var mine := OfKey(rows, key);
      var reports := Reports(mine, |mine|, gap, min);
      if before.None? || reports.None? then None
      else
        ReportsInPositions(mine, gap, min);
        Some(before.value + Findings(key, mine, reports.value))
  }

  lemma NoRowsOfKey(key: string)
    ensures OfKey([], key) == []
  {
  }

  lemma OfKeyLast(rows: seq<Row>, key: string)
    requires rows != []
    ensures var front, last := OfKey(rows[..|rows| - 1], key), rows[|rows| - 1];
            OfKey(rows, key) == if Relevant(last) && last.key == key then front + [last] else front
  {
  }

  /** A key is judged on its A rows and B rows, and rows without a key are left out. */
  lemma {:induction false} RowsOfKey(rows: seq<Row>, key: string, r: Row)
    ensures multiset(OfKey(rows, key))[r]
            == if r.key == key && key != "" && (r.isA || r.isB) then multiset(rows)[r] else 0
    decreases |rows|
  {
    if rows != [] {
      var front, last := rows[..|rows| - 1], rows[|rows| - 1];
      hide OfKey;
      RowsOfKey(front, key, r);
      OfKeyLast(rows, key);
      assert rows == front + [last];
    } else {
      NoRowsOfKey(key);
    }
  }

  lemma {:induction false} OfKeyOrdered(rows: seq<Row>, key: string)
    requires TimeOrdered(rows)
    ensures TimeOrdered(OfKey(rows, key))
    ensures forall r | r in OfKey(rows, key) :: r in rows
    decreases |rows|
  {
    if rows != [] {
      var front, last := rows[..|rows| - 1], rows[|rows| - 1];
      OfKeyOrdered(front, key);
      forall r | r in front && r.time.Some? && last.time.Some?
        ensures r.time.value <= last.time.value
      {
        var i :| 0 <= i < |front| && front[i] == r;
        assert rows[i] == r;
      }
      assert rows == front + [last];
    }
  }

  /** The stable sort by falling count, one finding at a time. */
  function InsertByCount(sorted: seq<Finding>, f: Finding): seq<Finding> {
    if sorted == [] || sorted[|sorted| - 1].count >= f.count then sorted + [f]
    else InsertByCount(sorted[..|sorted| - 1], f) + [sorted[|sorted| - 1]]
  }

  function ByCount(findings: seq<Finding>): seq<Finding> {
    if findings == [] then []
    else InsertByCount(ByCount(findings[..|findings| - 1]), findings[|findings| - 1])
  }

  ghost predicate Falling(findings: seq<Finding>) {
    forall i, j | 0 <= i < j < |findings| :: findings[i].count >= findings[j].count
  }

  lemma {:induction false} InsertAdds(sorted: seq<Finding>, f: Finding)
    ensures multiset(InsertByCount(sorted, f)) == multiset(sorted) + multiset{f}
    ensures forall x | x in InsertByCount(sorted, f) :: x == f || x in sorted
    decreases |sorted|
  {
    if sorted != [] && sorted[|sorted| - 1].count < f.count {
      assert sorted == sorted[..|sorted| - 1] + [sorted[|sorted| - 1]];
      InsertAdds(sorted[..|sorted| - 1], f);
    }
  }

  lemma FallsOn(findings: seq<Finding>, last: Finding)
    requires Falling(findings) && forall x | x in findings :: x.count >= last.count
    ensures Falling(findings + [last])
  {
  }

  lemma FallingEnds(findings: seq<Finding>)
    requires Falling(findings) && findings != []
    ensures Falling(findings[..|findings| - 1])
    ensures forall x | x in findings :: x.count >= findings[|findings| - 1].count
  {
  }

  lemma {:induction false} InsertFalls(sorted: seq<Finding>, f: Finding)
    requires Falling(sorted)
    ensures Falling(InsertByCount(sorted, f))
    ensures multiset(InsertByCount(sorted, f)) == multiset(sorted) + multiset{f}
    decreases |sorted|
  {
    hide Falling;
    InsertAdds(sorted, f);
    if sorted != [] {
      FallingEnds(sorted);
      var front, last := sorted[..|sorted| - 1], sorted[|sorted| - 1];
      assert sorted == front + [last];
      if last.count < f.count {
        InsertFalls(front, f);
        InsertAdds(front, f);
        FallsOn(InsertByCount(front, f), last);
      } else {
        FallsOn(sorted, f);
      }
    } else {
      OneFalls(f);
    }
  }

  lemma OneFalls(f: Finding)
    ensures Falling([]) && Falling([] + [f])
  {
  }

  /** The sorted findings are the findings, the largest counts first. */
  lemma {:induction false} SortingFalls(findings: seq<Finding>)
    ensures Falling(ByCount(findings)) && multiset(ByCount(findings)) == multiset(findings)
    decreases |findings|
  {
    if findings != [] {
      var front, last := findings[..|findings| - 1], findings[|findings| - 1];
      assert findings == front + [last];
      SortingFalls(front);
      InsertFalls(ByCount(front), last);
    }
  }

  /** The whole correlation: the findings of all keys, sorted. */
  method RunSequence(rows: seq<Row>, gap: nat, min: int) returns (r: Option<seq<Finding>>)
    requires TimeOrdered(rows)
    ensures r.Some? <==> AllFindings(rows, Keys(rows), gap, min).Some?
    ensures r.Some? ==> r.value == ByCount(AllFindings(rows, Keys(rows), gap, min).value)
  {
    var keys, byKey := GroupByKey(rows);
    hide Reports, OfKey, Keys, Findings, TimeOrdered, ByCount;
    var findings: seq<Finding> := [];
    for k := 0 to |keys|
      invariant AllFindings(rows, keys[..k], gap, min) == Some(findings)
    {
      var mine := byKey[keys[k]];
      OfKeyOrdered(rows, keys[k]);
      assert keys[..k + 1][..k] == keys[..k];
      var reports := RunKey(mine, gap, min);
      if reports.None? {
        FailureStaysOverKeys(rows, keys, k + 1, gap, min);
        return None;
      }
      ReportsInPositions(mine, gap, min);
      findings := findings + Findings(keys[k], mine, reports.value);
    }
    assert keys[..|keys|] == keys;
    r := Some(ByCount(findings));
  }

  lemma {:induction false} FailureStaysOverKeys(rows: seq<Row>, keys: seq<string>, k: nat, gap: nat, min: int)
    requires k <= |keys| && AllFindings(rows, keys[..k], gap, min).None?
    ensures AllFindings(rows, keys, gap, min).None?
    decreases |keys| - k
  {
    hide Reports, OfKey, Findings;
    if k < |keys| {
      assert keys[..k + 1][..k] == keys[..k];
      FailureStaysOverKeys(rows, keys, k + 1, gap, min);
    } else {
      assert keys[..k] == keys;
    }
  }

  method GroupByKey(rows: seq<Row>) returns (keys: seq<string>, byKey: map<string, seq<Row>>)
    ensures keys == Keys(rows)
    ensures forall key :: key in byKey <==> key in keys
    ensures forall key | key in byKey :: byKey[key] == OfKey(rows, key)
  {
    keys, byKey := [], map[];
    for n := 0 to |rows|
      invariant keys == Keys(rows[..n])
      invariant forall key :: key in byKey <==> key in keys
      invariant forall key | key in byKey :: byKey[key] == OfKey(rows[..n], key)
    {
      assert rows[..n + 1][..n] == rows[..n];
      var row := rows[n];
      if Relevant(row) {
        if row.key !in keys {
          keys := keys + [row.key];
        }
        byKey := byKey[row.key := (if row.key in byKey then byKey[row.key] else []) + [row]];
      }
    }
    assert rows[..|rows|] == rows;
  }
}
