/**
 The read-only replay of threshold rules over stored events (rules.py,
 `replay_threshold_rules`), and its agreement with the live rule.
 */
module ThresholdReplay {
  import opened Options
  import opened ThresholdRules
  import opened ThresholdWindows

  /** A stored row; `time` is None when its timestamp cannot be parsed. */
  datatype Row = Row(event: Event, time: Option<int>)

  datatype Stat = Stat(matches: nat, peak: nat, fires: nat, last: int)

  datatype Tally = Tally(hits: map<Key, seq<int>>, stats: map<Key, Stat>)

  function DropOldTimes(times: seq<int>, cutoff: int): seq<int> {
    if times == [] || times[0] >= cutoff then times else DropOldTimes(times[1..], cutoff)
  }

  function TimesAt(hits: map<Key, seq<int>>, key: Key): seq<int> {
    if key in hits then hits[key] else []
  }

  function StatAt(stats: map<Key, Stat>, key: Key): Stat {
    if key in stats then stats[key] else Stat(0, 0, 0, 0)
  }

  function Max(a: nat, b: nat): nat { if a < b then b else a }

  /** A matching row of one key: its deque and its statistics. */
  function Tick(times: seq<int>, stat: Stat, time: int, r: Rule): (seq<int>, Stat) {
    var window := DropOldTimes(times + [time], time - r.window);
    var fires := |window| >= r.threshold;
    (if fires then [] else window,
     Stat(stat.matches + 1, Max(stat.peak, |window|), if fires then stat.fires + 1 else stat.fires, time))
  }

  function Count(t: Tally, row: Row, r: Rule, extractIp: string -> string): Tally {
    if row.time == None || !r.matches(row.event.message) then t
    else
      var key := KeyOf(row.event, extractIp);
      var (times, stat) := Tick(TimesAt(t.hits, key), StatAt(t.stats, key), row.time.value, r);
      Tally(t.hits[key := times], t.stats[key := stat])
  }

  function CountAll(rows: seq<Row>, r: Rule, extractIp: string -> string): Tally
    decreases |rows|
  {
    if rows == [] then Tally(map[], map[])
    else Count(CountAll(rows[..|rows| - 1], r, extractIp), rows[|rows| - 1], r, extractIp)
  }

  method PopOld(times: seq<int>, cutoff: int) returns (window: seq<int>)
    ensures window == DropOldTimes(times, cutoff)
  {
    window := times;
    while window != [] && window[0] < cutoff
      invariant DropOldTimes(window, cutoff) == DropOldTimes(times, cutoff)
      decreases |window|
    {
      window := window[1..];
    }
  }

  /** Replay every rule over the rows, oldest first; rows without a readable time are
      skipped, and the rules do not influence each other. */
  method ReplayThresholdRules(rows: seq<Row>, rules: seq<Rule>, extractIp: string -> string)
    returns (tallies: seq<Tally>)
    ensures |tallies| == |rules|
    ensures forall k | 0 <= k < |rules| :: tallies[k] == CountAll(rows, rules[k], extractIp)
  {
    tallies := seq(|rules|, k => Tally(map[], map[]));
    var i := 0;
    while i < |rows|
      invariant i <= |rows| && |tallies| == |rules|
      invariant forall k | 0 <= k < |rules| :: tallies[k] == CountAll(rows[..i], rules[k], extractIp)
    {
      assert rows[..i + 1][..i] == rows[..i];
      var row := rows[i];
      if row.time.Some? {
        tallies := ReplayRow(tallies, row, rules, extractIp);
      }
      i := i + 1;
    }
    assert rows[..i] == rows;
  }

  method ReplayRow(before: seq<Tally>, row: Row, rules: seq<Rule>, extractIp: string -> string)
    returns (tallies: seq<Tally>)
    requires |before| == |rules| && row.time.Some?
    ensures |tallies| == |rules|
    ensures forall k | 0 <= k < |rules| :: tallies[k] == Count(before[k], row, rules[k], extractIp)
  {
    tallies := before;
    var k := 0;
    while k < |rules|
      invariant k <= |rules| && |tallies| == |rules|
      invariant forall j | 0 <= j < k :: tallies[j] == Count(before[j], row, rules[j], extractIp)
      invariant forall j | k <= j < |rules| :: tallies[j] == before[j]
    {
      if rules[k].matches(row.event.message) {
        var key, time, tally := KeyOf(row.event, extractIp), row.time.value, tallies[k];
        var window := PopOld(TimesAt(tally.hits, key) + [time], time - rules[k].window);
        var stat := StatAt(tally.stats, key);
        stat := Stat(stat.matches + 1, Max(stat.peak, |window|), stat.fires, time);
        if |window| >= rules[k].threshold {
          stat := stat.(fires := stat.fires + 1);
          window := [];
        }
        tallies := tallies[k := Tally(tally.hits[key := window], tally.stats[key := stat])];
      }
      k := k + 1;
    }
  }

  // ---- Agreement with the live rule ---------------------------------------

  /** The rows as the live rule would have seen them, with the stored time as the clock. */
  function TimedOf(rows: seq<Row>): seq<Timed> {
    if rows == [] then []
    else
      var row := rows[|rows| - 1];
      TimedOf(rows[..|rows| - 1]) + if row.time.Some? then [(row.event, row.time.value)] else []
  }

  function Times(hits: seq<Hit>): seq<int> {
    seq(|hits|, i requires 0 <= i < |hits| => hits[i].time)
  }

  lemma DropOldTimesOf(hits: seq<Hit>, cutoff: int)
    ensures DropOldTimes(Times(hits), cutoff) == Times(DropOld(hits, cutoff))
  {
    if hits != [] {
      assert Times(hits)[1..] == Times(hits[1..]);
    }
  }

  /** Deques, matches and fires of one key agree, and a key fired iff its peak got there. */
  ghost predicate Agree(times: seq<int>, stat: Stat, hits: seq<Hit>, r: Rule) {
    var (window, fired) := RunKey(hits, r);
    && times == Times(window)
    && stat.matches == |hits|
    && stat.fires == |fired|
    && (stat.fires > 0 <==> stat.peak >= r.threshold)
  }

  lemma TickAgrees(times: seq<int>, stat: Stat, hits: seq<Hit>, h: Hit, r: Rule)
    requires Agree(times, stat, hits, r)
    ensures var (times', stat') := Tick(times, stat, h.time, r);
            Agree(times', stat', hits + [h], r)
  {
    hide DropOld, DropOldTimes, RunKey;
    RunKeyAppend(hits, h, r);
    var window := RunKey(hits, r).0;
    DropOldTimesOf(window + [h], h.time - r.window);
    assert Times(window) + [h.time] == Times(window + [h]);
  }

  lemma HitsOfAppend(events: seq<Timed>, e: Timed, key: Key, r: Rule, extractIp: string -> string)
    ensures HitsOf(events + [e], key, r, extractIp) == HitsOf(events, key, r, extractIp)
            + if r.matches(e.0.message) && KeyOf(e.0, extractIp) == key then [Hit(e.1, e.0.id)] else []
  {
    assert (events + [e])[..|events|] == events;
  }

  lemma {:induction false} ReplayFollowsRun(rows: seq<Row>, key: Key, r: Rule, extractIp: string -> string)
    requires r.threshold >= 1
    ensures var t, hits := CountAll(rows, r, extractIp), HitsOf(TimedOf(rows), key, r, extractIp);
            Agree(TimesAt(t.hits, key), StatAt(t.stats, key), hits, r) && (key in t.stats <==> hits != [])
    decreases |rows|
  {
    hide Agree, Tick, HitsOf;
    if rows == [] {
      NothingAgrees(key, r, extractIp);
    } else {
      var initial, row := rows[..|rows| - 1], rows[|rows| - 1];
      ReplayFollowsRun(initial, key, r, extractIp);
      var t, events := CountAll(initial, r, extractIp), TimedOf(initial);
      var hits := HitsOf(events, key, r, extractIp);
      assert hits + [] == hits && events + [] == events;
      if row.time.Some? {
        HitsOfAppend(events, (row.event, row.time.value), key, r, extractIp);
        TickAgrees(TimesAt(t.hits, key), StatAt(t.stats, key), hits, Hit(row.time.value, row.event.id), r);
      }
    }
  }

  lemma NothingAgrees(key: Key, r: Rule, extractIp: string -> string)
    requires r.threshold >= 1
    ensures HitsOf([], key, r, extractIp) == [] && Agree([], Stat(0, 0, 0, 0), [], r)
  {
  }

  /** The replay counts for every key the fires of the live rule on the same events and
      times, knows exactly the keys that matched, and reports a peak at the threshold
      exactly for the keys that fired. */
  lemma ReplayAgreesWithLive(rows: seq<Row>, key: Key, r: Rule, extractIp: string -> string)
    requires r.threshold >= 1
    ensures var t, events := CountAll(rows, r, extractIp), TimedOf(rows);
            var live := EvaluateAll(events, r, extractIp);
            && TimesAt(t.hits, key) == Times(HitsAt(live.hits, key))
            && StatAt(t.stats, key).fires == |AlertsOf(live.alerts, key)|
            && StatAt(t.stats, key).matches == |HitsOf(events, key, r, extractIp)|
            && (key in t.stats <==> HitsOf(events, key, r, extractIp) != [])
            && (StatAt(t.stats, key).fires > 0 <==> StatAt(t.stats, key).peak >= r.threshold)
  {
    hide CountAll, EvaluateAll, HitsOf, RunKey, TimedOf, AlertsOf;
    ReplayFollowsRun(rows, key, r, extractIp);
    KeysAreIndependent(TimedOf(rows), key, r, extractIp);
  }

  // ---- The near-miss figures ------------------------------------------------

  /** The size of the largest window among the first `n` hits. */
  function Largest(hits: seq<Hit>, n: nat, r: Rule): nat
    requires n <= |hits|
  {
    if n == 0 then 0 else Max(Largest(hits, n - 1, r), |Window(hits, n - 1, r)|)
  }

  /** A window looks at earlier hits only. */
  lemma {:induction false} WindowOfPrefix(hits: seq<Hit>, n: nat, i: nat, r: Rule)
    requires i < n <= |hits|
    ensures Start(hits[..n], i, r) == Start(hits, i, r) && Window(hits[..n], i, r) == Window(hits, i, r)
    decreases i
  {
    hide Recent;
    if i > 0 {
      WindowOfPrefix(hits, n, i - 1, r);
    }
    assert hits[..n][Start(hits, i, r)..i + 1] == hits[Start(hits, i, r)..i + 1];
  }

  lemma {:induction false} LargestOfPrefix(hits: seq<Hit>, n: nat, k: nat, r: Rule)
    requires k <= n <= |hits|
    ensures Largest(hits[..n], k, r) == Largest(hits, k, r)
    decreases k
  {
    hide Window;
    if k > 0 {
      LargestOfPrefix(hits, n, k - 1, r);
      WindowOfPrefix(hits, n, k - 1, r);
    }
  }

  /** What is kept before a hit, with the hit and without the old ones, is its window. */
  lemma PoppedIsWindow(hits: seq<Hit>, n: nat, r: Rule)
    requires Ordered(hits) && r.threshold >= 1 && n < |hits|
    ensures DropOld(RunKey(hits[..n], r).0 + [hits[n]], hits[n].time - r.window) == Window(hits, n, r)
  {
    hide Window, Kept, DropOld, RunKey, Ordered;
    RunMeaning(hits, n, r);
    ObserveKept(hits, n, r);
  }

  ghost predicate Figures(stat: Stat, hits: seq<Hit>, r: Rule) {
    stat.peak == Largest(hits, |hits|, r) && (hits != [] ==> stat.last == hits[|hits| - 1].time)
  }

  lemma TickFigures(times: seq<int>, stat: Stat, hits: seq<Hit>, h: Hit, r: Rule)
    requires Ordered(hits + [h]) && r.threshold >= 1
    requires Agree(times, stat, hits, r) && Figures(stat, hits, r)
    ensures Figures(Tick(times, stat, h.time, r).1, hits + [h], r)
  {
    hide Window, DropOld, DropOldTimes, RunKey, Ordered;
    var all := hits + [h];
    assert all[..|hits|] == hits;
    LargestOfPrefix(all, |hits|, |hits|, r);
    PoppedIsWindow(all, |hits|, r);
    var kept := RunKey(hits, r).0;
    DropOldTimesOf(kept + [h], h.time - r.window);
    assert Times(kept) + [h.time] == Times(kept + [h]);
  }

  lemma NoFigures(r: Rule)
    ensures Figures(Stat(0, 0, 0, 0), [], r)
  {
  }

  lemma OrderedFront(events: seq<Timed>, e: Timed)
    requires NonDecreasing(events + [e])
    ensures NonDecreasing(events)
  {
    assert forall i | 0 <= i < |events| :: (events + [e])[i] == events[i];
  }

  /** On rows in time order the reported peak of a key is its largest window, and `last_at`
      the time of its last match. */
  lemma {:induction false} PeakIsLargestWindow(rows: seq<Row>, key: Key, r: Rule, extractIp: string -> string)
    requires r.threshold >= 1 && NonDecreasing(TimedOf(rows))
    ensures Figures(StatAt(CountAll(rows, r, extractIp).stats, key), HitsOf(TimedOf(rows), key, r, extractIp), r)
    decreases |rows|
  {
    hide Agree, Tick, HitsOf, Figures, NonDecreasing, Ordered;
    NoFigures(r);
    if rows == [] {
      NothingAgrees(key, r, extractIp);
    } else {
      var initial, row := rows[..|rows| - 1], rows[|rows| - 1];
      var t, events := CountAll(initial, r, extractIp), TimedOf(initial);
      var hits := HitsOf(events, key, r, extractIp);
      assert hits + [] == hits && events + [] == events;
      if row.time.Some? {
        OrderedFront(events, (row.event, row.time.value));
        PeakIsLargestWindow(initial, key, r, extractIp);
        HitsOfAppend(events, (row.event, row.time.value), key, r, extractIp);
        ReplayFollowsRun(initial, key, r, extractIp);
        HitsAreOrdered(TimedOf(rows), key, r, extractIp);
        if r.matches(row.event.message) && KeyOf(row.event, extractIp) == key {
          TickFigures(TimesAt(t.hits, key), StatAt(t.stats, key), hits, Hit(row.time.value, row.event.id), r);
        }
      } else {
        PeakIsLargestWindow(initial, key, r, extractIp);
      }
    }
  }
}
