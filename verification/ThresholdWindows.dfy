/**
 What the deques of `ThresholdRules` mean: a rule fires at a hit exactly when the hits
 since the last fire that lie in the window number the threshold.
 */
module ThresholdWindows {
  import opened Options
  import opened ThresholdRules

  /** The hits not before the cutoff. */
  function Recent(hits: seq<Hit>, cutoff: int): seq<Hit> {
    if hits == [] then []
    else
      var n := |hits| - 1;
      Recent(hits[..n], cutoff) + if hits[n].time >= cutoff then [hits[n]] else []
  }

  /** The first hit that no fire before the `i`-th hit has used up. */
  function Start(hits: seq<Hit>, i: nat, r: Rule): (s: nat)
    requires i <= |hits|
    ensures s <= i
    decreases i, 0
  {
    if i == 0 then 0 else if Fires(hits, i - 1, r) then i else Start(hits, i - 1, r)
  }

  /** The unused hits, up to the `i`-th, within the window that ends at it. */
  function Window(hits: seq<Hit>, i: nat, r: Rule): seq<Hit>
    requires i < |hits|
    decreases i, 1
  {
    Recent(hits[Start(hits, i, r)..i + 1], hits[i].time - r.window)
  }

  predicate Fires(hits: seq<Hit>, i: nat, r: Rule)
    requires i < |hits|
    decreases i, 2
  {
    |Window(hits, i, r)| == r.threshold
  }

  ghost predicate Ordered(hits: seq<Hit>) {
    forall i, j | 0 <= i < j < |hits| :: hits[i].time <= hits[j].time
  }

  // ---- Popping from the left is filtering --------------------------------

  lemma {:induction false} RecentAll(hits: seq<Hit>, cutoff: int)
    requires forall i | 0 <= i < |hits| :: hits[i].time >= cutoff
    ensures Recent(hits, cutoff) == hits
    decreases |hits|
  {
    if hits != [] {
      RecentAll(hits[..|hits| - 1], cutoff);
    }
  }

  lemma {:induction false} RecentTail(hits: seq<Hit>, cutoff: int)
    requires hits != [] && hits[0].time < cutoff
    ensures Recent(hits, cutoff) == Recent(hits[1..], cutoff)
    decreases |hits|
  {
    var n := |hits| - 1;
    if n > 0 {
      RecentTail(hits[..n], cutoff);
      assert hits[..n][1..] == hits[1..][..n - 1];
    }
  }

  lemma {:induction false} PoppingIsFiltering(hits: seq<Hit>, cutoff: int)
    requires Ordered(hits)
    ensures DropOld(hits, cutoff) == Recent(hits, cutoff)
    decreases |hits|
  {
    if hits == [] {
    } else if hits[0].time >= cutoff {
      RecentAll(hits, cutoff);
    } else {
      RecentTail(hits, cutoff);
      PoppingIsFiltering(hits[1..], cutoff);
    }
  }

  /** Popping early and again later is popping once, later. */
  lemma {:induction false} PoppingTwice(hits: seq<Hit>, h: Hit, early: int, late: int)
    requires early <= late
    ensures DropOld(DropOld(hits, early) + [h], late) == DropOld(hits + [h], late)
    decreases |hits|
  {
    if hits != [] && hits[0].time < early {
      assert (hits + [h])[1..] == hits[1..] + [h];
      PoppingTwice(hits[1..], h, early, late);
    }
  }

  // ---- The deque before and at the i-th hit ------------------------------

  function Cutoff(hits: seq<Hit>, i: nat, r: Rule): int
    requires i < |hits|
  {
    hits[i].time - r.window
  }

  /** The window at a hit, from the deque left behind by the previous one. */
  lemma NextWindow(hits: seq<Hit>, s: nat, i: nat, r: Rule)
    requires Ordered(hits) && s <= i < |hits|
    ensures var kept := if i == 0 then [] else Recent(hits[s..i], Cutoff(hits, i - 1, r));
            DropOld(kept + [hits[i]], Cutoff(hits, i, r)) == Recent(hits[s..i + 1], Cutoff(hits, i, r))
  {
    assert hits[s..i] + [hits[i]] == hits[s..i + 1];
    PoppingIsFiltering(hits[s..i + 1], Cutoff(hits, i, r));
    if i > 0 {
      PoppingIsFiltering(hits[s..i], Cutoff(hits, i - 1, r));
      PoppingTwice(hits[s..i], hits[i], Cutoff(hits, i - 1, r), Cutoff(hits, i, r));
    }
  }

  lemma DropOldShrinks(hits: seq<Hit>, cutoff: int)
    ensures |DropOld(hits, cutoff)| <= |hits|
  {
  }

  /** What the deque should hold before the `i`-th hit: the unused hits of the window that
      ended at the hit before it. */
  function Kept(hits: seq<Hit>, i: nat, r: Rule): seq<Hit>
    requires i <= |hits|
  {
    if i == 0 then [] else Recent(hits[Start(hits, i, r)..i], Cutoff(hits, i - 1, r))
  }

  lemma KeptNext(hits: seq<Hit>, i: nat, r: Rule)
    requires i < |hits|
    ensures Kept(hits, i + 1, r) == if Fires(hits, i, r) then [] else Window(hits, i, r)
  {
    hide Window;
    assert hits[i + 1..i + 1] == [];
    assert Window(hits, i, r) == Recent(hits[Start(hits, i, r)..i + 1], Cutoff(hits, i, r)) by {
      WindowUnfolds(hits, i, r);
    }
  }

  lemma WindowUnfolds(hits: seq<Hit>, i: nat, r: Rule)
    requires i < |hits|
    ensures Window(hits, i, r) == Recent(hits[Start(hits, i, r)..i + 1], Cutoff(hits, i, r))
  {
  }

  /** A hit against the kept deque: its window is the declarative one, and it fires when
      the window reaches the threshold, never beyond it. */
  lemma ObserveKept(hits: seq<Hit>, i: nat, r: Rule)
    requires Ordered(hits) && i < |hits| && |Kept(hits, i, r)| < r.threshold
    ensures if Fires(hits, i, r) then |Window(hits, i, r)| == r.threshold else |Window(hits, i, r)| < r.threshold
    ensures Observe(Kept(hits, i, r), hits[i], r) ==
            if Fires(hits, i, r) then ([], Some(Window(hits, i, r))) else (Window(hits, i, r), None)
  {
    hide DropOld, Recent, Ordered, Window, Start;
    NextWindow(hits, Start(hits, i, r), i, r);
    WindowUnfolds(hits, i, r);
    DropOldShrinks(Kept(hits, i, r) + [hits[i]], Cutoff(hits, i, r));
  }

  lemma RunOfNothing(hits: seq<Hit>, r: Rule)
    ensures RunKey(hits[..0], r) == ([], []) && Kept(hits, 0, r) == []
  {
  }

  /** The fired windows among the first `n` hits, in order. */
  function Fired(hits: seq<Hit>, n: nat, r: Rule): seq<seq<Hit>>
    requires n <= |hits|
  {
    if n == 0 then []
    else Fired(hits, n - 1, r) + if Fires(hits, n - 1, r) then [Window(hits, n - 1, r)] else []
  }

  /** Exact window semantics of one key: the deque, and the alerts, after any number of
      hits are those of the declarative reading, and the deque stays below the threshold. */
  lemma {:induction false} RunMeaning(hits: seq<Hit>, n: nat, r: Rule)
    requires Ordered(hits) && r.threshold >= 1 && n <= |hits|
    ensures RunKey(hits[..n], r) == (Kept(hits, n, r), Fired(hits, n, r))
    ensures |Kept(hits, n, r)| < r.threshold
    decreases n
  {
    hide Observe, Kept, Window, Fires, RunKey;
    RunOfNothing(hits, r);
    if n > 0 {
      RunMeaning(hits, n - 1, r);
      ObserveKept(hits, n - 1, r);
      KeptNext(hits, n - 1, r);
      RunKeyAppend(hits[..n - 1], hits[n - 1], r);
      assert hits[..n] == hits[..n - 1] + [hits[n - 1]];
      assert Fired(hits, n - 1, r) + [] == Fired(hits, n - 1, r);
    }
  }

  // ---- The live rule ------------------------------------------------------

  ghost predicate NonDecreasing(events: seq<Timed>) {
    forall i, j | 0 <= i < j < |events| :: events[i].1 <= events[j].1
  }

  lemma {:induction false} HitsAreOrdered(events: seq<Timed>, key: Key, r: Rule, extractIp: string -> string)
    requires NonDecreasing(events)
    ensures Ordered(HitsOf(events, key, r, extractIp))
    ensures forall i | 0 <= i < |HitsOf(events, key, r, extractIp)| ::
              events != [] && HitsOf(events, key, r, extractIp)[i].time <= events[|events| - 1].1
    decreases |events|
  {
    if events != [] {
      var n := |events| - 1;
      HitsAreOrdered(events[..n], key, r, extractIp);
      assert n > 0 ==> events[..n][n - 1].1 <= events[n].1;
    }
  }

  /** For every stream of events with a non-decreasing clock, the alerts of every key are
      exactly the declarative ones: at each matching hit whose window of unused hits
      numbers the threshold, with exactly the ids of that window. */
  lemma LiveAlertsAreExact(events: seq<Timed>, key: Key, r: Rule, extractIp: string -> string)
    requires NonDecreasing(events) && r.threshold >= 1
    ensures var hits := HitsOf(events, key, r, extractIp);
            && AlertsOf(EvaluateAll(events, r, extractIp).alerts, key) == AllIds(Fired(hits, |hits|, r))
            && |HitsAt(EvaluateAll(events, r, extractIp).hits, key)| < r.threshold
  {
    var hits := HitsOf(events, key, r, extractIp);
    KeysAreIndependent(events, key, r, extractIp);
    HitsAreOrdered(events, key, r, extractIp);
    RunMeaning(hits, |hits|, r);
    assert hits[..|hits|] == hits;
  }

  // ---- No hit is used twice ------------------------------------------------

  lemma StartAfterFire(hits: seq<Hit>, i: nat, j: nat, r: Rule)
    requires i < j <= |hits| && Fires(hits, i, r)
    ensures Start(hits, j, r) > i
    decreases j
  {
    if i < j - 1 {
      StartAfterFire(hits, i, j - 1, r);
    }
  }

  lemma {:induction false} RecentMember(hits: seq<Hit>, cutoff: int, h: Hit)
    ensures h in Recent(hits, cutoff) <==> h.time >= cutoff && exists k :: 0 <= k < |hits| && hits[k] == h
    decreases |hits|
  {
    if hits != [] {
      var n := |hits| - 1;
      RecentMember(hits[..n], cutoff, h);
      assert forall k | 0 <= k < n :: hits[..n][k] == hits[k];
    }
  }

  /** A hit of a window lies between the last fire and the hit that ends the window. */
  lemma WindowMember(hits: seq<Hit>, i: nat, r: Rule, h: Hit)
    requires i < |hits| && h in Window(hits, i, r)
    ensures exists k :: Start(hits, i, r) <= k <= i && hits[k] == h
  {
    var s := Start(hits, i, r);
    WindowUnfolds(hits, i, r);
    RecentMember(hits[s..i + 1], Cutoff(hits, i, r), h);
    var k :| 0 <= k < |hits[s..i + 1]| && hits[s..i + 1][k] == h;
    assert hits[s + k] == h;
  }

  /** Windows that fire have no hit in common. */
  lemma NoHitInTwoWindows(hits: seq<Hit>, i: nat, j: nat, r: Rule, a: Hit, b: Hit)
    requires forall k, l | 0 <= k < l < |hits| :: hits[k].id != hits[l].id
    requires i < j < |hits| && Fires(hits, i, r) && Fires(hits, j, r)
    requires a in Window(hits, i, r) && b in Window(hits, j, r)
    ensures a.id != b.id
  {
    StartAfterFire(hits, i, j, r);
    WindowMember(hits, i, r, a);
    WindowMember(hits, j, r, b);
    hide Start, Window, Fires;
    var k :| k <= i && 0 <= k && hits[k] == a;
    var l :| i < l <= j && hits[l] == b;
  }

  // ---- No id is alerted twice, over all keys ----------------------------------

  ghost predicate DistinctEvents(events: seq<Timed>) {
    forall i, j | 0 <= i < j < |events| :: events[i].0.id != events[j].0.id
  }

  /** Some event has the id and the key. */
  ghost predicate Known(events: seq<Timed>, id: nat, key: Key, extractIp: string -> string) {
    exists i :: 0 <= i < |events| && events[i].0.id == id && KeyOf(events[i].0, extractIp) == key
  }

  ghost predicate HitsKnown(hits: seq<Hit>, events: seq<Timed>, key: Key, extractIp: string -> string) {
    forall h | h in hits :: Known(events, h.id, key, extractIp)
  }

  /** No id of the alert is still in a deque. */
  ghost predicate Spent(ids: seq<nat>, hits: map<Key, seq<Hit>>) {
    forall key, h | key in hits && h in hits[key] :: h.id !in ids
  }

  ghost predicate Disjoint(a: seq<nat>, b: seq<nat>) { forall id | id in a :: id !in b }

  ghost predicate UsedOnce(l: Live, events: seq<Timed>, extractIp: string -> string) {
    && (forall key | key in l.hits :: HitsKnown(l.hits[key], events, key, extractIp))
    && (forall i | 0 <= i < |l.alerts| ::
          (forall id | id in l.alerts[i].ids :: Known(events, id, l.alerts[i].key, extractIp))
          && Spent(l.alerts[i].ids, l.hits))
    && (forall i, j | 0 <= i < j < |l.alerts| :: Disjoint(l.alerts[i].ids, l.alerts[j].ids))
  }

  lemma KnownLater(events: seq<Timed>, e: Timed, id: nat, key: Key, extractIp: string -> string)
    requires Known(events, id, key, extractIp)
    ensures Known(events + [e], id, key, extractIp)
  {
    var i :| 0 <= i < |events| && events[i].0.id == id && KeyOf(events[i].0, extractIp) == key;
    assert (events + [e])[i] == events[i];
  }

  lemma KnownNow(events: seq<Timed>, e: Timed, extractIp: string -> string)
    ensures Known(events + [e], e.0.id, KeyOf(e.0, extractIp), extractIp)
  {
    assert (events + [e])[|events|] == e;
  }

  /** An id has one key, and the id of a new event none before it. */
  lemma OneKeyPerId(events: seq<Timed>, e: Timed, id: nat, key: Key, other: Key, extractIp: string -> string)
    requires DistinctEvents(events + [e]) && Known(events, id, key, extractIp)
    ensures id != e.0.id
    ensures Known(events, id, other, extractIp) ==> key == other
  {
    var i :| 0 <= i < |events| && events[i].0.id == id && KeyOf(events[i].0, extractIp) == key;
    assert (events + [e])[i] == events[i] && (events + [e])[|events|] == e;
    if Known(events, id, other, extractIp) {
      var j :| 0 <= j < |events| && events[j].0.id == id && KeyOf(events[j].0, extractIp) == other;
      assert (events + [e])[j] == events[j];
    }
  }

  lemma {:induction false} DropOldMembers(hits: seq<Hit>, cutoff: int)
    ensures forall h | h in DropOld(hits, cutoff) :: h in hits
    decreases |hits|
  {
    if hits != [] {
      DropOldMembers(hits[1..], cutoff);
    }
  }

  /** Hits of the window at a new event are the event's own or were in its key's deque. */
  lemma WindowIsKnown(l: Live, events: seq<Timed>, e: Timed, window: seq<Hit>, extractIp: string -> string)
    requires UsedOnce(l, events, extractIp) && DistinctEvents(events + [e])
    requires forall h | h in window :: h == Hit(e.1, e.0.id) || h in HitsAt(l.hits, KeyOf(e.0, extractIp))
    ensures HitsKnown(window, events + [e], KeyOf(e.0, extractIp), extractIp)
    ensures forall i, h | 0 <= i < |l.alerts| && h in window :: h.id !in l.alerts[i].ids
    ensures forall key, h, g | key in l.hits && key != KeyOf(e.0, extractIp) && h in l.hits[key] && g in window ::
              h.id != g.id
  {
    hide Known, DistinctEvents;
    var own := KeyOf(e.0, extractIp);
    forall g | g in window
      ensures Known(events + [e], g.id, own, extractIp)
      ensures forall i | 0 <= i < |l.alerts| :: g.id !in l.alerts[i].ids
      ensures forall key, h | key in l.hits && key != own && h in l.hits[key] :: h.id != g.id
    {
      if g in HitsAt(l.hits, own) {
        KnownLater(events, e, g.id, own, extractIp);
        forall key, h | key in l.hits && key != own && h in l.hits[key]
          ensures h.id != g.id
        {
          OneKeyPerId(events, e, h.id, key, own, extractIp);
        }
      } else {
        KnownNow(events, e, extractIp);
        forall i | 0 <= i < |l.alerts|
          ensures g.id !in l.alerts[i].ids
        {
          if g.id in l.alerts[i].ids {
            OneKeyPerId(events, e, g.id, l.alerts[i].key, own, extractIp);
          }
        }
        forall key, h | key in l.hits && key != own && h in l.hits[key]
          ensures h.id != g.id
        {
          OneKeyPerId(events, e, h.id, key, own, extractIp);
        }
      }
    }
  }

  lemma IdsOfMembers(hits: seq<Hit>)
    ensures forall id | id in IdsOf(hits) :: exists h :: h in hits && h.id == id
  {
    forall id | id in IdsOf(hits)
      ensures exists h :: h in hits && h.id == id
    {
      var i :| 0 <= i < |hits| && IdsOf(hits)[i] == id;
      assert hits[i] in hits;
    }
  }

  lemma UsedOnceLater(l: Live, events: seq<Timed>, e: Timed, extractIp: string -> string)
    requires UsedOnce(l, events, extractIp)
    ensures UsedOnce(l, events + [e], extractIp)
  {
    hide Known;
    forall key, id | Known(events, id, key, extractIp)
      ensures Known(events + [e], id, key, extractIp)
    {
      KnownLater(events, e, id, key, extractIp);
    }
  }

  /** The window becomes the deque. */
  lemma KeepWindow(l: Live, events: seq<Timed>, key: Key, window: seq<Hit>, extractIp: string -> string)
    requires UsedOnce(l, events, extractIp) && HitsKnown(window, events, key, extractIp)
    requires forall i, h | 0 <= i < |l.alerts| && h in window :: h.id !in l.alerts[i].ids
    ensures UsedOnce(Live(l.hits[key := window], l.alerts), events, extractIp)
  {
    hide Known;
  }

  /** The window becomes an alert. */
  lemma FireWindow(l: Live, events: seq<Timed>, key: Key, window: seq<Hit>, extractIp: string -> string)
    requires UsedOnce(l, events, extractIp) && HitsKnown(window, events, key, extractIp)
    requires forall i, h | 0 <= i < |l.alerts| && h in window :: h.id !in l.alerts[i].ids
    requires forall k, h, g | k in l.hits && k != key && h in l.hits[k] && g in window :: h.id != g.id
    ensures UsedOnce(Live(l.hits[key := []], l.alerts + [Alert(key, IdsOf(window))]), events, extractIp)
  {
    hide Known, IdsOf;
    IdsOfMembers(window);
  }

  lemma EvaluateUsesOnce(l: Live, events: seq<Timed>, e: Timed, r: Rule, extractIp: string -> string)
    requires UsedOnce(l, events, extractIp) && DistinctEvents(events + [e])
    ensures UsedOnce(Evaluate(l, e, r, extractIp), events + [e], extractIp)
  {
    hide UsedOnce, HitsKnown, DistinctEvents, DropOld;
    UsedOnceLater(l, events, e, extractIp);
    if r.matches(e.0.message) {
      var key := KeyOf(e.0, extractIp);
      var h := Hit(e.1, e.0.id);
      var window := DropOld(HitsAt(l.hits, key) + [h], h.time - r.window);
      DropOldMembers(HitsAt(l.hits, key) + [h], h.time - r.window);
      WindowIsKnown(l, events, e, window, extractIp);
      if |window| >= r.threshold {
        FireWindow(l, events + [e], key, window, extractIp);
      } else {
        KeepWindow(l, events + [e], key, window, extractIp);
      }
    }
  }

  lemma {:induction false} AlertsUseOnce(events: seq<Timed>, r: Rule, extractIp: string -> string)
    requires DistinctEvents(events)
    ensures UsedOnce(EvaluateAll(events, r, extractIp), events, extractIp)
    decreases |events|
  {
    if events != [] {
      var front, last := events[..|events| - 1], events[|events| - 1];
      assert events == front + [last];
      AlertsUseOnce(front, r, extractIp);
      EvaluateUsesOnce(EvaluateAll(front, r, extractIp), front, last, r, extractIp);
      hide UsedOnce, Evaluate;
    }
  }

  /** No log id appears in two alerts of a rule, whatever their keys and whatever the clock. */
  lemma NoIdInTwoAlerts(events: seq<Timed>, r: Rule, extractIp: string -> string, i: nat, j: nat)
    requires DistinctEvents(events) && i < j < |EvaluateAll(events, r, extractIp).alerts|
    ensures var alerts := EvaluateAll(events, r, extractIp).alerts;
            forall id | id in alerts[i].ids :: id !in alerts[j].ids
  {
    hide EvaluateAll, DistinctEvents;
    AlertsUseOnce(events, r, extractIp);
  }
}
