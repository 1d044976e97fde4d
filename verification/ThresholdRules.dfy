/**
 The live threshold rule (rules.py, `ThresholdRule`): a sliding window of hits per key,
 and the independence of the keys.
 */
module ThresholdRules {
  import opened Options

  type Key = string

  /** A stored event; `source` is "" when the sender is unknown. */
  datatype Event = Event(id: nat, message: string, source: string)

  datatype Hit = Hit(time: int, id: nat)

  datatype Alert = Alert(key: Key, ids: seq<nat>)

  /** A rule: what its pattern matches, and its threshold and window. */
  datatype Rule = Rule(matches: string -> bool, threshold: nat, window: nat)

  /** The first address in the message, else the sender; `extractIp` yields "" for none. */
  function KeyOf(e: Event, extractIp: string -> string): Key {
    if extractIp(e.message) != "" then extractIp(e.message)
    else if e.source != "" then e.source
    else "unknown"
  }

  /** Pop from the left while the oldest hit is before the cutoff. */
  function DropOld(hits: seq<Hit>, cutoff: int): seq<Hit> {
    if hits == [] || hits[0].time >= cutoff then hits else DropOld(hits[1..], cutoff)
  }

  function IdsOf(hits: seq<Hit>): seq<nat> {
    seq(|hits|, i requires 0 <= i < |hits| => hits[i].id)
  }

  /** One matching hit: the deque afterwards, and the alert's hits if the rule fires. */
  function Observe(hits: seq<Hit>, h: Hit, r: Rule): (seq<Hit>, Option<seq<Hit>>) {
    var window := DropOld(hits + [h], h.time - r.window);
    if |window| >= r.threshold then ([], Some(window)) else (window, None)
  }

  // ---- The live rule -----------------------------------------------------

  datatype Live = Live(hits: map<Key, seq<Hit>>, alerts: seq<Alert>)

  function HitsAt(hits: map<Key, seq<Hit>>, key: Key): seq<Hit> {
    if key in hits then hits[key] else []
  }

  /** An event with the time at which it is evaluated. */
  type Timed = (Event, int)

  function Evaluate(l: Live, e: Timed, r: Rule, extractIp: string -> string): Live {
    if !r.matches(e.0.message) then l
    else
      var key := KeyOf(e.0, extractIp);
      var (window, fired) := Observe(HitsAt(l.hits, key), Hit(e.1, e.0.id), r);
      Live(l.hits[key := window],
           match fired case None => l.alerts case Some(hits) => l.alerts + [Alert(key, IdsOf(hits))])
  }

  function EvaluateAll(events: seq<Timed>, r: Rule, extractIp: string -> string): Live
    decreases |events|
  {
    if events == [] then Live(map[], [])
    else Evaluate(EvaluateAll(events[..|events| - 1], r, extractIp), events[|events| - 1], r, extractIp)
  }

  class ThresholdRule {
    const rule: Rule
    const extractIp: string -> string
    var hits: map<Key, seq<Hit>>
    ghost var seen: seq<Timed>
    ghost var alerts: seq<Alert>

    ghost predicate Valid() reads this { Live(hits, alerts) == EvaluateAll(seen, rule, extractIp) }

    constructor (rule: Rule, extractIp: string -> string)
      ensures Valid() && seen == [] && alerts == [] && this.rule == rule && this.extractIp == extractIp
    {
      this.rule := rule;
      this.extractIp := extractIp;
      hits, seen, alerts := map[], [], [];
    }

    method Evaluate(e: Event, now: int) returns (alert: Option<Alert>)
      requires Valid()
      modifies this
      ensures Valid() && seen == old(seen) + [(e, now)]
      ensures alerts == old(alerts) + match alert case None => [] case Some(a) => [a]
    {
      alert := None;
      seen := seen + [(e, now)];
      assert seen[..|seen| - 1] == old(seen);
      if !rule.matches(e.message) { return; }
      var key := KeyOf(e, extractIp);
      var window := HitsAt(hits, key) + [Hit(now, e.id)];
      var cutoff := now - rule.window;
      ghost var kept := DropOld(window, cutoff);
      while window != [] && window[0].time < cutoff
        invariant DropOld(window, cutoff) == kept
        decreases |window|
      {
        window := window[1..];
      }
      if |window| >= rule.threshold {
        alert := Some(Alert(key, IdsOf(window)));
        alerts := alerts + [alert.value];
        window := [];
      }
      hits := hits[key := window];
    }
  }

  /** A first matching event raises an alert exactly under a threshold of one or none, on its id, for
      the first address in its message, else its sender, else "unknown". */
  lemma OneEventAlerts(e: Event, now: int, r: Rule, extractIp: string -> string)
    ensures EvaluateAll([(e, now)], r, extractIp).alerts ==
            if !r.matches(e.message) || r.threshold > 1 then []
            else if extractIp(e.message) != "" then [Alert(extractIp(e.message), [e.id])]
            else if e.source != "" then [Alert(e.source, [e.id])]
            else [Alert("unknown", [e.id])]
  {
    assert [(e, now)][..0] == [];
    assert EvaluateAll([], r, extractIp) == Live(map[], []);
    var hit := Hit(now, e.id);
    assert [] + [hit] == [hit] && DropOld([hit], now - r.window) == [hit];
    assert IdsOf([hit]) == [e.id];
  }

  // ---- One key at a time -------------------------------------------------

  /** The hits of one key in a stream of events. */
  function HitsOf(events: seq<Timed>, key: Key, r: Rule, extractIp: string -> string): seq<Hit> {
    if events == [] then []
    else
      var e := events[|events| - 1];
      HitsOf(events[..|events| - 1], key, r, extractIp)
      + if r.matches(e.0.message) && KeyOf(e.0, extractIp) == key then [Hit(e.1, e.0.id)] else []
  }

  function AlertsOf(alerts: seq<Alert>, key: Key): seq<seq<nat>> {
    if alerts == [] then []
    else
      var a := alerts[|alerts| - 1];
      AlertsOf(alerts[..|alerts| - 1], key) + if a.key == key then [a.ids] else []
  }

  /** The deque and the fired windows of one key after all its hits. */
  function RunKey(hits: seq<Hit>, r: Rule): (seq<Hit>, seq<seq<Hit>>) {
    if hits == [] then ([], [])
    else
      var (window, fired) := RunKey(hits[..|hits| - 1], r);
      var (window', fires) := Observe(window, hits[|hits| - 1], r);
      (window', fired + match fires case None => [] case Some(w) => [w])
  }

  function AllIds(windows: seq<seq<Hit>>): seq<seq<nat>> {
    seq(|windows|, i requires 0 <= i < |windows| => IdsOf(windows[i]))
  }

  lemma AlertsOfAppend(alerts: seq<Alert>, a: Alert, key: Key)
    ensures AlertsOf(alerts + [a], key) == AlertsOf(alerts, key) + if a.key == key then [a.ids] else []
  {
    assert (alerts + [a])[..|alerts|] == alerts;
  }

  lemma RunKeyAppend(hits: seq<Hit>, h: Hit, r: Rule)
    ensures RunKey(hits + [h], r) ==
            var (window, fired) := RunKey(hits, r);
            var (window', fires) := Observe(window, h, r);
            (window', fired + match fires case None => [] case Some(w) => [w])
  {
    assert (hits + [h])[..|hits|] == hits;
  }

  lemma AllIdsAppend(windows: seq<seq<Hit>>, w: seq<Hit>)
    ensures AllIds(windows + [w]) == AllIds(windows) + [IdsOf(w)]
  {
    hide IdsOf;
  }

  /** What one event does to one key: everything if the key is its own, else nothing. */
  lemma EvaluateOneKey(l: Live, e: Timed, key: Key, r: Rule, extractIp: string -> string)
    requires r.matches(e.0.message)
    ensures var m := Evaluate(l, e, r, extractIp);
            if KeyOf(e.0, extractIp) != key then
              HitsAt(m.hits, key) == HitsAt(l.hits, key) && AlertsOf(m.alerts, key) == AlertsOf(l.alerts, key)
            else
              var (window, fired) := Observe(HitsAt(l.hits, key), Hit(e.1, e.0.id), r);
              && HitsAt(m.hits, key) == window
              && AlertsOf(m.alerts, key) ==
                 AlertsOf(l.alerts, key) + match fired case None => [] case Some(w) => [IdsOf(w)]
  {
    hide Observe, IdsOf;
    var k := KeyOf(e.0, extractIp);
    var fired := Observe(HitsAt(l.hits, k), Hit(e.1, e.0.id), r).1;
    if fired.Some? {
      AlertsOfAppend(l.alerts, Alert(k, IdsOf(fired.value)), key);
      hide AlertsOf;
    }
  }

  /** Keys do not interfere: per key, the live rule is the one-key rule on that key's hits. */
  lemma {:induction false} KeysAreIndependent(events: seq<Timed>, key: Key, r: Rule, extractIp: string -> string)
    ensures var l, k := EvaluateAll(events, r, extractIp), RunKey(HitsOf(events, key, r, extractIp), r);
            HitsAt(l.hits, key) == k.0 && AlertsOf(l.alerts, key) == AllIds(k.1)
    decreases |events|
  {
    if events != [] {
      var initial, e := events[..|events| - 1], events[|events| - 1];
      var before := HitsOf(initial, key, r, extractIp);
      KeysAreIndependent(initial, key, r, extractIp);
      if !r.matches(e.0.message) || KeyOf(e.0, extractIp) != key {
        assert before + [] == before;
      }
      if r.matches(e.0.message) {
        var h := Hit(e.1, e.0.id);
        EvaluateOneKey(EvaluateAll(initial, r, extractIp), e, key, r, extractIp);
        RunKeyAppend(before, h, r);
        var (window, fired) := RunKey(before, r);
        if Observe(window, h, r).1.Some? {
          AllIdsAppend(fired, Observe(window, h, r).1.value);
        }
        hide Evaluate, Observe, RunKey, AllIds, AlertsOf, KeyOf;
      }
    }
  }
}
