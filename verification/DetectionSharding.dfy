/**
 Multi-process ingest (ingest_workers.py): events are routed to child processes by the
 key that threshold rules count by, so every child's rule sees all hits of its keys.
 */
module DetectionSharding {
  import opened Options
  import opened ThresholdRules

  type Hash = Key -> nat

  function ChildOf(e: Event, hash: Hash, count: nat, extractIp: string -> string): nat
    requires count > 0
  {
    hash(KeyOf(e, extractIp)) % count
  }

  /** The events one child receives, in submission order. */
  function Shard(events: seq<Timed>, child: nat, hash: Hash, count: nat, extractIp: string -> string): seq<Timed>
    requires count > 0
  {
    if events == [] then []
    else
      var e := events[|events| - 1];
      Shard(events[..|events| - 1], child, hash, count, extractIp)
      + if ChildOf(e.0, hash, count, extractIp) == child then [e] else []
  }

  // ---- The receiving process ---------------------------------------------

  datatype Transport = Udp | Tcp

  datatype Stats = Stats(dropped: nat, droppedUdp: nat, droppedTcp: nat, parseFailed: nat)

  class ProcessIngest {
    const count: nat
    const queueSize: nat
    const hash: Hash
    const extractIp: string -> string
    var queues: seq<seq<Timed>>
    var stats: Stats
    ghost var accepted: seq<Timed>
    ghost var taken: seq<seq<Timed>>

    /** What a child has taken and what still waits for it are its shard of everything
        accepted; nothing is reordered or lost in between. */
    ghost predicate Valid()
      reads this
    {
      && count >= 2 && queueSize >= 1 && |queues| == |taken| == count
      && stats.dropped == stats.droppedUdp + stats.droppedTcp
      && (forall c | 0 <= c < count :: |queues[c]| <= queueSize)
      && (forall c | 0 <= c < count :: taken[c] + queues[c] == Shard(accepted, c, hash, count, extractIp))
    }

    constructor (processes: nat, queueSize: nat, hash: Hash, extractIp: string -> string)
      ensures Valid() && accepted == [] && stats == Stats(0, 0, 0, 0)
      ensures count == (if processes < 2 then 2 else processes)
    {
      this.count := if processes < 2 then 2 else processes;
      this.queueSize := if queueSize < 1 then 1 else queueSize;
      this.hash, this.extractIp := hash, extractIp;
      this.queues := seq(if processes < 2 then 2 else processes, i => []);
      this.taken := seq(if processes < 2 then 2 else processes, i => []);
      this.stats := Stats(0, 0, 0, 0);
      this.accepted := [];
    }

    /** Route one message; `parsed` is None when it cannot be parsed. A TCP sender may
        have waited first, which only decides when this happens. */
    method Submit(parsed: Option<Event>, received: int, transport: Transport) returns (ok: bool)
      requires Valid()
      modifies this
      ensures Valid() && taken == old(taken)
      ensures ok <==> parsed.Some?
                      && |old(queues)[ChildOf(parsed.value, hash, count, extractIp)]| < queueSize
      ensures accepted == if ok then old(accepted) + [(parsed.value, received)] else old(accepted)
      ensures stats == if ok then old(stats)
                       else if parsed.None? then old(stats).(parseFailed := old(stats).parseFailed + 1)
                       else if transport == Tcp then
                         old(stats).(dropped := old(stats).dropped + 1, droppedTcp := old(stats).droppedTcp + 1)
                       else old(stats).(dropped := old(stats).dropped + 1, droppedUdp := old(stats).droppedUdp + 1)
    {
      if parsed.None? {
        stats := stats.(parseFailed := stats.parseFailed + 1);
        return false;
      }
      var e := (parsed.value, received);
      var index := ChildOf(parsed.value, hash, count, extractIp);
      if |queues[index]| >= queueSize {
        stats := stats.(dropped := stats.dropped + 1);
        if transport == Tcp {
          stats := stats.(droppedTcp := stats.droppedTcp + 1);
        } else {
          stats := stats.(droppedUdp := stats.droppedUdp + 1);
        }
        return false;
      }
      queues := queues[index := queues[index] + [e]];
      accepted := accepted + [e];
      assert accepted[..|accepted| - 1] == old(accepted);
      assert forall c | 0 <= c < count && c != index :: old(queues)[c] + [] == queues[c];
      return true;
    }

    /** A child takes its oldest event. */
    method Take(child: nat) returns (e: Timed)
      requires Valid() && child < count && queues[child] != []
      modifies this`queues, this`taken
      ensures Valid() && e == old(queues)[child][0]
      ensures taken == old(taken)[child := old(taken)[child] + [e]]
      ensures queues == old(queues)[child := old(queues)[child][1..]]
    {
      e := queues[child][0];
      assert taken[child] + queues[child] == (taken[child] + [e]) + queues[child][1..];
      queues := queues[child := queues[child][1..]];
      taken := taken[child := taken[child] + [e]];
    }
  }

  // ---- Detection is preserved --------------------------------------------

  lemma {:induction false} ShardKeepsHits(events: seq<Timed>, child: nat, hash: Hash, count: nat, key: Key, r: Rule,
                                          extractIp: string -> string)
    requires count > 0
    ensures HitsOf(Shard(events, child, hash, count, extractIp), key, r, extractIp) ==
            if hash(key) % count == child then HitsOf(events, key, r, extractIp) else []
    decreases |events|
  {
    if events != [] {
      var initial, e := events[..|events| - 1], events[|events| - 1];
      var shard := Shard(initial, child, hash, count, extractIp);
      ShardKeepsHits(initial, child, hash, count, key, r, extractIp);
      assert shard + [] == shard && HitsOf(initial, key, r, extractIp) + [] == HitsOf(initial, key, r, extractIp);
      assert (shard + [e])[..|shard|] == shard;
      assert HitsOf(shard, key, r, extractIp) + [] == HitsOf(shard, key, r, extractIp);
    }
  }

  /** The child responsible for a key raises exactly the alerts of one engine over the
      whole stream, in order and with the same log ids; the others raise none for it. */
  lemma ShardingPreservesDetection(events: seq<Timed>, child: nat, hash: Hash, count: nat, key: Key, r: Rule,
                                   extractIp: string -> string)
    requires count > 0
    ensures AlertsOf(EvaluateAll(Shard(events, child, hash, count, extractIp), r, extractIp).alerts, key) ==
            if hash(key) % count == child then AlertsOf(EvaluateAll(events, r, extractIp).alerts, key) else []
  {
    hide HitsOf, Shard, EvaluateAll, AlertsOf;
    ShardKeepsHits(events, child, hash, count, key, r, extractIp);
    KeysAreIndependent(Shard(events, child, hash, count, extractIp), key, r, extractIp);
    KeysAreIndependent(events, key, r, extractIp);
  }

  lemma CountAppend<T>(s: seq<T>, x: T, y: T)
    ensures multiset(s + [x])[y] == multiset(s)[y] + if x == y then 1 else 0
  {
  }

  lemma {:induction false} CountByKey(alerts: seq<Alert>, a: Alert)
    ensures multiset(alerts)[a] == multiset(AlertsOf(alerts, a.key))[a.ids]
    decreases |alerts|
  {
    hide AlertsOf;
    if alerts == [] {
      NoAlerts(a.key);
    } else {
      var initial, last := alerts[..|alerts| - 1], alerts[|alerts| - 1];
      CountByKey(initial, a);
      AlertsOfAppend(initial, last, a.key);
      CountAppend(initial, last, a);
      CountAppend(AlertsOf(initial, a.key), last.ids, a.ids);
      assert alerts == initial + [last];
      assert AlertsOf(initial, a.key) + [] == AlertsOf(initial, a.key);
    }
  }

  lemma NoAlerts(key: Key)
    ensures AlertsOf([], key) == []
  {
  }

  /** As multisets: the single engine and the responsible child raise every alert equally
      often, and no other child raises it. */
  lemma SameAlerts(events: seq<Timed>, child: nat, hash: Hash, count: nat, a: Alert, r: Rule,
                   extractIp: string -> string)
    requires count > 0
    ensures multiset(EvaluateAll(Shard(events, child, hash, count, extractIp), r, extractIp).alerts)[a] ==
            if hash(a.key) % count == child then multiset(EvaluateAll(events, r, extractIp).alerts)[a] else 0
  {
    hide Shard, EvaluateAll, AlertsOf;
    ShardingPreservesDetection(events, child, hash, count, a.key, r, extractIp);
    CountByKey(EvaluateAll(Shard(events, child, hash, count, extractIp), r, extractIp).alerts, a);
    CountByKey(EvaluateAll(events, r, extractIp).alerts, a);
  }
}
