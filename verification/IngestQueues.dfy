/**
 The threaded ingest pipeline (listener.py, `IngestPipeline`): bounded queues chosen
 by a routing key, one worker per queue.  Every public operation below is one atomic
 step of the source (a queue operation or a locked counter update), so the class
 invariant holds in every interleaving of submitters and workers.
 */
module IngestQueues {
  import opened Options

  datatype Transport = Udp | Tcp

  datatype Item = Item(raw: string, source: string, key: string)

  type Hash = string -> nat

  /** `key or source_ip or ""`. */
  function RoutingKey(i: Item): string { if i.key != "" then i.key else i.source }

  function QueueOf(i: Item, hash: Hash, count: nat): nat
    requires count > 0
  {
    hash(RoutingKey(i)) % count
  }

  /** Messages with a key go by the key, whoever sent them, and others by their sender. */
  lemma RoutedByKey(i: Item, hash: Hash, count: nat)
    requires count > 0
    ensures i.key != "" ==> QueueOf(i, hash, count) == hash(i.key) % count
    ensures i.key == "" ==> QueueOf(i, hash, count) == hash(i.source) % count
  {
  }

  lemma QueueInRange(i: Item, hash: Hash, count: nat)
    requires count > 0
    ensures QueueOf(i, hash, count) < count
  {
  }

  function Routed(items: seq<Item>, q: nat, hash: Hash, count: nat): seq<Item>
    requires count > 0
  {
    if items == [] then []
    else
      var i := items[|items| - 1];
      Routed(items[..|items| - 1], q, hash, count) + if QueueOf(i, hash, count) == q then [i] else []
  }

  /** The items of one routing key, in order. */
  function OfKey(items: seq<Item>, key: string): seq<Item> {
    if items == [] then []
    else
      var i := items[|items| - 1];
      OfKey(items[..|items| - 1], key) + if RoutingKey(i) == key then [i] else []
  }

  function Total(queues: seq<seq<Item>>): nat {
    if queues == [] then 0 else Total(queues[..|queues| - 1]) + |queues[|queues| - 1]|
  }

  function InFlight(busy: seq<Option<Item>>): nat {
    if busy == [] then 0
    else InFlight(busy[..|busy| - 1]) + if busy[|busy| - 1].Some? then 1 else 0
  }

  function AsSeq(o: Option<Item>): seq<Item> { match o case None => [] case Some(i) => [i] }

  datatype Stats = Stats(processed: nat, failed: nat, dropped: nat, droppedUdp: nat, droppedTcp: nat)

  lemma TotalUpdate(queues: seq<seq<Item>>, q: nat, s: seq<Item>)
    requires q < |queues|
    ensures Total(queues[q := s]) == Total(queues) - |queues[q]| + |s|
  {
    var n := |queues| - 1;
    if q < n {
      TotalUpdate(queues[..n], q, s);
      assert queues[q := s][..n] == queues[..n][q := s];
    } else {
      assert queues[q := s][..n] == queues[..n];
    }
  }

  lemma InFlightUpdate(busy: seq<Option<Item>>, q: nat, o: Option<Item>)
    requires q < |busy|
    ensures InFlight(busy[q := o]) ==
            InFlight(busy) - (if busy[q].Some? then 1 else 0) + (if o.Some? then 1 else 0)
  {
    var n := |busy| - 1;
    if q < n {
      InFlightUpdate(busy[..n], q, o);
      assert busy[q := o][..n] == busy[..n][q := o];
    } else {
      assert busy[q := o][..n] == busy[..n];
    }
  }

  lemma NothingQueued(queues: seq<seq<Item>>, busy: seq<Option<Item>>)
    requires forall k | 0 <= k < |queues| :: queues[k] == []
    requires forall k | 0 <= k < |busy| :: busy[k] == None
    ensures Total(queues) == 0 && InFlight(busy) == 0
  {
  }

  class IngestPipeline {
    const count: nat
    const perQueue: nat
    const hash: Hash
    var queues: seq<seq<Item>>
    var busy: seq<Option<Item>>          // what each worker is processing
    var stopping: bool
    var exited: seq<bool>
    var stats: Stats
    ghost var accepted: seq<Item>
    ghost var rejected: nat
    ghost var done: seq<seq<Item>>       // what each worker has finished, in order

    ghost predicate Shape()
      reads this
    {
      count >= 1 && perQueue >= 1 && |queues| == |busy| == |exited| == |done| == count
    }

    /** Nothing is lost, duplicated or reordered within a queue. */
    ghost predicate Fifo()
      reads this
      requires Shape()
    {
      forall q | 0 <= q < count :: done[q] + AsSeq(busy[q]) + queues[q] == Routed(accepted, q, hash, count)
    }

    ghost predicate Conserved()
      reads this
    {
      && |accepted| == stats.processed + stats.failed + Total(queues) + InFlight(busy)
      && rejected == stats.dropped == stats.droppedUdp + stats.droppedTcp
    }

    ghost predicate Valid()
      reads this
    {
      && Shape() && Fifo() && Conserved()
      && (forall q | 0 <= q < count :: |queues[q]| <= perQueue)
      && (forall q | 0 <= q < count && exited[q] :: stopping && busy[q] == None)
    }

    constructor (workers: nat, queueSize: nat, hash: Hash)
      ensures Valid() && accepted == [] && rejected == 0 && !stopping
      ensures count == (if workers < 1 then 1 else workers)
    {
      var n := if workers < 1 then 1 else workers;
      count := n;
      perQueue := if queueSize / n < 1 then 1 else queueSize / n;
      this.hash := hash;
      queues := seq(n, i => []);
      busy := seq(n, i => None);
      exited := seq(n, i => false);
      done := seq(n, i => []);
      stopping, stats, accepted, rejected := false, Stats(0, 0, 0, 0, 0), [], 0;
      new;
      NothingQueued(queues, busy);
    }

    /** Queue a message, or drop and count it; a TCP sender may have waited first. */
    method Submit(i: Item, transport: Transport) returns (ok: bool)
      requires Valid()
      modifies this`queues, this`stats, this`accepted, this`rejected
      ensures Valid()
      ensures ok <==> |old(queues)[QueueOf(i, hash, count)]| < perQueue
      ensures ok ==> accepted == old(accepted) + [i] && rejected == old(rejected) && stats == old(stats)
      ensures !ok ==> accepted == old(accepted) && rejected == old(rejected) + 1 && queues == old(queues)
      ensures !ok && transport == Tcp ==> stats.droppedTcp == old(stats).droppedTcp + 1
      ensures !ok && transport == Udp ==> stats.droppedUdp == old(stats).droppedUdp + 1
    {
      hide Total, InFlight, Routed, QueueOf;
      var q := QueueOf(i, hash, count);
      assert q < count by { QueueInRange(i, hash, count); }
      if |queues[q]| >= perQueue {
        stats := stats.(dropped := stats.dropped + 1);
        if transport == Tcp {
          stats := stats.(droppedTcp := stats.droppedTcp + 1);
        } else {
          stats := stats.(droppedUdp := stats.droppedUdp + 1);
        }
        rejected := rejected + 1;
        return false;
      }
      TotalUpdate(queues, q, queues[q] + [i]);
      RoutedAppend(accepted, i, hash, count);
      assert done[q] + AsSeq(busy[q]) + (queues[q] + [i]) == (done[q] + AsSeq(busy[q]) + queues[q]) + [i];
      queues := queues[q := queues[q] + [i]];
      accepted := accepted + [i];
      return true;
    }

    /** A worker takes the oldest item of its queue. */
    method Get(q: nat) returns (i: Item)
      requires Valid() && q < count && !exited[q] && busy[q] == None && queues[q] != []
      modifies this`queues, this`busy
      ensures Valid() && i == old(queues)[q][0]
      ensures queues == old(queues)[q := old(queues)[q][1..]] && busy == old(busy)[q := Some(i)]
    {
      hide Total, InFlight, Routed;
      i := queues[q][0];
      TotalUpdate(queues, q, queues[q][1..]);
      InFlightUpdate(busy, q, Some(i));
      assert done[q] + [] + queues[q] == done[q] + [i] + queues[q][1..];
      queues := queues[q := queues[q][1..]];
      busy := busy[q := Some(i)];
    }

    /** Processing ended, well or with an exception; either way it is counted once. */
    method Finish(q: nat, succeeded: bool)
      requires Valid() && q < count && busy[q].Some?
      modifies this`busy, this`stats, this`done
      ensures Valid()
      ensures done == old(done)[q := old(done)[q] + [old(busy)[q].value]] && busy == old(busy)[q := None]
      ensures stats == if succeeded then old(stats).(processed := old(stats).processed + 1)
                       else old(stats).(failed := old(stats).failed + 1)
    {
      hide Total, InFlight, Routed;
      InFlightUpdate(busy, q, None);
      assert done[q] + AsSeq(busy[q]) + queues[q] == (done[q] + [busy[q].value]) + [] + queues[q];
      done := done[q := done[q] + [busy[q].value]];
      busy := busy[q := None];
      if succeeded {
        stats := stats.(processed := stats.processed + 1);
      } else {
        stats := stats.(failed := stats.failed + 1);
      }
    }

    method Stop()
      requires Valid()
      modifies this`stopping
      ensures Valid() && stopping
    {
      stopping := true;
    }

    /** The loop condition of a worker: it leaves only when stopping and its queue is empty. */
    method CheckExit(q: nat) returns (leave: bool)
      requires Valid() && q < count && busy[q] == None
      modifies this`exited
      ensures Valid()
      ensures leave <==> stopping && queues[q] == []
      ensures exited == if leave then old(exited)[q := true] else old(exited)
      ensures leave ==> done[q] == Routed(accepted, q, hash, count)
    {
      leave := stopping && queues[q] == [];
      if leave {
        exited := exited[q := true];
        assert done[q] + [] + [] == done[q];
      }
    }
  }

  lemma RoutedAppend(items: seq<Item>, i: Item, hash: Hash, count: nat)
    requires count > 0
    ensures forall q :: Routed(items + [i], q, hash, count) ==
                        Routed(items, q, hash, count) + if QueueOf(i, hash, count) == q then [i] else []
  {
    assert (items + [i])[..|items|] == items;
  }

  // ---- Order within a key -------------------------------------------------

  lemma {:induction false} RoutedKeepsKey(items: seq<Item>, q: nat, key: string, hash: Hash, count: nat)
    requires count > 0 && hash(key) % count == q
    ensures OfKey(Routed(items, q, hash, count), key) == OfKey(items, key)
    decreases |items|
  {
    if items != [] {
      var initial, i := items[..|items| - 1], items[|items| - 1];
      var routed := Routed(initial, q, hash, count);
      RoutedKeepsKey(initial, q, key, hash, count);
      assert routed + [] == routed && (routed + [i])[..|routed|] == routed;
      assert OfKey(initial, key) + [] == OfKey(initial, key);
    }
  }

  lemma {:induction false} OfKeyPrefix(a: seq<Item>, b: seq<Item>, key: string)
    ensures OfKey(a, key) <= OfKey(a + b, key)
    decreases |b|
  {
    if b == [] {
      assert a + b == a;
    } else {
      var n := |b| - 1;
      assert (a + b)[..|a + b| - 1] == a + b[..n];
      OfKeyPrefix(a, b[..n], key);
    }
  }

  /** Messages with one routing key are finished in the order they were submitted: what is
      finished is at any time a prefix of what was accepted for that key. */
  lemma KeysKeepOrder(accepted: seq<Item>, done: seq<Item>, waiting: seq<Item>, q: nat, key: string, hash: Hash,
                      count: nat)
    requires count > 0 && hash(key) % count == q
    requires done + waiting == Routed(accepted, q, hash, count)
    ensures OfKey(done, key) <= OfKey(accepted, key)
  {
    RoutedKeepsKey(accepted, q, key, hash, count);
    OfKeyPrefix(done, waiting, key);
  }
}
