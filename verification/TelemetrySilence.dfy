/**
 Telemetry expectations (detection_runtime.py, `TelemetryMonitor`): monitors collect receipts
 and merge them into one shared state row, which raises an alert when an expected source falls
 silent.
 */
module TelemetrySilence {
  import opened Options

  datatype Observation = Observation(received: int, event: string)

  /** A dictionary in insertion order: observed "host|source" and its newest observation. */
  type Pending = seq<(string, Observation)>

  datatype Status = Silent | Receiving | Waiting

  datatype Entry = Entry(since: int, last: Option<Observation>, outage: bool, status: Status)

  /** A raised alert, with the receipt recorded for its key at that time. */
  datatype Alert = Alert(key: string, last: Option<int>, anchor: int, now: int)

  datatype Row = Row(entries: map<string, Entry>, alerts: seq<Alert>)

  /** The expected keys with their longest silence, and the profile each observed key belongs to. */
  datatype Config = Config(expected: seq<(string, int)>, profile: string -> Option<string>)

  const MAX_PENDING := 1000

  // ---- Receipts --------------------------------------------------------------------

  function Put(pending: Pending, key: string, o: Observation): Pending {
    if pending == [] then [(key, o)]
    else if pending[0].0 == key then [(key, o)] + pending[1..]
    else [pending[0]] + Put(pending[1..], key, o)
  }

  /** `observe`: the newest observation of a key replaces the older one; beyond the cap the
      first inserted key goes. */
  function Observed(pending: Pending, key: string, o: Observation): Pending {
    var more := Put(pending, key, o);
    if |more| > MAX_PENDING then more[1..] else more
  }

  /** After the commit: whatever still is as it was in the snapshot goes. */
  function Cleared(pending: Pending, snapshot: Pending): Pending {
    if pending == [] then []
    else Cleared(pending[..|pending| - 1], snapshot)
         + if pending[|pending| - 1] in snapshot then [] else [pending[|pending| - 1]]
  }

  /** The newest observation of the snapshot for an expected key. */
  function Received(c: Config, snapshot: Pending, key: string): Option<Observation> {
    if snapshot == [] then None
    else
      var before, (observed, o) := Received(c, snapshot[..|snapshot| - 1], key), snapshot[|snapshot| - 1];
      if c.profile(observed) == Some(key) && (before.None? || o.received > before.value.received)
        then Some(o) else before
  }

  // ---- One expected key in one commit ------------------------------------------------

  function At(o: Option<Observation>): Option<int> {
    if o.None? then None else Some(o.value.received)
  }

  /** A strictly newer receipt; any receipt is newer than none. */
  predicate Newer(a: Option<int>, b: Option<int>) { a.Some? && (b.None? || a.value > b.value) }

  predicate NotOlder(a: Option<int>, b: Option<int>) { a == b || Newer(a, b) }

  function Merged(e: Entry, o: Option<Observation>): Entry {
    if Newer(At(o), At(e.last)) then e.(last := o) else e
  }

  function Anchor(e: Entry): int { if e.last.Some? then e.last.value.received else e.since }

  function StatusOf(e: Entry, now: int, limit: int): Status {
    var silence := if now > Anchor(e) then now - Anchor(e) else 0;
    if silence > limit then Silent else if e.last.Some? then Receiving else Waiting
  }

  predicate Raises(e: Entry, now: int, limit: int) { StatusOf(e, now, limit) == Silent && !e.outage }

  /** The entry after the status is known: silence opens an outage, a receipt closes it. */
  function Judged(e: Entry, now: int, limit: int): Entry {
    match StatusOf(e, now, limit)
    case Silent => e.(outage := true, status := Silent)
    case Receiving => e.(outage := false, status := Receiving)
    case Waiting => e.(status := Waiting)
  }

  function EntryOf(r: Row, key: string, now: int): Entry {
    if key in r.entries then r.entries[key] else Entry(now, None, false, Waiting)
  }

  function MergedEntry(r: Row, c: Config, snapshot: Pending, key: string, now: int): Entry {
    Merged(EntryOf(r, key, now), Received(c, snapshot, key))
  }

  function AlertFor(e: Entry, key: string, now: int): Alert { Alert(key, At(e.last), Anchor(e), now) }

  // ---- One commit --------------------------------------------------------------------------

  function NewEntries(r: Row, c: Config, snapshot: Pending, now: int, n: nat): map<string, Entry>
    requires n <= |c.expected|
  {
    if n == 0 then map[]
    else
      var (key, limit) := c.expected[n - 1];
      NewEntries(r, c, snapshot, now, n - 1)[key := Judged(MergedEntry(r, c, snapshot, key, now), now, limit)]
  }

  function NewAlerts(r: Row, c: Config, snapshot: Pending, now: int, n: nat): seq<Alert>
    requires n <= |c.expected|
  {
    if n == 0 then []
    else
      var (key, limit) := c.expected[n - 1];
      var e := MergedEntry(r, c, snapshot, key, now);
      NewAlerts(r, c, snapshot, now, n - 1) + if Raises(e, now, limit) then [AlertFor(e, key, now)] else []
  }

  /** The committed transaction; entries of keys no longer expected are dropped. */
  function Committed(r: Row, c: Config, snapshot: Pending, now: int): Row {
    Row(NewEntries(r, c, snapshot, now, |c.expected|), r.alerts + NewAlerts(r, c, snapshot, now, |c.expected|))
  }

  ghost predicate DistinctExpected(c: Config) {
    forall i, j | 0 <= i < j < |c.expected| :: c.expected[i].0 != c.expected[j].0
  }

  class StateRow {
    var entries: map<string, Entry>
    var alerts: seq<Alert>

    function View(): Row
      reads this
    {
      Row(entries, alerts)
    }

    /** The transaction of `tick`, one expected key after another, in place. */
    method Commit(c: Config, snapshot: Pending, now: int)
      requires DistinctExpected(c)
      modifies this
      ensures View() == Committed(old(View()), c, snapshot, now)
    {
      ghost var r := View();
      var active: map<string, Entry> := map[];
      for n := 0 to |c.expected|
        invariant active == NewEntries(r, c, snapshot, now, n)
        invariant alerts == r.alerts + NewAlerts(r, c, snapshot, now, n)
        invariant entries == r.entries
      {
        hide Received, Judged, Raises, DistinctExpected;
        var (key, limit) := c.expected[n];
        var e := if key in entries then entries[key] else Entry(now, None, false, Waiting);
        e := Merged(e, Received(c, snapshot, key));
        if Raises(e, now, limit) {
          alerts := alerts + [AlertFor(e, key, now)];
        }
        active := active[key := Judged(e, now, limit)];
      }
      entries := active;
    }
  }

  class TelemetryMonitor {
    var pending: Pending

    constructor ()
      ensures pending == []
    {
      pending := [];
    }

    method Observe(key: string, o: Observation)
      modifies this
      ensures pending == Observed(old(pending), key, o)
    {
      pending := Put(pending, key, o);
      if |pending| > MAX_PENDING {
        pending := pending[1..];
      }
    }

    method Clear(snapshot: Pending)
      modifies this
      ensures pending == Cleared(old(pending), snapshot)
    {
      var kept: Pending := [];
      for k := 0 to |pending|
        invariant pending == old(pending)
        invariant kept == Cleared(pending[..k], snapshot)
      {
        assert pending[..k + 1][..k] == pending[..k];
        if pending[k] !in snapshot {
          kept := kept + [pending[k]];
        }
      }
      assert pending[..|pending|] == pending;
      pending := kept;
    }
  }
}
