/**
 What one commit of a telemetry monitor decides about an expected key (detection_runtime.py),
 stated on the receipts and the clock alone.
 */
module TelemetryAlerts {
  import opened Options
  import opened TelemetrySilence
  import opened TelemetryRuns

  /** A receipt of the key at time `t`: recorded before, or in the snapshot. */
  ghost predicate ReceiptAt(r: Row, c: Config, snapshot: Pending, key: string, t: int) {
    || (key in r.entries && r.entries[key].last.Some? && r.entries[key].last.value.received == t)
    || exists k :: 0 <= k < |snapshot| && c.profile(snapshot[k].0) == Some(key) && snapshot[k].1.received == t
  }

  ghost predicate NoReceipt(r: Row, c: Config, snapshot: Pending, key: string) {
    forall t: int :: !ReceiptAt(r, c, snapshot, key, t)
  }

  /** Silence counts from the newest receipt, and without one from the time the key became expected. */
  ghost predicate SilentSince(r: Row, c: Config, snapshot: Pending, key: string, now: int, t: int) {
    if NoReceipt(r, c, snapshot, key)
    then t == if key in r.entries then r.entries[key].since else now
    else ReceiptAt(r, c, snapshot, key, t) && forall u: int | ReceiptAt(r, c, snapshot, key, u) :: u <= t
  }

  ghost predicate TooLong(now: int, since: int, limit: int) {
    if now > since then now - since > limit else 0 > limit
  }

  ghost predicate OutageOpen(r: Row, key: string) { key in r.entries && r.entries[key].outage }

  lemma {:induction false} MergedTells(r: Row, c: Config, snapshot: Pending, key: string, now: int)
    ensures var e := MergedEntry(r, c, snapshot, key, now);
            && SilentSince(r, c, snapshot, key, now, Anchor(e))
            && (e.last.None? <==> NoReceipt(r, c, snapshot, key))
            && (e.outage <==> OutageOpen(r, key))
  {
    hide Received, ReceiptAt;
    var e, o := EntryOf(r, key, now), Received(c, snapshot, key);
    ReceivedIsNewest(c, snapshot, key);
    forall t: int
      ensures ReceiptAt(r, c, snapshot, key, t) ==> NotOlder(At(Merged(e, o).last), Some(t))
    {
      ReceiptIs(r, c, snapshot, key, t);
    }
    if Merged(e, o).last.Some? {
      ReceiptIs(r, c, snapshot, key, Merged(e, o).last.value.received);
    }
  }

  lemma ReceiptIs(r: Row, c: Config, snapshot: Pending, key: string, t: int)
    ensures ReceiptAt(r, c, snapshot, key, t) <==>
            || (key in r.entries && At(r.entries[key].last) == Some(t))
            || exists k :: 0 <= k < |snapshot| && c.profile(snapshot[k].0) == Some(key) && snapshot[k].1.received == t
  {
  }

  lemma JudgedTells(e: Entry, now: int, limit: int)
    ensures Raises(e, now, limit) <==> !e.outage && TooLong(now, Anchor(e), limit)
    ensures Judged(e, now, limit).outage <==> TooLong(now, Anchor(e), limit) || (e.outage && e.last.None?)
    ensures Judged(e, now, limit).status ==
            if TooLong(now, Anchor(e), limit) then Silent else if e.last.None? then Waiting else Receiving
  {
  }

  /** A commit raises an alert for an expected key exactly if no outage of the key is open and its
      silence exceeds its limit. The outage is open afterwards exactly if the silence does, or if it
      was open before and there has been no receipt at all. */
  lemma {:induction false} SilenceIsAlerted(r: Row, c: Config, snapshot: Pending, now: int, i: nat, since: int)
    requires DistinctExpected(c) && i < |c.expected| && SilentSince(r, c, snapshot, c.expected[i].0, now, since)
    ensures var (key, limit) := c.expected[i];
            var t := Committed(r, c, snapshot, now);
            var silent := NoReceipt(r, c, snapshot, key);
            && (Alert(key, if silent then None else Some(since), since, now) in t.alerts[|r.alerts|..]
                <==> !OutageOpen(r, key) && TooLong(now, since, limit))
            && ((exists a :: a in t.alerts[|r.alerts|..] && a.key == key)
                <==> !OutageOpen(r, key) && TooLong(now, since, limit))
            && (OutageOpen(t, key) <==> TooLong(now, since, limit) || (OutageOpen(r, key) && silent))
            && key in t.entries
            && t.entries[key].status
               == if TooLong(now, since, limit) then Silent else if silent then Waiting else Receiving
  {
    hide Judged, MergedEntry, Raises, TooLong, NoReceipt, SilentSince, ReceiptAt, Anchor, NewEntries, NewAlerts,
         DistinctExpected;
    var (key, limit) := c.expected[i];
    var e := MergedEntry(r, c, snapshot, key, now);
    MergedTells(r, c, snapshot, key, now);
    OnlyOneSince(r, c, snapshot, key, now, since, Anchor(e));
    JudgedTells(e, now, limit);
    EntryAt(r, c, snapshot, now, |c.expected|, i);
    AnchorIsReceipt(e);
    AlertsAdded(r, c, snapshot, now);
    RaisedIff(r, c, snapshot, now, |c.expected|, i);
  }

  lemma AlertsAdded(r: Row, c: Config, snapshot: Pending, now: int)
    ensures Committed(r, c, snapshot, now).alerts[|r.alerts|..] == NewAlerts(r, c, snapshot, now, |c.expected|)
    ensures Committed(r, c, snapshot, now).entries == NewEntries(r, c, snapshot, now, |c.expected|)
  {
    hide NewAlerts, NewEntries;
  }

  lemma AnchorIsReceipt(e: Entry)
    ensures e.last.Some? ==> Some(Anchor(e)) == At(e.last)
    ensures e.last.None? ==> At(e.last) == None
  {
  }

  lemma OnlyOneSince(r: Row, c: Config, snapshot: Pending, key: string, now: int, t: int, u: int)
    requires SilentSince(r, c, snapshot, key, now, t) && SilentSince(r, c, snapshot, key, now, u)
    ensures t == u
  {
    hide ReceiptAt;
  }

  /** An alert for a key is the one of its own place in the list. */
  lemma {:induction false} RaisedIff(r: Row, c: Config, snapshot: Pending, now: int, n: nat, i: nat)
    requires DistinctExpected(c) && n <= |c.expected| && i < |c.expected|
    ensures var (key, limit) := c.expected[i];
            var e := MergedEntry(r, c, snapshot, key, now);
            && (AlertFor(e, key, now) in NewAlerts(r, c, snapshot, now, n) <==> i < n && Raises(e, now, limit))
            && ((exists a :: a in NewAlerts(r, c, snapshot, now, n) && a.key == key)
                <==> i < n && Raises(e, now, limit))
    decreases n
  {
    hide MergedEntry, Raises, DistinctExpected;
    if n > 0 {
      RaisedIff(r, c, snapshot, now, n - 1, i);
      if i != n - 1 {
        KeysDiffer(c, i, n - 1);
      }
    }
  }

  lemma KeysDiffer(c: Config, i: nat, j: nat)
    requires DistinctExpected(c) && i != j && i < |c.expected| && j < |c.expected|
    ensures c.expected[i].0 != c.expected[j].0
  {
  }

  /** The first of the newest receipts of the key in the snapshot. */
  ghost predicate IsNewest(c: Config, snapshot: Pending, key: string, k: nat) {
    && k < |snapshot| && c.profile(snapshot[k].0) == Some(key)
    && (forall j | 0 <= j < k && c.profile(snapshot[j].0) == Some(key) ::
          snapshot[j].1.received < snapshot[k].1.received)
    && (forall j | k < j < |snapshot| && c.profile(snapshot[j].0) == Some(key) ::
          snapshot[j].1.received <= snapshot[k].1.received)
  }

  lemma {:induction false} ReceivedIs(c: Config, snapshot: Pending, key: string, k: nat)
    requires IsNewest(c, snapshot, key, k)
    ensures Received(c, snapshot, key) == Some(snapshot[k].1)
    decreases |snapshot|
  {
    var n := |snapshot| - 1;
    var front := snapshot[..n];
    assert forall j | 0 <= j < n :: front[j] == snapshot[j];
    if k < n {
      ReceivedIs(c, front, key, k);
    } else {
      ReceivedIsNewest(c, front, key);
    }
  }

  /** A commit records the newest receipt of the snapshot if it is newer than the recorded one. */
  lemma {:induction false} NewestIsRecorded(r: Row, c: Config, snapshot: Pending, now: int, i: nat, k: nat)
    requires DistinctExpected(c) && i < |c.expected| && IsNewest(c, snapshot, c.expected[i].0, k)
    ensures var key := c.expected[i].0;
            var t := Committed(r, c, snapshot, now);
            key in t.entries
            && (if key !in r.entries || r.entries[key].last.None?
                   || r.entries[key].last.value.received < snapshot[k].1.received
                then t.entries[key].last == Some(snapshot[k].1)
                else t.entries[key].last == r.entries[key].last)
  {
    hide Received, Judged, DistinctExpected, IsNewest;
    var (key, limit) := c.expected[i];
    ReceivedIs(c, snapshot, key, k);
    EntryAt(r, c, snapshot, now, |c.expected|, i);
    JudgedKeepsReceipt(MergedEntry(r, c, snapshot, key, now), now, limit);
  }

  /** Exactly the expected keys have an entry afterwards. */
  lemma {:induction false} OnlyExpectedAreKept(r: Row, c: Config, snapshot: Pending, now: int, key: string)
    ensures key in Committed(r, c, snapshot, now).entries <==> IsExpected(c, key)
  {
    hide MergedEntry, Judged;
    KeptKeys(r, c, snapshot, now, |c.expected|, key);
  }

  lemma {:induction false} KeptKeys(r: Row, c: Config, snapshot: Pending, now: int, n: nat, key: string)
    requires n <= |c.expected|
    ensures key in NewEntries(r, c, snapshot, now, n) <==> exists i :: 0 <= i < n && c.expected[i].0 == key
    decreases n
  {
    hide MergedEntry, Judged;
    if n > 0 {
      KeptKeys(r, c, snapshot, now, n - 1, key);
    }
  }

  // ---- What an observation does ------------------------------------------------------------

  /** Observing a new key adds it, in place of the first one when a thousand are pending. */
  lemma {:induction false} NewKeyIsAdded(pending: Pending, key: string, o: Observation)
    requires |pending| <= 1000 && forall i | 0 <= i < |pending| :: pending[i].0 != key
    ensures Observed(pending, key, o) == (if |pending| == 1000 then pending[1..] else pending) + [(key, o)]
  {
    PutNew(pending, key, o);
    hide Put;
    if |pending| == 1000 {
      assert (pending + [(key, o)])[1..] == pending[1..] + [(key, o)];
    }
  }

  /** Observing a pending key replaces its receipt and nothing else. */
  lemma {:induction false} KnownKeyIsReplaced(pending: Pending, key: string, o: Observation, i: nat)
    requires |pending| <= 1000 && i < |pending| && pending[i].0 == key
    requires forall j | 0 <= j < i :: pending[j].0 != key
    ensures Observed(pending, key, o) == pending[i := (key, o)]
  {
    PutKnown(pending, key, o, i);
  }

  lemma {:induction false} PutNew(pending: Pending, key: string, o: Observation)
    requires forall i | 0 <= i < |pending| :: pending[i].0 != key
    ensures Put(pending, key, o) == pending + [(key, o)]
    decreases |pending|
  {
    if pending != [] {
      PutNew(pending[1..], key, o);
    }
  }

  lemma {:induction false} PutKnown(pending: Pending, key: string, o: Observation, i: nat)
    requires i < |pending| && pending[i].0 == key
    requires forall j | 0 <= j < i :: pending[j].0 != key
    ensures Put(pending, key, o) == pending[i := (key, o)]
    decreases |pending|
  {
    if i > 0 {
      PutKnown(pending[1..], key, o, i - 1);
      assert pending == [pending[0]] + pending[1..];
    }
  }

  lemma ClearedLast(pending: Pending, snapshot: Pending)
    requires pending != []
    ensures var front, last := Cleared(pending[..|pending| - 1], snapshot), pending[|pending| - 1];
            Cleared(pending, snapshot) == if last in snapshot then front else front + [last]
  {
  }

  /** Clearing keeps exactly the receipts that are not in the snapshot. */
  lemma {:induction false} ClearedKeepsOthers(pending: Pending, snapshot: Pending, item: (string, Observation))
    ensures multiset(Cleared(pending, snapshot))[item] == if item in snapshot then 0 else multiset(pending)[item]
    decreases |pending|
  {
    if pending != [] {
      var front, last := pending[..|pending| - 1], pending[|pending| - 1];
      ClearedKeepsOthers(front, snapshot, item);
      ClearedLast(pending, snapshot);
      hide Cleared;
      assert pending == front + [last];
    }
  }
}
