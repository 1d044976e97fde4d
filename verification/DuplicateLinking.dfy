/**
 Duplicate suppression of detection findings (detection.py, `emit` and `_fingerprint`): one
 transaction over the alert table and the list of recent identities. Text compared here is
 case-folded before; times are microseconds.
 */
module DuplicateLinking {
  import opened Options

  datatype Kind = ProcessCreation | OtherWindows | OtherEvent

  datatype EventTime = Absent | Unreadable | At(time: int)

  datatype Finding = Finding(
    rule: string, revision: int, kind: Kind,
    host: string, pid: string, path: string, parentPid: string, commandLine: string, sourceIp: string,
    provider: string, eventTime: EventTime)

  /** What the digest is taken of. */
  datatype Key =
    | ProcessKey(host: string, pid: string, path: string, parentPid: string, rule: string, revision: int,
                 commandLine: string)
    | StreamKey(rule: string, revision: int, host: string, sourceIp: string)

  datatype Entry = Entry(key: Key, alert: nat, event: EventTime, seen: int)

  /** An alert with what its evidence counts: occurrences, references, sources and times. */
  datatype Alert = Alert(status: string, evidence: bool, occurrences: nat, logIds: seq<nat>,
                         sources: set<string>, firstSeen: int, lastSeen: int)

  /** The alert a finding starts, an alert raised elsewhere, and an alert with one more finding. */
  function Started(f: Finding, logId: nat, now: int): Alert {
    Alert("new", true, 1, [logId], {f.provider}, now, now)
  }

  const OTHER := Alert("new", false, 0, [], {}, 0, 0)

  function Linked(a: Alert, f: Finding, logId: nat, now: int): Alert {
    a.(occurrences := a.occurrences + 1, logIds := LinkIds(a.logIds, logId), sources := a.sources + {f.provider},
       lastSeen := now)
  }

  datatype State = State(alerts: map<nat, Alert>, next: nat, recent: seq<Entry>)

  const MAX_IDS := 500
  const MAX_RECENT := 512
  const IDLE := 300_000_000
  const CLOSE := 2_000_000

  function Fingerprint(f: Finding): Option<Key> {
    match f.kind
    case ProcessCreation =>
      if f.host == "" || f.pid == "" || f.path == "" || f.parentPid == "" || f.eventTime == Absent then None
      else Some(ProcessKey(f.host, f.pid, f.path, f.parentPid, f.rule, f.revision, f.commandLine))
    case OtherWindows => None
    case OtherEvent => Some(StreamKey(f.rule, f.revision, f.host, f.sourceIp))
  }

  // ---- The list of recent identities --------------------------------------------

  function Fresh(recent: seq<Entry>, now: int): (r: seq<Entry>)
    ensures forall e :: e in r <==> e in recent && now - e.seen < IDLE
    ensures |r| <= |recent|
  {
    if recent == [] then []
    else
      var front, last := Fresh(recent[..|recent| - 1], now), recent[|recent| - 1];
      if now - last.seen < IDLE then front + [last] else front
  }

  function Find(recent: seq<Entry>, key: Key): (r: Option<Entry>)
    ensures r.Some? ==> r.value in recent && r.value.key == key
    ensures r.None? <==> forall e | e in recent :: e.key != key
  {
    if recent == [] then None
    else if recent[|recent| - 1].key == key then Some(recent[|recent| - 1])
    else Find(recent[..|recent| - 1], key)
  }

  /** Assignment to a dictionary entry: in place if the key is there, else at the end. */
  function Put(recent: seq<Entry>, e: Entry): seq<Entry> {
    if recent == [] then [e]
    else if recent[0].key == e.key then [e] + recent[1..]
    else [recent[0]] + Put(recent[1..], e)
  }

  /** The stable sort by time, one entry at a time. */
  function Insert(sorted: seq<Entry>, e: Entry): seq<Entry> {
    if sorted == [] || sorted[|sorted| - 1].seen <= e.seen then sorted + [e]
    else Insert(sorted[..|sorted| - 1], e) + [sorted[|sorted| - 1]]
  }

  function Sort(recent: seq<Entry>): seq<Entry> {
    if recent == [] then [] else Insert(Sort(recent[..|recent| - 1]), recent[|recent| - 1])
  }

  function LastOf<T>(s: seq<T>, n: nat): seq<T> { if |s| <= n then s else s[|s| - n..] }

  // ---- Evidence references ---------------------------------------------------------

  /** Keep the first of equal ids. */
  function Dedup(ids: seq<nat>): (r: seq<nat>)
    ensures forall i :: i in r <==> i in ids
    ensures NoRepeats(r)
  {
    if ids == [] then []
    else
      var front, last := Dedup(ids[..|ids| - 1]), ids[|ids| - 1];
      assert ids == ids[..|ids| - 1] + [last];
      if last in front then front else front + [last]
  }

  ghost predicate NoRepeats(ids: seq<nat>) { forall i, j | 0 <= i < j < |ids| :: ids[i] != ids[j] }

  function LinkIds(ids: seq<nat>, id: nat): seq<nat> { LastOf(Dedup(ids + [id]), MAX_IDS) }

  // ---- The transaction ----------------------------------------------------------------

  predicate Done(a: Alert) { a.status == "resolved" || a.status == "closed" }

  predicate SameEvent(previous: Entry, f: Finding) {
    match previous.key
    case StreamKey(_, _, _, _) => true
    case ProcessKey(_, _, _, _, _, _, _) =>
      f.eventTime.At? && previous.event.At?
      && f.eventTime.time - previous.event.time <= CLOSE && previous.event.time - f.eventTime.time <= CLOSE
  }

  /** The alert that the finding is linked into, if any. */
  function Target(s: State, f: Finding, now: int): Option<nat> {
    var key := Fingerprint(f);
    if key.None? then None
    else
      var previous := Find(Fresh(s.recent, now), key.value);
      if previous.Some? && SameEvent(previous.value, f) && previous.value.alert in s.alerts
         && s.alerts[previous.value.alert].evidence && !Done(s.alerts[previous.value.alert])
      then Some(previous.value.alert)
      else None
  }

  function Remember(recent: seq<Entry>, f: Finding, alert: nat, now: int): seq<Entry> {
    var key := Fingerprint(f);
    var kept := Fresh(recent, now);
    LastOf(Sort(if key.None? then kept else Put(kept, Entry(key.value, alert, f.eventTime, now))), MAX_RECENT)
  }

  /** The state after a successful call and the alert it returns. */
  function Emitted(s: State, f: Finding, logId: nat, now: int): (State, nat) {
    match Target(s, f, now)
    case Some(id) =>
      (State(s.alerts[id := Linked(s.alerts[id], f, logId, now)], s.next, Remember(s.recent, f, id, now)), id)
    case None =>
      (State(s.alerts[s.next := Started(f, logId, now)], s.next + 1, Remember(s.recent, f, s.next, now)), s.next)
  }

  class DetectionStore {
    var alerts: map<nat, Alert>
    var next: nat
    var recent: seq<Entry>

    function View(): State
      reads this
    {
      State(alerts, next, recent)
    }

    constructor ()
      ensures View() == State(map[], 0, [])
    {
      alerts, next, recent := map[], 0, [];
    }

    method Emit(f: Finding, logId: nat, now: int) returns (id: nat)
      modifies this
      ensures (View(), id) == Emitted(old(View()), f, logId, now)
    {
      hide Fresh, Find, Put, Sort, LastOf, Dedup, SameEvent, Fingerprint, Done;
      var kept := Fresh(recent, now);
      var key := Fingerprint(f);
      var linked: Option<nat> := None;
      if key.Some? {
        var previous := Find(kept, key.value);
        if previous.Some? && SameEvent(previous.value, f) && previous.value.alert in alerts {
          var a := alerts[previous.value.alert];
          if a.evidence && !Done(a) {
            linked := Some(previous.value.alert);
          }
        }
      }
      if linked.Some? {
        id := linked.value;
        alerts := alerts[id := Linked(alerts[id], f, logId, now)];
      } else {
        id := next;
        alerts, next := alerts[id := Started(f, logId, now)], next + 1;
      }
      recent := LastOf(Sort(if key.None? then kept else Put(kept, Entry(key.value, id, f.eventTime, now))), MAX_RECENT);
    }
  }

  // ---- The recent list stays small, distinct and sorted ---------------------------------

  ghost predicate DistinctKeys(recent: seq<Entry>) {
    forall i, j | 0 <= i < j < |recent| :: recent[i].key != recent[j].key
  }

  ghost predicate SortedBySeen(recent: seq<Entry>) {
    forall i, j | 0 <= i < j < |recent| :: recent[i].seen <= recent[j].seen
  }

  predicate HasKey(recent: seq<Entry>, key: Key) { exists i :: 0 <= i < |recent| && recent[i].key == key }

  lemma FreshLast(recent: seq<Entry>, now: int)
    requires recent != []
    ensures var last := recent[|recent| - 1];
            Fresh(recent, now) == if now - last.seen < IDLE then Fresh(recent[..|recent| - 1], now) + [last]
                                  else Fresh(recent[..|recent| - 1], now)
  {
  }

  lemma {:induction false} FreshIsDistinct(recent: seq<Entry>, now: int)
    requires DistinctKeys(recent)
    ensures DistinctKeys(Fresh(recent, now))
    decreases |recent|
  {
    hide Fresh;
    if recent != [] {
      var front, last := recent[..|recent| - 1], recent[|recent| - 1];
      FreshIsDistinct(front, now);
      FreshLast(recent, now);
      LastIsNew(recent);
      AppendDistinct(Fresh(front, now), last);
    } else {
      assert |Fresh(recent, now)| == 0;
    }
  }

  lemma LastIsNew(recent: seq<Entry>)
    requires recent != [] && DistinctKeys(recent)
    ensures DistinctKeys(recent[..|recent| - 1])
    ensures forall e | e in recent[..|recent| - 1] :: e.key != recent[|recent| - 1].key
  {
  }

  lemma AppendDistinct(s: seq<Entry>, e: Entry)
    requires DistinctKeys(s)
    ensures (forall x | x in s :: x.key != e.key) ==> DistinctKeys(s + [e])
  {
  }

  lemma FirstIsNew(recent: seq<Entry>)
    requires recent != [] && DistinctKeys(recent)
    ensures DistinctKeys(recent[1..])
    ensures forall e | e in recent[1..] :: e.key != recent[0].key
  {
  }

  lemma PrependDistinct(e: Entry, s: seq<Entry>)
    requires DistinctKeys(s) && forall x | x in s :: x.key != e.key
    ensures DistinctKeys([e] + s)
  {
  }

  lemma HasKeyMeans(recent: seq<Entry>, key: Key)
    ensures HasKey(recent, key) <==> exists e :: e in recent && e.key == key
  {
    if e :| e in recent && e.key == key {
      var i :| 0 <= i < |recent| && recent[i] == e;
    }
  }

  lemma {:induction false} PutMeans(recent: seq<Entry>, e: Entry)
    requires DistinctKeys(recent)
    ensures DistinctKeys(Put(recent, e))
    ensures forall x :: x in Put(recent, e) <==> x == e || (x in recent && x.key != e.key)
    ensures HasKey(recent, e.key) ==> |Put(recent, e)| == |recent|
    ensures !HasKey(recent, e.key) ==> Put(recent, e) == recent + [e]
    decreases |recent|
  {
    hide DistinctKeys, HasKey, Put;
    HasKeyMeans(recent, e.key);
    PutStep(recent, e);
    if recent == [] {
      AppendDistinct([], e);
      assert [] + [e] == [e];
    } else {
      FirstIsNew(recent);
      var rest := recent[1..];
      assert recent == [recent[0]] + rest;
      if recent[0].key == e.key {
        PrependDistinct(e, rest);
      } else {
        PutMeans(rest, e);
        HasKeyMeans(rest, e.key);
        PrependDistinct(recent[0], Put(rest, e));
      }
    }
  }

  lemma PutStep(recent: seq<Entry>, e: Entry)
    ensures DistinctKeys([])
    ensures Put(recent, e) ==
            if recent == [] then [e]
            else if recent[0].key == e.key then [e] + recent[1..]
            else [recent[0]] + Put(recent[1..], e)
  {
  }

  lemma {:induction false} InsertMeans(s: seq<Entry>, e: Entry)
    requires SortedBySeen(s)
    ensures SortedBySeen(Insert(s, e)) && |Insert(s, e)| == |s| + 1
    ensures forall x :: x in Insert(s, e) <==> x in s || x == e
    ensures DistinctKeys(s) && !HasKey(s, e.key) ==> DistinctKeys(Insert(s, e))
    decreases |s|
  {
    hide DistinctKeys, HasKey, SortedBySeen, Insert;
    HasKeyMeans(s, e.key);
    InsertStep(s, e);
    if s != [] && s[|s| - 1].seen > e.seen {
      var front, last := s[..|s| - 1], s[|s| - 1];
      assert s == front + [last];
      SortedFront(s);
      InsertMeans(front, e);
      HasKeyMeans(front, e.key);
      AppendSorted(Insert(front, e), last);
      if DistinctKeys(s) && !HasKey(s, e.key) {
        LastIsNew(s);
        AppendDistinct(Insert(front, e), last);
      }
    } else {
      AppendOldest(s, e);
      if DistinctKeys(s) {
        AppendDistinct(s, e);
      }
    }
  }

  lemma InsertStep(s: seq<Entry>, e: Entry)
    ensures Insert(s, e) ==
            if s == [] || s[|s| - 1].seen <= e.seen then s + [e] else Insert(s[..|s| - 1], e) + [s[|s| - 1]]
  {
  }

  lemma SortedFront(s: seq<Entry>)
    requires s != [] && SortedBySeen(s)
    ensures SortedBySeen(s[..|s| - 1])
    ensures forall x | x in s :: x.seen <= s[|s| - 1].seen
  {
  }

  lemma AppendSorted(s: seq<Entry>, e: Entry)
    requires SortedBySeen(s) && forall x | x in s :: x.seen <= e.seen
    ensures SortedBySeen(s + [e])
  {
  }

  lemma AppendOldest(s: seq<Entry>, e: Entry)
    requires SortedBySeen(s) && (s == [] || s[|s| - 1].seen <= e.seen)
    ensures SortedBySeen(s + [e])
  {
  }

  lemma SortStep(recent: seq<Entry>)
    ensures SortedBySeen([])
    ensures Sort(recent) == if recent == [] then [] else Insert(Sort(recent[..|recent| - 1]), recent[|recent| - 1])
  {
  }

  lemma {:induction false} SortMeans(recent: seq<Entry>)
    ensures SortedBySeen(Sort(recent)) && |Sort(recent)| == |recent|
    ensures forall x :: x in Sort(recent) <==> x in recent
    ensures DistinctKeys(recent) ==> DistinctKeys(Sort(recent))
    decreases |recent|
  {
    hide DistinctKeys, HasKey, SortedBySeen, Insert, Sort;
    SortStep(recent);
    if recent != [] {
      var front, last := recent[..|recent| - 1], recent[|recent| - 1];
      SortMeans(front);
      InsertMeans(Sort(front), last);
      assert recent == front + [last];
      if DistinctKeys(recent) {
        LastIsNew(recent);
        HasKeyMeans(Sort(front), last.key);
      }
    }
  }

  ghost predicate RecentOk(recent: seq<Entry>) {
    |recent| <= 512 && DistinctKeys(recent) && SortedBySeen(recent)
  }

  /** At most 512 identities, each once, oldest first, after every call. */
  lemma RememberKeepsRecent(recent: seq<Entry>, f: Finding, alert: nat, now: int)
    requires RecentOk(recent)
    ensures RecentOk(Remember(recent, f, alert, now))
  {
    hide Fresh, Put, Sort;
    var kept := Fresh(recent, now);
    FreshIsDistinct(recent, now);
    var key := Fingerprint(f);
    var put := if key.None? then kept else Put(kept, Entry(key.value, alert, f.eventTime, now));
    if key.Some? {
      PutMeans(kept, Entry(key.value, alert, f.eventTime, now));
    }
    SortMeans(put);
  }

  lemma {:induction false} InsertFirst(s: seq<Entry>, e: Entry)
    requires SortedBySeen(s) && e !in s
    ensures Insert(s, e)[0] == e <==> forall x | x in s :: x.seen > e.seen
    decreases |s|
  {
    hide SortedBySeen, Insert;
    InsertStep(s, e);
    if s != [] {
      SortedFront(s);
      var front := s[..|s| - 1];
      assert s == front + [s[|s| - 1]];
      if s[|s| - 1].seen > e.seen {
        InsertFirst(front, e);
        InsertMeans(front, e);
      } else {
        assert (s + [e])[0] == s[0];
      }
    }
  }

  /** The newest identity is remembered, unless the list is full of identities that were seen
      later than now, which takes a clock that went back. */
  lemma NewestKeptIff(recent: seq<Entry>, f: Finding, alert: nat, now: int)
    requires RecentOk(recent) && Fingerprint(f).Some?
    ensures var e := Entry(Fingerprint(f).value, alert, f.eventTime, now);
            var kept := Fresh(recent, now);
            e in Remember(recent, f, alert, now) <==>
            HasKey(kept, e.key) || |kept| < 512 || exists x :: x in kept && x.seen <= now
  {
    hide Fresh, Put, Sort, Insert, DistinctKeys;
    var kept := Fresh(recent, now);
    FreshIsDistinct(recent, now);
    var e := Entry(Fingerprint(f).value, alert, f.eventTime, now);
    PutMeans(kept, e);
    SortMeans(Put(kept, e));
    if !HasKey(kept, e.key) && |kept| == MAX_RECENT {
      NewestAtFull(kept, e);
    }
  }

  lemma NewestAtFull(kept: seq<Entry>, e: Entry)
    requires |kept| == MAX_RECENT && DistinctKeys(kept) && !HasKey(kept, e.key)
    ensures e in LastOf(Sort(kept + [e]), MAX_RECENT) <==> exists x :: x in kept && x.seen <= e.seen
  {
    hide Sort, Insert, SortedBySeen, DistinctKeys, HasKey;
    SortLast(kept, e);
    SortMeans(kept);
    HasKeyMeans(kept, e.key);
    HasKeyMeans(Sort(kept), e.key);
    var q := Insert(Sort(kept), e);
    InsertMeans(Sort(kept), e);
    InsertFirst(Sort(kept), e);
    assert LastOf(q, MAX_RECENT) == q[1..];
    OnlyOnce(q, e);
  }

  lemma SortLast(kept: seq<Entry>, e: Entry)
    ensures Sort(kept + [e]) == Insert(Sort(kept), e)
  {
    assert (kept + [e])[..|kept|] == kept;
  }

  lemma OnlyOnce(q: seq<Entry>, e: Entry)
    requires q != [] && DistinctKeys(q) && e in q
    ensures e in q[1..] <==> q[0] != e
  {
    var i :| 0 <= i < |q| && q[i] == e;
    if i > 0 {
      assert q[1..][i - 1] == e;
    }
  }

  // ---- What every run keeps ------------------------------------------------------------

  /** A call, an analyst's change of status, or an alert raised elsewhere. */
  datatype Step = Emit(f: Finding, logId: nat, now: int) | SetStatus(id: nat, status: string) | RaiseOther

  function Apply(s: State, step: Step): State {
    match step
    case Emit(f, logId, now) => Emitted(s, f, logId, now).0
    case SetStatus(id, status) =>
      if id in s.alerts then s.(alerts := s.alerts[id := s.alerts[id].(status := status)]) else s
    case RaiseOther => State(s.alerts[s.next := OTHER], s.next + 1, s.recent)
  }

  function Run(steps: seq<Step>): State {
    if steps == [] then State(map[], 0, []) else Apply(Run(steps[..|steps| - 1]), steps[|steps| - 1])
  }

  function Calls(steps: seq<Step>): nat {
    if steps == [] then 0 else Calls(steps[..|steps| - 1]) + if steps[|steps| - 1].Emit? then 1 else 0
  }

  /** The occurrences of the first `n` alerts. */
  function Occurrences(alerts: map<nat, Alert>, n: nat): nat {
    if n == 0 then 0
    else Occurrences(alerts, n - 1) + if n - 1 in alerts then alerts[n - 1].occurrences else 0
  }

  ghost predicate AlertOk(a: Alert) {
    |a.logIds| <= MAX_IDS && NoRepeats(a.logIds) && (a.evidence <==> a.occurrences > 0)
  }

  ghost predicate Ok(s: State) {
    && (forall id: nat :: id in s.alerts <==> id < s.next)
    && (forall id | id in s.alerts :: AlertOk(s.alerts[id]))
    && RecentOk(s.recent)
    && (forall e | e in s.recent :: e.alert < s.next)
  }

  lemma {:induction false} OccurrencesChange(before: map<nat, Alert>, after: map<nat, Alert>, id: nat, n: nat)
    requires id in after
    requires forall k | k != id :: (k in before <==> k in after) && (k in before ==> before[k] == after[k])
    ensures Occurrences(after, n) ==
            if id < n
            then Occurrences(before, n) - (if id in before then before[id].occurrences else 0) + after[id].occurrences
            else Occurrences(before, n)
    decreases n
  {
    if n > 0 {
      OccurrencesChange(before, after, id, n - 1);
    }
  }

  lemma LinkIdsOk(ids: seq<nat>, id: nat)
    ensures |LinkIds(ids, id)| <= MAX_IDS && NoRepeats(LinkIds(ids, id))
  {
    hide Dedup;
  }

  lemma RememberAlerts(recent: seq<Entry>, f: Finding, alert: nat, now: int)
    requires RecentOk(recent)
    ensures forall e | e in Remember(recent, f, alert, now) :: e.alert == alert || e in recent
  {
    hide Fresh, Put, Sort;
    var kept := Fresh(recent, now);
    FreshIsDistinct(recent, now);
    var key := Fingerprint(f);
    if key.Some? {
      PutMeans(kept, Entry(key.value, alert, f.eventTime, now));
      SortMeans(Put(kept, Entry(key.value, alert, f.eventTime, now)));
    } else {
      SortMeans(kept);
    }
  }

  /** A finding goes into one alert, either a new one or one that was open and still carried
      its evidence; every other alert is left as it was. */
  lemma LinksOnlyIntoOpenAlerts(s: State, f: Finding, logId: nat, now: int)
    requires forall id: nat :: id in s.alerts <==> id < s.next
    ensures var (t, id) := Emitted(s, f, logId, now);
            && (forall k | k != id ::
                  (k in s.alerts <==> k in t.alerts) && (k in s.alerts ==> t.alerts[k] == s.alerts[k]))
            && id in t.alerts
            && (id in s.alerts ==>
                  && !Done(s.alerts[id]) && s.alerts[id].evidence
                  && t.alerts[id].occurrences == s.alerts[id].occurrences + 1
                  && t.alerts[id].status == s.alerts[id].status)
            && (id !in s.alerts ==> t.alerts[id].occurrences == 1 && t.alerts[id].logIds == [logId])
  {
    hide Remember, LinkIds;
  }

  lemma EmittedParts(s: State, f: Finding, logId: nat, now: int)
    requires forall id: nat :: id in s.alerts <==> id < s.next
    ensures var (t, id) := Emitted(s, f, logId, now);
            && t.recent == Remember(s.recent, f, id, now)
            && id in t.alerts && t.alerts[id].evidence && id <= s.next
            && t.next == (if id == s.next then s.next + 1 else s.next)
            && t.alerts[id] == (if id == s.next then Started(f, logId, now) else Linked(s.alerts[id], f, logId, now))
  {
    hide Remember, LinkIds;
  }

  lemma EmitKeepsOk(s: State, f: Finding, logId: nat, now: int)
    requires Ok(s)
    ensures var t := Emitted(s, f, logId, now).0;
            Ok(t) && Occurrences(t.alerts, t.next) == Occurrences(s.alerts, s.next) + 1
  {
    hide RecentOk, Remember, Occurrences, NoRepeats, LinkIds, Target, Emitted;
    var (t, id) := Emitted(s, f, logId, now);
    EmittedParts(s, f, logId, now);
    LinksOnlyIntoOpenAlerts(s, f, logId, now);
    RememberKeepsRecent(s.recent, f, id, now);
    RememberAlerts(s.recent, f, id, now);
    OccurrencesChange(s.alerts, t.alerts, id, t.next);
    OneMore(s.alerts, s.next);
    if id < s.next {
      LinkIdsOk(s.alerts[id].logIds, logId);
    }
    OneIdOk(logId);
  }

  lemma OneIdOk(id: nat)
    ensures NoRepeats([id]) && NoRepeats([])
  {
  }

  lemma OneMore(alerts: map<nat, Alert>, n: nat)
    ensures Occurrences(alerts, n + 1) == Occurrences(alerts, n) + if n in alerts then alerts[n].occurrences else 0
  {
  }

  lemma StatusKeepsOk(s: State, id: nat, status: string)
    requires Ok(s)
    ensures var t := Apply(s, SetStatus(id, status));
            Ok(t) && Occurrences(t.alerts, t.next) == Occurrences(s.alerts, s.next)
  {
    hide RecentOk, Occurrences, NoRepeats, Emitted;
    if id in s.alerts {
      OccurrencesChange(s.alerts, Apply(s, SetStatus(id, status)).alerts, id, s.next);
    }
  }

  lemma OtherAlertKeepsOk(s: State)
    requires Ok(s)
    ensures var t := Apply(s, RaiseOther);
            Ok(t) && Occurrences(t.alerts, t.next) == Occurrences(s.alerts, s.next)
  {
    hide RecentOk, Occurrences, NoRepeats, Emitted;
    OccurrencesChange(s.alerts, Apply(s, RaiseOther).alerts, s.next, s.next + 1);
    OneMore(s.alerts, s.next);
    OneIdOk(0);
  }

  lemma StartOk()
    ensures Ok(State(map[], 0, [])) && Occurrences(map[], 0) == 0
  {
  }

  /** Over every run the occurrences of all alerts add up to the number of calls: no finding is
      lost and none is counted twice. */
  lemma {:induction false} FindingsAreConserved(steps: seq<Step>)
    ensures Ok(Run(steps))
    ensures Occurrences(Run(steps).alerts, Run(steps).next) == Calls(steps)
    decreases |steps|
  {
    hide Ok, Emitted, Occurrences;
    StartOk();
    if steps != [] {
      var s, step := Run(steps[..|steps| - 1]), steps[|steps| - 1];
      FindingsAreConserved(steps[..|steps| - 1]);
      match step
      case Emit(f, logId, now) => EmitKeepsOk(s, f, logId, now);
      case SetStatus(id, status) => StatusKeepsOk(s, id, status);
      case RaiseOther => OtherAlertKeepsOk(s);
    }
  }

  /** A finding is linked exactly into the open alert of a remembered identity that was seen
      less than five minutes ago and, for a process, at nearly the same event time. */
  lemma TargetIff(s: State, f: Finding, now: int, alert: nat)
    requires Ok(s)
    ensures Target(s, f, now) == Some(alert) <==>
            exists e :: && e in s.recent && e.alert == alert && Fingerprint(f) == Some(e.key)
                        && now - e.seen < IDLE && SameEvent(e, f)
                        && s.alerts[alert].evidence && !Done(s.alerts[alert])
  {
    hide Fresh, Find, SameEvent, Done, Fingerprint;
    var key := Fingerprint(f);
    if e :| && e in s.recent && e.alert == alert && key == Some(e.key) && now - e.seen < IDLE
            && SameEvent(e, f) && s.alerts[alert].evidence && !Done(s.alerts[alert]) {
      var found := Find(Fresh(s.recent, now), e.key);
      OneEntryPerKey(s.recent, e, found.value);
    }
  }

  lemma OneEntryPerKey(recent: seq<Entry>, a: Entry, b: Entry)
    requires DistinctKeys(recent) && a in recent && b in recent && a.key == b.key
    ensures a == b
  {
  }

  // ---- Evidence references ------------------------------------------------------------------

  /** The references after linking ids one by one. */
  function LinkAll(ids: seq<nat>): seq<nat> {
    if ids == [] then [] else LinkIds(LinkAll(ids[..|ids| - 1]), ids[|ids| - 1])
  }

  lemma {:induction false} DedupOfDistinct(ids: seq<nat>)
    requires NoRepeats(ids)
    ensures Dedup(ids) == ids
    decreases |ids|
  {
    if ids != [] {
      assert ids == ids[..|ids| - 1] + [ids[|ids| - 1]];
      DedupOfDistinct(ids[..|ids| - 1]);
    }
  }

  /** The references of an alert are its last 500 distinct events. */
  lemma {:induction false} ReferencesAreTheLast(ids: seq<nat>)
    requires NoRepeats(ids)
    ensures LinkAll(ids) == LastOf(ids, MAX_IDS)
    decreases |ids|
  {
    if ids != [] {
      hide Dedup;
      var front, last := ids[..|ids| - 1], ids[|ids| - 1];
      ReferencesAreTheLast(front);
      var kept := LastOf(front, MAX_IDS);
      assert ids == front + [last];
      assert kept + [last] == ids[|front| - |kept|..];
      DedupOfDistinct(kept + [last]);
    }
  }

  /** The newest event is always referenced. */
  lemma NewestIsReferenced(ids: seq<nat>, id: nat)
    requires NoRepeats(ids) && |ids| <= MAX_IDS
    ensures id in LinkIds(ids, id)
  {
    DedupOfDistinct(ids);
    assert (ids + [id])[..|ids|] == ids;
  }

  /** What linking one event does: one that is still referenced changes nothing and keeps its
      place, and any other, also one trimmed before, becomes the newest, in place of the oldest
      once there are five hundred. */
  lemma LinkMeans(ids: seq<nat>, id: nat)
    requires NoRepeats(ids) && |ids| <= 500
    ensures LinkIds(ids, id) ==
            if id in ids then ids
            else if |ids| < 500 then ids + [id]
            else ids[1..] + [id]
  {
    DedupOfDistinct(ids);
    assert (ids + [id])[..|ids|] == ids;
    assert |ids| == 500 ==> (ids + [id])[1..] == ids[1..] + [id];
  }

  /** The calls of a run that linked into the alert or started it, in order. */
  function LinkedCalls(steps: seq<Step>, id: nat): (calls: seq<Step>)
    ensures forall c | c in calls :: c.Emit?
  {
    if steps == [] then []
    else
      var front, last := steps[..|steps| - 1], steps[|steps| - 1];
      if last.Emit? && Emitted(Run(front), last.f, last.logId, last.now).1 == id
      then LinkedCalls(front, id) + [last]
      else LinkedCalls(front, id)
  }

  function LogIdsOf(calls: seq<Step>): seq<nat>
    requires forall c | c in calls :: c.Emit?
  {
    if calls == [] then [] else LogIdsOf(calls[..|calls| - 1]) + [calls[|calls| - 1].logId]
  }

  function ProvidersOf(calls: seq<Step>): set<string>
    requires forall c | c in calls :: c.Emit?
  {
    if calls == [] then {} else ProvidersOf(calls[..|calls| - 1]) + {calls[|calls| - 1].f.provider}
  }

  /** The alert tells of exactly these calls. */
  ghost predicate TellsOf(a: Alert, calls: seq<Step>)
    requires forall c | c in calls :: c.Emit?
  {
    && a.occurrences == |calls| && a.logIds == LinkAll(LogIdsOf(calls)) && a.sources == ProvidersOf(calls)
    && (calls != [] ==> a.firstSeen == calls[0].now && a.lastSeen == calls[|calls| - 1].now)
  }

  lemma LinkAllAppend(ids: seq<nat>, id: nat)
    ensures LinkAll(ids + [id]) == LinkIds(LinkAll(ids), id)
  {
    assert (ids + [id])[..|ids|] == ids;
  }

  lemma FirstLink(id: nat)
    ensures LinkIds([], id) == [id] && LinkAll([]) == []
  {
    OneIdOk(id);
    LinkMeans([], id);
  }

  lemma OneMoreCall(a: Alert, calls: seq<Step>, call: Step)
    requires (forall c | c in calls :: c.Emit?) && call.Emit? && TellsOf(a, calls) && calls != []
    ensures TellsOf(Linked(a, call.f, call.logId, call.now), calls + [call])
  {
    hide LinkAll, LinkIds;
    assert (calls + [call])[..|calls|] == calls;
    LinkAllAppend(LogIdsOf(calls), call.logId);
  }

  lemma FirstCall(call: Step)
    requires call.Emit?
    ensures TellsOf(Started(call.f, call.logId, call.now), [call])
  {
    hide LinkAll, LinkIds;
    FirstLink(call.logId);
    LinkAllAppend([], call.logId);
    assert [call][..0] == [] && [] + [call.logId] == [call.logId];
    assert LogIdsOf([call]) == [call.logId];
    assert ProvidersOf([]) == {};
    assert ProvidersOf([call]) == ProvidersOf([call][..0]) + {call.f.provider};
    assert LinkAll([call.logId]) == [call.logId];
  }

  /** The step adds its call to the calls of one alert. */
  lemma CallsAfter(steps: seq<Step>, id: nat)
    requires steps != []
    ensures var front, last := steps[..|steps| - 1], steps[|steps| - 1];
            LinkedCalls(steps, id) ==
            if last.Emit? && Emitted(Run(front), last.f, last.logId, last.now).1 == id
            then LinkedCalls(front, id) + [last] else LinkedCalls(front, id)
  {
    hide Emitted, Run;
  }

  /** Over every run each alert tells of exactly the calls that were linked into it: their number,
      their events, their sources, and the times of the first and the last. */
  lemma {:induction false} AlertsTellOfTheirCalls(steps: seq<Step>, id: nat)
    ensures id in Run(steps).alerts ==> TellsOf(Run(steps).alerts[id], LinkedCalls(steps, id))
    ensures id in Run(steps).alerts && Run(steps).alerts[id].evidence ==> LinkedCalls(steps, id) != []
    ensures id !in Run(steps).alerts ==> LinkedCalls(steps, id) == []
    decreases |steps|
  {
    hide Emitted, LinkIds, LinkAll, Ok, TellsOf, LinkedCalls, Done;
    if steps == [] {
      assert LinkedCalls([], id) == [] by { NoCalls(id); }
    } else {
      var front, last := steps[..|steps| - 1], steps[|steps| - 1];
      var s := Run(front);
      AlertsTellOfTheirCalls(front, id);
      CallsAfter(steps, id);
      FindingsAreConserved(front);
      AlertsAreNumbered(s);
      OtherTellsOfNothing();
      match last
      case Emit(f, logId, now) =>
        LinksOnlyIntoOpenAlerts(s, f, logId, now);
        EmittedParts(s, f, logId, now);
        FirstCall(last);
        assert [] + [last] == [last];
        if id in s.alerts && s.alerts[id].evidence {
          OneMoreCall(s.alerts[id], LinkedCalls(front, id), last);
        }
      case SetStatus(changed, status) =>
        if changed == id && id in s.alerts {
          StatusTellsNothing(s.alerts[id], LinkedCalls(front, id), status);
        }
      case RaiseOther =>
    }
  }

  lemma NoCalls(id: nat)
    ensures LinkedCalls([], id) == []
  {
  }

  lemma OtherTellsOfNothing()
    ensures TellsOf(OTHER, [])
  {
    hide LinkIds;
  }

  lemma StatusTellsNothing(a: Alert, calls: seq<Step>, status: string)
    requires (forall c | c in calls :: c.Emit?) && TellsOf(a, calls)
    ensures TellsOf(a.(status := status), calls)
  {
    hide LinkAll;
  }

  lemma AlertsAreNumbered(s: State)
    requires Ok(s)
    ensures forall id: nat :: id in s.alerts <==> id < s.next
  {
  }

  /** In every run the references of an alert are the last 500 events linked into it, if no event
      was linked into it twice. */
  lemma AlertReferencesAreTheLast(steps: seq<Step>, id: nat)
    requires id in Run(steps).alerts && NoRepeats(LogIdsOf(LinkedCalls(steps, id)))
    ensures Run(steps).alerts[id].logIds == LastOf(LogIdsOf(LinkedCalls(steps, id)), 500)
  {
    hide Run, LinkedCalls, LinkAll, NoRepeats, LogIdsOf;
    AlertsTellOfTheirCalls(steps, id);
    ReferencesAreTheLast(LogIdsOf(LinkedCalls(steps, id)));
  }
}
