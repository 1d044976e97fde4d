/**
 Which two findings are the same one (detection.py): what makes the second of two calls link into
 the alert of the first, stated on the findings themselves.
 */
module DuplicateIdentity {
  import opened Options
  import opened DuplicateLinking

  /** The same process of the same rule revision within two seconds, or the same stream. */
  predicate SameFinding(f: Finding, g: Finding) {
    f.kind == g.kind && f.rule == g.rule && f.revision == g.revision && f.host == g.host
    && match f.kind
       case ProcessCreation =>
         && f.host != "" && f.pid != "" && f.path != "" && f.parentPid != ""
         && f.pid == g.pid && f.path == g.path && f.parentPid == g.parentPid && f.commandLine == g.commandLine
         && f.eventTime.At? && g.eventTime.At?
         && -2_000_000 <= g.eventTime.time - f.eventTime.time <= 2_000_000
       case OtherWindows => false
       case OtherEvent => f.sourceIp == g.sourceIp
  }

  /** An alert is remembered under one identity. */
  ghost predicate OneKeyPerAlert(recent: seq<Entry>) {
    forall a, b | a in recent && b in recent && a.alert == b.alert :: a.key == b.key
  }

  lemma {:induction false} RememberMembers(recent: seq<Entry>, f: Finding, alert: nat, now: int)
    requires RecentOk(recent)
    ensures forall e | e in Remember(recent, f, alert, now) ::
              || (Fingerprint(f).Some? && e == Entry(Fingerprint(f).value, alert, f.eventTime, now))
              || (e in recent && Fingerprint(f) != Some(e.key))
  {
    hide Fresh, Put, Sort, Fingerprint;
    var kept := Fresh(recent, now);
    FreshIsDistinct(recent, now);
    var key := Fingerprint(f);
    if key.Some? {
      PutMeans(kept, Entry(key.value, alert, f.eventTime, now));
      SortMeans(Put(kept, Entry(key.value, alert, f.eventTime, now)));
    } else {
      SortMeans(kept);
    }
  }

  lemma {:induction false} TargetIsKnown(s: State, f: Finding, logId: nat, now: int)
    requires Ok(s)
    ensures var id := Emitted(s, f, logId, now).1;
            id == s.next || exists e :: e in s.recent && e.alert == id && Fingerprint(f) == Some(e.key)
  {
    hide Fingerprint, SameEvent, Remember, Linked, Done, RecentOk, AlertOk;
    if Target(s, f, now).Some? {
      TargetIff(s, f, now, Target(s, f, now).value);
    }
  }

  lemma {:induction false} EmitKeepsOneKey(s: State, f: Finding, logId: nat, now: int)
    requires Ok(s) && OneKeyPerAlert(s.recent)
    ensures OneKeyPerAlert(Emitted(s, f, logId, now).0.recent)
  {
    hide Fingerprint, Remember, Emitted, RecentOk, AlertOk;
    var (t, id) := Emitted(s, f, logId, now);
    UnfoldOk(s);
    EmittedParts(s, f, logId, now);
    TargetIsKnown(s, f, logId, now);
    RememberMembers(s.recent, f, id, now);
  }

  lemma UnfoldOk(s: State)
    requires Ok(s)
    ensures RecentOk(s.recent) && (forall id: nat :: id in s.alerts <==> id < s.next)
    ensures forall e | e in s.recent :: e.alert < s.next
  {
  }

  /** In every run each alert is remembered under one identity. */
  lemma {:induction false} RunsKeepOneKey(steps: seq<Step>)
    ensures OneKeyPerAlert(Run(steps).recent)
    decreases |steps|
  {
    hide Emitted, OneKeyPerAlert, Ok;
    if steps == [] {
      NothingRemembered();
    } else {
      var front, last := steps[..|steps| - 1], steps[|steps| - 1];
      RunsKeepOneKey(front);
      FindingsAreConserved(front);
      if last.Emit? {
        EmitKeepsOneKey(Run(front), last.f, last.logId, last.now);
      }
    }
  }

  lemma NothingRemembered()
    ensures OneKeyPerAlert([])
  {
  }

  lemma SameFindingMeans(f: Finding, g: Finding, alert: nat, now: int)
    ensures SameFinding(f, g) <==>
            && Fingerprint(f).Some? && Fingerprint(g) == Fingerprint(f)
            && SameEvent(Entry(Fingerprint(f).value, alert, f.eventTime, now), g)
  {
  }

  /** After a call its alert is open, and it is remembered under the finding's identity and no other. */
  lemma {:induction false} AfterCall(s: State, f: Finding, logId: nat, now: int)
    requires Ok(s) && OneKeyPerAlert(s.recent) && forall e | e in s.recent :: e.seen <= now
    ensures var (t, id) := Emitted(s, f, logId, now);
            && Ok(t) && id in t.alerts && t.alerts[id].evidence && !Done(t.alerts[id])
            && (Fingerprint(f).Some? ==> Entry(Fingerprint(f).value, id, f.eventTime, now) in t.recent)
            && (forall e | e in t.recent && e.alert == id ::
                  Fingerprint(f).Some? && e == Entry(Fingerprint(f).value, id, f.eventTime, now))
  {
    hide Fingerprint, Remember, Emitted, RecentOk, AlertOk, Ok, HasKey, Fresh, Linked;
    var (t, id) := Emitted(s, f, logId, now);
    UnfoldOk(s);
    EmitKeepsOk(s, f, logId, now);
    EmittedParts(s, f, logId, now);
    LinksOnlyIntoOpenAlerts(s, f, logId, now);
    TargetIsKnown(s, f, logId, now);
    RememberMembers(s.recent, f, id, now);
    if Fingerprint(f).Some? {
      NewestKeptIff(s.recent, f, id, now);
      KeptIsOlder(s.recent, now);
    }
  }

  lemma KeptIsOlder(recent: seq<Entry>, now: int)
    requires forall e | e in recent :: e.seen <= now
    ensures |Fresh(recent, now)| < 512 || exists x :: x in Fresh(recent, now) && x.seen <= now
  {
    hide Fresh;
    if |Fresh(recent, now)| >= 512 {
      assert Fresh(recent, now)[0] in Fresh(recent, now);
    }
  }

  /** After every run, the second of two calls goes into the alert of the first if and only if they
      report the same finding less than five minutes apart, as long as the clock did not go back
      before the first. */
  lemma {:induction false} CallsLinkIff(steps: seq<Step>, f: Finding, logId: nat, now: int,
                                        g: Finding, logId': nat, now': int)
    requires forall e | e in Run(steps).recent :: e.seen <= now
    ensures var (t, first) := Emitted(Run(steps), f, logId, now);
            Emitted(t, g, logId', now').1 == first <==> SameFinding(f, g) && now' - now < 300_000_000
  {
    hide Run, Emitted, Fingerprint, SameFinding, SameEvent, Done, Ok, OneKeyPerAlert;
    RunsKeepOneKey(steps);
    FindingsAreConserved(steps);
    AfterCall(Run(steps), f, logId, now);
    var (t, first) := Emitted(Run(steps), f, logId, now);
    UnfoldOk(t);
    TargetIff(t, g, now', first);
    LinkedIffTarget(t, g, logId', now', first);
    SameFindingMeans(f, g, first, now);
  }

  /** The same with a change of the first alert's status in between: one that is resolved or closed
      takes no more findings, and any other status makes no difference. */
  lemma {:induction false} CallsLinkWhileOpen(steps: seq<Step>, f: Finding, logId: nat, now: int, status: string,
                                              g: Finding, logId': nat, now': int)
    requires forall e | e in Run(steps).recent :: e.seen <= now
    ensures var (t, first) := Emitted(Run(steps), f, logId, now);
            Emitted(Apply(t, SetStatus(first, status)), g, logId', now').1 == first
            <==> SameFinding(f, g) && now' - now < 300_000_000 && status != "resolved" && status != "closed"
  {
    hide Run, Emitted, Fingerprint, SameFinding, SameEvent, Ok, OneKeyPerAlert, Apply;
    RunsKeepOneKey(steps);
    FindingsAreConserved(steps);
    AfterCall(Run(steps), f, logId, now);
    var (t, first) := Emitted(Run(steps), f, logId, now);
    UnfoldOk(t);
    StatusKeepsOk(t, first, status);
    StatusIsSet(t, first, status);
    var u := Apply(t, SetStatus(first, status));
    TargetIff(u, g, now', first);
    LinkedIffTarget(u, g, logId', now', first);
    SameFindingMeans(f, g, first, now);
  }

  lemma StatusIsSet(t: State, id: nat, status: string)
    requires id in t.alerts
    ensures var u := Apply(t, SetStatus(id, status));
            && u.recent == t.recent && u.next == t.next && id in u.alerts
            && u.alerts[id].status == status && u.alerts[id].evidence == t.alerts[id].evidence
  {
  }

  lemma LinkedIffTarget(t: State, g: Finding, logId: nat, now: int, id: nat)
    requires id < t.next
    ensures Emitted(t, g, logId, now).1 == id <==> Target(t, g, now) == Some(id)
  {
    hide Target, Remember, Linked;
  }
}
