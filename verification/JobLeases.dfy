/**
 Job leases (leases.py): a row per job in a shared table, claimed or renewed by one
 conditional UPDATE, and a local expiry in every process that won.

 `LeaseKeeper` is one process's object against the shared `LeaseTable`; the state
 machine below interleaves any number of processes at the points where they touch
 the clock, the table and their own dictionary.
 */
module JobLeases {
  import opened Options

  type Owner = string
  type Name = string
  type Time = real

  datatype Row = Row(owner: Owner, expires: Time, acquired: Time, renewed: Time)

  /** INSERT ... ON CONFLICT DO NOTHING, then the conditional UPDATE; the flag is
      `rowcount == 1`. */
  function Claim(row: Option<Row>, owner: Owner, now: Time, expires: Time): (Row, bool) {
    var r := match row case None => Row(owner, expires, now, now) case Some(r) => r;
    if r.owner == owner || r.expires < now then
      (Row(owner, expires, if r.owner == owner then r.acquired else now, now), true)
    else (r, false)
  }

  function Lookup(rows: map<Name, Row>, name: Name): Option<Row> {
    if name in rows then Some(rows[name]) else None
  }

  function Surrendered(rows: map<Name, Row>, owner: Owner, name: Name): map<Name, Row> {
    if name in rows && rows[name].owner == owner then rows[name := rows[name].(expires := 0.0)] else rows
  }

  /** The lease time asked for, at least one second. */
  function Ttl(seconds: Time): Time { if seconds < 1.0 then 1.0 else seconds }

  /** How a transaction ended: an exception may come before or after the commit. */
  datatype Commit = Committed | FailedBefore | FailedAfter

  // ---- One process -------------------------------------------------------

  class LeaseTable {
    var rows: map<Name, Row>

    constructor ()
      ensures rows == map[]
    {
      rows := map[];
    }

    method Update(owner: Owner, name: Name, now: Time, expires: Time, commit: Commit) returns (won: bool)
      modifies this
      ensures var claim := Claim(Lookup(old(rows), name), owner, now, expires);
              && rows == (if commit == FailedBefore then old(rows) else old(rows)[name := claim.0])
              && won == (commit == Committed && claim.1)
    {
      if commit == FailedBefore { return false; }
      if name !in rows {
        rows := rows[name := Row(owner, expires, now, now)];
      }
      var r := rows[name];
      var matched := r.owner == owner || r.expires < now;
      if matched {
        rows := rows[name := Row(owner, expires, if r.owner == owner then r.acquired else now, now)];
      }
      return matched && commit == Committed;
    }

    method Free(owner: Owner, name: Name)
      modifies this
      ensures rows == Surrendered(old(rows), owner, name)
    {
      if name in rows && rows[name].owner == owner {
        rows := rows[name := rows[name].(expires := 0.0)];
      }
    }
  }

  class LeaseKeeper {
    const owner: Owner
    const table: LeaseTable
    var held: map<Name, Time>

    constructor (owner: Owner, table: LeaseTable)
      ensures this.owner == owner && this.table == table && held == map[]
    {
      this.owner := owner;
      this.table := table;
      held := map[];
    }

    /** Claim or renew; the process may run the job only if the commit was confirmed. */
    method Hold(name: Name, ttl: Time, now: Time, commit: Commit) returns (won: bool)
      modifies this`held, table
      ensures var claim := Claim(Lookup(old(table.rows), name), owner, now, now + Ttl(ttl));
              && table.rows == (if commit == FailedBefore then old(table.rows) else old(table.rows)[name := claim.0])
              && won == (commit == Committed && claim.1)
      ensures held == if won then old(held)[name := now + Ttl(ttl)] else old(held) - {name}
    {
      var expires := now + Ttl(ttl);
      won := table.Update(owner, name, now, expires, commit);
      if won {
        held := held[name := expires];
      } else {
        held := held - {name};
      }
    }

    function Holds(name: Name, now: Time): bool
      reads this
    {
      name in held && held[name] > now
    }

    method Release(name: Name, delivered: bool)
      modifies this`held, table
      ensures held == old(held) - {name}
      ensures table.rows == if delivered then Surrendered(old(table.rows), owner, name) else old(table.rows)
    {
      held := held - {name};
      if delivered {
        table.Free(owner, name);
      }
    }
  }

  // ---- All processes -----------------------------------------------------

  /** Where a process is inside a call for one name; no entry means no call. */
  datatype Call =
    | Timed(now: Time, expires: Time)          // hold has read the clock
    | Answered(expires: Time, won: bool)       // hold's transaction has ended
    | Freeing                                  // release has dropped the local entry

  type Slot = (Owner, Name)

  datatype System = System(clock: Time, rows: map<Name, Row>, held: map<Slot, Time>, calls: map<Slot, Call>)

  datatype Event =
    | Pass(seconds: Time)
    | ReadClock(slot: Slot, ttl: Time)
    | Transact(slot: Slot, commit: Commit)
    | Record(slot: Slot)
    | Drop(slot: Slot)
    | Free(slot: Slot, delivered: bool)
    | Crash(owner: Owner)

  /** An event that is not enabled changes nothing. */
  function Next(s: System, e: Event): System {
    match e
    case Pass(seconds) => if seconds > 0.0 then s.(clock := s.clock + seconds) else s
    case ReadClock(slot, ttl) =>
      if slot in s.calls then s
      else s.(calls := s.calls[slot := Timed(s.clock, s.clock + Ttl(ttl))])
    case Transact(slot, commit) =>
      if slot !in s.calls || !s.calls[slot].Timed? then s
      else
        var claim := Claim(Lookup(s.rows, slot.1), slot.0, s.calls[slot].now, s.calls[slot].expires);
        s.(rows := if commit == FailedBefore then s.rows else s.rows[slot.1 := claim.0],
           calls := s.calls[slot := Answered(s.calls[slot].expires, commit == Committed && claim.1)])
    case Record(slot) =>
      if slot !in s.calls || !s.calls[slot].Answered? then s
      else
        s.(held := if s.calls[slot].won then s.held[slot := s.calls[slot].expires] else s.held - {slot},
           calls := s.calls - {slot})
    case Drop(slot) =>
      if slot in s.calls then s
      else s.(held := s.held - {slot}, calls := s.calls[slot := Freeing])
    case Free(slot, delivered) =>
      if slot !in s.calls || !s.calls[slot].Freeing? then s
      else
        s.(rows := if delivered then Surrendered(s.rows, slot.0, slot.1) else s.rows, calls := s.calls - {slot})
    case Crash(owner) =>
      s.(held := map k | k in s.held && k.0 != owner :: s.held[k],
         calls := map k | k in s.calls && k.0 != owner :: s.calls[k])
  }

  function Run(s: System, events: seq<Event>): System
    decreases |events|
  {
    if events == [] then s else Run(Next(s, events[0]), events[1..])
  }

  predicate Holds(s: System, slot: Slot) { slot in s.held && s.held[slot] > s.clock }

  ghost predicate Exclusive(s: System) {
    forall a, b | a in s.held && b in s.held && a.1 == b.1 && Holds(s, a) && Holds(s, b) :: a.0 == b.0
  }

  /** A call that would end before the expiry its process still keeps. */
  predicate Shortens(s: System, e: Event) {
    e.ReadClock? && e.slot !in s.calls && e.slot in s.held && s.clock + Ttl(e.ttl) < s.held[e.slot]
  }

  predicate NeverShortens(s: System, events: seq<Event>)
    decreases |events|
  {
    events == [] || (!Shortens(s, events[0]) && NeverShortens(Next(s, events[0]), events[1..]))
  }

  // ---- The invariant -----------------------------------------------------

  /** `expires` is backed by the owner's row, or already past. */
  ghost predicate Backed(s: System, slot: Slot, expires: Time) {
    || expires < s.clock
    || (slot.1 in s.rows && s.rows[slot.1].owner == slot.0 && expires <= s.rows[slot.1].expires)
  }

  ghost predicate CallOk(s: System, slot: Slot)
    requires slot in s.calls
  {
    match s.calls[slot]
    case Timed(now, expires) => now <= s.clock && now < expires && (slot in s.held ==> s.held[slot] <= expires)
    case Answered(expires, won) => (won ==> Backed(s, slot, expires)) && (slot in s.held ==> s.held[slot] <= expires)
    case Freeing => slot !in s.held
  }

  ghost predicate Invariant(s: System) {
    && (forall slot | slot in s.held :: Backed(s, slot, s.held[slot]))
    && (forall slot | slot in s.calls :: CallOk(s, slot))
  }

  lemma InvariantExcludes(s: System)
    requires Invariant(s)
    ensures Exclusive(s)
  {
  }

  /** A transaction changes one row, to a later expiry of the same owner or to another
      owner after the old expiry. */
  lemma TransactKeepsBacked(s: System, e: Event, slot: Slot, expires: Time)
    requires Invariant(s) && e.Transact? && Backed(s, slot, expires)
    requires slot == e.slot && slot in s.calls && s.calls[slot].Timed? ==> expires <= s.calls[slot].expires
    ensures Backed(Next(s, e), slot, expires)
  {
  }

  lemma TransactKeepsInvariant(s: System, e: Event)
    requires Invariant(s) && e.Transact? && e.slot in s.calls && s.calls[e.slot].Timed?
    ensures Invariant(Next(s, e))
  {
    var t := Next(s, e);
    assert CallOk(s, e.slot);
    forall slot | slot in t.held
      ensures Backed(t, slot, t.held[slot])
    {
      TransactKeepsBacked(s, e, slot, s.held[slot]);
    }
    forall slot | slot in t.calls
      ensures CallOk(t, slot)
    {
      assert CallOk(s, slot);
      if slot != e.slot && s.calls[slot].Answered? && s.calls[slot].won {
        TransactKeepsBacked(s, e, slot, s.calls[slot].expires);
      }
    }
  }

  lemma NextKeepsInvariant(s: System, e: Event)
    requires Invariant(s) && !Shortens(s, e)
    ensures Invariant(Next(s, e))
  {
    if e.Transact? {
      if e.slot in s.calls && s.calls[e.slot].Timed? {
        TransactKeepsInvariant(s, e);
      }
    }
  }

  // ---- Mutual exclusion --------------------------------------------------

  /** At most one process holds a name, after every run in which no hold asks for less
      time than its process still has. */
  lemma {:induction false} RunsExclude(s: System, events: seq<Event>)
    requires Invariant(s) && NeverShortens(s, events)
    ensures Invariant(Run(s, events)) && Exclusive(Run(s, events))
    decreases |events|
  {
    if events == [] {
      InvariantExcludes(s);
    } else {
      NextKeepsInvariant(s, events[0]);
      RunsExclude(Next(s, events[0]), events[1..]);
    }
  }

  // ---- Fixed terms -----------------------------------------------------------

  /** Every claim of a name asks for the same time. */
  predicate FixedTerms(events: seq<Event>, term: Name -> Time) {
    forall i | 0 <= i < |events| && events[i].ReadClock? :: events[i].ttl == term(events[i].slot.1)
  }

  /** No expiry lies more than the name's term ahead. */
  ghost predicate WithinTerms(s: System, term: Name -> Time) {
    && (forall slot | slot in s.held :: s.held[slot] <= s.clock + Ttl(term(slot.1)))
    && (forall slot | slot in s.calls ::
          match s.calls[slot]
          case Timed(_, expires) => expires <= s.clock + Ttl(term(slot.1))
          case Answered(expires, _) => expires <= s.clock + Ttl(term(slot.1))
          case Freeing => true)
  }

  lemma NextWithinTerms(s: System, e: Event, term: Name -> Time)
    requires WithinTerms(s, term) && (e.ReadClock? ==> e.ttl == term(e.slot.1))
    ensures WithinTerms(Next(s, e), term) && !Shortens(s, e)
  {
    hide Ttl;
  }

  /** With one fixed term per name and a clock that never goes back, no hold ever shortens. */
  lemma {:induction false} FixedTermsNeverShorten(s: System, events: seq<Event>, term: Name -> Time)
    requires WithinTerms(s, term) && FixedTerms(events, term)
    ensures NeverShortens(s, events)
    decreases |events|
  {
    hide WithinTerms, Next, Shortens;
    if events != [] {
      NextWithinTerms(s, events[0], term);
      assert forall i | 0 <= i < |events| - 1 :: events[1..][i] == events[i + 1];
      FixedTermsNeverShorten(Next(s, events[0]), events[1..], term);
    }
  }

  /** At most one process holds a name, in every interleaving of clock readings, updates, local
      bookkeeping, releases, failed or unconfirmed commits and crashes. */
  lemma FixedTermsExclude(clock: Time, events: seq<Event>, term: Name -> Time)
    requires FixedTerms(events, term)
    ensures Exclusive(Run(System(clock, map[], map[], map[]), events))
  {
    var s := System(clock, map[], map[], map[]);
    FixedTermsNeverShorten(s, events, term);
    ExclusionFromStart(clock, events);
  }

  lemma ExclusionFromStart(clock: Time, events: seq<Event>)
    requires NeverShortens(System(clock, map[], map[], map[]), events)
    ensures Exclusive(Run(System(clock, map[], map[], map[]), events))
  {
    RunsExclude(System(clock, map[], map[], map[]), events);
  }

  /** A row passes to another owner only when every expiry the old owner keeps, or is
      about to keep, has passed. */
  lemma TakeoverAfterExpiry(s: System, e: Event, name: Name)
    requires Invariant(s) && !Shortens(s, e) && name in s.rows
    ensures var t := Next(s, e);
            name in t.rows && (t.rows[name].owner != s.rows[name].owner ==>
              var slot := (s.rows[name].owner, name);
              && (slot in s.held ==> s.held[slot] < s.clock)
              && (slot in s.calls && s.calls[slot].Answered? && s.calls[slot].won ==> s.calls[slot].expires < s.clock))
  {
    var slot := (s.rows[name].owner, name);
    assert slot in s.calls ==> CallOk(s, slot);
    assert e.Transact? && e.slot in s.calls ==> CallOk(s, e.slot);
  }

  /** The schedule by which `other` overtakes a holder that cut its own lease short. */
  function Overtaking(slot: Slot, other: Slot, wait: Time): seq<Event> {
    [Transact(slot, Committed), Pass(wait), ReadClock(other, 1.0), Transact(other, Committed), Record(other)]
  }

  lemma RunOne(s: System, e: Event, rest: seq<Event>)
    ensures Run(s, [e] + rest) == Run(Next(s, e), rest)
    ensures NeverShortens(s, [e] + rest) <==> !Shortens(s, e) && NeverShortens(Next(s, e), rest)
  {
    assert ([e] + rest)[1..] == rest;
  }

  lemma RunFive(s: System, a: Event, b: Event, c: Event, d: Event, e: Event)
    ensures Run(s, [a, b, c, d, e]) == Next(Next(Next(Next(Next(s, a), b), c), d), e)
    ensures NeverShortens(s, [a, b, c, d, e]) <==>
      var s1 := Next(s, a); var s2 := Next(s1, b); var s3 := Next(s2, c); var s4 := Next(s3, d);
      !Shortens(s, a) && !Shortens(s1, b) && !Shortens(s2, c) && !Shortens(s3, d) && !Shortens(s4, e)
  {
    var s1 := Next(s, a);
    var s2 := Next(s1, b);
    var s3 := Next(s2, c);
    var s4 := Next(s3, d);
    RunOne(s4, e, []);
    RunOne(s3, d, [e]);
    RunOne(s2, c, [d, e]);
    RunOne(s1, b, [c, d, e]);
    RunOne(s, a, [b, c, d, e]);
  }

  lemma ShorteningBreaksExclusion(s: System, slot: Slot, ttl: Time, other: Slot)
    requires Invariant(s) && Shortens(s, ReadClock(slot, ttl))
    requires other.1 == slot.1 && other.0 != slot.0 && other !in s.calls
    ensures var t := Next(s, ReadClock(slot, ttl));
            exists events :: NeverShortens(t, events) && !Exclusive(Run(t, events))
  {
    var t := Next(s, ReadClock(slot, ttl));
    var early, late := s.clock + Ttl(ttl), s.held[slot];
    var wait := (early + late) / 2.0 - s.clock;
    assert Backed(s, slot, late);
    assert other in s.held ==> Backed(s, other, s.held[other]);
    var events := Overtaking(slot, other, wait);
    var t1 := Next(t, events[0]);
    assert t1.rows[slot.1].owner == slot.0 && t1.rows[slot.1].expires == early;
    var t2 := Next(t1, events[1]);
    var t3 := Next(t2, events[2]);
    var t4 := Next(t3, events[3]);
    assert t4.calls[other] == Answered(t2.clock + 1.0, true);
    var t5 := Next(t4, events[4]);
    RunFive(t, events[0], events[1], events[2], events[3], events[4]);
    assert events == [events[0], events[1], events[2], events[3], events[4]];
    assert Holds(t5, slot) && Holds(t5, other);
  }

  /** The exact condition on a call of `hold`: with a rival about, exclusion survives it
      in every continuation if and only if the new expiry is not before the kept one. */
  lemma ExclusionIffNotShortened(s: System, slot: Slot, ttl: Time, other: Slot)
    requires Invariant(s)
    requires other.1 == slot.1 && other.0 != slot.0 && other !in s.calls
    ensures var t := Next(s, ReadClock(slot, ttl));
            (forall events :: NeverShortens(t, events) ==> Exclusive(Run(t, events)))
            <==> !Shortens(s, ReadClock(slot, ttl))
  {
    var t := Next(s, ReadClock(slot, ttl));
    if Shortens(s, ReadClock(slot, ttl)) {
      ShorteningBreaksExclusion(s, slot, ttl, other);
    } else {
      NextKeepsInvariant(s, ReadClock(slot, ttl));
      forall events | NeverShortens(t, events)
        ensures Exclusive(Run(t, events))
      {
        RunsExclude(t, events);
      }
    }
  }
}
