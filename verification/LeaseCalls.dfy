/**
 Undisturbed calls of a lease keeper (leases.py, `hold` and `release`), step by step on the state
 machine of `JobLeases`: who gets a name, until when, and who gets it after a release.
 */
module LeaseCalls {
  import opened Options
  import opened JobLeases

  /** The clock reading, the committed transaction and the bookkeeping of one `hold`. */
  ghost function AfterHold(s: System, slot: Slot, ttl: Time): System {
    Next(Next(Next(s, ReadClock(slot, ttl)), Transact(slot, Committed)), Record(slot))
  }

  /** Both halves of one `release`. */
  ghost function AfterRelease(s: System, slot: Slot, delivered: bool): System {
    Next(Next(s, Drop(slot)), Free(slot, delivered))
  }

  /** Another process has a row for the name that has not expired. */
  ghost predicate TakenByAnother(s: System, slot: Slot) {
    slot.1 in s.rows && s.rows[slot.1].owner != slot.0 && s.rows[slot.1].expires >= s.clock
  }

  /** The process holds the name, by a row of its own, for the time asked for or one second. */
  ghost predicate HasUntil(t: System, slot: Slot, expires: Time) {
    && Holds(t, slot) && t.held[slot] == expires
    && slot.1 in t.rows && t.rows[slot.1].owner == slot.0 && t.rows[slot.1].expires == expires
  }

  /** An undisturbed `hold`, first claim or renewal, early or late, shorter or longer, wins if and
      only if no other process has an unexpired row; a lost one changes no row. */
  lemma HoldWinsIff(s: System, slot: Slot, ttl: Time)
    requires slot !in s.calls
    ensures var t := AfterHold(s, slot, ttl);
            && t.clock == s.clock && slot !in t.calls
            && (HasUntil(t, slot, s.clock + if ttl < 1.0 then 1.0 else ttl) <==> !TakenByAnother(s, slot))
            && (TakenByAnother(s, slot) ==> t.rows == s.rows && slot !in t.held)
            && (forall other: Slot | other != slot :: other in t.held <==> other in s.held)
            && (forall other: Slot | other != slot && other in s.held :: t.held[other] == s.held[other])
            && (forall name | name != slot.1 :: Lookup(t.rows, name) == Lookup(s.rows, name))
  {
    var s1 := Next(s, ReadClock(slot, ttl));
    var s2 := Next(s1, Transact(slot, Committed));
    assert s1.calls[slot] == Timed(s.clock, s.clock + Ttl(ttl));
    assert s2.calls[slot].Answered?;
  }

  /** A renewal keeps the time of the first claim, a new claim starts it. */
  lemma HoldStamps(s: System, slot: Slot, ttl: Time)
    requires slot !in s.calls && !TakenByAnother(s, slot)
    ensures var t := AfterHold(s, slot, ttl);
            && slot.1 in t.rows && t.rows[slot.1].renewed == s.clock
            && t.rows[slot.1].acquired ==
               if slot.1 in s.rows && s.rows[slot.1].owner == slot.0 then s.rows[slot.1].acquired else s.clock
  {
    var s1 := Next(s, ReadClock(slot, ttl));
    assert s1.calls[slot] == Timed(s.clock, s.clock + Ttl(ttl));
  }

  /** Without a confirmed commit the process does not hold the name, whatever it held before; the row
      is as after a confirmed one if the commit came through, and untouched if it did not. */
  lemma UnconfirmedIsNotHeld(s: System, slot: Slot, ttl: Time, commit: Commit)
    requires slot !in s.calls && commit != Committed
    ensures var t := Next(Next(Next(s, ReadClock(slot, ttl)), Transact(slot, commit)), Record(slot));
            && slot !in t.held
            && t.rows == (if commit == FailedAfter then AfterHold(s, slot, ttl).rows else s.rows)
            && (forall other: Slot | other != slot :: other in t.held <==> other in s.held)
  {
    var s1 := Next(s, ReadClock(slot, ttl));
    assert s1.calls[slot] == Timed(s.clock, s.clock + Ttl(ttl));
    var s2 := Next(s1, Transact(slot, commit));
    assert s2.calls[slot].Answered?;
  }

  /** A release drops the local entry and, if it reaches the table, expires the process's own row
      and no other. */
  lemma ReleaseExpiresOwnRow(s: System, slot: Slot, delivered: bool)
    requires slot !in s.calls
    ensures var t := AfterRelease(s, slot, delivered);
            && slot !in t.held && slot !in t.calls && t.clock == s.clock
            && (forall name | name != slot.1 :: Lookup(t.rows, name) == Lookup(s.rows, name))
            && (slot.1 in t.rows <==> slot.1 in s.rows)
            && (slot.1 in s.rows ==>
                  && t.rows[slot.1].owner == s.rows[slot.1].owner
                  && t.rows[slot.1].expires ==
                     if delivered && s.rows[slot.1].owner == slot.0 then 0.0 else s.rows[slot.1].expires)
  {
    var s1 := Next(s, Drop(slot));
    assert s1.calls[slot] == Freeing;
  }

  /** After a delivered release the next process gets the name at once. */
  lemma ReleasedNameIsFree(s: System, slot: Slot, rival: Slot, ttl: Time)
    requires slot !in s.calls && rival !in s.calls && rival.1 == slot.1 && rival != slot
    requires slot.1 in s.rows && s.rows[slot.1].owner == slot.0 && s.clock > 0.0
    ensures var t := AfterRelease(s, slot, true);
            HasUntil(AfterHold(t, rival, ttl), rival, s.clock + if ttl < 1.0 then 1.0 else ttl)
  {
    hide AfterHold, HasUntil;
    ReleaseExpiresOwnRow(s, slot, true);
    OthersStayIdle(s, slot, rival);
    HoldWinsIff(AfterRelease(s, slot, true), rival, ttl);
  }

  lemma OthersStayIdle(s: System, slot: Slot, rival: Slot)
    requires rival !in s.calls && rival != slot
    ensures rival !in AfterRelease(s, slot, true).calls
  {
  }
}
