/**
 Detection schedules (detection.py, `_minute` and `in_window`): the branches of the code
 against interval arithmetic on one line of minutes, overnight windows included. A day is its
 ordinal number, day 1 being a Monday.
 */
module ScheduleWindows {
  import opened Options

  const DAY := 1440

  // ---- Clock times ------------------------------------------------------------------

  predicate IsDigit(c: char) { '0' <= c <= '9' }

  function DigitOf(c: char): int
    requires IsDigit(c)
  {
    c as int - '0' as int
  }

  /** `int(s)` for two characters: a sign or a blank may stand for one of them. */
  function IntOf(a: char, b: char): Option<int> {
    if IsDigit(a) && IsDigit(b) then Some(DigitOf(a) * 10 + DigitOf(b))
    else if IsDigit(b) && (a == '+' || IsBlank(a)) then Some(DigitOf(b))
    else if IsDigit(b) && a == '-' then Some(-DigitOf(b))
    else if IsDigit(a) && IsBlank(b) then Some(DigitOf(a))
    else None
  }

  predicate IsBlank(c: char) { c in " \t\n\r" }

  /** `_minute`; `None` for the errors. */
  function Minute(s: string): Option<int> {
    if |s| != 5 || s[2] != ':' then None
    else
      var h, m := IntOf(s[0], s[1]), IntOf(s[3], s[4]);
      if h.None? || m.None? || !(0 <= h.value < 24) || !(0 <= m.value < 60) then None
      else Some(h.value * 60 + m.value)
  }

  function DigitChar(n: int): char
    requires 0 <= n < 10
  {
    '0' + n as char
  }

  /** The text of a minute of the day. */
  function Clock(minute: int): string
    requires 0 <= minute < DAY
  {
    var h, m := minute / 60, minute % 60;
    [DigitChar(h / 10), DigitChar(h % 10), ':', DigitChar(m / 10), DigitChar(m % 10)]
  }

  lemma DigitsRead(n: int)
    requires 0 <= n < 100
    ensures IntOf(DigitChar(n / 10), DigitChar(n % 10)) == Some(n)
  {
  }

  /** Every minute of the day has a text that reads back as that minute. */
  lemma ClockReadsBack(minute: int)
    requires 0 <= minute < DAY
    ensures Minute(Clock(minute)) == Some(minute)
  {
    DigitsRead(minute / 60);
    DigitsRead(minute % 60);
  }

  lemma DigitsAreUnique(a: char, b: char, n: int)
    requires IsDigit(a) && IsDigit(b) && IntOf(a, b) == Some(n)
    ensures 0 <= n < 100 && a == DigitChar(n / 10) && b == DigitChar(n % 10)
  {
  }

  /** An accepted text is a minute of the day, and its only text unless it has a sign or a
      blank in place of a digit. */
  lemma AcceptedTexts(s: string)
    requires Minute(s).Some?
    ensures 0 <= Minute(s).value < DAY
    ensures s == Clock(Minute(s).value) <==> IsDigit(s[0]) && IsDigit(s[1]) && IsDigit(s[3]) && IsDigit(s[4])
  {
    var minute := Minute(s).value;
    var h, m := IntOf(s[0], s[1]).value, IntOf(s[3], s[4]).value;
    assert minute / 60 == h && minute % 60 == m;
    if IsDigit(s[0]) && IsDigit(s[1]) && IsDigit(s[3]) && IsDigit(s[4]) {
      DigitsAreUnique(s[0], s[1], h);
      DigitsAreUnique(s[3], s[4], m);
      assert s == Clock(minute);
    }
  }

  /** A sign or a blank may stand in front of a single digit of an hour, and a blank behind it; a minus
      makes every hour but midnight's an error. */
  lemma SingleDigitHours(hour: int, minute: int, c: char)
    requires 0 <= hour < 10 && 0 <= minute < 60
    ensures var tail := Clock(minute)[2..];
            && (c in "+ \t\n\r" ==> Minute([c, DigitChar(hour)] + tail) == Some(hour * 60 + minute))
            && (c in " \t\n\r" ==> Minute([DigitChar(hour), c] + tail) == Some(hour * 60 + minute))
            && Minute(['-', DigitChar(hour)] + tail) == if hour == 0 then Some(minute) else None
  {
    DigitsRead(minute);
  }

  // ---- Windows -----------------------------------------------------------------------

  /** Dates are kept as text; start and end are minutes of the day. */
  datatype Schedule = Schedule(start: int, end: int, weekdays: set<int>, dates: seq<string>, excluded: seq<string>)

  /** The date texts: the text of a day, and the day a text names. */
  datatype Calendar = Calendar(iso: int -> string, parse: string -> Option<int>)

  ghost predicate IsCalendar(c: Calendar) { forall day :: c.parse(c.iso(day)) == Some(day) }

  /** What the configuration demands. */
  ghost predicate ValidSchedule(s: Schedule) {
    0 <= s.start < DAY && 0 <= s.end < DAY && s.start != s.end
  }

  function Weekday(day: int): int { (day + 6) % 7 }

  /** Monday is zero, and the first day of the calendar was one. */
  lemma WeekdaysCycle(day: int)
    ensures 0 <= Weekday(day) <= 6 && Weekday(1) == 0
    ensures Weekday(day + 1) == if Weekday(day) == 6 then 0 else Weekday(day) + 1
  {
  }

  /** The anchor day of a minute, if it is in some window at all. */
  function AnchorOf(s: Schedule, day: int, minute: int): Option<int> {
    if s.start < s.end then if s.start <= minute < s.end then Some(day) else None
    else if minute >= s.start then Some(day)
    else if minute < s.end then Some(day - 1)
    else None
  }

  /** `in_window` on a local day and minute. */
  predicate InWindow(c: Calendar, s: Schedule, day: int, minute: int) {
    var anchor := AnchorOf(s, day, minute);
    anchor.Some?
    && c.iso(anchor.value) !in s.excluded && c.iso(day) !in s.excluded
    && (Weekday(anchor.value) in s.weekdays || c.iso(anchor.value) in s.dates)
  }

  // ---- The meaning -----------------------------------------------------------------------

  /** Some text of the list names the day. */
  ghost predicate Names(c: Calendar, texts: seq<string>, day: int) {
    exists t :: t in texts && c.parse(t) == Some(day)
  }

  function Length(s: Schedule): int { (s.end - s.start) % DAY }

  /** The minute lies in the interval that starts on the anchor day. */
  predicate Covers(s: Schedule, anchor: int, day: int, minute: int) {
    anchor * DAY + s.start <= day * DAY + minute < anchor * DAY + s.start + Length(s)
  }

  ghost predicate Applies(c: Calendar, s: Schedule, anchor: int, day: int) {
    (Weekday(anchor) in s.weekdays || Names(c, s.dates, anchor))
    && !Names(c, s.excluded, anchor) && !Names(c, s.excluded, day)
  }

  ghost predicate Meant(c: Calendar, s: Schedule, day: int, minute: int) {
    exists anchor :: Covers(s, anchor, day, minute) && Applies(c, s, anchor, day)
  }

  lemma LengthIs(s: Schedule)
    requires ValidSchedule(s)
    ensures Length(s) == if s.start < s.end then s.end - s.start else s.end - s.start + DAY
  {
  }

  /** Exactly the anchor that the branches compute covers the minute. */
  lemma AnchorIsUnique(s: Schedule, day: int, minute: int, anchor: int)
    requires ValidSchedule(s) && 0 <= minute < DAY
    ensures Covers(s, anchor, day, minute) <==> AnchorOf(s, day, minute) == Some(anchor)
  {
    LengthIs(s);
    hide Length;
    if anchor < day - 1 {
      assert anchor * DAY + 2 * DAY <= day * DAY;
    } else if anchor > day {
      assert anchor * DAY >= day * DAY + DAY;
    }
  }

  /** For every named day the list also has the day's own text. */
  ghost predicate SpelledOut(c: Calendar, texts: seq<string>) {
    forall t | t in texts && c.parse(t).Some? :: c.iso(c.parse(t).value) in texts
  }

  /** Comparing texts finds exactly the named days when the days are spelled out, and only then. */
  lemma NamesIffSpelled(c: Calendar, texts: seq<string>)
    requires IsCalendar(c)
    ensures (forall day :: c.iso(day) in texts <==> Names(c, texts, day)) <==> SpelledOut(c, texts)
  {
    forall day
      ensures c.iso(day) in texts ==> Names(c, texts, day)
    {
      if c.iso(day) in texts {
        assert c.parse(c.iso(day)) == Some(day);
      }
    }
    if forall day :: c.iso(day) in texts <==> Names(c, texts, day) {
      forall t | t in texts && c.parse(t).Some?
        ensures c.iso(c.parse(t).value) in texts
      {
        assert Names(c, texts, c.parse(t).value);
      }
    }
  }

  /** The branches equal the interval arithmetic, with a unique anchor day, for schedules whose
      dates are all spelled as the days print. */
  lemma InWindowIsInterval(c: Calendar, s: Schedule, day: int, minute: int)
    requires IsCalendar(c) && ValidSchedule(s) && 0 <= minute < DAY
    requires SpelledOut(c, s.dates) && SpelledOut(c, s.excluded)
    ensures InWindow(c, s, day, minute) <==> Meant(c, s, day, minute)
    ensures forall a, b | Covers(s, a, day, minute) && Covers(s, b, day, minute) :: a == b
  {
    NamesIffSpelled(c, s.dates);
    NamesIffSpelled(c, s.excluded);
    hide Covers, AnchorOf, SpelledOut, Names, Weekday;
    forall anchor
      ensures Covers(s, anchor, day, minute) <==> AnchorOf(s, day, minute) == Some(anchor)
    {
      AnchorIsUnique(s, day, minute, anchor);
    }
  }

  // ---- Every valid schedule ---------------------------------------------------------------

  /** The day is a listed weekday or its own text is a listed date. */
  predicate Listed(c: Calendar, s: Schedule, day: int) { Weekday(day) in s.weekdays || c.iso(day) in s.dates }

  /** The window runs past midnight into a day of its own. */
  predicate Overnight(s: Schedule) { s.start > s.end > 0 }

  /** Every date text names a day that is listed by its own text or a weekday, or is excluded. */
  ghost predicate DatesTell(c: Calendar, s: Schedule) {
    forall t, d | t in s.dates && c.parse(t) == Some(d) :: Listed(c, s, d) || Names(c, s.excluded, d)
  }

  /** Every excluded text names a day whose own text is excluded, or a day on which nothing is
      listed that could reach into it. */
  ghost predicate ExclusionsTell(c: Calendar, s: Schedule) {
    forall t, d | t in s.excluded && c.parse(t) == Some(d) ::
      c.iso(d) in s.excluded || Harmless(c, s, d)
  }

  predicate Harmless(c: Calendar, s: Schedule, d: int) {
    !Listed(c, s, d) && (Overnight(s) ==> !Listed(c, s, d - 1) || c.iso(d - 1) in s.excluded)
  }

  /** What the code and the meaning say of an anchor day and the day of the minute. */
  predicate Runs(c: Calendar, s: Schedule, anchor: int, day: int) {
    Listed(c, s, anchor) && c.iso(anchor) !in s.excluded && c.iso(day) !in s.excluded
  }

  lemma AtAnchor(c: Calendar, s: Schedule, day: int, minute: int)
    requires ValidSchedule(s) && 0 <= minute < DAY
    ensures var a := AnchorOf(s, day, minute);
            && (InWindow(c, s, day, minute) <==> a.Some? && Runs(c, s, a.value, day))
            && (Meant(c, s, day, minute) <==> a.Some? && Applies(c, s, a.value, day))
  {
    hide AnchorOf, Covers, Applies;
    forall anchor
      ensures Covers(s, anchor, day, minute) <==> AnchorOf(s, day, minute) == Some(anchor)
    {
      AnchorIsUnique(s, day, minute, anchor);
    }
  }

  /** An own text is a name. */
  lemma TextNames(c: Calendar, texts: seq<string>, day: int)
    requires IsCalendar(c) && c.iso(day) in texts
    ensures Names(c, texts, day)
  {
    assert c.parse(c.iso(day)) == Some(day);
  }

  /** Anchor and day as minutes can have them. */
  predicate Reaches(s: Schedule, anchor: int, day: int) { anchor == day || (Overnight(s) && anchor == day - 1) }

  lemma AnchorReaches(s: Schedule, day: int, minute: int)
    requires ValidSchedule(s) && 0 <= minute < DAY && AnchorOf(s, day, minute).Some?
    ensures Reaches(s, AnchorOf(s, day, minute).value, day)
  {
  }

  lemma ReachedByMinute(s: Schedule, anchor: int, day: int) returns (minute: int)
    requires ValidSchedule(s) && Reaches(s, anchor, day)
    ensures 0 <= minute < DAY && AnchorOf(s, day, minute) == Some(anchor)
  {
    minute := if anchor == day then s.start else 0;
  }

  /** Spelled so, code and meaning agree on every anchor. */
  lemma TellingAgrees(c: Calendar, s: Schedule, anchor: int, day: int)
    requires IsCalendar(c) && DatesTell(c, s) && ExclusionsTell(c, s) && Reaches(s, anchor, day)
    ensures Runs(c, s, anchor, day) <==> Applies(c, s, anchor, day)
  {
    hide Weekday;
    if Runs(c, s, anchor, day) {
      if c.iso(anchor) in s.dates {
        TextNames(c, s.dates, anchor);
      }
    } else if Applies(c, s, anchor, day) {
      if c.iso(anchor) in s.excluded {
        TextNames(c, s.excluded, anchor);
      }
      if c.iso(day) in s.excluded {
        TextNames(c, s.excluded, day);
      }
    }
  }

  /** A date that is neither listed nor excluded by its texts is a window that never opens. */
  lemma DateNotTold(c: Calendar, s: Schedule, t: string, d: int)
    requires t in s.dates && c.parse(t) == Some(d) && !Listed(c, s, d) && !Names(c, s.excluded, d)
    ensures Applies(c, s, d, d) && !Runs(c, s, d, d)
  {
    hide Weekday;
  }

  /** An exclusion that is not told is a window that opens on the excluded day. */
  lemma ExclusionNotTold(c: Calendar, s: Schedule, t: string, d: int) returns (anchor: int)
    requires t in s.excluded && c.parse(t) == Some(d) && c.iso(d) !in s.excluded && !Harmless(c, s, d)
    ensures Reaches(s, anchor, d) && Runs(c, s, anchor, d) && !Applies(c, s, anchor, d)
  {
    hide Weekday;
    anchor := if Listed(c, s, d) then d else d - 1;
    assert Names(c, s.excluded, d);
  }

  /** For every valid schedule the code means what the schedule says at every minute if and only
      if its date and exclusion texts tell their days.  The configuration accepts other
      spellings of a date, such as one without the leading zeros. */
  lemma WindowsMeanWhatTheySayIff(c: Calendar, s: Schedule)
    requires IsCalendar(c) && ValidSchedule(s)
    ensures (forall day, minute | 0 <= minute < DAY :: InWindow(c, s, day, minute) <==> Meant(c, s, day, minute))
            <==> DatesTell(c, s) && ExclusionsTell(c, s)
  {
    hide InWindow, Meant, Runs, Applies, AnchorOf, Harmless, Listed, Names, IsCalendar;
    if DatesTell(c, s) && ExclusionsTell(c, s) {
      forall day, minute | 0 <= minute < DAY
        ensures InWindow(c, s, day, minute) <==> Meant(c, s, day, minute)
      {
        AtAnchor(c, s, day, minute);
        if AnchorOf(s, day, minute).Some? {
          AnchorReaches(s, day, minute);
          TellingAgrees(c, s, AnchorOf(s, day, minute).value, day);
        }
      }
    } else {
      var day, minute := DisagreesSomewhere(c, s);
      assert !(InWindow(c, s, day, minute) <==> Meant(c, s, day, minute));
    }
  }

  lemma DisagreesSomewhere(c: Calendar, s: Schedule) returns (day: int, minute: int)
    requires IsCalendar(c) && ValidSchedule(s) && !(DatesTell(c, s) && ExclusionsTell(c, s))
    ensures 0 <= minute < DAY && (InWindow(c, s, day, minute) <==> !Meant(c, s, day, minute))
  {
    hide InWindow, Meant, Runs, Applies, AnchorOf, Harmless, Listed, Names, IsCalendar;
    var anchor: int;
    if !DatesTell(c, s) {
      var t, d :| t in s.dates && c.parse(t) == Some(d) && !(Listed(c, s, d) || Names(c, s.excluded, d));
      DateNotTold(c, s, t, d);
      anchor, day := d, d;
    } else {
      var t, d :| t in s.excluded && c.parse(t) == Some(d) && !(c.iso(d) in s.excluded || Harmless(c, s, d));
      anchor := ExclusionNotTold(c, s, t, d);
      day := d;
    }
    minute := ReachedByMinute(s, anchor, day);
    AtAnchor(c, s, day, minute);
  }

  /** The failing input: every weekday is listed and the fifth of January 2026 is excluded by a
      text without its zeros; the window opens on that day all the same. */
  lemma MisspelledExclusionIsIgnored(c: Calendar, day: int)
    requires IsCalendar(c) && c.parse("2026-1-5") == Some(day) && c.iso(day) == "2026-01-05"
    ensures var s := Schedule(480, 1020, {0, 1, 2, 3, 4, 5, 6}, [], ["2026-1-5"]);
            ValidSchedule(s) && InWindow(c, s, day, 720) && !Meant(c, s, day, 720)
  {
    var s := Schedule(480, 1020, {0, 1, 2, 3, 4, 5, 6}, [], ["2026-1-5"]);
    assert 0 <= Weekday(day) <= 6;
    assert "2026-1-5" in s.excluded;
    assert Names(c, s.excluded, day);
    AtAnchor(c, s, day, 720);
  }
}
