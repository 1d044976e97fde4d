/**
 How ports, repeated field filters, listed ids and page bounds of a search request are read
 (dashboard.py), each by what it selects.
 */
module LogQueryRequests {
  import opened Options
  import opened FieldIndex
  import opened LogSql
  import opened LogQuery
  import opened LogQueryMeaning
  import opened LogQueryReading

  // ---- Ports -------------------------------------------------------------------------

  /** `n` in exactly `width` decimal places, with leading zeros. */
  function Places(n: nat, width: nat): string {
    if width == 0 then "" else Places(n / 10, width - 1) + ["0123456789"[n % 10]]
  }

  predicate FitsPlaces(n: nat, width: nat) {
    1 <= width <= 5 && n < if width == 1 then 10 else if width == 2 then 100 else if width == 3 then 1000
                           else if width == 4 then 10000 else 100000
  }

  lemma DigitAt(d: nat)
    requires d < 10
    ensures "0123456789"[d] as int == '0' as int + d && '0' <= "0123456789"[d] <= '9' && "0123456789"[d] != '-'
  {
  }

  predicate Digits(t: string) { forall i | 0 <= i < |t| :: '0' <= t[i] <= '9' }

  /** Value and rendering are inverse. */
  lemma {:induction false} PlacesReadBack(n: nat, width: nat)
    requires n < Power(width)
    ensures |Places(n, width)| == width && Digits(Places(n, width)) && NumberIn(Places(n, width)) == n
    decreases width
  {
    if width > 0 {
      PlacesReadBack(n / 10, width - 1);
      DigitAt(n % 10);
      var t := Places(n, width);
      assert t[..|t| - 1] == Places(n / 10, width - 1);
    }
  }

  function Power(width: nat): nat { if width == 0 then 1 else 10 * Power(width - 1) }

  lemma PowersOfTen(n: nat, width: nat)
    requires 1 <= width <= 5
    ensures FitsPlaces(n, width) <==> n < Power(width)
  {
    assert Power(1) == 10 && Power(2) == 100 && Power(3) == 1000 && Power(4) == 10000 && Power(5) == 100000;
  }

  lemma {:induction false} DigitsArePlaces(t: string)
    requires Digits(t)
    ensures NumberIn(t) < Power(|t|) && Places(NumberIn(t), |t|) == t
    decreases |t|
  {
    if t != "" {
      DigitsArePlaces(t[..|t| - 1]);
      var d := t[|t| - 1] as int - '0' as int;
      DigitAt(d);
      assert NumberIn(t) / 10 == NumberIn(t[..|t| - 1]) && NumberIn(t) % 10 == d;
      assert t == t[..|t| - 1] + [t[|t| - 1]];
    }
  }

  /** One port, or two with a dash between them. */
  ghost predicate PortText(core: string, lo: nat, hi: nat, v: nat, w: nat) {
    && lo <= hi <= 65535 && FitsPlaces(lo, v) && FitsPlaces(hi, w)
    && ((core == Places(lo, v) && lo == hi) || core == Places(lo, v) + "-" + Places(hi, w))
  }

  /** The same between blanks. */
  ghost predicate NamesPorts(text: string, lo: nat, hi: nat) {
    exists before, core, after, v: nat, w: nat ::
      AllBlank(before) && AllBlank(after) && text == before + core + after && PortText(core, lo, hi, v, w)
  }

  lemma {:induction false} StripSplits(t: string) returns (before: string, after: string)
    ensures t == before + Strip(t) + after && AllBlank(before) && AllBlank(after)
    ensures Strip(t) == "" || Clean(Strip(t))
    decreases |t|
  {
    hide AllBlank, IsBlank, Clean;
    before, after := "", "";
    NoBlanks();
    if t != "" {
      if IsBlank(t[0]) {
        var b, a := StripSplits(t[1..]);
        LongerBlank(b, t[0]);
        before, after := [t[0]] + b, a;
        JoinThree(t[..1], b, Strip(t), a);
        assert t == t[..1] + t[1..];
      } else if IsBlank(t[|t| - 1]) {
        var b, a := StripSplits(t[..|t| - 1]);
        LongerBlank(a, t[|t| - 1]);
        before, after := b, a + [t[|t| - 1]];
        assert t == t[..|t| - 1] + [t[|t| - 1]];
      } else {
        CleanKeeps(t);
      }
    }
  }

  lemma JoinThree(x: string, b: string, core: string, a: string)
    ensures x + (b + core + a) == (x + b) + core + a
  {
  }

  lemma NoBlanks()
    ensures AllBlank("")
  {
  }

  lemma CleanKeeps(t: string)
    requires t != "" && !IsBlank(t[0]) && !IsBlank(t[|t| - 1])
    ensures Strip(t) == t && Clean(t)
  {
  }

  lemma LongerBlank(t: string, c: char)
    requires AllBlank(t) && IsBlank(c)
    ensures AllBlank([c] + t) && AllBlank(t + [c])
  {
  }

  lemma {:induction false} DashIsAt(a: string, rest: string)
    requires Digits(a) && (rest == "" || rest[0] == '-')
    ensures DashAt(a + rest) == |a|
    decreases |a|
  {
    if a == "" {
      assert a + rest == rest;
    } else {
      assert (a + rest)[1..] == a[1..] + rest;
      DashIsAt(a[1..], rest);
    }
  }

  lemma {:induction false} DashSplits(t: string)
    ensures DashAt(t) <= |t|
    ensures forall i | 0 <= i < DashAt(t) :: t[i] != '-'
    ensures DashAt(t) < |t| ==> t[DashAt(t)] == '-'
    decreases |t|
  {
    if t != "" && t[0] != '-' {
      DashSplits(t[1..]);
    }
  }

  lemma PlacesAreNumbers(n: nat, v: nat)
    requires FitsPlaces(n, v)
    ensures IsNumber(Places(n, v)) && NumberIn(Places(n, v)) == n && Digits(Places(n, v))
    ensures Clean(Places(n, v))
  {
    hide FitsPlaces, NumberIn, Places;
    FitsMeans(n, v);
    PowersOfTen(n, v);
    PlacesReadBack(n, v);
  }

  lemma FitsMeans(n: nat, v: nat)
    requires FitsPlaces(n, v)
    ensures 1 <= v <= 5
  {
  }

  lemma NumbersArePlaces(t: string)
    requires IsNumber(t)
    ensures FitsPlaces(NumberIn(t), |t|) && Places(NumberIn(t), |t|) == t
  {
    hide FitsPlaces, NumberIn, Places;
    DigitsArePlaces(t);
    PowersOfTen(NumberIn(t), |t|);
  }

  /** Such a text is read as the range it names. */
  lemma {:induction false} PortTextsAreRead(text: string, lo: nat, hi: nat)
    requires NamesPorts(text, lo, hi)
    ensures ParsePorts(text) == Range(lo, hi)
  {
    hide PortText, NumberIn, Places, Strip, FitsPlaces;
    var before, core, after, v: nat, w: nat :|
      AllBlank(before) && AllBlank(after) && text == before + core + after && PortText(core, lo, hi, v, w);
    CoreIsRead(core, lo, hi, v, w);
    StripDropsBlanks(before, core, after);
    StripKeeps(core);
    hide IsNumber, DashAt;
    SameCore(text, core);
  }

  lemma SameCore(text: string, core: string)
    requires Strip(text) == core == Strip(core)
    ensures ParsePorts(text) == ParsePorts(core)
  {
  }

  lemma CoreIsRead(core: string, lo: nat, hi: nat, v: nat, w: nat)
    requires PortText(core, lo, hi, v, w)
    ensures Clean(core) && ParsePorts(core) == Range(lo, hi)
  {
    hide NumberIn, Places, Strip, FitsPlaces, DashAt;
    PlacesAreNumbers(lo, v);
    PlacesAreNumbers(hi, w);
    var a, b := Places(lo, v), Places(hi, w);
    if core == a {
      DashIsAt(a, "");
      assert a + "" == a;
    } else {
      DashIsAt(a, "-" + b);
      assert core == a + ("-" + b);
      assert core[..|a|] == a && core[|a| + 1..] == b;
    }
    StripKeeps(core);
  }

  /** What is read as a range names it. */
  lemma {:induction false} RangesAreNamed(text: string)
    requires ParsePorts(text).Range?
    ensures NamesPorts(text, ParsePorts(text).lo, ParsePorts(text).hi)
  {
    hide NumberIn, Places, Strip, FitsPlaces, DashAt;
    var before, after := StripSplits(text);
    var core := Strip(text);
    DashSplits(core);
    var k := DashAt(core);
    var a, b := core[..k], if k < |core| then core[k + 1..] else core;
    NumbersArePlaces(a);
    NumbersArePlaces(b);
    if k < |core| {
      assert core == a + "-" + b;
    } else {
      assert core == a;
    }
    assert PortText(core, ParsePorts(text).lo, ParsePorts(text).hi, |a|, |b|);
  }

  /** Only blank texts name no port. */
  lemma {:induction false} NoPortsIffBlank(text: string)
    ensures ParsePorts(text) == NoPorts <==> AllBlank(text)
  {
    hide NumberIn, DashAt, IsNumber;
    if AllBlank(text) {
      StripDropsBlanks(text, "", "");
      assert text + "" + "" == text;
    }
    if Strip(text) == "" {
      EmptyMeansBlank(text);
    }
  }

  lemma EmptyMeansBlank(text: string)
    requires Strip(text) == ""
    ensures AllBlank(text)
  {
    var before, after := StripSplits(text);
    assert text == before + after;
  }

  ghost predicate Acceptable(text: string) {
    AllBlank(text) || exists lo: nat, hi: nat :: NamesPorts(text, lo, hi)
  }

  /** A request is refused on PostgreSQL if and only if one of its port texts is neither blank nor one
      port or an ordered range of at most five places and 65535. */
  lemma {:induction false} PortsAcceptedIff(s: Settings, a: Args)
    ensures PortsOk(s, a) <==> !s.postgres || (Acceptable(a.srcPort) && Acceptable(a.dstPort))
  {
    TextAcceptedIff(a.srcPort);
    TextAcceptedIff(a.dstPort);
    hide ParsePorts, Acceptable;
  }

  lemma {:induction false} TextAcceptedIff(text: string)
    ensures ParsePorts(text) != BadPorts <==> Acceptable(text)
  {
    hide ParsePorts, NamesPorts;
    NoPortsIffBlank(text);
    hide AllBlank;
    if ParsePorts(text).Range? {
      RangesAreNamed(text);
    }
    if lo: nat, hi: nat :| NamesPorts(text, lo, hi) {
      PortTextsAreRead(text, lo, hi);
    }
  }

  ghost predicate InRange(port: Option<int>, lo: nat, hi: nat) { port.Some? && lo <= port.value <= hi }

  /** Each port text selects the events whose port of that end lies in its range, bounds included,
      and a blank one all. */
  lemma {:induction false} PortTextsSelect(s: Settings, a: Args, text: string, blank: string, lo: nat, hi: nat,
                                           log: Log)
    requires s.postgres && NamesPorts(text, lo, hi) && AllBlank(blank)
    ensures AllPortsWanted(s, a.(srcPort := text, dstPort := blank), log) <==> InRange(log.srcPort, lo, hi)
    ensures AllPortsWanted(s, a.(srcPort := blank, dstPort := text), log) <==> InRange(log.dstPort, lo, hi)
    ensures AllPortsWanted(s, a.(srcPort := blank, dstPort := blank), log)
  {
    PortTextsAreRead(text, lo, hi);
    NoPortsIffBlank(blank);
    hide ParsePorts, NamesPorts, AllBlank;
  }

  // ---- Repeated field filters -----------------------------------------------------------

  /** Entry `i` has a name and a value, and no later one of that name does. */
  ghost predicate LastOfName(raw: seq<(string, string)>, i: nat) {
    && i < |raw| && Strip(raw[i].0) != "" && Strip(raw[i].1) != ""
    && forall j | i < j < |raw| :: Strip(raw[j].0) != Strip(raw[i].0) || Strip(raw[j].1) == ""
  }

  lemma {:induction false} PutMembers(fs: seq<Filter>, f: Filter, g: Filter)
    requires DistinctNames(fs)
    ensures g in Put(fs, f) <==> g == f || (g in fs && g.name != f.name)
    decreases |fs|
  {
    if fs != [] {
      assert fs == [fs[0]] + fs[1..];
      if fs[0].name == f.name {
        assert forall h | h in fs[1..] :: h.name != fs[0].name;
      } else {
        PutMembers(fs[1..], f, g);
      }
    }
  }

  lemma LastOfLonger(raw: seq<(string, string)>, i: nat)
    requires raw != [] && i < |raw| - 1
    ensures var last := raw[|raw| - 1];
            LastOfName(raw, i) <==>
              LastOfName(raw[..|raw| - 1], i)
              && (Strip(last.0) == "" || Strip(last.1) == "" || Strip(last.0) != Strip(raw[i].0))
  {
    hide Strip;
    var front := raw[..|raw| - 1];
    assert forall j | 0 <= j < |front| :: front[j] == raw[j];
  }

  /** The filters are those of the last entry of each name; entries with a blank name or value do
      not count. */
  lemma {:induction false} LastFilterWins(raw: seq<(string, string)>, f: Filter)
    ensures f in ParseFilters(raw) <==> exists i: nat :: LastOfName(raw, i) && ParseFilter(raw[i]) == f
    decreases |raw|
  {
    hide ParseFilter, Strip, LastOfName, DistinctNames;
    if raw == [] {
      NothingIsLast();
    } else {
      var front, last := raw[..|raw| - 1], raw[|raw| - 1];
      LastFilterWins(front, f);
      ParsedNamesAreDistinct(front);
      PutMembers(ParseFilters(front), ParseFilter(last), f);
      forall i: nat | i < |front|
        ensures front[i] == raw[i]
        ensures LastOfName(raw, i) <==>
                LastOfName(front, i)
                && (Strip(last.0) == "" || Strip(last.1) == "" || Strip(last.0) != Strip(raw[i].0))
        ensures ParseFilter(raw[i]).name == Strip(raw[i].0)
      {
        LastOfLonger(raw, i);
        NameIsRead(raw[i]);
      }
      NameIsRead(last);
      LastEntry(raw);
      LastsAreInside(raw);
      LastsAreInside(front);
    }
  }

  lemma NothingIsLast()
    ensures forall i: nat :: !LastOfName([], i)
  {
  }

  lemma LastsAreInside(raw: seq<(string, string)>)
    ensures forall i: nat | LastOfName(raw, i) :: i < |raw|
  {
  }

  lemma LastEntry(raw: seq<(string, string)>)
    requires raw != []
    ensures LastOfName(raw, |raw| - 1) <==> Strip(raw[|raw| - 1].0) != "" && Strip(raw[|raw| - 1].1) != ""
  {
    hide Strip;
  }

  lemma NameIsRead(raw: (string, string))
    ensures ParseFilter(raw).name == Strip(raw.0)
  {
    hide Strip, Negation, FieldMode;
  }

  // ---- Listed ids and pages ----------------------------------------------------------------

  /** Only the first five hundred ids are looked for. */
  lemma IdsSelect(a: Args, log: Log)
    ensures IdWanted(a, log) <==>
            (a.ids == [] || exists i :: 0 <= i < |a.ids| && i < 500 && a.ids[i] == log.id)
            && (a.snapshot.Some? ==> log.id <= a.snapshot.value)
  {
  }

  /** A page is the stretch from its offset of at most its limit, and following pages continue it. */
  lemma {:induction false} PagesTile<T>(answer: seq<T>, limit: nat, offset: nat)
    ensures |Slice(answer, limit, offset)| <= limit
    ensures |Slice(answer, limit, offset)| < limit ==> |answer| <= offset + limit
    ensures forall i | 0 <= i < |Slice(answer, limit, offset)| ::
              offset + i < |answer| && Slice(answer, limit, offset)[i] == answer[offset + i]
    ensures Slice(answer, offset, 0) + Slice(answer, limit, offset) == Slice(answer, offset + limit, 0)
    ensures |answer| <= limit ==> Slice(answer, limit, 0) == answer
  {
  }
}
