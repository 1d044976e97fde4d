/**
 How the texts of a search request are read (dashboard.py): blanks, exclusion marks, wildcards,
 severities, ports and repeated names, each by what it selects.
 */
module LogQueryReading {
  import opened Options
  import opened FieldIndex
  import opened SqlLike
  import opened LogSql
  import opened LogQuery
  import opened LogQueryMeaning

  // ---- Blanks --------------------------------------------------------------------

  /** No blank at either end. */
  predicate Clean(t: string) {
    t != "" && t[0] !in [' ', '\t', '\n', '\r'] && t[|t| - 1] !in [' ', '\t', '\n', '\r']
  }

  predicate AllBlank(t: string) { forall c | c in t :: c in [' ', '\t', '\n', '\r'] }

  /** Outer blanks are dropped, and nothing else. */
  lemma {:induction false} StripDropsBlanks(before: string, t: string, after: string)
    requires AllBlank(before) && AllBlank(after) && (t == "" || Clean(t))
    ensures Strip(before + t + after) == t
    decreases |before| + |after|
  {
    var s := before + t + after;
    if before != "" {
      assert s[0] == before[0];
      assert s[1..] == before[1..] + t + after;
      StripDropsBlanks(before[1..], t, after);
    } else if after != "" {
      assert s == t + after;
      if t == "" {
        assert s == after && s[1..] == "" + "" + after[1..];
        StripDropsBlanks("", "", after[1..]);
      } else {
        assert s[0] == t[0] && s[|s| - 1] == after[|after| - 1];
        assert s[..|s| - 1] == "" + t + after[..|after| - 1];
        StripDropsBlanks("", t, after[..|after| - 1]);
      }
    } else {
      assert s == t;
    }
  }

  lemma StripKeeps(t: string)
    requires Clean(t)
    ensures Strip(t) == t
  {
    StripDropsBlanks("", t, "");
    assert "" + t + "" == t;
  }

  // ---- Exclusion marks ---------------------------------------------------------------

  /** A needle without marks of its own. */
  predicate Plain(t: string) {
    Clean(t) && t[0] !in ['!', '=', '*'] && t[|t| - 1] != '*'
  }

  lemma MarksAreRead(t: string)
    requires Plain(t)
    ensures Negation(t) == (t, false) && Negation("!" + t) == (t, true) && Negation("!=" + t) == (t, true)
  {
    hide Strip;
    StripKeeps(t);
    assert ("!" + t)[1..] == t && ("!=" + t)[2..] == t;
    assert ("!" + t)[1] == t[0];
  }

  lemma {:induction false} MarksThenBlanks(mark: string, gap: string, t: string)
    requires (mark == "!" || mark == "!=") && AllBlank(gap) && Clean(t)
    requires mark == "!" && gap == "" ==> t[0] != '='
    ensures Negation(mark + gap + t) == (t, true)
  {
    hide Strip;
    StripDropsBlanks(gap, t, "");
    assert gap + t + "" == gap + t;
    var text := mark + gap + t;
    assert text[|mark|..] == gap + t;
    if gap == "" {
      assert text[|mark|] == t[0];
    } else {
      assert gap[0] in gap && text[|mark|] == gap[0];
    }
  }

  /** With LIKE a term selects the messages it occurs in, and with a mark before it those that are
      known and do not contain it. */
  lemma TextTermsSelect(s: Settings, e: Engine, mark: string, gap: string, t: string, log: Log)
    requires !s.postgres && Clean(t) && (mark == "!" || mark == "!=") && AllBlank(gap)
    requires mark == "!" && gap == "" ==> t[0] != '='
    ensures t[0] != '!' ==> (TermWanted(s, e, t, log) <==> log.message.Some? && Occurs(t, log.message.value))
    ensures TermWanted(s, e, mark + gap + t, log) <==> log.message.Some? && !Occurs(t, log.message.value)
  {
    hide Occurs, Negation;
    if t[0] != '!' {
      NoMark(t);
    }
    MarksThenBlanks(mark, gap, t);
  }

  /** Empty texts and bare marks ask for nothing. */
  lemma {:induction false} EmptyTextsSelectAll(s: Settings, e: Engine, c: Concept, gap: string, log: Log)
    requires AllBlank(gap)
    ensures TermWanted(s, e, "", log)
    ensures !s.postgres ==> TermWanted(s, e, "!" + gap, log) && TermWanted(s, e, "!=" + gap, log)
    ensures ConceptWanted(s, e, c, "", log)
    ensures ConceptWanted(s, e, c, "!" + gap, log) && ConceptWanted(s, e, c, "!=" + gap, log)
  {
    BareMark("!", gap);
    BareMark("!=", gap);
    hide Negation, IdentityWanted, IdentityKnown, Occurs;
    NoText();
  }

  lemma NoText()
    ensures Negation("") == ("", false)
  {
  }

  lemma {:induction false} BareMark(mark: string, gap: string)
    requires (mark == "!" || mark == "!=") && AllBlank(gap)
    ensures Negation(mark + gap) == ("", true)
  {
    hide Strip;
    StripDropsBlanks(gap, "", "");
    assert gap + "" + "" == gap;
    var text := mark + gap;
    assert text[|mark|..] == gap;
    if gap != "" {
      assert gap[0] in gap && text[|mark|] == gap[0];
    }
  }

  /** On PostgreSQL it is the text search that decides, for terms that have a token. */
  lemma TokenTermsSelect(s: Settings, e: Engine, t: string, log: Log)
    requires s.postgres && Plain(t) && s.token(t) != ""
    ensures TermWanted(s, e, t, log) <==> e.textMatches(OrEmpty(log.message), s.token(t))
    ensures TermWanted(s, e, "!" + t, log) <==> !e.textMatches(OrEmpty(log.message), s.token(t))
    ensures TermWanted(s, e, "!=" + t, log) <==> !e.textMatches(OrEmpty(log.message), s.token(t))
  {
    MarksAreRead(t);
    hide Negation;
  }

  /** So does the SQLite index. */
  lemma IndexTermsSelect(s: Settings, e: Engine, t: string, log: Log)
    requires Plain(t) && s.indexToken(t) != ""
    ensures TokenWanted(s, e, t, log) <==> e.tokenMatches(OrEmpty(log.message), s.indexToken(t))
    ensures TokenWanted(s, e, "!" + t, log) <==> !e.tokenMatches(OrEmpty(log.message), s.indexToken(t))
    ensures TokenWanted(s, e, "!=" + t, log) <==> !e.tokenMatches(OrEmpty(log.message), s.indexToken(t))
  {
    MarksAreRead(t);
    hide Negation;
  }

  // ---- Wildcards ----------------------------------------------------------------------

  lemma StarsAreRead(t: string)
    requires Plain(t)
    ensures Starred(t) == None && Starred(t + "*") == Some((Prefix, t))
    ensures Starred("*" + t + "*") == Some((Contained, t))
    ensures Clean(t + "*") && Clean("*" + t + "*")
    ensures Strip(t) == t && Strip(t + "*") == t + "*" && Strip("*" + t + "*") == "*" + t + "*"
  {
    hide Strip;
    assert (t + "*")[..|t|] == t;
    assert ("*" + t + "*")[1..|t| + 1] == t;
    StripKeeps(t);
    StripKeeps(t + "*");
    StripKeeps("*" + t + "*");
  }

  /** Some extracted field of the event has the name and a value with the property. */
  ghost predicate SomeField(log: Log, name: string, fits: string -> bool) {
    exists k | 0 <= k < |log.rows| :: log.rows[k].row.key == name && fits(log.rows[k].row.norm)
  }

  /** A field filter is exact without stars, a prefix with one behind, and an occurrence with one at
      either end. */
  lemma FieldFiltersMatch(name: string, t: string, log: Log)
    requires Clean(name) && Plain(t)
    ensures FilterMatches(log, ParseFilter((name, t))) <==> SomeField(log, name, v => v == t)
    ensures FilterMatches(log, ParseFilter((name, t + "*"))) <==> SomeField(log, name, v => t <= v)
    ensures FilterMatches(log, ParseFilter((name, "*" + t + "*"))) <==> SomeField(log, name, v => Occurs(t, v))
  {
    hide Occurs, Strip;
    StarsAreRead(t);
    StripKeeps(name);
    NoMark(t);
    NoMark(t + "*");
    NoMark("*" + t + "*");
    hide Starred, Negation;
    FilterReads(name, t, Exact, t, log);
    FilterReads(name, t + "*", Prefix, t, log);
    FilterReads(name, "*" + t + "*", Contained, t, log);
  }

  /** Stars around nothing, and a star in front alone, are text. */
  lemma {:induction false} OtherStarsAreText(name: string, t: string, log: Log)
    requires Clean(name) && (t == "*" || t == "**" || (|t| > 1 && t[0] == '*' && Clean(t) && t[|t| - 1] != '*'))
    ensures FilterMatches(log, ParseFilter((name, t))) <==> SomeField(log, name, v => v == t)
  {
    assert Starred(t) == None && Clean(t);
    hide Strip, Starred, SomeField;
    StripKeeps(name);
    StripKeeps(t);
    NoMark(t);
    FilterReads(name, t, Exact, t, log);
    ExactFits(name, t, log);
  }

  lemma ExactFits(name: string, t: string, log: Log)
    ensures SomeField(log, name, v => Fits(Exact, t, v)) <==> SomeField(log, name, v => v == t)
  {
  }

  lemma NoMark(t: string)
    requires t != "" && t[0] != '!'
    ensures Negation(t) == (t, false)
  {
  }

  lemma FilterReads(name: string, text: string, mode: Mode, needle: string, log: Log)
    requires Strip(name) == name && Strip(text) == text && Negation(text) == (text, false)
    requires FieldMode(text) == (mode, needle)
    ensures ParseFilter((name, text)) == Filter(name, mode, needle, false)
    ensures FilterMatches(log, ParseFilter((name, text))) <==> SomeField(log, name, v => Fits(mode, needle, v))
  {
    hide Strip, Negation, FieldMode, Fits;
  }

  /** A mark before the value excludes the events that the value selects. */
  lemma FieldExclusionsRead(name: string, t: string, mark: string, log: Log)
    requires Clean(name) && Plain(t) && (mark == "!" || mark == "!=")
    ensures var f := ParseFilter((name, mark + t));
            f.negate && f.name == name && (FilterMatches(log, f) <==> SomeField(log, name, v => v == t))
    ensures !ParseFilter((name, t)).negate && ParseFilter((name, t)).name == name
  {
    hide Strip, Occurs;
    StarsAreRead(t);
    StripKeeps(name);
    MarksAreRead(t);
    StripKeeps(mark + t);
    hide Starred, Negation;
  }

  // ---- Identities ------------------------------------------------------------------------

  /** Some alias field of the concept has a value with the property. */
  ghost predicate SomeAlias(s: Settings, c: Concept, log: Log, fits: string -> bool) {
    exists name :: name in s.aliases(c) && SomeField(log, name, fits)
  }

  lemma AliasesAreFields(s: Settings, c: Concept, term: string, log: Log, mode: Mode, needle: string)
    requires ConceptMode(s, c, term) == (mode, needle) && !(mode == Network && s.postgres)
    ensures AliasWanted(s, c, term, log) <==> SomeAlias(s, c, log, v => Fits(AliasMode(mode), needle, v))
  {
    hide Fits, AliasMode, ConceptMode;
    forall name
      ensures FieldMatches(log, name, AliasMode(mode), needle)
              <==> SomeField(log, name, v => Fits(AliasMode(mode), needle, v))
    {
    }
  }

  /** The text is a name: not an address, and not a network in slash notation. */
  ghost predicate IsName(s: Settings, c: Concept, t: string) {
    c == Host || (!s.isAddress(t) && !('/' in t && s.isNetwork(t)))
  }

  predicate StartsWith(t: string, column: Option<string>) { column.Some? && t <= column.value }

  predicate OccursIn(t: string, column: Option<string>) { column.Some? && Occurs(t, column.value) }

  function TextColumn(log: Log, c: Concept): Option<string> {
    if c == Source then log.source else if c == Host then log.host else log.destination
  }

  /** A name is a prefix of the column or of an alias field, and excluded names are those of columns
      that are known not to start with it. */
  lemma NameFiltersSelect(s: Settings, e: Engine, c: Concept, t: string, log: Log)
    requires Plain(t) && IsName(s, c, t)
    ensures ConceptWanted(s, e, c, t, log)
            <==> StartsWith(t, TextColumn(log, c)) || SomeAlias(s, c, log, v => t <= v)
    ensures ConceptWanted(s, e, c, "!" + t, log)
            <==> && TextColumn(log, c).Some? && !StartsWith(t, TextColumn(log, c))
                 && !SomeAlias(s, c, log, v => t <= v)
  {
    StarsAreRead(t);
    MarksAreRead(t);
    hide Occurs, Strip, Starred, Negation, SomeAlias, AliasWanted;
    AliasesAreFields(s, c, t, log, Prefix, t);
  }

  /** With a star behind a text is a prefix whatever it looks like, and between stars an occurrence. */
  lemma PrefixFiltersSelect(s: Settings, e: Engine, c: Concept, t: string, log: Log)
    requires Plain(t)
    ensures ConceptWanted(s, e, c, t + "*", log)
            <==> StartsWith(t, TextColumn(log, c)) || SomeAlias(s, c, log, v => t <= v)
  {
    StarsAreRead(t);
    StarsAreNoMarks(t);
    hide Occurs, Strip, Starred, Negation, SomeAlias, AliasWanted;
    AliasesAreFields(s, c, t + "*", log, Prefix, t);
  }

  lemma OccurrenceFiltersSelect(s: Settings, e: Engine, c: Concept, t: string, log: Log)
    requires Plain(t)
    ensures ConceptWanted(s, e, c, "*" + t + "*", log)
            <==> OccursIn(t, TextColumn(log, c)) || SomeAlias(s, c, log, v => Occurs(t, v))
  {
    StarsAreRead(t);
    StarsAreNoMarks(t);
    hide Occurs, Strip, Starred, Negation, SomeAlias, AliasWanted;
    AliasesAreFields(s, c, "*" + t + "*", log, Contained, t);
  }

  lemma StarsAreNoMarks(t: string)
    requires Plain(t)
    ensures Negation(t + "*") == (t + "*", false) && Negation("*" + t + "*") == ("*" + t + "*", false)
  {
    NoMark(t + "*");
    NoMark("*" + t + "*");
  }

  predicate AddressFits(column: Option<string>, t: string, fits: (string, string) -> bool) {
    column.Some? && fits(column.value, t)
  }

  /** A source or destination address is an exact address on PostgreSQL and the exact text elsewhere,
      in the column or in an alias field. */
  lemma AddressFiltersSelect(s: Settings, e: Engine, c: Concept, t: string, log: Log)
    requires c != Host && Plain(t) && s.isAddress(t)
    ensures ConceptWanted(s, e, c, t, log)
            <==> (if !s.postgres then TextColumn(log, c) == Some(t)
                  else AddressFits(if c == Source then log.srcAddress else log.dstAddress, t, e.sameAddress))
                 || SomeAlias(s, c, log, v => v == t)
  {
    StarsAreRead(t);
    MarksAreRead(t);
    hide Strip, Starred, Negation, SomeAlias, AliasWanted;
    AliasesAreFields(s, c, t, log, if c == Source then Exact else ExactAddress, t);
  }

  /** A network selects the addresses within it on PostgreSQL; elsewhere it is text: it occurs in the
      column, or an alias field starts with it. */
  lemma NetworkFiltersSelect(s: Settings, e: Engine, c: Concept, t: string, log: Log)
    requires c != Host && Plain(t) && !s.isAddress(t) && '/' in t && s.isNetwork(t)
    ensures ConceptWanted(s, e, c, t, log)
            <==> if s.postgres then AddressFits(if c == Source then log.srcAddress else log.dstAddress, t, e.within)
                 else OccursIn(t, TextColumn(log, c))
                      || SomeAlias(s, c, log, v => t <= v)
  {
    StarsAreRead(t);
    MarksAreRead(t);
    hide Strip, Starred, Negation, SomeAlias, Occurs;
    assert ConceptMode(s, c, t) == (Network, t);
    if !s.postgres {
      AliasesAreFields(s, c, t, log, Network, t);
      hide AliasWanted;
    }
  }

  // ---- Severities ------------------------------------------------------------------------

  /** The name stands for the level: by the list of its spellings, which starts with the level's own
      name, or by itself. */
  ghost predicate NamesLevel(s: Settings, name: string, level: nat) {
    level < |SEVERITIES|
    && NoMarks(name)
    && (if s.spellings(name) == [] then name else s.spellings(name)[0]) == SEVERITIES[level]
  }

  /** The event is stored under one of the first `n` levels, most severe first. */
  ghost predicate AmongFirst(log: Log, n: nat) {
    exists k | 0 <= k < |SEVERITIES| :: k < n && log.severity == Some(SEVERITIES[k])
  }

  ghost predicate Asks(s: Settings, a: Args, text: string, log: Log) { SeverityWanted(s, a.(severity := text), log) }

  lemma LevelsAreNamed()
    ensures SEVERITIES == ["emergency", "alert", "critical", "error", "warning", "notice", "informational", "debug"]
  {
  }

  lemma {:induction false} RankIsPosition(text: string, from: nat)
    requires from <= |SEVERITIES|
    ensures var r := RankFrom(text, from); r == 99 || (from <= r < |SEVERITIES| && SEVERITIES[r] == text)
    ensures RankFrom(text, from) == 99 ==> forall k | from <= k < |SEVERITIES| :: SEVERITIES[k] != text
    decreases |SEVERITIES| - from
  {
    if from < |SEVERITIES| {
      RankIsPosition(text, from + 1);
    }
  }

  lemma LevelsDiffer(i: nat, j: nat)
    requires i < j < |SEVERITIES|
    ensures SEVERITIES[i] != SEVERITIES[j]
  {
  }

  lemma RankOf(k: nat)
    requires k < |SEVERITIES|
    ensures RankFrom(SEVERITIES[k], 0) == k
  {
    hide RankFrom;
    var name := SEVERITIES[k];
    RankIsPosition(name, 0);
    var r := RankFrom(name, 0);
    if r < k {
      LevelsDiffer(r, k);
    } else if k < r < |SEVERITIES| {
      LevelsDiffer(k, r);
    }
  }

  /** The rank tells how many levels are more severe. */
  lemma RankTells(log: Log, n: nat)
    requires n <= |SEVERITIES|
    ensures RankFrom(OrEmpty(log.severity), 0) < n <==> AmongFirst(log, n)
  {
    hide RankFrom;
    var r := RankFrom(OrEmpty(log.severity), 0);
    RankIsPosition(OrEmpty(log.severity), 0);
    if AmongFirst(log, n) {
      var k :| 0 <= k < |SEVERITIES| && k < n && log.severity == Some(SEVERITIES[k]);
      RankOf(k);
    }
    if r < n {
      assert 0 <= r < |SEVERITIES| && SEVERITIES[r] == OrEmpty(log.severity);
      NoLevelIsEmpty(r);
      assert log.severity == Some(SEVERITIES[r]);
    }
  }

  lemma NoLevelIsEmpty(k: nat)
    requires k < |SEVERITIES|
    ensures SEVERITIES[k] != ""
  {
  }

  predicate NoMarks(name: string) { Clean(name) && name[0] !in ['!', '=', '<', '>'] }

  /** What follows an operator is stripped. */
  lemma AfterOperator(mark: string, gap: string, name: string)
    requires AllBlank(gap) && NoMarks(name) && mark != ""
    ensures Strip((mark + gap + name)[|mark|..]) == name
    ensures mark <= mark + gap + name
    ensures |mark + gap + name| > |mark| && (mark + gap + name)[|mark|] !in ['!', '=', '<', '>']
  {
    hide Strip;
    StripDropsBlanks(gap, name, "");
    assert gap + name + "" == gap + name;
    assert (mark + gap + name)[|mark|..] == gap + name;
    if gap == "" {
      assert (gap + name)[0] == name[0];
    } else {
      assert gap[0] in gap && (gap + name)[0] == gap[0];
    }
    assert (mark + gap + name)[|mark|] == (gap + name)[0];
  }

  lemma TwoMarks(mark: string, gap: string, name: string)
    requires AllBlank(gap) && NoMarks(name) && mark in [">=", "<=", "!="]
    ensures SeverityParts(mark + gap + name)
            == (if mark == ">=" then Ranked(AtMost) else if mark == "<=" then Ranked(AtLeast) else IsNot, name)
    ensures mark + gap + name != ""
  {
    hide Strip, AllBlank, Clean;
    AfterOperator(mark, gap, name);
    var text := mark + gap + name;
    assert text[0] == mark[0] && text[1] == mark[1] && mark[1] == '=' && text[2..] == text[|mark|..];
  }

  lemma OneMark(mark: string, gap: string, name: string)
    requires AllBlank(gap) && NoMarks(name) && mark in [">", "<"]
    ensures SeverityParts(mark + gap + name) == (Ranked(if mark == ">" then Below else Above), name)
    ensures mark + gap + name != ""
  {
    hide Strip, AllBlank, Clean;
    AfterOperator(mark, gap, name);
    var text := mark + gap + name;
    assert |text| > 1 && text[0] == mark[0] && text[|mark|] == text[1];
  }

  lemma RankedAsks(s: Settings, a: Args, text: string, op: Comparison, name: string, log: Log)
    requires text != "" && SeverityParts(text) == (Ranked(op), name)
    ensures Asks(s, a, text, log) <==>
            Spellings(s, name)[0] in SEVERITIES ==>
              Compare(RankFrom(OrEmpty(log.severity), 0), op, RankFrom(Spellings(s, name)[0], 0))
  {
    hide RankFrom, SeverityParts, Spellings, Compare;
  }

  /** `>=` asks for the level and the more severe ones, `>` for the more severe ones alone, and `<`
      and `<=` for the events that these leave: the less severe levels, other spellings and null. */
  lemma {:induction false} RankedSeveritiesSelect(s: Settings, a: Args, level: nat, gap: string, name: string, log: Log)
    requires NamesLevel(s, name, level) && AllBlank(gap)
    ensures Asks(s, a, ">=" + gap + name, log) <==> AmongFirst(log, level + 1)
    ensures Asks(s, a, ">" + gap + name, log) <==> AmongFirst(log, level)
    ensures Asks(s, a, "<" + gap + name, log) <==> !AmongFirst(log, level + 1)
    ensures Asks(s, a, "<=" + gap + name, log) <==> !AmongFirst(log, level)
  {
    hide Strip, RankFrom, AmongFirst, SeverityParts, Asks, AllBlank, Clean;
    TwoMarks(">=", gap, name);
    TwoMarks("<=", gap, name);
    OneMark(">", gap, name);
    OneMark("<", gap, name);
    RankedAsks(s, a, ">=" + gap + name, AtMost, name, log);
    RankedAsks(s, a, "<=" + gap + name, AtLeast, name, log);
    RankedAsks(s, a, ">" + gap + name, Below, name, log);
    RankedAsks(s, a, "<" + gap + name, Above, name, log);
    LevelIsListed(level);
    RankTells(log, level);
    RankTells(log, level + 1);
  }

  lemma LevelIsListed(level: nat)
    requires level < |SEVERITIES|
    ensures SEVERITIES[level] in SEVERITIES && RankFrom(SEVERITIES[level], 0) == level
  {
    RankOf(level);
  }

  /** A bare name asks for all spellings of its level, and `!=` for every other text; events without
      a severity fit neither. */
  lemma {:induction false} NamedSeveritiesSelect(s: Settings, a: Args, gap: string, name: string, log: Log)
    requires NoMarks(name) && AllBlank(gap)
    ensures var spelled := if s.spellings(name) == [] then [name] else s.spellings(name);
            && (Asks(s, a, name, log) <==> log.severity.Some? && log.severity.value in spelled)
            && (Asks(s, a, "!=" + gap + name, log) <==> log.severity.Some? && log.severity.value !in spelled)
  {
    TwoMarks("!=", gap, name);
    assert SeverityParts(name) == (Is, name);
    hide Strip, SeverityParts;
  }

  /** An event stored under another spelling of a level is found by the level's name, but every
      comparison takes it for less severe than all levels. */
  lemma {:induction false} VariantsFallBelow(s: Settings, a: Args, level: nat, name: string, log: Log)
    requires NamesLevel(s, name, level)
    requires log.severity.Some? && log.severity.value in s.spellings(name) && log.severity.value !in SEVERITIES
    ensures Asks(s, a, name, log) && !Asks(s, a, ">=" + name, log) && Asks(s, a, "<" + name, log)
  {
    hide Asks;
    RankedSeveritiesSelect(s, a, level, "", name, log);
    NamedSeveritiesSelect(s, a, "", name, log);
    assert ">=" + "" + name == ">=" + name && "<" + "" + name == "<" + name;
  }

  /** A comparison with a text that names no level asks for nothing. */
  lemma {:induction false} UnknownLevelsSelectAll(s: Settings, a: Args, gap: string, name: string, log: Log)
    requires NoMarks(name) && AllBlank(gap)
    requires (if s.spellings(name) == [] then name else s.spellings(name)[0]) !in SEVERITIES
    ensures Asks(s, a, ">=" + gap + name, log) && Asks(s, a, ">" + gap + name, log)
    ensures Asks(s, a, "<=" + gap + name, log) && Asks(s, a, "<" + gap + name, log)
    ensures Asks(s, a, "", log)
  {
    hide Strip, RankFrom, SeverityParts, Asks, AllBlank, Clean;
    TwoMarks(">=", gap, name);
    TwoMarks("<=", gap, name);
    OneMark(">", gap, name);
    OneMark("<", gap, name);
    RankedAsks(s, a, ">=" + gap + name, AtMost, name, log);
    RankedAsks(s, a, "<=" + gap + name, AtLeast, name, log);
    RankedAsks(s, a, ">" + gap + name, Below, name, log);
    RankedAsks(s, a, "<" + gap + name, Above, name, log);
    AskingNothing(s, a, log);
  }

  lemma AskingNothing(s: Settings, a: Args, log: Log)
    ensures Asks(s, a, "", log)
  {
  }
}
