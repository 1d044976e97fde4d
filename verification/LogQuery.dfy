/**
 The compiler from search filters to SQL (dashboard.py, `_build_log_query` and
 `_query_logs_extracted`). Text is case-folded before it gets here; the ORDER BY is the
 order in which the database lists the logs.
 */
module LogQuery {
  import opened Options
  import opened FieldIndex
  import opened SqlLike
  import opened LogSql

  datatype Mode = Exact | Prefix | Contained | ExactAddress | Network

  /** The installation: database kind, with or without the SQLite full-text index, field aliases,
      and the text functions left abstract. */
  datatype Settings = Settings(
    postgres: bool,
    indexed: bool,
    indexToken: string -> string,
    aliases: Concept -> seq<string>,
    spellings: string -> seq<string>,
    token: string -> string,
    isAddress: string -> bool,
    isNetwork: string -> bool)

  /** A request; lists were split at commas and stripped. */
  datatype Args = Args(
    ids: seq<nat>,
    snapshot: Option<nat>,
    terms: seq<string>,
    sources: seq<string>,
    hosts: seq<string>,
    destinations: seq<string>,
    severity: string,
    from: Option<int>,
    to: Option<int>,
    srcPort: string,
    dstPort: string,
    filters: seq<(string, string)>,
    anyOf: bool)

  const MAX_IDS := 500

  // ---- Reading the filters ------------------------------------------------

  predicate IsBlank(c: char) { c in " \t\n\r" }

  function Strip(s: string): string
    decreases |s|
  {
    if s == "" then ""
    else if IsBlank(s[0]) then Strip(s[1..])
    else if IsBlank(s[|s| - 1]) then Strip(s[..|s| - 1])
    else s
  }

  /** A leading `!` or `!=` excludes. */
  function Negation(term: string): (string, bool) {
    if "!=" <= term then (Strip(term[2..]), true)
    else if "!" <= term then (Strip(term[1..]), true)
    else (term, false)
  }

  function Starred(raw: string): Option<(Mode, string)> {
    if |raw| > 2 && raw[0] == '*' && raw[|raw| - 1] == '*' then Some((Contained, raw[1..|raw| - 1]))
    else if raw != "" && raw[|raw| - 1] == '*' && raw[0] != '*' then Some((Prefix, raw[..|raw| - 1]))
    else None
  }

  function FieldMode(needle: string): (Mode, string) {
    var raw := Strip(needle);
    match Starred(raw)
    case Some(m) => m
    case None => (Exact, raw)
  }

  function ConceptMode(s: Settings, c: Concept, term: string): (Mode, string) {
    var raw := Strip(term);
    match Starred(raw)
    case Some(m) => m
    case None =>
      if c != Host && s.isAddress(raw) then (if c == Source then Exact else ExactAddress, raw)
      else if c != Host && '/' in raw && s.isNetwork(raw) then (Network, raw)
      else (Prefix, raw)
  }

  datatype Filter = Filter(name: string, mode: Mode, needle: string, negate: bool)

  function ParseFilter(raw: (string, string)): Filter {
    var (needle, negate) := Negation(Strip(raw.1));
    var (mode, text) := FieldMode(needle);
    Filter(Strip(raw.0), mode, text, negate)
  }

  predicate Blank(raw: (string, string)) { Strip(raw.0) == "" || Strip(raw.1) == "" }

  /** Assignment to a dictionary entry: in place if the name is there. */
  function Put(fs: seq<Filter>, f: Filter): (r: seq<Filter>) {
    if fs == [] then [f]
    else if fs[0].name == f.name then [f] + fs[1..]
    else [fs[0]] + Put(fs[1..], f)
  }

  function ParseFilters(raw: seq<(string, string)>): seq<Filter> {
    if raw == [] then []
    else
      var front, last := ParseFilters(raw[..|raw| - 1]), raw[|raw| - 1];
      if Blank(last) then front else Put(front, ParseFilter(last))
  }

  datatype Ports = NoPorts | BadPorts | Range(lo: nat, hi: nat)

  predicate IsNumber(s: string) {
    1 <= |s| <= 5 && forall i | 0 <= i < |s| :: '0' <= s[i] <= '9'
  }

  function NumberIn(s: string): nat
    requires forall i | 0 <= i < |s| :: '0' <= s[i] <= '9'
  {
    if s == "" then 0 else NumberIn(s[..|s| - 1]) * 10 + (s[|s| - 1] as int - '0' as int)
  }

  function DashAt(s: string): nat {
    if s == "" || s[0] == '-' then 0 else 1 + DashAt(s[1..])
  }

  function ParsePorts(text: string): Ports {
    var raw := Strip(text);
    var k := DashAt(raw);
    if raw == "" then NoPorts
    else if k >= |raw| then
      if IsNumber(raw) && NumberIn(raw) <= 65535 then Range(NumberIn(raw), NumberIn(raw)) else BadPorts
    else
      var a, b := raw[..k], raw[k + 1..];
      if IsNumber(a) && IsNumber(b) && NumberIn(a) <= NumberIn(b) <= 65535
      then Range(NumberIn(a), NumberIn(b)) else BadPorts
  }

  datatype SeverityOp = Is | IsNot | Ranked(op: Comparison)

  /** `>=` means at least as severe, and a lower rank is more severe. */
  function SeverityParts(severity: string): (SeverityOp, string) {
    if "!=" <= severity then (IsNot, Strip(severity[2..]))
    else if ">=" <= severity then (Ranked(AtMost), Strip(severity[2..]))
    else if "<=" <= severity then (Ranked(AtLeast), Strip(severity[2..]))
    else if ">" <= severity then (Ranked(Below), Strip(severity[1..]))
    else if "<" <= severity then (Ranked(Above), Strip(severity[1..]))
    else (Is, severity)
  }

  function Spellings(s: Settings, value: string): (r: seq<string>)
    ensures r != []
  {
    if s.spellings(value) == [] then [value] else s.spellings(value)
  }

  // ---- Clauses with their parameters ---------------------------------------

  function Texts(ss: seq<string>): (ps: seq<Param>)
    ensures |ps| == |ss| && forall i | 0 <= i < |ss| :: ps[i] == Text(ss[i])
  {
    seq(|ss|, i requires 0 <= i < |ss| => Text(ss[i]))
  }

  function Numbers(ns: seq<nat>): (ps: seq<Param>)
    ensures |ps| == |ns| && forall i | 0 <= i < |ns| :: ps[i] == Number(ns[i])
  {
    seq(|ns|, i requires 0 <= i < |ns| => Number(ns[i]))
  }

  function Pattern(mode: Mode, needle: string): Param {
    Text(if mode == Prefix then PrefixPattern(needle) else ContainsPattern(needle))
  }

  predicate IsExact(mode: Mode) { mode == Exact || mode == ExactAddress }

  /** `_field_value_predicate`. */
  function ValueTestOf(mode: Mode): ValueTest { if IsExact(mode) then ValueIs else ValueLike }

  function ValueParam(mode: Mode, needle: string): Param {
    if IsExact(mode) then Text(needle) else Pattern(mode, needle)
  }

  function IfSome(t: Option<int>): seq<Param> { if t.None? then [] else [Number(t.value)] }

  /** `field_time`. */
  function FieldStamp(s: Settings, a: Args): Stamp {
    if s.postgres then Checked(true, a.from.Some?, a.to.Some?) else Unchecked
  }

  function FieldTimes(s: Settings, a: Args): seq<Param> {
    if s.postgres then IfSome(a.from) + IfSome(a.to) else []
  }

  function FieldCond(s: Settings, a: Args, f: Filter): RowCond {
    RowCond(FieldStamp(s, a), 1, ValueTestOf(f.mode))
  }

  function FieldParams(s: Settings, a: Args, f: Filter): seq<Param> {
    FieldTimes(s, a) + [Text(f.name), ValueParam(f.mode, f.needle)]
  }

  function AliasMode(mode: Mode): Mode {
    match mode
    case Network => Prefix
    case ExactAddress => Exact
    case m => m
  }

  function AliasStamp(s: Settings, a: Args): Stamp {
    if s.postgres && (a.from.Some? || a.to.Some?) then Checked(false, a.from.Some?, a.to.Some?) else Unchecked
  }

  /** `_alias_match_clause`. */
  function AliasFragment(s: Settings, a: Args, c: Concept, mode: Mode, needle: string): Fragment {
    var m := AliasMode(mode);
    Fragment(Exists(RowCond(AliasStamp(s, a), |s.aliases(c)|, ValueTestOf(m))),
             FieldTimes(s, a) + Texts(s.aliases(c)) + [ValueParam(m, needle)])
  }

  /** `_base_match_clause`. */
  function ColumnFragment(s: Settings, c: Concept, mode: Mode, needle: string): Fragment {
    if s.postgres && c != Host && mode == Network then Fragment(Simple(AddressWithin(c)), [Text(needle)])
    else if s.postgres && ((c == Source && mode == Exact) || (c == Destination && mode == ExactAddress)) then
      Fragment(Simple(AddressIs(c)), [Text(needle)])
    else if IsExact(mode) then Fragment(Simple(ColumnIs(c)), [Text(needle)])
    else Fragment(Simple(ColumnLike(c)), [Pattern(mode, needle)])
  }

  /** `_concept_clause`. */
  function IdentityFragment(s: Settings, a: Args, c: Concept, term: string): Fragment {
    var (mode, needle) := ConceptMode(s, c, term);
    var column := ColumnFragment(s, c, mode, needle);
    if (mode == Network && s.postgres) || s.aliases(c) == [] then column
    else
      var rows := AliasFragment(s, a, c, mode, needle);
      Fragment(Or(column.cond, rows.cond), column.params + rows.params)
  }

  function Negate(f: Fragment, negate: bool): Fragment {
    if negate then Fragment(Not(f.cond), f.params) else f
  }

  function ConceptFragment(s: Settings, a: Args, c: Concept, raw: string): seq<Fragment> {
    var (needle, negate) := Negation(raw);
    if needle == "" then [] else [Negate(IdentityFragment(s, a, c, needle), negate)]
  }

  function ConceptFragments(s: Settings, a: Args, c: Concept, raws: seq<string>): seq<Fragment> {
    if raws == [] then []
    else ConceptFragments(s, a, c, raws[..|raws| - 1]) + ConceptFragment(s, a, c, raws[|raws| - 1])
  }

  function TermFragment(s: Settings, raw: string): seq<Fragment> {
    var (needle, negate) := Negation(raw);
    if s.postgres then
      if s.token(needle) == "" || raw == "" then []
      else [Negate(Fragment(Simple(MessageMatches), [Text(s.token(needle))]), negate)]
    else if needle == "" then []
    else [Negate(Fragment(Simple(MessageLike), [Text(ContainsPattern(needle))]), negate)]
  }

  function EachTermFragments(s: Settings, raws: seq<string>): seq<Fragment> {
    if raws == [] then []
    else EachTermFragments(s, raws[..|raws| - 1]) + TermFragment(s, raws[|raws| - 1])
  }

  /** The tokens of the included or of the excluded terms for the full-text index. */
  function Tokens(s: Settings, raws: seq<string>, excluded: bool): seq<string> {
    if raws == [] then []
    else
      var front, last := Tokens(s, raws[..|raws| - 1], excluded), raws[|raws| - 1];
      var (needle, negate) := Negation(last);
      if last != "" && s.indexToken(needle) != "" && negate == excluded then front + [s.indexToken(needle)] else front
  }

  /** `a NOT b NOT c`, from the left. */
  function Excepting(m: Match, excluded: seq<string>): Match {
    if excluded == [] then m
    else Except(Excepting(m, excluded[..|excluded| - 1]), Token(excluded[|excluded| - 1]))
  }

  /** `_fts_build_match`: `a AND b AND c NOT d NOT e`, where the exclusions belong to the last
      included token. */
  function MatchOf(included: seq<string>, excluded: seq<string>): Match
    requires included != []
  {
    if |included| == 1 then Excepting(Token(included[0]), excluded)
    else Both(Token(included[0]), MatchOf(included[1..], excluded))
  }

  /** The full-text index if it can express the terms, which takes an included one; otherwise a
      clause for each term. */
  function TermFragments(s: Settings, raws: seq<string>): seq<Fragment> {
    if !s.postgres && s.indexed && Tokens(s, raws, false) != []
    then [Fragment(Simple(InIndex), [Expression(MatchOf(Tokens(s, raws, false), Tokens(s, raws, true)))])]
    else EachTermFragments(s, raws)
  }

  function IdFragments(a: Args): seq<Fragment> {
    var ids := if |a.ids| <= MAX_IDS then a.ids else a.ids[..MAX_IDS];
    (if ids == [] then [] else [Fragment(Simple(IdIn(|ids|)), Numbers(ids))])
    + if a.snapshot.None? then [] else [Fragment(Simple(Compared(Id, AtMost)), [Number(a.snapshot.value)])]
  }

  function SeverityFragments(s: Settings, a: Args): seq<Fragment> {
    if a.severity == "" then []
    else
      var (op, value) := SeverityParts(a.severity);
      var spelled := Spellings(s, value);
      match op
      case Is => [Fragment(Simple(SeverityIn(|spelled|)), Texts(spelled))]
      case IsNot => [Fragment(Not(Simple(SeverityIn(|spelled|))), Texts(spelled))]
      case Ranked(c) =>
        if spelled[0] in SEVERITIES
        then [Fragment(Simple(Compared(Severity, c)), [Number(RankFrom(spelled[0], 0))])]
        else []
  }

  function TimeFragments(a: Args): seq<Fragment> {
    (if a.from.None? then [] else [Fragment(Simple(Compared(Time, AtLeast)), [Number(a.from.value)])])
    + if a.to.None? then [] else [Fragment(Simple(Compared(Time, AtMost)), [Number(a.to.value)])]
  }

  function PortFragments(n: LogSql.Number, ports: Ports): seq<Fragment> {
    match ports
    case Range(lo, hi) =>
      [if lo != hi then Fragment(Simple(Between(n)), [Number(lo), Number(hi)])
       else Fragment(Simple(Compared(n, Equal)), [Number(lo)])]
    case _ => []
  }

  predicate PortsOk(s: Settings, a: Args) {
    s.postgres ==> ParsePorts(a.srcPort) != BadPorts && ParsePorts(a.dstPort) != BadPorts
  }

  function AllPortFragments(s: Settings, a: Args): seq<Fragment> {
    if s.postgres
    then PortFragments(SrcPort, ParsePorts(a.srcPort)) + PortFragments(DstPort, ParsePorts(a.dstPort))
    else []
  }

  /** The base WHERE, clause by clause. */
  function BaseFragments(s: Settings, a: Args): seq<Fragment> {
    IdFragments(a) + TermFragments(s, a.terms)
    + ConceptFragments(s, a, Source, a.sources)
    + ConceptFragments(s, a, Host, a.hosts)
    + ConceptFragments(s, a, Destination, a.destinations)
    + SeverityFragments(s, a) + TimeFragments(a) + AllPortFragments(s, a)
  }

  // ---- Field filters -------------------------------------------------------

  datatype Kind = Excluded | Grouped | InDocument | Joined

  function KindOf(s: Settings, a: Args, f: Filter): Kind {
    if f.negate then Excluded
    else if a.anyOf then Grouped
    else if s.postgres && f.mode == Exact then InDocument
    else Joined
  }

  /** The filters of one kind, in order. */
  function Of(s: Settings, a: Args, fs: seq<Filter>, kind: Kind): seq<Filter> {
    if fs == [] then []
    else
      Of(s, a, fs[..|fs| - 1], kind)
      + if KindOf(s, a, fs[|fs| - 1]) == kind then [fs[|fs| - 1]] else []
  }

  function FieldFragment(s: Settings, a: Args, f: Filter): Fragment {
    Negate(Fragment(Exists(FieldCond(s, a, f)), FieldParams(s, a, f)), f.negate)
  }

  function FieldFragments(s: Settings, a: Args, fs: seq<Filter>): (r: seq<Fragment>)
    ensures |r| == |fs| && forall i | 0 <= i < |fs| :: r[i] == FieldFragment(s, a, fs[i])
  {
    if fs == [] then [] else FieldFragments(s, a, fs[..|fs| - 1]) + [FieldFragment(s, a, fs[|fs| - 1])]
  }

  function ExactMap(fs: seq<Filter>): map<string, seq<string>> {
    if fs == [] then map[] else ExactMap(fs[..|fs| - 1])[fs[|fs| - 1].name := [fs[|fs| - 1].needle]]
  }

  function DocumentCond(rows: seq<Cond>): Cond {
    Or(Simple(SearchContains), And(Simple(SearchMissing), AndAll(rows)))
  }

  /** The document test with the row form as the fallback for unindexed events. */
  function DocumentFragment(s: Settings, a: Args, fs: seq<Filter>): Fragment {
    var rows := FieldFragments(s, a, fs);
    Fragment(DocumentCond(Conds(rows)),
             [Json(ExactMap(fs))] + Params(rows))
  }

  function GroupFragment(s: Settings, a: Args, fs: seq<Filter>): Fragment
    requires fs != []
  {
    var rows := FieldFragments(s, a, fs);
    Fragment(OrAll(Conds(rows)), Params(rows))
  }

  function ExtraFragments(s: Settings, a: Args, fs: seq<Filter>): seq<Fragment> {
    FieldFragments(s, a, Of(s, a, fs, Excluded))
    + (if Of(s, a, fs, InDocument) == [] then [] else [DocumentFragment(s, a, Of(s, a, fs, InDocument))])
    + if Of(s, a, fs, Grouped) == [] then [] else [GroupFragment(s, a, Of(s, a, fs, Grouped))]
  }

  function WhereFragments(s: Settings, a: Args): seq<Fragment> {
    BaseFragments(s, a) + ExtraFragments(s, a, ParseFilters(a.filters))
  }

  function JoinConds(s: Settings, a: Args, fs: seq<Filter>): (r: seq<RowCond>)
    ensures |r| == |fs|
  {
    if fs == [] then [] else JoinConds(s, a, fs[..|fs| - 1]) + [FieldCond(s, a, fs[|fs| - 1])]
  }

  function JoinParams(s: Settings, a: Args, fs: seq<Filter>): seq<Param> {
    if fs == [] then [] else JoinParams(s, a, fs[..|fs| - 1]) + FieldParams(s, a, fs[|fs| - 1])
  }

  function JoinedFilters(s: Settings, a: Args): seq<Filter> {
    Of(s, a, ParseFilters(a.filters), Joined)
  }

  datatype Query = Query(statement: Statement, params: seq<Param>)

  /** The page query. */
  function PageQuery(s: Settings, a: Args, limit: nat, offset: nat): Query {
    var w := WhereFragments(s, a);
    Query(Statement(JoinConds(s, a, JoinedFilters(s, a)), None, AndAll(Conds(w)), true),
          JoinParams(s, a, JoinedFilters(s, a)) + Params(w) + [Number(limit), Number(offset)])
  }

  function SortCond(s: Settings, a: Args): RowCond { RowCond(FieldStamp(s, a), 1, AnyValue) }

  function SortParams(s: Settings, a: Args, name: string): seq<Param> { FieldTimes(s, a) + [Text(name)] }

  /** The query behind sorting on an extracted field: id and value pairs. */
  function SortQuery(s: Settings, a: Args, name: string, cap: nat): Query {
    var w := WhereFragments(s, a);
    Query(Statement(JoinConds(s, a, JoinedFilters(s, a)), Some(SortCond(s, a)), AndAll(Conds(w)), false),
          JoinParams(s, a, JoinedFilters(s, a)) + SortParams(s, a, name) + Params(w) + [Number(cap)])
  }

  // ---- The loops that build them -------------------------------------------

  lemma Appended(fs: seq<Fragment>, more: seq<Fragment>)
    ensures Conds(fs + more) == Conds(fs) + Conds(more)
    ensures Params(fs + more) == Params(fs) + Params(more)
  {
    CondsAppend(fs, more);
    ParamsAppend(fs, more);
  }

  /** Two lists that grow side by side: the clauses and the parameters of some fragments. */
  ghost predicate Built(clauses: seq<Cond>, params: seq<Param>, fs: seq<Fragment>) {
    clauses == Conds(fs) && params == Params(fs)
  }

  lemma BuiltOne(clauses: seq<Cond>, params: seq<Param>, fs: seq<Fragment>, f: Fragment)
    requires Built(clauses, params, fs)
    ensures Built(clauses + [f.cond], params + f.params, fs + [f])
  {
    Appended(fs, [f]);
    OneFragment(f);
  }

  /** The clauses of the text terms. */
  method TermClauses(s: Settings, terms: seq<string>) returns (clauses: seq<Cond>, params: seq<Param>)
    ensures Built(clauses, params, TermFragments(s, terms))
  {
    hide Conds, Params, MatchOf, EachTermFragments, Built;
    if !s.postgres && s.indexed {
      var included, excluded := IndexTokens(s, terms);
      if included != [] {
        var f := Fragment(Simple(InIndex), [Expression(MatchOf(included, excluded))]);
        NoFragments();
        BuiltOne([], [], [], f);
        assert [] + [f.cond] == [f.cond] && [] + f.params == f.params && [] + [f] == [f];
        return [f.cond], f.params;
      }
    }
    clauses, params := EachTermClauses(s, terms);
  }

  method IndexTokens(s: Settings, terms: seq<string>) returns (included: seq<string>, excluded: seq<string>)
    ensures included == Tokens(s, terms, false) && excluded == Tokens(s, terms, true)
  {
    hide Negation;
    included, excluded := [], [];
    for i := 0 to |terms|
      invariant included == Tokens(s, terms[..i], false) && excluded == Tokens(s, terms[..i], true)
    {
      assert terms[..i + 1][..i] == terms[..i];
      var (needle, negate) := Negation(terms[i]);
      var token := s.indexToken(needle);
      if terms[i] != "" && token != "" {
        if negate {
          excluded := excluded + [token];
        } else {
          included := included + [token];
        }
      }
    }
    assert terms[..|terms|] == terms;
  }

  method EachTermClauses(s: Settings, terms: seq<string>) returns (clauses: seq<Cond>, params: seq<Param>)
    ensures Built(clauses, params, EachTermFragments(s, terms))
  {
    hide Conds, Params, ContainsPattern, Negation;
    clauses, params := [], [];
    NoFragments();
    for i := 0 to |terms|
      invariant Built(clauses, params, EachTermFragments(s, terms[..i]))
    {
      hide Built;
      assert terms[..i + 1][..i] == terms[..i];
      var (needle, negate) := Negation(terms[i]);
      ghost var before := EachTermFragments(s, terms[..i]);
      assert before + [] == before;
      if s.postgres {
        if terms[i] != "" && s.token(needle) != "" {
          var f := Negate(Fragment(Simple(MessageMatches), [Text(s.token(needle))]), negate);
          BuiltOne(clauses, params, before, f);
          clauses, params := clauses + [f.cond], params + f.params;
        }
      } else if needle != "" {
        var f := Negate(Fragment(Simple(MessageLike), [Text(ContainsPattern(needle))]), negate);
        BuiltOne(clauses, params, before, f);
        clauses, params := clauses + [f.cond], params + f.params;
      }
    }
    assert terms[..|terms|] == terms;
  }

  lemma NoFragments()
    ensures Built([], [], [])
  {
  }

  method ConceptClauses(s: Settings, a: Args, c: Concept, raws: seq<string>)
    returns (clauses: seq<Cond>, params: seq<Param>)
    ensures Built(clauses, params, ConceptFragments(s, a, c, raws))
  {
    hide Conds, Params, IdentityFragment, Negation;
    clauses, params := [], [];
    NoFragments();
    for i := 0 to |raws|
      invariant Built(clauses, params, ConceptFragments(s, a, c, raws[..i]))
    {
      hide Built;
      assert raws[..i + 1][..i] == raws[..i];
      var (needle, negate) := Negation(raws[i]);
      ghost var before := ConceptFragments(s, a, c, raws[..i]);
      assert before + [] == before;
      if needle != "" {
        var f := Negate(IdentityFragment(s, a, c, needle), negate);
        BuiltOne(clauses, params, before, f);
        clauses, params := clauses + [f.cond], params + f.params;
      }
    }
    assert raws[..|raws|] == raws;
  }

  /** `_build_log_query`: the base WHERE, or nothing for malformed ports. */
  method BuildLogQuery(s: Settings, a: Args) returns (ok: bool, clauses: seq<Cond>, params: seq<Param>)
    ensures ok == PortsOk(s, a)
    ensures ok ==> Built(clauses, params, BaseFragments(s, a))
  {
    hide Conds, Params, Built, IdFragments, TermFragments, ConceptFragments, SeverityFragments, TimeFragments,
         PortFragments, ParsePorts;
    ok := PortsOk(s, a);
    clauses, params := [], [];
    if !ok {
      return;
    }
    var ids := IdFragments(a);
    var c, p := TermClauses(s, a.terms);
    var c1, p1 := ConceptClauses(s, a, Source, a.sources);
    var c2, p2 := ConceptClauses(s, a, Host, a.hosts);
    var c3, p3 := ConceptClauses(s, a, Destination, a.destinations);
    var rest := SeverityFragments(s, a) + TimeFragments(a) + AllPortFragments(s, a);
    clauses := Conds(ids) + c + c1 + c2 + c3 + Conds(rest);
    params := Params(ids) + p + p1 + p2 + p3 + Params(rest);
    BuiltSix(ids, c, p, TermFragments(s, a.terms), c1, p1, ConceptFragments(s, a, Source, a.sources),
             c2, p2, ConceptFragments(s, a, Host, a.hosts),
             c3, p3, ConceptFragments(s, a, Destination, a.destinations), rest);
    BaseIsSix(s, a);
  }

  lemma BaseIsSix(s: Settings, a: Args)
    ensures BaseFragments(s, a) ==
            IdFragments(a) + TermFragments(s, a.terms)
            + ConceptFragments(s, a, Source, a.sources)
            + ConceptFragments(s, a, Host, a.hosts)
            + ConceptFragments(s, a, Destination, a.destinations)
            + (SeverityFragments(s, a) + TimeFragments(a) + AllPortFragments(s, a))
  {
    hide IdFragments, TermFragments, ConceptFragments, SeverityFragments, TimeFragments, AllPortFragments;
  }

  lemma BuiltSix(ids: seq<Fragment>, c: seq<Cond>, p: seq<Param>, f: seq<Fragment>,
                 c1: seq<Cond>, p1: seq<Param>, f1: seq<Fragment>, c2: seq<Cond>, p2: seq<Param>, f2: seq<Fragment>,
                 c3: seq<Cond>, p3: seq<Param>, f3: seq<Fragment>, rest: seq<Fragment>)
    requires Built(c, p, f) && Built(c1, p1, f1) && Built(c2, p2, f2) && Built(c3, p3, f3)
    ensures Built(Conds(ids) + c + c1 + c2 + c3 + Conds(rest), Params(ids) + p + p1 + p2 + p3 + Params(rest),
                  ids + f + f1 + f2 + f3 + rest)
  {
    hide Conds, Params;
    Appended(ids, f);
    Appended(ids + f, f1);
    Appended(ids + f + f1, f2);
    Appended(ids + f + f1 + f2, f3);
    Appended(ids + f + f1 + f2 + f3, rest);
  }

  lemma NextFilter(s: Settings, a: Args, fs: seq<Filter>, i: nat, kind: Kind)
    requires i < |fs|
    ensures Of(s, a, fs[..i + 1], kind) ==
            Of(s, a, fs[..i], kind) + if KindOf(s, a, fs[i]) == kind then [fs[i]] else []
  {
    assert fs[..i + 1][..i] == fs[..i];
  }

  lemma PushedFilter(s: Settings, a: Args, fs: seq<Filter>, f: Filter)
    ensures FieldFragments(s, a, fs + [f]) == FieldFragments(s, a, fs) + [FieldFragment(s, a, f)]
    ensures JoinConds(s, a, fs + [f]) == JoinConds(s, a, fs) + [FieldCond(s, a, f)]
    ensures JoinParams(s, a, fs + [f]) == JoinParams(s, a, fs) + FieldParams(s, a, f)
    ensures ExactMap(fs + [f]) == ExactMap(fs)[f.name := [f.needle]]
  {
    assert (fs + [f])[..|fs|] == fs;
  }

  /** What the loop over the field filters keeps: joins, exclusions, the OR group, and the
      exact filters as a document and as row conditions. */
  datatype Collector = Collector(
    joins: seq<RowCond>, joinParams: seq<Param>,
    extra: seq<Cond>, extraParams: seq<Param>,
    group: seq<Cond>, groupParams: seq<Param>,
    exact: map<string, seq<string>>, legacy: seq<Cond>, legacyParams: seq<Param>)

  function Collect(s: Settings, a: Args, c: Collector, f: Filter): Collector {
    var row, ps := FieldCond(s, a, f), FieldParams(s, a, f);
    if f.negate then c.(extra := c.extra + [Not(Exists(row))], extraParams := c.extraParams + ps)
    else if a.anyOf then c.(group := c.group + [Exists(row)], groupParams := c.groupParams + ps)
    else if s.postgres && f.mode == Exact then
      c.(exact := c.exact[f.name := [f.needle]],
         legacy := c.legacy + [Exists(row)], legacyParams := c.legacyParams + ps)
    else c.(joins := c.joins + [row], joinParams := c.joinParams + ps)
  }

  ghost predicate Collected(s: Settings, a: Args, fs: seq<Filter>, c: Collector) {
    && c.joins == JoinConds(s, a, Of(s, a, fs, Joined)) && c.joinParams == JoinParams(s, a, Of(s, a, fs, Joined))
    && Built(c.extra, c.extraParams, FieldFragments(s, a, Of(s, a, fs, Excluded)))
    && Built(c.group, c.groupParams, FieldFragments(s, a, Of(s, a, fs, Grouped)))
    && Built(c.legacy, c.legacyParams, FieldFragments(s, a, Of(s, a, fs, InDocument)))
    && c.exact == ExactMap(Of(s, a, fs, InDocument))
  }

  lemma CollectedNext(s: Settings, a: Args, fs: seq<Filter>, i: nat, c: Collector)
    requires i < |fs| && Collected(s, a, fs[..i], c)
    ensures Collected(s, a, fs[..i + 1], Collect(s, a, c, fs[i]))
  {
    hide Built, Conds, Params, FieldFragments, JoinConds, JoinParams, ExactMap, FieldCond, FieldParams, Of;
    var f := fs[i];
    var kind := KindOf(s, a, f);
    var before := Of(s, a, fs[..i], kind);
    assert forall k | k != kind :: Of(s, a, fs[..i + 1], k) == Of(s, a, fs[..i], k) by {
      forall k | k != kind ensures Of(s, a, fs[..i + 1], k) == Of(s, a, fs[..i], k) {
        NextFilter(s, a, fs, i, k);
      }
    }
    NextFilter(s, a, fs, i, kind);
    PushedFilter(s, a, before, f);
    var g, frags := FieldFragment(s, a, f), FieldFragments(s, a, before);
    match kind
    case Excluded => BuiltOne(c.extra, c.extraParams, frags, g);
    case Grouped => BuiltOne(c.group, c.groupParams, frags, g);
    case InDocument => BuiltOne(c.legacy, c.legacyParams, frags, g);
    case Joined =>
  }

  lemma CollectedNone(s: Settings, a: Args)
    ensures Collected(s, a, [], Collector([], [], [], [], [], [], map[], [], []))
  {
  }

  /** `_query_logs_extracted`: the page query, or the sort query on an extracted field. The OR
      group is kept apart until every filter was read, so that its clause and its parameters
      are appended together. */
  method QueryLogs(s: Settings, a: Args, sort: Option<string>, cap: nat, limit: nat, offset: nat)
    returns (r: Option<Query>)
    ensures r.Some? <==> PortsOk(s, a)
    ensures r.Some? ==>
              r.value == if sort.None? then PageQuery(s, a, limit, offset) else SortQuery(s, a, sort.value, cap)
  {
    hide Collected, Built, Conds, Params, Collect, ParseFilters, PortsOk, SortCond, SortParams;
    var ok, base, baseParams := BuildLogQuery(s, a);
    if !ok {
      return None;
    }
    var fs := ParseFilters(a.filters);
    var c := Collector([], [], [], [], [], [], map[], [], []);
    CollectedNone(s, a);
    for i := 0 to |fs|
      invariant Collected(s, a, fs[..i], c)
    {
      CollectedNext(s, a, fs, i, c);
      c := Collect(s, a, c, fs[i]);
    }
    assert fs[..|fs|] == fs;
    var extra, extraParams := c.extra, c.extraParams;
    if c.exact != map[] {
      extra := extra + [DocumentCond(c.legacy)];
      extraParams := extraParams + ([Json(c.exact)] + c.legacyParams);
    }
    if c.group != [] {
      extra, extraParams := extra + [OrAll(c.group)], extraParams + c.groupParams;
    }
    ExtraBuilt(s, a, fs, c, extra, extraParams);
    WhereBuilt(s, a, base, baseParams, extra, extraParams);
    CollectedJoins(s, a, fs, c);
    if sort.Some? {
      return Some(Query(Statement(c.joins, Some(SortCond(s, a)), AndAll(base + extra), false),
                        c.joinParams + SortParams(s, a, sort.value) + (baseParams + extraParams) + [Number(cap)]));
    }
    r := Some(Query(Statement(c.joins, None, AndAll(base + extra), true),
                    c.joinParams + (baseParams + extraParams) + [Number(limit), Number(offset)]));
  }

  lemma CollectedJoins(s: Settings, a: Args, fs: seq<Filter>, c: Collector)
    requires Collected(s, a, fs, c)
    ensures c.joins == JoinConds(s, a, Of(s, a, fs, Joined)) && c.joinParams == JoinParams(s, a, Of(s, a, fs, Joined))
  {
  }

  lemma ExactMapEmptyIff(fs: seq<Filter>)
    ensures ExactMap(fs) == map[] <==> fs == []
  {
    if fs != [] {
      assert fs[|fs| - 1].name in ExactMap(fs);
    }
  }

  lemma ExtraBuilt(s: Settings, a: Args, fs: seq<Filter>, c: Collector, extra: seq<Cond>, extraParams: seq<Param>)
    requires Collected(s, a, fs, c)
    requires extra == c.extra
                      + (if c.exact != map[] then [DocumentCond(c.legacy)] else [])
                      + if c.group != [] then [OrAll(c.group)] else []
    requires extraParams == c.extraParams
                            + (if c.exact != map[] then [Json(c.exact)] + c.legacyParams else [])
                            + if c.group != [] then c.groupParams else []
    ensures Built(extra, extraParams, ExtraFragments(s, a, fs))
  {
    hide Conds, Params, AndAll, OrAll, ExactMap, FieldFragments, Of;
    var excluded, indexed, grouped := Of(s, a, fs, Excluded), Of(s, a, fs, InDocument), Of(s, a, fs, Grouped);
    ExactMapEmptyIff(indexed);
    var first := FieldFragments(s, a, excluded);
    var second := if indexed == [] then [] else [DocumentFragment(s, a, indexed)];
    if indexed != [] {
      BuiltOne(c.extra, c.extraParams, first, DocumentFragment(s, a, indexed));
    } else {
      assert first + second == first;
    }
    ConditionsCount(FieldFragments(s, a, grouped));
    var two := c.extra + if c.exact != map[] then [DocumentCond(c.legacy)] else [];
    var twoParams := c.extraParams + if c.exact != map[] then [Json(c.exact)] + c.legacyParams else [];
    if grouped != [] {
      BuiltOne(two, twoParams, first + second, GroupFragment(s, a, grouped));
      assert ExtraFragments(s, a, fs) == first + second + [GroupFragment(s, a, grouped)];
    } else {
      assert ExtraFragments(s, a, fs) == first + second;
    }
  }

  lemma ConditionsCount(fs: seq<Fragment>)
    ensures |Conds(fs)| == |fs|
  {
  }

  lemma WhereBuilt(s: Settings, a: Args, base: seq<Cond>, baseParams: seq<Param>, extra: seq<Cond>,
                   extraParams: seq<Param>)
    requires Built(base, baseParams, BaseFragments(s, a))
    requires Built(extra, extraParams, ExtraFragments(s, a, ParseFilters(a.filters)))
    ensures base + extra == Conds(WhereFragments(s, a)) && baseParams + extraParams == Params(WhereFragments(s, a))
  {
    hide Conds, Params, BaseFragments, ExtraFragments;
    Appended(BaseFragments(s, a), ExtraFragments(s, a, ParseFilters(a.filters)));
  }
}
