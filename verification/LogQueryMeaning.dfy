/**
 What a search means, stated on one event and its field rows without any SQL, and the proof
 that each part of the compiled WHERE says just that.
 */
module LogQueryMeaning {
  import opened Options
  import opened FieldIndex
  import opened SqlLike
  import opened LogSql
  import opened LogQuery

  // ---- The meaning of a search ---------------------------------------------

  predicate Fits(mode: Mode, needle: string, text: string) {
    match mode
    case Exact => text == needle
    case ExactAddress => text == needle
    case Prefix => needle <= text
    case _ => Occurs(needle, text)
  }

  predicate RowIs(row: FieldRow, name: string, mode: Mode, needle: string) {
    row.row.key == name && Fits(mode, needle, row.row.norm)
  }

  /** Some extracted field of the event has the name and a fitting value. */
  predicate FieldMatches(log: Log, name: string, mode: Mode, needle: string) {
    exists k | 0 <= k < |log.rows| :: RowIs(log.rows[k], name, mode, needle)
  }

  predicate InWindow(a: Args, log: Log) {
    (a.from.Some? ==> a.from.value <= log.time) && (a.to.Some? ==> log.time <= a.to.value)
  }

  predicate IdWanted(a: Args, log: Log) {
    (a.ids == [] || log.id in a.ids[..if |a.ids| <= MAX_IDS then |a.ids| else MAX_IDS])
    && (a.snapshot.Some? ==> log.id <= a.snapshot.value)
  }

  predicate TermWanted(s: Settings, e: Engine, raw: string, log: Log) {
    var (needle, negate) := Negation(raw);
    if s.postgres
    then s.token(needle) == "" || raw == "" || negate != e.textMatches(OrEmpty(log.message), s.token(needle))
    else needle == "" || (log.message.Some? && negate != Occurs(needle, log.message.value))
  }

  /** The full-text index knows the token of the term in the message, or not, as asked. */
  predicate TokenWanted(s: Settings, e: Engine, raw: string, log: Log) {
    var (needle, negate) := Negation(raw);
    raw == "" || s.indexToken(needle) == "" || negate != e.tokenMatches(OrEmpty(log.message), s.indexToken(needle))
  }

  /** Some term includes something the index can look for. */
  predicate IndexCanTell(s: Settings, raws: seq<string>) {
    exists i | 0 <= i < |raws| :: raws[i] != "" && !Negation(raws[i]).1 && s.indexToken(Negation(raws[i]).0) != ""
  }

  predicate AllTermsWanted(s: Settings, e: Engine, raws: seq<string>, log: Log) {
    if !s.postgres && s.indexed && IndexCanTell(s, raws)
    then forall i | 0 <= i < |raws| :: TokenWanted(s, e, raws[i], log)
    else forall i | 0 <= i < |raws| :: TermWanted(s, e, raws[i], log)
  }

  predicate ByAddress(s: Settings, c: Concept, mode: Mode) {
    s.postgres && ((c != Host && mode == Network) || (c == Source && mode == Exact)
                   || (c == Destination && mode == ExactAddress))
  }

  /** The column of the filter is not null. */
  predicate ColumnKnown(s: Settings, c: Concept, mode: Mode, log: Log) {
    if ByAddress(s, c, mode) then Address(log, c).Some? else Column(log, c).Some?
  }

  predicate ColumnWanted(s: Settings, e: Engine, c: Concept, mode: Mode, needle: string, log: Log)
    requires ColumnKnown(s, c, mode, log)
  {
    if ByAddress(s, c, mode) then
      if mode == Network then e.within(Address(log, c).value, needle) else e.sameAddress(Address(log, c).value, needle)
    else Fits(mode, needle, Column(log, c).value)
  }

  /** Some extracted field that is an alias of the concept. */
  predicate AliasWanted(s: Settings, c: Concept, term: string, log: Log) {
    var (mode, needle) := ConceptMode(s, c, term);
    !(mode == Network && s.postgres)
    && exists name :: name in s.aliases(c) && FieldMatches(log, name, AliasMode(mode), needle)
  }

  /** The column or an alias. */
  predicate IdentityWanted(s: Settings, e: Engine, c: Concept, term: string, log: Log) {
    var (mode, needle) := ConceptMode(s, c, term);
    (ColumnKnown(s, c, mode, log) && ColumnWanted(s, e, c, mode, needle, log)) || AliasWanted(s, c, term, log)
  }

  predicate IdentityKnown(s: Settings, c: Concept, term: string, log: Log) {
    ColumnKnown(s, c, ConceptMode(s, c, term).0, log)
  }

  /** A negated filter wants events that are known not to match: one with a null column is lost. */
  predicate ConceptWanted(s: Settings, e: Engine, c: Concept, raw: string, log: Log) {
    var (needle, negate) := Negation(raw);
    needle == "" ||
    if negate then IdentityKnown(s, c, needle, log) && !IdentityWanted(s, e, c, needle, log)
    else IdentityWanted(s, e, c, needle, log)
  }

  predicate SeverityWanted(s: Settings, a: Args, log: Log) {
    a.severity == "" ||
    var (op, value) := SeverityParts(a.severity);
    var spelled := Spellings(s, value);
    match op
    case Is => log.severity.Some? && log.severity.value in spelled
    case IsNot => log.severity.Some? && log.severity.value !in spelled
    case Ranked(c) =>
      spelled[0] in SEVERITIES ==> Compare(RankFrom(OrEmpty(log.severity), 0), c, RankFrom(spelled[0], 0))
  }

  predicate PortWanted(ports: Ports, port: Option<int>) {
    ports.Range? ==> port.Some? && ports.lo <= port.value <= ports.hi
  }

  predicate AllPortsWanted(s: Settings, a: Args, log: Log) {
    s.postgres ==> PortWanted(ParsePorts(a.srcPort), log.srcPort) && PortWanted(ParsePorts(a.dstPort), log.dstPort)
  }

  predicate AllConceptsWanted(s: Settings, e: Engine, c: Concept, raws: seq<string>, log: Log) {
    forall i | 0 <= i < |raws| :: ConceptWanted(s, e, c, raws[i], log)
  }

  predicate BaseWanted(s: Settings, e: Engine, a: Args, log: Log) {
    && IdWanted(a, log)
    && AllTermsWanted(s, e, a.terms, log)
    && AllConceptsWanted(s, e, Source, a.sources, log)
    && AllConceptsWanted(s, e, Host, a.hosts, log)
    && AllConceptsWanted(s, e, Destination, a.destinations, log)
    && SeverityWanted(s, a, log)
    && InWindow(a, log)
    && AllPortsWanted(s, a, log)
  }

  predicate FilterMatches(log: Log, f: Filter) { FieldMatches(log, f.name, f.mode, f.needle) }

  /** Every exclusion, and all positive filters, or any of them under `fc_op=or`. */
  predicate FieldsWanted(a: Args, fs: seq<Filter>, log: Log) {
    && (forall f | f in fs && f.negate :: !FilterMatches(log, f))
    && if a.anyOf
       then (forall f | f in fs :: f.negate) || (exists f :: f in fs && !f.negate && FilterMatches(log, f))
       else forall f | f in fs && !f.negate :: FilterMatches(log, f)
  }

  predicate Wanted(s: Settings, e: Engine, a: Args, log: Log) {
    BaseWanted(s, e, a, log) && FieldsWanted(a, ParseFilters(a.filters), log)
  }

  // ---- What the storage keeps ---------------------------------------------

  function Bare(rows: seq<FieldRow>): (r: seq<Row>)
    ensures |r| == |rows| && forall k | 0 <= k < |rows| :: r[k] == rows[k].row
  {
    seq(|rows|, k requires 0 <= k < |rows| => rows[k].row)
  }

  /** Field rows carry the event's own time or none, and the document, if the event has one,
      agrees with the rows. */
  ghost predicate Stored(log: Log) {
    && (forall k | 0 <= k < |log.rows| :: log.rows[k].time == None || log.rows[k].time == Some(log.time))
    && (log.search.Some? ==>
          forall name, needle :: Contains(log.search.value, name, needle) <==> HasRow(Bare(log.rows), name, needle))
  }

  /** The writers store events this way: the rows of `WriteFields` beside the document of
      `SearchFieldPayload`, or no document yet. */
  lemma WritersStore(log: Log, fields: Fields, fold: string -> string)
    requires log.rows == Stamped(log.id, NormalizedRows(fields, fold), Some(log.time))
             || log.rows == Stamped(log.id, NormalizedRows(fields, fold), None)
    requires log.search.Some? ==>
               forall name, needle ::
                 Contains(log.search.value, name, needle) <==> HasRow(NormalizedRows(fields, fold), name, needle)
    ensures Stored(log)
  {
    assert Bare(log.rows) == NormalizedRows(fields, fold);
  }

  // ---- Filters read from the request ---------------------------------------

  ghost predicate DistinctNames(fs: seq<Filter>) {
    forall i, j | 0 <= i < j < |fs| :: fs[i].name != fs[j].name
  }

  lemma {:induction false} PutKeepsDistinct(fs: seq<Filter>, f: Filter)
    requires DistinctNames(fs)
    ensures DistinctNames(Put(fs, f))
    ensures forall g | g in Put(fs, f) :: g == f || g in fs
    decreases |fs|
  {
    if fs != [] && fs[0].name != f.name {
      PutKeepsDistinct(fs[1..], f);
      var r := Put(fs[1..], f);
      forall i, j | 0 <= i < j < |r| + 1
        ensures ([fs[0]] + r)[i].name != ([fs[0]] + r)[j].name
      {
        if i == 0 {
          assert r[j - 1] in r;
        }
      }
    }
  }

  /** Like a dictionary, the parsed filters hold each name once. */
  lemma {:induction false} ParsedNamesAreDistinct(raw: seq<(string, string)>)
    ensures DistinctNames(ParseFilters(raw))
    decreases |raw|
  {
    if raw != [] {
      ParsedNamesAreDistinct(raw[..|raw| - 1]);
      PutKeepsDistinct(ParseFilters(raw[..|raw| - 1]), ParseFilter(raw[|raw| - 1]));
    }
  }

  /** Splitting by kind keeps the filters of that kind and their order. */
  lemma {:induction false} OfMembers(s: Settings, a: Args, fs: seq<Filter>, kind: Kind)
    ensures forall f :: f in Of(s, a, fs, kind) <==> f in fs && KindOf(s, a, f) == kind
    ensures DistinctNames(fs) ==> DistinctNames(Of(s, a, fs, kind))
    decreases |fs|
  {
    if fs != [] {
      hide KindOf, DistinctNames;
      var front, last := fs[..|fs| - 1], fs[|fs| - 1];
      OfMembers(s, a, front, kind);
      assert fs == front + [last];
      if DistinctNames(fs) {
        LastNameIsNew(fs);
        OneMoreName(Of(s, a, front, kind), last);
      }
    } else {
      NoNames();
    }
  }

  lemma LastNameIsNew(fs: seq<Filter>)
    requires fs != [] && DistinctNames(fs)
    ensures DistinctNames(fs[..|fs| - 1])
    ensures forall f | f in fs[..|fs| - 1] :: f.name != fs[|fs| - 1].name
  {
  }

  lemma OneMoreName(fs: seq<Filter>, f: Filter)
    requires DistinctNames(fs) && forall g | g in fs :: g.name != f.name
    ensures DistinctNames(fs + [f])
    ensures fs + [] == fs
  {
  }

  lemma NoNames()
    ensures DistinctNames([])
  {
  }

  // ---- One row ------------------------------------------------------------

  lemma TimesFill(s: Settings, a: Args)
    ensures |FieldTimes(s, a)| == StampHoles(FieldStamp(s, a)) == StampHoles(AliasStamp(s, a))
  {
  }

  /** The stamp test never excludes a row of an event inside the requested window. */
  lemma StampsPass(s: Settings, a: Args, log: Log, row: FieldRow)
    requires row.time == None || row.time == Some(log.time)
    requires InWindow(a, log)
    ensures |FieldTimes(s, a)| == StampHoles(FieldStamp(s, a)) == StampHoles(AliasStamp(s, a))
    ensures StampHolds(FieldStamp(s, a), log, row, FieldTimes(s, a))
    ensures StampHolds(AliasStamp(s, a), log, row, FieldTimes(s, a))
  {
  }

  lemma ValueFits(mode: Mode, needle: string, text: string)
    ensures (match ValueTestOf(mode)
             case AnyValue => true
             case ValueIs => ValueParam(mode, needle) == Text(text)
             case ValueLike => LikeFits(text, ValueParam(mode, needle)))
            <==> Fits(mode, needle, text)
  {
    hide Like, PrefixPattern, ContainsPattern, Occurs;
    PrefixPatternExact(text, needle);
    ContainsPatternExact(text, needle);
  }

  lemma RowMeans(s: Settings, stamp: Stamp, times: seq<Param>, names: seq<string>, mode: Mode, needle: string,
                 log: Log, row: FieldRow)
    requires |times| == StampHoles(stamp) && StampHolds(stamp, log, row, times)
    ensures |times + Texts(names) + [ValueParam(mode, needle)]| == RowHoles(RowCond(stamp, |names|, ValueTestOf(mode)))
    ensures RowHolds(RowCond(stamp, |names|, ValueTestOf(mode)), log, row, times + Texts(names)
            + [ValueParam(mode, needle)])
            <==> row.row.key in names && Fits(mode, needle, row.row.norm)
  {
    hide StampHolds, Fits, ValueParam, LikeFits;
    var ps := times + Texts(names) + [ValueParam(mode, needle)];
    var k := |times|;
    assert ps[..k] == times;
    assert ps[k..k + |names|] == Texts(names);
    assert ps[k + |names|] == ValueParam(mode, needle);
    assert Text(row.row.key) in Texts(names) <==> row.row.key in names by {
      if row.row.key in names {
        var i :| 0 <= i < |names| && names[i] == row.row.key;
        assert Texts(names)[i] == Text(row.row.key);
      }
    }
    ValueFits(mode, needle, row.row.norm);
  }

  lemma FieldRowMeans(s: Settings, a: Args, f: Filter, log: Log, row: FieldRow)
    requires row.time == None || row.time == Some(log.time)
    requires InWindow(a, log)
    ensures |FieldParams(s, a, f)| == RowHoles(FieldCond(s, a, f))
    ensures RowHolds(FieldCond(s, a, f), log, row, FieldParams(s, a, f)) <==> RowIs(row, f.name, f.mode, f.needle)
  {
    hide StampHolds, Fits, ValueParam, RowHolds, ValueTestOf, FieldTimes, FieldStamp, AliasStamp, StampHoles,
         RowHoles, InWindow;
    StampsPass(s, a, log, row);
    RowMeans(s, FieldStamp(s, a), FieldTimes(s, a), [f.name], f.mode, f.needle, log, row);
    assert Texts([f.name]) == [Text(f.name)];
    assert FieldTimes(s, a) + [Text(f.name)] + [ValueParam(f.mode, f.needle)] == FieldParams(s, a, f);
  }

  lemma FieldParamsFill(s: Settings, a: Args, f: Filter)
    ensures |FieldParams(s, a, f)| == RowHoles(FieldCond(s, a, f))
  {
    hide ValueParam;
    TimesFill(s, a);
  }

  // ---- Field filters ---------------------------------------------------------

  /** A stored event inside the requested window. */
  ghost predicate Proper(a: Args, log: Log) { Stored(log) && InWindow(a, log) }

  lemma FieldFragmentMeans(s: Settings, e: Engine, a: Args, f: Filter, log: Log)
    ensures Aligned(FieldFragment(s, a, f))
    ensures Proper(a, log) ==> (Means(e, FieldFragment(s, a, f), log) <==> f.negate != FilterMatches(log, f))
  {
    hide RowHolds, RowIs, FieldCond, FieldParams, RowHoles, InWindow, Means, Aligned;
    FieldParamsFill(s, a, f);
    forall k | 0 <= k < |log.rows| && Proper(a, log)
      ensures RowHolds(FieldCond(s, a, f), log, log.rows[k], FieldParams(s, a, f))
              <==> RowIs(log.rows[k], f.name, f.mode, f.needle)
    {
      FieldRowMeans(s, a, f, log, log.rows[k]);
    }
    ExistsMeans(e, FieldCond(s, a, f), FieldParams(s, a, f), log);
    hide Refutes;
    NegateMeans(e, Fragment(Exists(FieldCond(s, a, f)), FieldParams(s, a, f)), f.negate, log);
  }

  lemma ExistsMeans(e: Engine, r: RowCond, ps: seq<Param>, log: Log)
    requires |ps| == RowHoles(r)
    ensures Aligned(Fragment(Exists(r), ps))
    ensures Means(e, Fragment(Exists(r), ps), log)
            <==> exists k | 0 <= k < |log.rows| :: RowHolds(r, log, log.rows[k], ps)
    ensures Refutes(e, Fragment(Exists(r), ps), log) <==> !Means(e, Fragment(Exists(r), ps), log)
  {
    hide RowHolds, RowHoles;
  }

  lemma NegateMeans(e: Engine, f: Fragment, negate: bool, log: Log)
    requires Aligned(f)
    ensures Aligned(Negate(f, negate))
    ensures Means(e, Negate(f, negate), log) <==> if negate then Refutes(e, f, log) else Means(e, f, log)
  {
  }

  lemma FieldFragmentsMean(s: Settings, e: Engine, a: Args, fs: seq<Filter>, log: Log)
    ensures AllAligned(FieldFragments(s, a, fs))
    ensures Proper(a, log) ==>
              (AllMean(e, FieldFragments(s, a, fs), log) <==> forall f | f in fs :: f.negate != FilterMatches(log, f))
    ensures Proper(a, log) ==>
              (AnyMeans(e, FieldFragments(s, a, fs), log) <==> exists f :: f in fs && f.negate != FilterMatches(log, f))
  {
    hide Proper, Means, Aligned, FilterMatches, FieldFragment;
    var g := FieldFragments(s, a, fs);
    forall i | 0 <= i < |fs|
      ensures Aligned(g[i])
      ensures Proper(a, log) ==> (Means(e, g[i], log) <==> fs[i].negate != FilterMatches(log, fs[i]))
    {
      FieldFragmentMeans(s, e, a, fs[i], log);
    }
  }

  /** Exactly the filters' names, each with its own needle. */
  lemma {:induction false} ExactMapEntries(fs: seq<Filter>)
    requires DistinctNames(fs)
    ensures forall i | 0 <= i < |fs| :: fs[i].name in ExactMap(fs) && ExactMap(fs)[fs[i].name] == [fs[i].needle]
    ensures forall name | name in ExactMap(fs) :: exists i :: 0 <= i < |fs| && fs[i].name == name
    decreases |fs|
  {
    if fs != [] {
      var n := |fs| - 1;
      ExactMapEntries(fs[..n]);
      assert forall i | 0 <= i < n :: fs[..n][i] == fs[i];
    }
  }

  /** The document form agrees with the row form for any conjunction of exact filters. */
  lemma DocumentAgrees(fs: seq<Filter>, log: Log)
    requires Stored(log) && log.search.Some? && DistinctNames(fs)
    requires forall f | f in fs :: f.mode == Exact
    ensures ContainsAll(log.search.value, ExactMap(fs)) <==> forall f | f in fs :: FilterMatches(log, f)
  {
    hide ExactMap;
    ExactMapEntries(fs);
    forall f | f in fs
      ensures Contains(log.search.value, f.name, f.needle) <==> FilterMatches(log, f)
    {
      HasRowIsMatch(log, f.name, f.needle);
    }
    hide Contains, Stored, FilterMatches;
  }

  lemma HasRowIsMatch(log: Log, name: string, needle: string)
    ensures HasRow(Bare(log.rows), name, needle) <==> FieldMatches(log, name, Exact, needle)
  {
    if FieldMatches(log, name, Exact, needle) {
      var k :| 0 <= k < |log.rows| && RowIs(log.rows[k], name, Exact, needle);
      assert Bare(log.rows)[k] in Bare(log.rows);
    }
  }

  lemma DocumentTests(e: Engine, exact: map<string, seq<string>>, log: Log)
    ensures Aligned(Fragment(Simple(SearchMissing), [])) && Aligned(Fragment(Simple(SearchContains), [Json(exact)]))
    ensures Means(e, Fragment(Simple(SearchMissing), []), log) <==> log.search.None?
    ensures Means(e, Fragment(Simple(SearchContains), [Json(exact)]), log)
            <==> log.search.Some? && ContainsAll(log.search.value, exact)
  {
    hide ContainsAll;
  }

  lemma DocumentFragmentMeans(s: Settings, e: Engine, a: Args, fs: seq<Filter>, log: Log)
    requires DistinctNames(fs)
    requires forall f | f in fs :: f.mode == Exact && !f.negate
    ensures Aligned(DocumentFragment(s, a, fs))
    ensures Proper(a, log) ==>
              (Means(e, DocumentFragment(s, a, fs), log) <==> forall f | f in fs :: FilterMatches(log, f))
  {
    hide Stored, InWindow, FilterMatches, ContainsAll, ExactMap, DistinctNames, FieldFragments, AndAll, Conds, Params,
         AllMean, Means, Aligned, Contains;
    FieldFragmentsMean(s, e, a, fs, log);
    var rows := FieldFragments(s, a, fs);
    AndAllMeans(e, rows, log);
    var all := Fragment(AndAll(Conds(rows)), Params(rows));
    DocumentTests(e, ExactMap(fs), log);
    JoinTwo(e, Fragment(Simple(SearchMissing), []), all, log);
    assert [] + Params(rows) == Params(rows);
    JoinTwo(e, Fragment(Simple(SearchContains), [Json(ExactMap(fs))]),
            Fragment(And(Simple(SearchMissing), all.cond), Params(rows)), log);
    if log.search.Some? && Proper(a, log) {
      DocumentAgrees(fs, log);
    }
  }

  lemma GroupFragmentMeans(s: Settings, e: Engine, a: Args, fs: seq<Filter>, log: Log)
    requires fs != [] && forall f | f in fs :: !f.negate
    ensures Aligned(GroupFragment(s, a, fs))
    ensures Proper(a, log) ==>
              (Means(e, GroupFragment(s, a, fs), log) <==> exists f :: f in fs && FilterMatches(log, f))
  {
    hide Proper, FilterMatches, FieldFragments, OrAll, Conds, Params, AnyMeans, Means, Aligned;
    FieldFragmentsMean(s, e, a, fs, log);
    OrAllMeans(e, FieldFragments(s, a, fs), log);
  }

  lemma MeanBoth(e: Engine, a: seq<Fragment>, b: seq<Fragment>, log: Log)
    ensures AllAligned(a) && AllAligned(b) ==> AllAligned(a + b)
    ensures AllMean(e, a + b, log) <==> AllMean(e, a, log) && AllMean(e, b, log)
  {
    hide Aligned, Means;
    assert forall i | 0 <= i < |a| :: (a + b)[i] == a[i];
    assert forall i | 0 <= i < |b| :: (a + b)[|a| + i] == b[i];
  }

  lemma MeanOne(e: Engine, f: Fragment, log: Log)
    ensures AllAligned([f]) <==> Aligned(f)
    ensures AllMean(e, [f], log) <==> Means(e, f, log)
  {
    hide Aligned, Means;
    assert [f][0] == f;
  }

  /** The part of the field filters that the WHERE decides; joins decide the rest. */
  ghost predicate WhereFieldsWanted(s: Settings, a: Args, fs: seq<Filter>, log: Log) {
    && (forall f | f in fs && f.negate :: !FilterMatches(log, f))
    && (forall f | f in fs && KindOf(s, a, f) == InDocument :: FilterMatches(log, f))
    && ((exists f :: f in fs && KindOf(s, a, f) == Grouped) ==>
          exists f :: f in fs && KindOf(s, a, f) == Grouped && FilterMatches(log, f))
  }

  lemma ExtraFragmentsMean(s: Settings, e: Engine, a: Args, fs: seq<Filter>, log: Log)
    requires DistinctNames(fs)
    ensures AllAligned(ExtraFragments(s, a, fs))
    ensures Proper(a, log) ==> (AllMean(e, ExtraFragments(s, a, fs), log) <==> WhereFieldsWanted(s, a, fs, log))
  {
    hide Proper, FilterMatches, FieldFragments, DocumentFragment, GroupFragment, AllMean, Means, Aligned, AllAligned,
         Of, DistinctNames;
    var excluded, indexed, grouped := Of(s, a, fs, Excluded), Of(s, a, fs, InDocument), Of(s, a, fs, Grouped);
    OfMembers(s, a, fs, Excluded);
    OfMembers(s, a, fs, InDocument);
    OfMembers(s, a, fs, Grouped);
    FieldFragmentsMean(s, e, a, excluded, log);
    var first := FieldFragments(s, a, excluded);
    var second := if indexed == [] then [] else [DocumentFragment(s, a, indexed)];
    var third := if grouped == [] then [] else [GroupFragment(s, a, grouped)];
    NoneMean(e, log);
    if indexed != [] {
      DocumentFragmentMeans(s, e, a, indexed, log);
      MeanOne(e, DocumentFragment(s, a, indexed), log);
    }
    if grouped != [] {
      GroupFragmentMeans(s, e, a, grouped, log);
      MeanOne(e, GroupFragment(s, a, grouped), log);
    }
    MeanBoth(e, first, second, log);
    MeanBoth(e, first + second, third, log);
    SplitByKind(s, a, fs, log, excluded, indexed, grouped);
  }

  lemma NoneMean(e: Engine, log: Log)
    ensures AllAligned([]) && AllMean(e, [], log)
  {
  }

  lemma SplitByKind(s: Settings, a: Args, fs: seq<Filter>, log: Log, excluded: seq<Filter>, indexed: seq<Filter>,
                    grouped: seq<Filter>)
    requires forall f :: f in excluded <==> f in fs && KindOf(s, a, f) == Excluded
    requires forall f :: f in indexed <==> f in fs && KindOf(s, a, f) == InDocument
    requires forall f :: f in grouped <==> f in fs && KindOf(s, a, f) == Grouped
    ensures WhereFieldsWanted(s, a, fs, log) <==>
            && (forall f | f in excluded :: !FilterMatches(log, f))
            && (forall f | f in indexed :: FilterMatches(log, f))
            && (grouped == [] || exists f :: f in grouped && FilterMatches(log, f))
  {
    hide FilterMatches;
    assert grouped != [] ==> grouped[0] in grouped;
  }

  // ---- The base WHERE ---------------------------------------------------------

  lemma TestMeans(e: Engine, t: Test, ps: seq<Param>, log: Log)
    requires |ps| == TestHoles(t)
    ensures Aligned(Fragment(Simple(t), ps))
    ensures Means(e, Fragment(Simple(t), ps), log) <==> TestKnown(t, log) && TestHolds(e, t, log, ps)
    ensures Refutes(e, Fragment(Simple(t), ps), log) <==> TestKnown(t, log) && !TestHolds(e, t, log, ps)
  {
    hide TestHolds, TestHoles, TestKnown;
  }

  lemma IdFragmentsMean(e: Engine, a: Args, log: Log)
    ensures AllAligned(IdFragments(a))
    ensures AllMean(e, IdFragments(a), log) <==> IdWanted(a, log)
  {
    hide AllAligned, AllMean, Aligned, Means;
    var ids := if |a.ids| <= MAX_IDS then a.ids else a.ids[..MAX_IDS];
    var first := if ids == [] then [] else [Fragment(Simple(IdIn(|ids|)), Numbers(ids))];
    var second := if a.snapshot.None? then [] else [Fragment(Simple(Compared(Id, AtMost)), [Number(a.snapshot.value)])];
    NoneMean(e, log);
    if ids != [] {
      TestMeans(e, IdIn(|ids|), Numbers(ids), log);
      MeanOne(e, first[0], log);
      if log.id in ids {
        var i :| 0 <= i < |ids| && ids[i] == log.id;
        assert Numbers(ids)[i] == Number(log.id);
      }
    }
    if a.snapshot.Some? {
      TestMeans(e, Compared(Id, AtMost), [Number(a.snapshot.value)], log);
      MeanOne(e, second[0], log);
    }
    MeanBoth(e, first, second, log);
    assert |a.ids| <= MAX_IDS ==> a.ids[..|a.ids|] == a.ids;
  }

  lemma TermFragmentMeans(s: Settings, e: Engine, raw: string, log: Log)
    ensures AllAligned(TermFragment(s, raw))
    ensures AllMean(e, TermFragment(s, raw), log) <==> TermWanted(s, e, raw, log)
  {
    hide AllAligned, AllMean, Aligned, Means, Refutes, ContainsPattern, Like, Occurs, Negation;
    var (needle, negate) := Negation(raw);
    NoneMean(e, log);
    if TermFragment(s, raw) != [] {
      var t, p := if s.postgres then MessageMatches else MessageLike,
                  if s.postgres then s.token(needle) else ContainsPattern(needle);
      TestMeans(e, t, [Text(p)], log);
      NegateMeans(e, Fragment(Simple(t), [Text(p)]), negate, log);
      MeanOne(e, TermFragment(s, raw)[0], log);
      if log.message.Some? {
        ContainsPatternExact(log.message.value, needle);
      }
    }
  }

  // ---- The full-text index ----------------------------------------------------

  lemma {:induction false} ExceptingMeans(e: Engine, message: string, m: Match, excluded: seq<string>)
    ensures MatchHolds(e, message, Excepting(m, excluded))
            <==> MatchHolds(e, message, m) && forall t | t in excluded :: !e.tokenMatches(message, t)
    decreases |excluded|
  {
    if excluded != [] {
      var front, last := excluded[..|excluded| - 1], excluded[|excluded| - 1];
      ExceptingMeans(e, message, m, front);
      assert excluded == front + [last];
    }
  }

  /** The expression finds exactly the messages with every included and no excluded token, although
      its exclusions hang on the last included token only. */
  lemma {:induction false} MatchMeans(e: Engine, message: string, included: seq<string>, excluded: seq<string>)
    requires included != []
    ensures MatchHolds(e, message, MatchOf(included, excluded))
            <==> && (forall t | t in included :: e.tokenMatches(message, t))
                 && (forall t | t in excluded :: !e.tokenMatches(message, t))
    decreases |included|
  {
    assert included == [included[0]] + included[1..];
    if |included| == 1 {
      ExceptingMeans(e, message, Token(included[0]), excluded);
    } else {
      MatchMeans(e, message, included[1..], excluded);
    }
  }

  ghost predicate TokensHold(e: Engine, log: Log, tokens: seq<string>, present: bool) {
    forall t | t in tokens :: e.tokenMatches(OrEmpty(log.message), t) == present
  }

  lemma TokensHoldLast(e: Engine, log: Log, tokens: seq<string>, t: string, present: bool)
    ensures TokensHold(e, log, tokens + [t], present)
            <==> TokensHold(e, log, tokens, present) && e.tokenMatches(OrEmpty(log.message), t) == present
  {
  }

  ghost predicate TokensWanted(s: Settings, e: Engine, raws: seq<string>, log: Log) {
    forall i | 0 <= i < |raws| :: TokenWanted(s, e, raws[i], log)
  }

  lemma TokensWantedLast(s: Settings, e: Engine, raws: seq<string>, log: Log)
    requires raws != []
    ensures TokensWanted(s, e, raws, log)
            <==> TokensWanted(s, e, raws[..|raws| - 1], log) && TokenWanted(s, e, raws[|raws| - 1], log)
    ensures IndexCanTell(s, raws) <==> IndexCanTell(s, raws[..|raws| - 1]) || IndexCanTell(s, [raws[|raws| - 1]])
  {
    hide TokenWanted, Negation;
    var front, last := raws[..|raws| - 1], raws[|raws| - 1];
    assert forall i | 0 <= i < |front| :: front[i] == raws[i];
    assert [last][0] == last;
  }

  /** The tokens are those of the terms. */
  lemma {:induction false} TokensMean(s: Settings, e: Engine, raws: seq<string>, log: Log)
    ensures TokensWanted(s, e, raws, log)
            <==> TokensHold(e, log, Tokens(s, raws, false), true) && TokensHold(e, log, Tokens(s, raws, true), false)
    ensures Tokens(s, raws, false) != [] <==> IndexCanTell(s, raws)
    decreases |raws|
  {
    if raws != [] {
      hide Negation, TokensWanted, TokensHold, IndexCanTell;
      var front, last := raws[..|raws| - 1], raws[|raws| - 1];
      TokensMean(s, e, front, log);
      TokensWantedLast(s, e, raws, log);
      OneCanTell(s, last);
      var token := s.indexToken(Negation(last).0);
      TokensHoldLast(e, log, Tokens(s, front, false), token, true);
      TokensHoldLast(e, log, Tokens(s, front, true), token, false);
    }
  }

  lemma OneCanTell(s: Settings, raw: string)
    ensures IndexCanTell(s, [raw]) <==> raw != "" && !Negation(raw).1 && s.indexToken(Negation(raw).0) != ""
  {
    hide Negation;
    assert [raw][0] == raw;
  }

  lemma TermFragmentsMean(s: Settings, e: Engine, raws: seq<string>, log: Log)
    ensures AllAligned(TermFragments(s, raws))
    ensures AllMean(e, TermFragments(s, raws), log) <==> AllTermsWanted(s, e, raws, log)
  {
    hide AllAligned, AllMean, Means, Aligned, EachTermFragments, Tokens, MatchOf, TokenWanted, TermWanted, IndexCanTell,
         Refutes;
    TokensMean(s, e, raws, log);
    assert TokensWanted(s, e, raws, log) <==> forall i | 0 <= i < |raws| :: TokenWanted(s, e, raws[i], log);
    if !s.postgres && s.indexed && Tokens(s, raws, false) != [] {
      var included, excluded := Tokens(s, raws, false), Tokens(s, raws, true);
      MatchMeans(e, OrEmpty(log.message), included, excluded);
      TestMeans(e, InIndex, [Expression(MatchOf(included, excluded))], log);
      MeanOne(e, Fragment(Simple(InIndex), [Expression(MatchOf(included, excluded))]), log);
    } else {
      EachTermMeans(s, e, raws, log);
    }
  }

  lemma {:induction false} EachTermMeans(s: Settings, e: Engine, raws: seq<string>, log: Log)
    ensures AllAligned(EachTermFragments(s, raws))
    ensures AllMean(e, EachTermFragments(s, raws), log)
            <==> forall i | 0 <= i < |raws| :: TermWanted(s, e, raws[i], log)
    decreases |raws|
  {
    hide AllAligned, AllMean, TermWanted, TermFragment;
    NoneMean(e, log);
    if raws != [] {
      var front, last := raws[..|raws| - 1], raws[|raws| - 1];
      EachTermMeans(s, e, front, log);
      TermFragmentMeans(s, e, last, log);
      MeanBoth(e, EachTermFragments(s, front), TermFragment(s, last), log);
      assert forall i | 0 <= i < |front| :: front[i] == raws[i];
    }
  }

  lemma AliasFragmentMeans(s: Settings, e: Engine, a: Args, c: Concept, mode: Mode, needle: string, log: Log)
    ensures Aligned(AliasFragment(s, a, c, mode, needle))
    ensures Proper(a, log) ==>
              (Means(e, AliasFragment(s, a, c, mode, needle), log) <==>
               exists name :: name in s.aliases(c) && FieldMatches(log, name, AliasMode(mode), needle))
    ensures Refutes(e, AliasFragment(s, a, c, mode, needle), log)
            <==> !Means(e, AliasFragment(s, a, c, mode, needle), log)
  {
    hide Means, Aligned, Refutes, RowHolds, RowHoles, ValueTestOf, ValueParam, StampHolds, StampHoles, FieldTimes,
         AliasStamp, FieldStamp,
         AliasMode, InWindow, Fits;
    var m := AliasMode(mode);
    var r := RowCond(AliasStamp(s, a), |s.aliases(c)|, ValueTestOf(m));
    var ps := FieldTimes(s, a) + Texts(s.aliases(c)) + [ValueParam(m, needle)];
    TimesFill(s, a);
    AliasParamsFill(s, a, c, mode, needle);
    ExistsMeans(e, r, ps, log);
    forall k | 0 <= k < |log.rows| && Proper(a, log)
      ensures RowHolds(r, log, log.rows[k], ps) <==>
              log.rows[k].row.key in s.aliases(c) && Fits(m, needle, log.rows[k].row.norm)
    {
      StampsPass(s, a, log, log.rows[k]);
      RowMeans(s, AliasStamp(s, a), FieldTimes(s, a), s.aliases(c), m, needle, log, log.rows[k]);
    }
    if Proper(a, log) {
      AnyName(s.aliases(c), m, needle, log);
    }
  }

  lemma AliasParamsFill(s: Settings, a: Args, c: Concept, mode: Mode, needle: string)
    ensures |FieldTimes(s, a) + Texts(s.aliases(c)) + [ValueParam(AliasMode(mode), needle)]|
            == RowHoles(RowCond(AliasStamp(s, a), |s.aliases(c)|, ValueTestOf(AliasMode(mode))))
  {
    hide ValueParam, AliasMode;
    TimesFill(s, a);
  }

  lemma AnyName(names: seq<string>, mode: Mode, needle: string, log: Log)
    ensures (exists k | 0 <= k < |log.rows| :: log.rows[k].row.key in names && Fits(mode, needle, log.rows[k].row.norm))
            <==> exists name :: name in names && FieldMatches(log, name, mode, needle)
  {
    hide Fits;
    if k :| 0 <= k < |log.rows| && log.rows[k].row.key in names && Fits(mode, needle, log.rows[k].row.norm) {
      assert RowIs(log.rows[k], log.rows[k].row.key, mode, needle);
      assert FieldMatches(log, log.rows[k].row.key, mode, needle);
    }
  }

  lemma ColumnFragmentMeans(s: Settings, e: Engine, c: Concept, mode: Mode, needle: string, log: Log)
    ensures Aligned(ColumnFragment(s, c, mode, needle))
    ensures Means(e, ColumnFragment(s, c, mode, needle), log)
            <==> ColumnKnown(s, c, mode, log) && ColumnWanted(s, e, c, mode, needle, log)
    ensures Refutes(e, ColumnFragment(s, c, mode, needle), log)
            <==> ColumnKnown(s, c, mode, log) && !ColumnWanted(s, e, c, mode, needle, log)
  {
    hide Like, Occurs, PrefixPattern, ContainsPattern, Means, Aligned, Refutes;
    if Column(log, c).Some? {
      PrefixPatternExact(Column(log, c).value, needle);
      ContainsPatternExact(Column(log, c).value, needle);
    }
    var f := ColumnFragment(s, c, mode, needle);
    TestMeans(e, f.cond.t, f.params, log);
  }

  /** True, false, or unknown: the column decides what it knows, and an alias can only confirm. */
  lemma IdentityFragmentMeans(s: Settings, e: Engine, a: Args, c: Concept, term: string, log: Log)
    ensures Aligned(IdentityFragment(s, a, c, term))
    ensures Proper(a, log) ==>
              && (Means(e, IdentityFragment(s, a, c, term), log) <==> IdentityWanted(s, e, c, term, log))
              && (Refutes(e, IdentityFragment(s, a, c, term), log) <==>
                  IdentityKnown(s, c, term, log) && !IdentityWanted(s, e, c, term, log))
  {
    hide Means, Refutes, Aligned, ColumnFragment, AliasFragment, ConceptMode, ColumnWanted, ColumnKnown,
         FieldMatches, Proper;
    var (mode, needle) := ConceptMode(s, c, term);
    ColumnFragmentMeans(s, e, c, mode, needle, log);
    AliasFragmentMeans(s, e, a, c, mode, needle, log);
    JoinTwo(e, ColumnFragment(s, c, mode, needle), AliasFragment(s, a, c, mode, needle), log);
  }

  /** The events that neither a filter nor its negation selects are exactly those whose column is
      null and that no alias confirms. */
  lemma LostToNegationIff(s: Settings, e: Engine, c: Concept, term: string, log: Log)
    requires Negation(term) == (term, false) && Negation("!" + term) == (term, true) && term != ""
    ensures !ConceptWanted(s, e, c, term, log) && !ConceptWanted(s, e, c, "!" + term, log)
            <==> !IdentityKnown(s, c, term, log) && !AliasWanted(s, c, term, log)
  {
    hide ConceptMode, ColumnWanted, AliasWanted, ColumnKnown, Negation;
  }

  lemma {:induction false} ConceptFragmentsMean(s: Settings, e: Engine, a: Args, c: Concept, raws: seq<string>,
                                                log: Log)
    ensures AllAligned(ConceptFragments(s, a, c, raws))
    ensures Proper(a, log) ==> (AllMean(e, ConceptFragments(s, a, c, raws), log)
            <==> AllConceptsWanted(s, e, c, raws, log))
    decreases |raws|
  {
    hide AllAligned, AllMean, Aligned, Means, Refutes, IdentityFragment, IdentityWanted, IdentityKnown, Proper, Negate,
         Negation;
    NoneMean(e, log);
    if raws != [] {
      var front, last := raws[..|raws| - 1], raws[|raws| - 1];
      ConceptFragmentsMean(s, e, a, c, front, log);
      var (needle, negate) := Negation(last);
      var f := IdentityFragment(s, a, c, needle);
      IdentityFragmentMeans(s, e, a, c, needle, log);
      NegateMeans(e, f, negate, log);
      MeanOne(e, Negate(f, negate), log);
      MeanBoth(e, ConceptFragments(s, a, c, front), ConceptFragment(s, a, c, last), log);
      hide ConceptFragment, ConceptFragments;
      WantedFront(s, e, c, raws, log);
    }
  }

  lemma WantedFront(s: Settings, e: Engine, c: Concept, raws: seq<string>, log: Log)
    requires raws != []
    ensures AllConceptsWanted(s, e, c, raws, log) <==>
            AllConceptsWanted(s, e, c, raws[..|raws| - 1], log) && ConceptWanted(s, e, c, raws[|raws| - 1], log)
  {
    hide ConceptWanted;
    assert forall i | 0 <= i < |raws| - 1 :: raws[..|raws| - 1][i] == raws[i];
  }

  lemma TextsHold(texts: seq<string>, text: string)
    ensures Text(text) in Texts(texts) <==> text in texts
  {
    if text in texts {
      var i :| 0 <= i < |texts| && texts[i] == text;
      assert Texts(texts)[i] == Text(text);
    }
  }

  lemma SeverityFragmentsMean(s: Settings, e: Engine, a: Args, log: Log)
    ensures AllAligned(SeverityFragments(s, a))
    ensures AllMean(e, SeverityFragments(s, a), log) <==> SeverityWanted(s, a, log)
  {
    hide AllAligned, AllMean, Aligned, Means, Refutes, RankFrom, SeverityParts, Spellings;
    NoneMean(e, log);
    if a.severity != "" {
      var (op, value) := SeverityParts(a.severity);
      var spelled := Spellings(s, value);
      if log.severity.Some? {
        TextsHold(spelled, log.severity.value);
      }
      TestMeans(e, SeverityIn(|spelled|), Texts(spelled), log);
      var f := Fragment(Simple(SeverityIn(|spelled|)), Texts(spelled));
      NegateMeans(e, f, true, log);
      MeanOne(e, f, log);
      MeanOne(e, Negate(f, true), log);
      if op.Ranked? {
        var t, ps := Compared(Severity, op.op), [Number(RankFrom(spelled[0], 0))];
        TestMeans(e, t, ps, log);
        MeanOne(e, Fragment(Simple(t), ps), log);
      }
    }
  }

  lemma TimeFragmentsMean(e: Engine, a: Args, log: Log)
    ensures AllAligned(TimeFragments(a))
    ensures AllMean(e, TimeFragments(a), log) <==> InWindow(a, log)
  {
    hide AllAligned, AllMean, Aligned, Means;
    var first := if a.from.None? then [] else [Fragment(Simple(Compared(Time, AtLeast)), [Number(a.from.value)])];
    var second := if a.to.None? then [] else [Fragment(Simple(Compared(Time, AtMost)), [Number(a.to.value)])];
    NoneMean(e, log);
    if a.from.Some? {
      TestMeans(e, Compared(Time, AtLeast), [Number(a.from.value)], log);
      MeanOne(e, first[0], log);
    }
    if a.to.Some? {
      TestMeans(e, Compared(Time, AtMost), [Number(a.to.value)], log);
      MeanOne(e, second[0], log);
    }
    MeanBoth(e, first, second, log);
  }

  lemma PortFragmentsMean(e: Engine, n: LogSql.Number, ports: Ports, log: Log)
    ensures AllAligned(PortFragments(n, ports))
    ensures AllMean(e, PortFragments(n, ports), log) <==> PortWanted(ports, NumberOf(log, n))
  {
    hide AllAligned, AllMean, Aligned, Means, NumberOf;
    NoneMean(e, log);
    if ports.Range? {
      var f := PortFragments(n, ports)[0];
      TestMeans(e, f.cond.t, f.params, log);
      MeanOne(e, f, log);
    }
  }

  lemma AllPortsMean(s: Settings, e: Engine, a: Args, log: Log)
    ensures AllAligned(AllPortFragments(s, a))
    ensures AllMean(e, AllPortFragments(s, a), log) <==> AllPortsWanted(s, a, log)
  {
    hide AllAligned, AllMean, ParsePorts, PortFragments, PortWanted;
    NoneMean(e, log);
    PortFragmentsMean(e, SrcPort, ParsePorts(a.srcPort), log);
    PortFragmentsMean(e, DstPort, ParsePorts(a.dstPort), log);
    MeanBoth(e, PortFragments(SrcPort, ParsePorts(a.srcPort)), PortFragments(DstPort, ParsePorts(a.dstPort)), log);
  }

  /** The base WHERE selects an event exactly when every base filter wants it. Outside the
      window both are false, whatever the other clauses say. */
  lemma BaseFragmentsMean(s: Settings, e: Engine, a: Args, log: Log)
    requires Stored(log)
    ensures AllAligned(BaseFragments(s, a))
    ensures AllMean(e, BaseFragments(s, a), log) <==> BaseWanted(s, e, a, log)
  {
    hide AllAligned, AllMean, Stored, InWindow, IdFragments, TermFragments, ConceptFragments, SeverityFragments,
         TimeFragments, AllPortFragments, IdWanted, AllTermsWanted, AllConceptsWanted, SeverityWanted, AllPortsWanted;
    var f1, f2 := IdFragments(a), TermFragments(s, a.terms);
    var f3, f4, f5 := ConceptFragments(s, a, Source, a.sources), ConceptFragments(s, a, Host, a.hosts),
                      ConceptFragments(s, a, Destination, a.destinations);
    var f6, f7, f8 := SeverityFragments(s, a), TimeFragments(a), AllPortFragments(s, a);
    IdFragmentsMean(e, a, log);
    TermFragmentsMean(s, e, a.terms, log);
    ConceptFragmentsMean(s, e, a, Source, a.sources, log);
    ConceptFragmentsMean(s, e, a, Host, a.hosts, log);
    ConceptFragmentsMean(s, e, a, Destination, a.destinations, log);
    SeverityFragmentsMean(s, e, a, log);
    TimeFragmentsMean(e, a, log);
    AllPortsMean(s, e, a, log);
    MeanBoth(e, f1, f2, log);
    MeanBoth(e, f1 + f2, f3, log);
    MeanBoth(e, f1 + f2 + f3, f4, log);
    MeanBoth(e, f1 + f2 + f3 + f4, f5, log);
    MeanBoth(e, f1 + f2 + f3 + f4 + f5, f6, log);
    MeanBoth(e, f1 + f2 + f3 + f4 + f5 + f6, f7, log);
    MeanBoth(e, f1 + f2 + f3 + f4 + f5 + f6 + f7, f8, log);
  }
}
