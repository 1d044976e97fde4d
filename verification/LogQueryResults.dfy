/**
 The compiled page query and sort query run on stored events: every hole gets its own
 parameter, and the answer is exactly the wanted events, once for each combination of joined
 field rows.
 */
module LogQueryResults {
  import opened Options
  import opened FieldIndex
  import opened LogSql
  import opened LogQuery
  import opened LogQueryMeaning

  // ---- How often an event is listed -----------------------------------------

  function MatchingRows(rows: seq<FieldRow>, f: Filter): nat {
    if rows == [] then 0
    else MatchingRows(rows[..|rows| - 1], f) + if RowIs(rows[|rows| - 1], f.name, f.mode, f.needle) then 1 else 0
  }

  function Multiplicity(fs: seq<Filter>, log: Log): nat {
    if fs == [] then 1 else Multiplicity(fs[..|fs| - 1], log) * MatchingRows(log.rows, fs[|fs| - 1])
  }

  ghost function Listed(s: Settings, e: Engine, a: Args, log: Log): nat {
    if BaseWanted(s, e, a, log) && WhereFieldsWanted(s, a, ParseFilters(a.filters), log)
    then Multiplicity(JoinedFilters(s, a), log)
    else 0
  }

  /** The values of the sort field, or one null if the event does not have it. */
  function ValuesOf(rows: seq<FieldRow>, name: string): seq<Option<string>> {
    if rows == [] then []
    else ValuesOf(rows[..|rows| - 1], name)
         + if rows[|rows| - 1].row.key == name then [Some(rows[|rows| - 1].row.value)] else []
  }

  function Shown(sort: Option<string>, log: Log): seq<Option<string>> {
    if sort.None? || ValuesOf(log.rows, sort.value) == [] then [None] else ValuesOf(log.rows, sort.value)
  }

  /** The whole answer before paging, in the order of the logs. */
  ghost function Expected(s: Settings, e: Engine, a: Args, sort: Option<string>, logs: seq<Log>): Answer {
    if logs == [] then []
    else
      var last := logs[|logs| - 1];
      Expected(s, e, a, sort, logs[..|logs| - 1]) + Copies(last.id, Shown(sort, last), Listed(s, e, a, last))
  }

  lemma {:induction false} SomeRowIffCounted(rows: seq<FieldRow>, f: Filter)
    ensures MatchingRows(rows, f) > 0 <==> exists k | 0 <= k < |rows| :: RowIs(rows[k], f.name, f.mode, f.needle)
    decreases |rows|
  {
    if rows != [] {
      hide RowIs;
      SomeRowIffCounted(rows[..|rows| - 1], f);
      assert forall k | 0 <= k < |rows| - 1 :: rows[..|rows| - 1][k] == rows[k];
    }
  }

  lemma {:induction false} MultiplicityOf(fs: seq<Filter>, log: Log)
    ensures Multiplicity(fs, log) > 0 <==> forall f | f in fs :: FilterMatches(log, f)
    ensures (forall f | f in fs :: MatchingRows(log.rows, f) == 1) ==> Multiplicity(fs, log) == 1
    decreases |fs|
  {
    if fs != [] {
      hide FilterMatches, MatchingRows;
      var front, last := fs[..|fs| - 1], fs[|fs| - 1];
      MultiplicityOf(front, log);
      MatchCounted(log, last);
      assert fs == front + [last];
      Product(Multiplicity(front, log), MatchingRows(log.rows, last));
    }
  }

  lemma Product(m: nat, n: nat)
    ensures m * n > 0 <==> m > 0 && n > 0
  {
  }

  lemma MatchCounted(log: Log, f: Filter)
    ensures MatchingRows(log.rows, f) > 0 <==> FilterMatches(log, f)
  {
    SomeRowIffCounted(log.rows, f);
  }

  /** An event is listed exactly when it is wanted: base filters, every exclusion, and all,
      or any, of the positive field filters. */
  lemma ListedIffWanted(s: Settings, e: Engine, a: Args, log: Log)
    ensures Listed(s, e, a, log) > 0 <==> Wanted(s, e, a, log)
  {
    hide BaseWanted, FilterMatches, Multiplicity, ParseFilters, Of;
    var fs := ParseFilters(a.filters);
    OfMembers(s, a, fs, Joined);
    MultiplicityOf(JoinedFilters(s, a), log);
    KindsCover(s, a, fs, log);
  }

  lemma KindsCover(s: Settings, a: Args, fs: seq<Filter>, log: Log)
    ensures WhereFieldsWanted(s, a, fs, log)
            && (forall f | f in fs && KindOf(s, a, f) == Joined :: FilterMatches(log, f))
            <==> FieldsWanted(a, fs, log)
  {
    hide FilterMatches;
    if a.anyOf {
      assert forall f | f in fs :: KindOf(s, a, f) == Grouped <==> !f.negate;
    } else {
      assert forall f | f in fs :: KindOf(s, a, f) != Grouped;
    }
  }

  lemma ProductIsOne(m: nat, n: nat)
    ensures m * n == 1 <==> m == 1 && n == 1
  {
    if m == 0 || n == 0 {
      assert m * n == 0;
    } else if m >= 2 {
      assert m * n >= 2 * n;
    }
  }

  lemma {:induction false} MultiplicityIsOne(fs: seq<Filter>, log: Log)
    ensures Multiplicity(fs, log) == 1 <==> forall f | f in fs :: MatchingRows(log.rows, f) == 1
    decreases |fs|
  {
    hide MatchingRows, Multiplicity;
    if fs == [] {
      NoJoins(log);
    } else {
      var front, last := fs[..|fs| - 1], fs[|fs| - 1];
      MultiplicityIsOne(front, log);
      MultiplicityLast(fs, log);
      assert fs == front + [last];
      ProductIsOne(Multiplicity(front, log), MatchingRows(log.rows, last));
    }
  }

  lemma NoJoins(log: Log)
    ensures Multiplicity([], log) == 1
  {
  }

  lemma MultiplicityLast(fs: seq<Filter>, log: Log)
    requires fs != []
    ensures Multiplicity(fs, log) == Multiplicity(fs[..|fs| - 1], log) * MatchingRows(log.rows, fs[|fs| - 1])
  {
  }

  /** An event is listed exactly once if and only if it is wanted and every joined filter fits
      exactly one of its field rows. */
  lemma {:induction false} ListedOnceIff(s: Settings, e: Engine, a: Args, log: Log)
    ensures Listed(s, e, a, log) == 1
            <==> Wanted(s, e, a, log) && forall f | f in JoinedFilters(s, a) :: MatchingRows(log.rows, f) == 1
  {
    hide BaseWanted, WhereFieldsWanted, Multiplicity, MatchingRows, ParseFilters, Of, Wanted, FilterMatches;
    ListedIffWanted(s, e, a, log);
    MultiplicityIsOne(JoinedFilters(s, a), log);
  }

  /** Distinct field names suffice. */
  lemma {:induction false} ListedOnceIfNamesDiffer(s: Settings, e: Engine, a: Args, log: Log)
    requires Wanted(s, e, a, log)
    requires forall i, j | 0 <= i < j < |log.rows| :: log.rows[i].row.key != log.rows[j].row.key
    ensures Listed(s, e, a, log) == 1
  {
    hide BaseWanted, FilterMatches, Multiplicity, MatchingRows, ParseFilters, Of, Wanted, WhereFieldsWanted;
    ListedIffWanted(s, e, a, log);
    MultiplicityOf(JoinedFilters(s, a), log);
    ListedOnceIff(s, e, a, log);
    ListedCountsJoins(s, e, a, log);
    forall f | f in JoinedFilters(s, a)
      ensures MatchingRows(log.rows, f) == 1
    {
      AtMostOneRow(log.rows, f);
      MatchCounted(log, f);
    }
  }

  lemma {:induction false} ListedCountsJoins(s: Settings, e: Engine, a: Args, log: Log)
    requires Listed(s, e, a, log) > 0
    ensures Listed(s, e, a, log) == Multiplicity(JoinedFilters(s, a), log)
  {
    hide BaseWanted, WhereFieldsWanted, Multiplicity, ParseFilters;
  }

  lemma {:induction false} AtMostOneRow(rows: seq<FieldRow>, f: Filter)
    requires forall i, j | 0 <= i < j < |rows| :: rows[i].row.key != rows[j].row.key
    ensures MatchingRows(rows, f) <= 1
    decreases |rows|
  {
    if rows != [] {
      hide Fits;
      var front := rows[..|rows| - 1];
      AtMostOneRow(front, f);
      SomeRowIffCounted(front, f);
    }
  }

  lemma {:induction false} TwoRowsCount(rows: seq<FieldRow>, f: Filter, i: nat, j: nat)
    requires i < j < |rows|
    requires RowIs(rows[i], f.name, f.mode, f.needle) && RowIs(rows[j], f.name, f.mode, f.needle)
    ensures MatchingRows(rows, f) >= 2
    decreases |rows|
  {
    hide RowIs;
    var front := rows[..|rows| - 1];
    if j < |rows| - 1 {
      TwoRowsCount(front, f, i, j);
    } else {
      assert front[i] == rows[i];
      SomeRowIffCounted(front, f);
    }
  }

  /** A stored event with two extracted fields whose names agree in the first sixty characters
      and whose values both fit a joined filter on the cut name is listed more than once. */
  lemma {:induction false} CollidingNamesRepeat(s: Settings, e: Engine, a: Args, log: Log, fields: Fields,
                                                fold: string -> string,
                             time: Option<int>, f: Filter, i: nat, j: nat)
    requires log.rows == Stamped(log.id, NormalizedRows(fields, fold), time)
    requires i < j < |fields| && fields[i].0 != fields[j].0
    requires Cut(fields[i].0, MAX_KEY) == Cut(fields[j].0, MAX_KEY) == f.name
    requires Fits(f.mode, f.needle, fold(Cut(fields[i].1, MAX_VALUE)))
    requires Fits(f.mode, f.needle, fold(Cut(fields[j].1, MAX_VALUE)))
    requires f in JoinedFilters(s, a) && Wanted(s, e, a, log)
    ensures Listed(s, e, a, log) >= 2
  {
    hide Wanted, Fits, Listed, JoinedFilters;
    TwoRowsCount(log.rows, f, i, j);
    ListedIffWanted(s, e, a, log);
    ListedOnceIff(s, e, a, log);
    assert Listed(s, e, a, log) != 1;
  }

  const LONG: string := seq(60, _ => 'a')

  /** `f_<name>=v`, no other filter. */
  function FieldRequest(name: string): Args {
    Args([], None, [], [], [], [], "", None, None, "", "", [(name, "v")], false)
  }

  lemma {:induction false} FieldRequestFilters(s: Settings)
    requires !s.postgres
    ensures ParseFilters(FieldRequest(LONG).filters) == [Filter(LONG, Exact, "v", false)]
    ensures JoinedFilters(s, FieldRequest(LONG)) == [Filter(LONG, Exact, "v", false)]
  {
    var f := Filter(LONG, Exact, "v", false);
    assert Strip(LONG) == LONG && Strip("v") == "v";
    assert Starred("v") == None;
    assert ParseFilter((LONG, "v")) == f;
    assert [(LONG, "v")][..0] == [];
    assert ParseFilters([]) == [];
    assert ParseFilters([(LONG, "v")]) == [f];
    assert [f][..0] == [];
    assert Of(s, FieldRequest(LONG), [], Joined) == [];
  }

  /** The failing input: two distinct names of sixty-one characters, written with one value and
      asked for by their common beginning, list their event twice. */
  lemma {:induction false} CollidingNamesListTwice(s: Settings, e: Engine, log: Log, fold: string -> string)
    requires !s.postgres && fold("v") == "v"
    requires log.rows == Stamped(log.id, NormalizedRows([(LONG + "b", "v"), (LONG + "c", "v")], fold), None)
    ensures Listed(s, e, FieldRequest(LONG), log) == 2
  {
    var fields: Fields := [(LONG + "b", "v"), (LONG + "c", "v")];
    var f := Filter(LONG, Exact, "v", false);
    assert Cut(LONG + "b", MAX_KEY) == LONG && Cut(LONG + "c", MAX_KEY) == LONG;
    assert RowOf(fields[0], fold) == Row(LONG, "v", "v") && RowOf(fields[1], fold) == Row(LONG, "v", "v");
    assert RowIs(log.rows[0], LONG, Exact, "v") && RowIs(log.rows[1], LONG, Exact, "v");
    FieldRequestFilters(s);
    OneFilterListed(s, e, log, f);
    assert log.rows[..1][..0] == [] && log.rows[..2] == log.rows;
    assert MatchingRows(log.rows[..1], f) == 1;
    assert MatchingRows(log.rows, f) == 2;
  }

  /** With a single joined filter an event is listed once for each row the filter fits. */
  lemma {:induction false} OneFilterListed(s: Settings, e: Engine, log: Log, f: Filter)
    requires !s.postgres && f == Filter(LONG, Exact, "v", false)
    requires ParseFilters(FieldRequest(LONG).filters) == [f] == JoinedFilters(s, FieldRequest(LONG))
    ensures Listed(s, e, FieldRequest(LONG), log) == MatchingRows(log.rows, f)
  {
    hide ParseFilters, JoinedFilters, MatchingRows, Multiplicity;
    OneJoin(f, log);
    assert BaseWanted(s, e, FieldRequest(LONG), log);
    assert WhereFieldsWanted(s, FieldRequest(LONG), [f], log);
  }

  lemma {:induction false} OneJoin(f: Filter, log: Log)
    ensures Multiplicity([f], log) == MatchingRows(log.rows, f)
  {
    hide MatchingRows, Multiplicity;
    assert [f][..0] == [];
    NoJoins(log);
    MultiplicityLast([f], log);
  }

  // ---- Joins ------------------------------------------------------------------

  lemma {:induction false} MatchesCount(s: Settings, a: Args, f: Filter, log: Log, rows: seq<FieldRow>)
    requires forall k | 0 <= k < |rows| :: rows[k].time == None || rows[k].time == Some(log.time)
    requires InWindow(a, log)
    ensures |FieldParams(s, a, f)| == RowHoles(FieldCond(s, a, f))
    ensures Matches(FieldCond(s, a, f), log, rows, FieldParams(s, a, f)) == MatchingRows(rows, f)
    decreases |rows|
  {
    hide RowHolds, RowIs, FieldCond, FieldParams, RowHoles, InWindow;
    FieldParamsFill(s, a, f);
    if rows != [] {
      MatchesCount(s, a, f, log, rows[..|rows| - 1]);
      FieldRowMeans(s, a, f, log, rows[|rows| - 1]);
    }
  }

  lemma {:induction false} JoinsFill(s: Settings, a: Args, fs: seq<Filter>)
    ensures |JoinParams(s, a, fs)| == JoinHoles(JoinConds(s, a, fs))
    decreases |fs|
  {
    if fs != [] {
      hide FieldCond, FieldParams, RowHoles;
      JoinsFill(s, a, fs[..|fs| - 1]);
      FieldParamsFill(s, a, fs[|fs| - 1]);
      assert JoinConds(s, a, fs)[..|fs| - 1] == JoinConds(s, a, fs[..|fs| - 1]);
    }
  }

  lemma {:induction false} JoinsCount(s: Settings, a: Args, fs: seq<Filter>, log: Log)
    requires Proper(a, log)
    ensures |JoinParams(s, a, fs)| == JoinHoles(JoinConds(s, a, fs))
    ensures Combinations(JoinConds(s, a, fs), log, JoinParams(s, a, fs)) == Multiplicity(fs, log)
    decreases |fs|
  {
    hide FieldCond, FieldParams, RowHoles, InWindow, Matches, MatchingRows, Contains, HasRow;
    JoinsFill(s, a, fs);
    if fs != [] {
      var front, last := fs[..|fs| - 1], fs[|fs| - 1];
      JoinsCount(s, a, front, log);
      MatchesCount(s, a, last, log, log.rows);
      assert JoinConds(s, a, fs)[..|fs| - 1] == JoinConds(s, a, front);
      var k := |JoinParams(s, a, front)|;
      assert JoinParams(s, a, fs)[..k] == JoinParams(s, a, front);
      assert JoinParams(s, a, fs)[k..] == FieldParams(s, a, last);
    }
  }

  // ---- The outer join of the sort query ----------------------------------------

  lemma SortRowMeans(s: Settings, a: Args, name: string, log: Log, row: FieldRow)
    requires row.time == None || row.time == Some(log.time)
    requires InWindow(a, log)
    ensures |SortParams(s, a, name)| == RowHoles(SortCond(s, a))
    ensures RowHolds(SortCond(s, a), log, row, SortParams(s, a, name)) <==> row.row.key == name
  {
    hide StampHolds, FieldTimes, FieldStamp, AliasStamp, StampHoles, InWindow;
    StampsPass(s, a, log, row);
    var k := |FieldTimes(s, a)|;
    assert SortParams(s, a, name)[..k] == FieldTimes(s, a);
    assert SortParams(s, a, name)[k..k + 1] == [Text(name)];
  }

  lemma SortParamsFill(s: Settings, a: Args, name: string)
    ensures |SortParams(s, a, name)| == RowHoles(SortCond(s, a))
  {
    TimesFill(s, a);
  }

  lemma {:induction false} SortValues(s: Settings, a: Args, name: string, log: Log, rows: seq<FieldRow>)
    requires forall k | 0 <= k < |rows| :: rows[k].time == None || rows[k].time == Some(log.time)
    requires InWindow(a, log)
    ensures |SortParams(s, a, name)| == RowHoles(SortCond(s, a))
    ensures MatchedValues(SortCond(s, a), log, rows, SortParams(s, a, name)) == ValuesOf(rows, name)
    decreases |rows|
  {
    hide RowHolds, SortCond, SortParams, RowHoles, InWindow;
    SortParamsFill(s, a, name);
    if rows != [] {
      SortValues(s, a, name, log, rows[..|rows| - 1]);
      SortRowMeans(s, a, name, log, rows[|rows| - 1]);
    }
  }

  // ---- The WHERE --------------------------------------------------------------

  lemma WhereMeans(s: Settings, e: Engine, a: Args, log: Log)
    requires Stored(log)
    ensures var w := WhereFragments(s, a);
            Aligned(Fragment(AndAll(Conds(w)), Params(w)))
            && (Means(e, Fragment(AndAll(Conds(w)), Params(w)), log) <==>
                BaseWanted(s, e, a, log) && WhereFieldsWanted(s, a, ParseFilters(a.filters), log))
  {
    hide Stored, BaseFragments, ExtraFragments, WhereFieldsWanted, AllAligned, AllMean, Means, Aligned, ParseFilters,
         DistinctNames;
    var fs := ParseFilters(a.filters);
    var base, extra := BaseFragments(s, a), ExtraFragments(s, a, fs);
    ParsedNamesAreDistinct(a.filters);
    BaseFragmentsMean(s, e, a, log);
    ExtraFragmentsMean(s, e, a, fs, log);
    MeanBoth(e, base, extra, log);
    AndAllMeans(e, base + extra, log);
  }

  lemma WhereFills(s: Settings, a: Args)
    ensures |Params(WhereFragments(s, a))| == Holes(AndAll(Conds(WhereFragments(s, a))))
  {
    hide WhereFragments, Stored, Means, Aligned, BaseWanted, WhereFieldsWanted;
    var log := Log(0, 0, None, None, None, None, None, None, None, None, None, None, []);
    var e := Engine((x, y) => true, (x, y) => true, (x, y) => true, (x, y) => true);
    EmptyLogStored(log);
    WhereMeans(s, e, a, log);
    UnfoldAligned(Fragment(AndAll(Conds(WhereFragments(s, a))), Params(WhereFragments(s, a))));
  }

  lemma EmptyLogStored(log: Log)
    requires log.search.None? && log.rows == []
    ensures Stored(log)
  {
  }

  lemma UnfoldAligned(f: Fragment)
    ensures Aligned(f) <==> |f.params| == Holes(f.cond)
  {
  }

  // ---- The answer of a query -----------------------------------------------------

  /** Each part of a statement sees its own stretch of the parameter list. */
  lemma PartsGetTheirParams(e: Engine, s: Statement, log: Log, jp: seq<Param>, lp: seq<Param>, wp: seq<Param>,
                            tail: seq<Param>)
    requires |jp| == JoinHoles(s.joins) && |lp| == LeftHoles(s.left) && |wp| == Holes(s.where)
    requires |tail| == if s.offset then 2 else 1
    ensures |jp + lp + wp + tail| == StatementHoles(s)
    ensures LogAnswer(e, s, log, jp + lp + wp + tail) ==
            if Means(e, Fragment(s.where, wp), log)
            then Copies(log.id, LeftValues(s.left, log, lp), Combinations(s.joins, log, jp))
            else []
  {
    hide JoinHoles, LeftHoles, Holes, Holds, LeftValues, Combinations, Copies;
    var ps := jp + lp + wp + tail;
    assert ps[..|jp|] == jp;
    assert ps[|jp|..|jp| + |lp|] == lp;
    assert ps[|jp| + |lp|..|jp| + |lp| + |wp|] == wp;
  }

  ghost function LeftOf(s: Settings, a: Args, sort: Option<string>): Option<RowCond> {
    if sort.None? then None else Some(SortCond(s, a))
  }

  ghost function LeftParamsOf(s: Settings, a: Args, sort: Option<string>): seq<Param> {
    if sort.None? then [] else SortParams(s, a, sort.value)
  }

  lemma LeftFills(s: Settings, a: Args, sort: Option<string>)
    ensures |LeftParamsOf(s, a, sort)| == LeftHoles(LeftOf(s, a, sort))
  {
    if sort.Some? {
      SortParamsFill(s, a, sort.value);
    }
  }

  lemma LeftShown(s: Settings, a: Args, sort: Option<string>, log: Log)
    requires Proper(a, log)
    ensures |LeftParamsOf(s, a, sort)| == LeftHoles(LeftOf(s, a, sort))
    ensures LeftValues(LeftOf(s, a, sort), log, LeftParamsOf(s, a, sort)) == Shown(sort, log)
  {
    hide SortCond, SortParams, InWindow, RowHoles, Contains, HasRow;
    if sort.Some? {
      SortValues(s, a, sort.value, log, log.rows);
    }
  }

  /** Both queries are this statement with this parameter list. */
  ghost function StatementOf(s: Settings, a: Args, sort: Option<string>): Statement {
    Statement(JoinConds(s, a, JoinedFilters(s, a)), LeftOf(s, a, sort), AndAll(Conds(WhereFragments(s, a))), sort.None?)
  }

  ghost function ParamsOf(s: Settings, a: Args, sort: Option<string>, tail: seq<Param>): seq<Param> {
    JoinParams(s, a, JoinedFilters(s, a)) + LeftParamsOf(s, a, sort) + Params(WhereFragments(s, a)) + tail
  }

  lemma HolesFilled(s: Settings, a: Args, sort: Option<string>, tail: seq<Param>)
    requires |tail| == if sort.None? then 2 else 1
    ensures |ParamsOf(s, a, sort, tail)| == StatementHoles(StatementOf(s, a, sort))
  {
    hide JoinHoles, LeftHoles, Holes, WhereFragments, JoinedFilters, LeftOf, LeftParamsOf, JoinConds, JoinParams,
         Conds, Params, AndAll;
    JoinsFill(s, a, JoinedFilters(s, a));
    LeftFills(s, a, sort);
    WhereFills(s, a);
  }

  lemma OneLogAnswer(s: Settings, e: Engine, a: Args, sort: Option<string>, log: Log, tail: seq<Param>)
    requires Stored(log) && |tail| == if sort.None? then 2 else 1
    ensures |ParamsOf(s, a, sort, tail)| == StatementHoles(StatementOf(s, a, sort))
    ensures LogAnswer(e, StatementOf(s, a, sort), log, ParamsOf(s, a, sort, tail))
            == Copies(log.id, Shown(sort, log), Listed(s, e, a, log))
  {
    hide JoinHoles, LeftHoles, Holes, WhereFragments, JoinedFilters, LeftOf, LeftParamsOf, JoinConds, JoinParams,
         Conds, Params, AndAll,
         LogAnswer, Means, Stored, Shown, LeftValues, Combinations, Multiplicity, WhereFieldsWanted, StatementHoles,
           ParseFilters;
    JoinsFill(s, a, JoinedFilters(s, a));
    LeftFills(s, a, sort);
    WhereFills(s, a);
    WhereMeans(s, e, a, log);
    var w := WhereFragments(s, a);
    PartsGetTheirParams(e, StatementOf(s, a, sort), log, JoinParams(s, a, JoinedFilters(s, a)),
                        LeftParamsOf(s, a, sort), Params(w), tail);
    if BaseWanted(s, e, a, log) && WhereFieldsWanted(s, a, ParseFilters(a.filters), log) {
      BaseInWindow(s, e, a, log);
      JoinsCount(s, a, JoinedFilters(s, a), log);
      LeftShown(s, a, sort, log);
    }
  }

  lemma BaseInWindow(s: Settings, e: Engine, a: Args, log: Log)
    requires BaseWanted(s, e, a, log) && Stored(log)
    ensures Proper(a, log)
  {
    hide IdWanted, TermWanted, AllConceptsWanted, SeverityWanted, AllPortsWanted, Stored, InWindow;
  }

  lemma {:induction false} WholeAnswer(s: Settings, e: Engine, a: Args, sort: Option<string>, logs: seq<Log>,
                                       tail: seq<Param>)
    requires |tail| == if sort.None? then 2 else 1
    requires forall i | 0 <= i < |logs| :: Stored(logs[i])
    ensures |ParamsOf(s, a, sort, tail)| == StatementHoles(StatementOf(s, a, sort))
    ensures Unpaged(e, StatementOf(s, a, sort), logs, ParamsOf(s, a, sort, tail)) == Expected(s, e, a, sort, logs)
    decreases |logs|
  {
    hide StatementOf, ParamsOf, LogAnswer, Stored, Listed, Shown, Copies, StatementHoles;
    HolesFilled(s, a, sort, tail);
    if logs != [] {
      WholeAnswer(s, e, a, sort, logs[..|logs| - 1], tail);
      OneLogAnswer(s, e, a, sort, logs[|logs| - 1], tail);
    }
  }

  /** The page query has one parameter for every hole and answers with one page of the wanted
      events, in the order of the database. */
  lemma PageQueryIsExact(s: Settings, e: Engine, a: Args, limit: nat, offset: nat, logs: seq<Log>)
    requires forall i | 0 <= i < |logs| :: Stored(logs[i])
    ensures var q := PageQuery(s, a, limit, offset);
            |q.params| == StatementHoles(q.statement)
            && Run(e, q.statement, logs, q.params) == Slice(Expected(s, e, a, None, logs), limit, offset)
  {
    hide StatementHoles, Unpaged, Slice, Stored, Expected, JoinParams, JoinConds, JoinedFilters, Conds, Params,
         WhereFragments, AndAll;
    var tail := [Number(limit), Number(offset)];
    WholeAnswer(s, e, a, None, logs, tail);
    var q := PageQuery(s, a, limit, offset);
    assert q.params == ParamsOf(s, a, None, tail);
    assert q.statement == StatementOf(s, a, None);
    TailIs(q.params, tail);
  }

  lemma TailIs(ps: seq<Param>, tail: seq<Param>)
    requires |tail| <= |ps| && ps[|ps| - |tail|..] == tail
    ensures |tail| >= 1 ==> ps[|ps| - 1] == tail[|tail| - 1]
    ensures |tail| >= 2 ==> ps[|ps| - 2] == tail[|tail| - 2]
  {
    assert ps == ps[..|ps| - |tail|] + tail;
  }

  /** The sort query pairs the same events with the values of the sort field, or with null. */
  lemma SortQueryIsExact(s: Settings, e: Engine, a: Args, name: string, cap: nat, logs: seq<Log>)
    requires forall i | 0 <= i < |logs| :: Stored(logs[i])
    ensures var q := SortQuery(s, a, name, cap);
            |q.params| == StatementHoles(q.statement)
            && Run(e, q.statement, logs, q.params) == Slice(Expected(s, e, a, Some(name), logs), cap, 0)
  {
    hide StatementHoles, Unpaged, Slice, Stored, Expected, JoinParams, JoinConds, JoinedFilters, Conds, Params,
         WhereFragments, AndAll;
    var tail := [Number(cap)];
    WholeAnswer(s, e, a, Some(name), logs, tail);
    var q := SortQuery(s, a, name, cap);
    assert q.params == ParamsOf(s, a, Some(name), tail);
    assert q.statement == StatementOf(s, a, Some(name));
    TailIs(q.params, tail);
  }

  /** Compile and run: a page of the wanted events, or an error for malformed ports. */
  method Search(s: Settings, e: Engine, a: Args, limit: nat, offset: nat, logs: seq<Log>) returns (r: Option<Answer>)
    requires forall i | 0 <= i < |logs| :: Stored(logs[i])
    ensures r.Some? <==> PortsOk(s, a)
    ensures r.Some? ==> r.value == Slice(Expected(s, e, a, None, logs), limit, offset)
  {
    hide Run, Stored, Expected, PageQuery, PortsOk, StatementHoles;
    var q := QueryLogs(s, a, None, 0, limit, offset);
    PageQueryIsExact(s, e, a, limit, offset, logs);
    r := if q.None? then None else Some(Run(e, q.value.statement, logs, q.value.params));
  }

  /** The answer keeps the order of the database. */
  lemma {:induction false} AnswersConcatenate(s: Settings, e: Engine, a: Args, sort: Option<string>,
                                              logs: seq<Log>, more: seq<Log>)
    ensures Expected(s, e, a, sort, logs + more) == Expected(s, e, a, sort, logs) + Expected(s, e, a, sort, more)
    decreases |more|
  {
    hide Listed, Shown, Copies;
    if more == [] {
      assert logs + more == logs;
    } else {
      AnswersConcatenate(s, e, a, sort, logs, more[..|more| - 1]);
      assert (logs + more)[..|logs + more| - 1] == logs + more[..|more| - 1];
    }
  }

  /** Before paging, an id is in the answer exactly when one of its events is wanted. */
  lemma {:induction false} AnswerIsWantedEvents(s: Settings, e: Engine, a: Args, sort: Option<string>,
                                                logs: seq<Log>, id: nat)
    ensures (exists v :: (id, v) in Expected(s, e, a, sort, logs))
            <==> exists i | 0 <= i < |logs| :: logs[i].id == id && Wanted(s, e, a, logs[i])
    decreases |logs|
  {
    if logs != [] {
      hide Listed, Shown, Wanted, Copies;
      var front, last := logs[..|logs| - 1], logs[|logs| - 1];
      AnswerIsWantedEvents(s, e, a, sort, front, id);
      ListedIffWanted(s, e, a, last);
      CopiesHold(last.id, Shown(sort, last), Listed(s, e, a, last), id);
      ShownNotEmpty(sort, last);
      assert forall i | 0 <= i < |front| :: front[i] == logs[i];
    }
  }

  lemma ShownNotEmpty(sort: Option<string>, log: Log)
    ensures Shown(sort, log) != []
  {
  }

  lemma {:induction false} CopiesHold(id: nat, values: seq<Option<string>>, n: nat, other: nat)
    ensures (exists v :: (other, v) in Copies(id, values, n)) <==> other == id && n > 0 && values != []
    decreases n
  {
    if n > 0 {
      CopiesHold(id, values, n - 1, other);
      var more := seq(|values|, i requires 0 <= i < |values| => (id, values[i]));
      if values != [] {
        assert more[0] in more;
        assert (id, values[0]) in Copies(id, values, n);
      }
    }
  }
}
