/**
 The SQL that the log search emits (dashboard.py): conditions with positional `?` holes,
 one flat parameter list, and what the database answers when it fills the holes from left
 to right.
 */
module LogSql {
  import opened Options
  import opened FieldIndex
  import opened SqlLike

  datatype Concept = Source | Host | Destination

  /** One event of the search view, `None` for a null column, with the rows of the field index
      that carry its id. */
  datatype Log = Log(
    id: nat, time: int,
    message: Option<string>, source: Option<string>, host: Option<string>, destination: Option<string>,
    severity: Option<string>,
    srcAddress: Option<string>, dstAddress: Option<string>, srcPort: Option<int>, dstPort: Option<int>,
    search: Option<Document>,
    rows: seq<FieldRow>)

  function Column(log: Log, c: Concept): Option<string> {
    match c
    case Source => log.source
    case Host => log.host
    case Destination => log.destination
  }

  function Address(log: Log, c: Concept): Option<string> {
    if c == Source then log.srcAddress else log.dstAddress
  }

  /** `COALESCE(column,'')`. */
  function OrEmpty(column: Option<string>): string { if column.Some? then column.value else "" }

  /** The operators of the database that are not spelled out here. */
  datatype Engine = Engine(
    textMatches: (string, string) -> bool,
    tokenMatches: (string, string) -> bool,
    sameAddress: (string, string) -> bool,
    within: (string, string) -> bool)

  /** A full-text expression of SQLite as it parses: NOT binds tighter than AND. */
  datatype Match = Token(token: string) | Both(left: Match, right: Match) | Except(left: Match, right: Match)

  datatype Param =
    | Text(text: string)
    | Number(number: int)
    | Json(doc: map<string, seq<string>>)
    | Expression(expression: Match)

  datatype Comparison = Equal | AtMost | AtLeast | Below | Above

  predicate Compare(a: int, op: Comparison, b: int) {
    match op
    case Equal => a == b
    case AtMost => a <= b
    case AtLeast => a >= b
    case Below => a < b
    case Above => a > b
  }

  datatype Number = Id | Time | Severity | SrcPort | DstPort

  const SEVERITIES: seq<string> :=
    ["emergency", "alert", "critical", "error", "warning", "notice", "informational", "debug"]

  /** The position in the list from `k` on; every other spelling ranks 99. */
  function RankFrom(s: string, k: nat): int
    requires k <= |SEVERITIES|
    decreases |SEVERITIES| - k
  {
    if k == |SEVERITIES| then 99 else if SEVERITIES[k] == s then k else RankFrom(s, k + 1)
  }

  /** A null severity has no rank of its own and falls under ELSE 99. */
  function NumberOf(log: Log, n: Number): Option<int> {
    match n
    case Id => Some(log.id)
    case Time => Some(log.time)
    case Severity => Some(RankFrom(OrEmpty(log.severity), 0))
    case SrcPort => log.srcPort
    case DstPort => log.dstPort
  }

  datatype Test =
    | Compared(n: Number, op: Comparison)
    | Between(n: Number)
    | IdIn(count: nat)
    | SeverityIn(count: nat)
    | MessageLike
    | MessageMatches
    | InIndex
    | ColumnIs(c: Concept)
    | ColumnLike(c: Concept)
    | AddressIs(c: Concept)
    | AddressWithin(c: Concept)
    | SearchContains
    | SearchMissing

  /** `AND ((f.event_time=l.event_time AND f.event_time>=? AND f.event_time<=?) OR
      f.event_time='-infinity')`, each part only if it is asked for. */
  datatype Stamp = Unchecked | Checked(sameAsLog: bool, lower: bool, upper: bool)

  /** A condition on one row of the field index: stamp, `field IN (?,..)`, value. */
  datatype RowCond = RowCond(stamp: Stamp, names: nat, value: ValueTest)

  datatype ValueTest = AnyValue | ValueIs | ValueLike

  datatype Cond =
    | True
    | Simple(t: Test)
    | Exists(row: RowCond)
    | Not(c: Cond)
    | And(left: Cond, right: Cond)
    | Or(left: Cond, right: Cond)

  // ---- Holes -------------------------------------------------------------

  function TestHoles(t: Test): nat {
    match t
    case Between(_) => 2
    case IdIn(count) => count
    case SeverityIn(count) => count
    case SearchMissing => 0
    case _ => 1
  }

  function StampHoles(s: Stamp): nat {
    if s.Unchecked? then 0 else (if s.lower then 1 else 0) + (if s.upper then 1 else 0)
  }

  function RowHoles(r: RowCond): nat { StampHoles(r.stamp) + r.names + if r.value.AnyValue? then 0 else 1 }

  function Holes(c: Cond): nat {
    match c
    case True => 0
    case Simple(t) => TestHoles(t)
    case Exists(r) => RowHoles(r)
    case Not(d) => Holes(d)
    case And(a, b) => Holes(a) + Holes(b)
    case Or(a, b) => Holes(a) + Holes(b)
  }

  // ---- Evaluation --------------------------------------------------------

  predicate NumberFits(a: int, op: Comparison, p: Param) {
    p.Number? && Compare(a, op, p.number)
  }

  predicate LikeFits(text: string, p: Param) {
    p.Text? && Like(text, p.text)
  }

  predicate MatchHolds(e: Engine, message: string, m: Match) {
    match m
    case Token(t) => e.tokenMatches(message, t)
    case Both(a, b) => MatchHolds(e, message, a) && MatchHolds(e, message, b)
    case Except(a, b) => MatchHolds(e, message, a) && !MatchHolds(e, message, b)
  }

  /** No column that the test looks at is null. */
  predicate TestKnown(t: Test, log: Log) {
    match t
    case Compared(n, _) => NumberOf(log, n).Some?
    case Between(n) => NumberOf(log, n).Some?
    case SeverityIn(_) => log.severity.Some?
    case MessageLike => log.message.Some?
    case ColumnIs(c) => Column(log, c).Some?
    case ColumnLike(c) => Column(log, c).Some?
    case AddressIs(c) => Address(log, c).Some?
    case AddressWithin(c) => Address(log, c).Some?
    case SearchContains => log.search.Some?
    case _ => true
  }

  predicate TestHolds(e: Engine, t: Test, log: Log, ps: seq<Param>)
    requires |ps| == TestHoles(t) && TestKnown(t, log)
  {
    match t
    case Compared(n, op) => NumberFits(NumberOf(log, n).value, op, ps[0])
    case Between(n) =>
      NumberFits(NumberOf(log, n).value, AtLeast, ps[0]) && NumberFits(NumberOf(log, n).value, AtMost, ps[1])
    case IdIn(_) => Number(log.id) in ps
    case SeverityIn(_) => Text(log.severity.value) in ps
    case MessageLike => LikeFits(log.message.value, ps[0])
    case MessageMatches => ps[0].Text? && e.textMatches(OrEmpty(log.message), ps[0].text)
    case InIndex => ps[0].Expression? && MatchHolds(e, OrEmpty(log.message), ps[0].expression)
    case ColumnIs(c) => ps[0] == Text(Column(log, c).value)
    case ColumnLike(c) => LikeFits(Column(log, c).value, ps[0])
    case AddressIs(c) => ps[0].Text? && e.sameAddress(Address(log, c).value, ps[0].text)
    case AddressWithin(c) => ps[0].Text? && e.within(Address(log, c).value, ps[0].text)
    case SearchContains => ps[0].Json? && ContainsAll(log.search.value, ps[0].doc)
    case SearchMissing => log.search.None?
  }

  predicate StampHolds(s: Stamp, log: Log, row: FieldRow, ps: seq<Param>)
    requires |ps| == StampHoles(s)
  {
    s.Unchecked? || row.time.None? ||
    ((s.sameAsLog ==> row.time.value == log.time)
     && (s.lower ==> NumberFits(row.time.value, AtLeast, ps[0]))
     && (s.upper ==> NumberFits(row.time.value, AtMost, ps[|ps| - 1])))
  }

  predicate RowHolds(r: RowCond, log: Log, row: FieldRow, ps: seq<Param>)
    requires |ps| == RowHoles(r)
  {
    var k := StampHoles(r.stamp);
    StampHolds(r.stamp, log, row, ps[..k])
    && Text(row.row.key) in ps[k..k + r.names]
    && match r.value
       case AnyValue => true
       case ValueIs => ps[k + r.names] == Text(row.row.norm)
       case ValueLike => LikeFits(row.row.norm, ps[k + r.names])
  }

  /** The three values of SQL. */
  datatype Truth = Yes | No | Unknown

  function TruthOf(b: bool): Truth { if b then Yes else No }

  function Negated(t: Truth): Truth {
    match t
    case Yes => No
    case No => Yes
    case Unknown => Unknown
  }

  function Eval(e: Engine, c: Cond, log: Log, ps: seq<Param>): Truth
    requires |ps| == Holes(c)
  {
    match c
    case True => Yes
    case Simple(t) => if TestKnown(t, log) then TruthOf(TestHolds(e, t, log, ps)) else Unknown
    case Exists(r) => TruthOf(exists k | 0 <= k < |log.rows| :: RowHolds(r, log, log.rows[k], ps))
    case Not(d) => Negated(Eval(e, d, log, ps))
    case And(a, b) =>
      var x, y := Eval(e, a, log, ps[..Holes(a)]), Eval(e, b, log, ps[Holes(a)..]);
      if x == No || y == No then No else if x == Yes && y == Yes then Yes else Unknown
    case Or(a, b) =>
      var x, y := Eval(e, a, log, ps[..Holes(a)]), Eval(e, b, log, ps[Holes(a)..]);
      if x == Yes || y == Yes then Yes else if x == No && y == No then No else Unknown
  }

  /** A row is selected if the condition is true; unknown is not enough. */
  predicate Holds(e: Engine, c: Cond, log: Log, ps: seq<Param>)
    requires |ps| == Holes(c)
  {
    Eval(e, c, log, ps) == Yes
  }

  /** `" AND ".join(cs)`, and `" OR ".join(cs)` for at least one clause. */
  function AndAll(cs: seq<Cond>): Cond {
    if cs == [] then True
    else if |cs| == 1 then cs[0]
    else And(AndAll(cs[..|cs| - 1]), cs[|cs| - 1])
  }

  function OrAll(cs: seq<Cond>): Cond
    requires cs != []
  {
    if |cs| == 1 then cs[0] else Or(OrAll(cs[..|cs| - 1]), cs[|cs| - 1])
  }

  // ---- Statements --------------------------------------------------------

  /** `SELECT .. FROM .. JOIN .. [LEFT JOIN ..] WHERE .. ORDER BY .. LIMIT ? [OFFSET ?]`. */
  datatype Statement = Statement(
    joins: seq<RowCond>,
    left: Option<RowCond>,
    where: Cond,
    offset: bool)

  function JoinHoles(joins: seq<RowCond>): nat {
    if joins == [] then 0 else JoinHoles(joins[..|joins| - 1]) + RowHoles(joins[|joins| - 1])
  }

  function LeftHoles(left: Option<RowCond>): nat {
    if left.None? then 0 else RowHoles(left.value)
  }

  function StatementHoles(s: Statement): nat {
    JoinHoles(s.joins) + LeftHoles(s.left) + Holes(s.where) + if s.offset then 2 else 1
  }

  /** How many of the rows satisfy the condition. */
  function Matches(r: RowCond, log: Log, rows: seq<FieldRow>, ps: seq<Param>): nat
    requires |ps| == RowHoles(r)
  {
    if rows == [] then 0
    else Matches(r, log, rows[..|rows| - 1], ps) + if RowHolds(r, log, rows[|rows| - 1], ps) then 1 else 0
  }

  /** The joined rows of a log are all combinations. */
  function Combinations(joins: seq<RowCond>, log: Log, ps: seq<Param>): nat
    requires |ps| == JoinHoles(joins)
  {
    if joins == [] then 1
    else
      var k := JoinHoles(joins[..|joins| - 1]);
      Combinations(joins[..|joins| - 1], log, ps[..k]) * Matches(joins[|joins| - 1], log, log.rows, ps[k..])
  }

  /** The value column of an outer join: every matching row, or one null. */
  function MatchedValues(r: RowCond, log: Log, rows: seq<FieldRow>, ps: seq<Param>): seq<Option<string>>
    requires |ps| == RowHoles(r)
  {
    if rows == [] then []
    else MatchedValues(r, log, rows[..|rows| - 1], ps)
         + if RowHolds(r, log, rows[|rows| - 1], ps) then [Some(rows[|rows| - 1].row.value)] else []
  }

  function LeftValues(left: Option<RowCond>, log: Log, ps: seq<Param>): seq<Option<string>>
    requires |ps| == LeftHoles(left)
  {
    if left.None? then [None]
    else
      var values := MatchedValues(left.value, log, log.rows, ps);
      if values == [] then [None] else values
  }

  type Answer = seq<(nat, Option<string>)>

  /** Each value `n` times, beside the id. */
  function Copies(id: nat, values: seq<Option<string>>, n: nat): Answer {
    if n == 0 then [] else Copies(id, values, n - 1) + seq(|values|, i requires 0 <= i < |values| => (id, values[i]))
  }

  function LogAnswer(e: Engine, s: Statement, log: Log, ps: seq<Param>): Answer
    requires |ps| == StatementHoles(s)
  {
    var j := JoinHoles(s.joins);
    var l := j + LeftHoles(s.left);
    var w := l + Holes(s.where);
    if Holds(e, s.where, log, ps[l..w])
    then Copies(log.id, LeftValues(s.left, log, ps[j..l]), Combinations(s.joins, log, ps[..j]))
    else []
  }

  function Unpaged(e: Engine, s: Statement, logs: seq<Log>, ps: seq<Param>): Answer
    requires |ps| == StatementHoles(s)
  {
    if logs == [] then []
    else Unpaged(e, s, logs[..|logs| - 1], ps) + LogAnswer(e, s, logs[|logs| - 1], ps)
  }

  function Slice<T>(a: seq<T>, limit: int, offset: int): seq<T> {
    var from := if offset <= 0 then 0 else if offset <= |a| then offset else |a|;
    if limit < 0 || |a| - from <= limit then a[from..] else a[from..from + limit]
  }

  /** The answer of the database; the logs come in the order of the ORDER BY. */
  function Run(e: Engine, s: Statement, logs: seq<Log>, ps: seq<Param>): Answer
    requires |ps| == StatementHoles(s)
  {
    var n := |ps|;
    var rows := Unpaged(e, s, logs, ps);
    if s.offset
    then if ps[n - 2].Number? && ps[n - 1].Number? then Slice(rows, ps[n - 2].number, ps[n - 1].number) else []
    else if ps[n - 1].Number? then Slice(rows, ps[n - 1].number, 0) else []
  }

  // ---- A clause kept together with its own parameters ----------------------

  datatype Fragment = Fragment(cond: Cond, params: seq<Param>)

  ghost predicate Aligned(f: Fragment) { |f.params| == Holes(f.cond) }

  /** The clause filled with its own parameters. */
  ghost predicate Means(e: Engine, f: Fragment, log: Log) {
    Aligned(f) && Holds(e, f.cond, log, f.params)
  }

  function Conds(fs: seq<Fragment>): (cs: seq<Cond>)
    ensures |cs| == |fs|
    ensures forall i | 0 <= i < |fs| :: cs[i] == fs[i].cond
  {
    if fs == [] then [] else Conds(fs[..|fs| - 1]) + [fs[|fs| - 1].cond]
  }

  function Params(fs: seq<Fragment>): seq<Param> {
    if fs == [] then [] else Params(fs[..|fs| - 1]) + fs[|fs| - 1].params
  }

  /** The clause filled with its own parameters is false, not merely unknown. */
  ghost predicate Refutes(e: Engine, f: Fragment, log: Log) {
    Aligned(f) && Eval(e, f.cond, log, f.params) == No
  }

  ghost predicate AllAligned(fs: seq<Fragment>) { forall i | 0 <= i < |fs| :: Aligned(fs[i]) }

  ghost predicate AllMean(e: Engine, fs: seq<Fragment>, log: Log) { forall i | 0 <= i < |fs| :: Means(e, fs[i], log) }

  ghost predicate AnyMeans(e: Engine, fs: seq<Fragment>, log: Log) { exists i | 0 <= i < |fs| :: Means(e, fs[i], log) }

  lemma {:induction false} ParamsAppend(a: seq<Fragment>, b: seq<Fragment>)
    ensures Params(a + b) == Params(a) + Params(b)
    decreases |b|
  {
    if b == [] {
      assert a + b == a;
    } else {
      assert (a + b)[..|a + b| - 1] == a + b[..|b| - 1];
      ParamsAppend(a, b[..|b| - 1]);
    }
  }

  lemma CondsAppend(a: seq<Fragment>, b: seq<Fragment>)
    ensures Conds(a + b) == Conds(a) + Conds(b)
  {
  }

  lemma OneFragment(f: Fragment)
    ensures Conds([f]) == [f.cond] && Params([f]) == f.params
  {
    assert [f][..0] == [];
  }

  lemma FrontOf(fs: seq<Fragment>)
    requires fs != []
    ensures Conds(fs)[..|fs| - 1] == Conds(fs[..|fs| - 1])
    ensures Params(fs) == Params(fs[..|fs| - 1]) + fs[|fs| - 1].params
  {
  }

  lemma JoinTwo(e: Engine, a: Fragment, b: Fragment, log: Log)
    requires Aligned(a) && Aligned(b)
    ensures var and := Fragment(And(a.cond, b.cond), a.params + b.params);
            var or := Fragment(Or(a.cond, b.cond), a.params + b.params);
            && Aligned(and) && Aligned(or)
            && (Means(e, and, log) <==> Means(e, a, log) && Means(e, b, log))
            && (Means(e, or, log) <==> Means(e, a, log) || Means(e, b, log))
            && (Refutes(e, or, log) <==> Refutes(e, a, log) && Refutes(e, b, log))
  {
    var k := Holes(a.cond);
    assert (a.params + b.params)[..k] == a.params && (a.params + b.params)[k..] == b.params;
  }

  lemma MeansLast(e: Engine, fs: seq<Fragment>, log: Log)
    requires fs != []
    ensures AllMean(e, fs, log) <==> AllMean(e, fs[..|fs| - 1], log) && Means(e, fs[|fs| - 1], log)
    ensures AnyMeans(e, fs, log) <==> AnyMeans(e, fs[..|fs| - 1], log) || Means(e, fs[|fs| - 1], log)
  {
    hide Means;
    var front := fs[..|fs| - 1];
    assert forall i | 0 <= i < |front| :: front[i] == fs[i];
  }

  /** Joining clauses by AND and concatenating their parameters in the same order keeps every
      hole with its own parameter. */
  lemma {:induction false} AndAllMeans(e: Engine, fs: seq<Fragment>, log: Log)
    requires AllAligned(fs)
    ensures Aligned(Fragment(AndAll(Conds(fs)), Params(fs)))
    ensures Means(e, Fragment(AndAll(Conds(fs)), Params(fs)), log) <==> AllMean(e, fs, log)
    decreases |fs|
  {
    if fs == [] {
      return;
    }
    hide Aligned, Means, Conds, Params;
    MeansLast(e, fs, log);
    FrontOf(fs);
    var front, last := fs[..|fs| - 1], fs[|fs| - 1];
    if |fs| == 1 {
      assert fs == [last];
      OneFragment(last);
    } else {
      AndAllMeans(e, front, log);
      JoinTwo(e, Fragment(AndAll(Conds(front)), Params(front)), last, log);
    }
  }

  lemma {:induction false} OrAllMeans(e: Engine, fs: seq<Fragment>, log: Log)
    requires AllAligned(fs) && fs != []
    ensures Aligned(Fragment(OrAll(Conds(fs)), Params(fs)))
    ensures Means(e, Fragment(OrAll(Conds(fs)), Params(fs)), log) <==> AnyMeans(e, fs, log)
    decreases |fs|
  {
    hide Aligned, Means, Conds, Params;
    MeansLast(e, fs, log);
    FrontOf(fs);
    var front, last := fs[..|fs| - 1], fs[|fs| - 1];
    if |fs| == 1 {
      assert fs == [last];
      OneFragment(last);
    } else {
      OrAllMeans(e, front, log);
      JoinTwo(e, Fragment(OrAll(Conds(front)), Params(front)), last, log);
    }
  }
}
