/**
 Bounded breadth-first pivot discovery (ai_soc.py, `_discover_pivot_entities`): a destination
 of an admitted address is admitted once it later sends traffic of its own.
 */
module PivotDiscovery {
  import opened Options

  datatype Event = Event(id: int, time: int, source: string, destination: string)

  /** The log table in (received_at, id) order, the stage window, and the address check, which
      gives "" for anything that is not an address. */
  datatype World = World(logs: seq<Event>, start: int, end: int, valid: string -> string)

  const ROW_CAP := 500

  predicate Later(e: Event, f: Event) { e.time > f.time || (e.time == f.time && e.id > f.id) }

  ghost predicate Ordered(w: World) {
    forall i, j | 0 <= i < j < |w.logs| :: Later(w.logs[j], w.logs[i])
  }

  predicate Seen(w: World, e: Event) { w.start <= e.time <= w.end }

  /** A row of the relation query. */
  predicate Sends(w: World, e: Event, parent: string) {
    e.source == parent && Seen(w, e) && e.destination != ""
  }

  predicate Relates(w: World, e: Event, parent: string, child: string) {
    Sends(w, e, parent) && w.valid(e.destination) == child && child != "" && child != parent
  }

  predicate Proves(w: World, e: Event, relation: Event, child: string) {
    e.source == child && Seen(w, e) && Later(e, relation)
  }

  /** A relation event and a later event of the child's own. */
  ghost predicate Edge(w: World, parent: string, child: string) {
    exists r, p :: r in w.logs && p in w.logs && Relates(w, r, parent, child) && Proves(w, p, r, child)
  }

  /** An edge from `parent` to `child`: inside the window, bounds included, the parent sends to a text
      that is the child's address, and at a later time, or under a higher id at the same time, the
      child sends something itself. */
  lemma EdgeIff(w: World, parent: string, child: string)
    ensures Edge(w, parent, child) <==>
            && child != "" && child != parent
            && exists r, p ::
                 && r in w.logs && r.source == parent && w.start <= r.time && r.time <= w.end
                 && r.destination != "" && w.valid(r.destination) == child
                 && p in w.logs && p.source == child && w.start <= p.time && p.time <= w.end
                 && (r.time < p.time || (r.time == p.time && r.id < p.id))
  {
    if child != "" && child != parent {
      forall r, p | r in w.logs && p in w.logs
        ensures Relates(w, r, parent, child) && Proves(w, p, r, child) <==>
                && r.source == parent && w.start <= r.time && r.time <= w.end
                && r.destination != "" && w.valid(r.destination) == child
                && p.source == child && w.start <= p.time && p.time <= w.end
                && (r.time < p.time || (r.time == p.time && r.id < p.id))
      {
      }
    }
  }

  /** The node is reached from the root in at most `depth` edges. */
  ghost predicate Within(w: World, root: string, node: string, depth: nat)
    decreases depth
  {
    if depth == 0 then node == root
    else Within(w, root, node, depth - 1) || exists p :: Within(w, root, p, depth - 1) && Edge(w, p, node)
  }

  /** The shortest distance from the root. */
  ghost predicate Distance(w: World, root: string, node: string, depth: nat) {
    Within(w, root, node, depth) && (depth > 0 ==> !Within(w, root, node, depth - 1))
  }

  datatype Hop = Hop(depth: nat, parent: string, entity: string, relation: Event, proof: Event)

  /** The earliest relation event and the earliest proof after it. */
  ghost predicate IsHop(w: World, h: Hop) {
    && h.relation in w.logs && h.proof in w.logs
    && Relates(w, h.relation, h.parent, h.entity) && Proves(w, h.proof, h.relation, h.entity)
    && (forall e | e in w.logs && Relates(w, e, h.parent, h.entity) :: e == h.relation || Later(e, h.relation))
    && (forall e | e in w.logs && Proves(w, e, h.relation, h.entity) :: e == h.proof || Later(e, h.proof))
  }

  // ---- The two queries -----------------------------------------------------

  /** The positions of the relation rows, in order. */
  function RelationRows(w: World, parent: string, n: nat): (rows: seq<nat>)
    requires n <= |w.logs|
    ensures forall k | 0 <= k < |rows| :: rows[k] < n && Sends(w, w.logs[rows[k]], parent)
    ensures forall k, m | 0 <= k < m < |rows| :: rows[k] < rows[m]
    ensures forall i | 0 <= i < n && Sends(w, w.logs[i], parent) :: i in rows
  {
    if n == 0 then []
    else RelationRows(w, parent, n - 1) + if Sends(w, w.logs[n - 1], parent) then [n - 1] else []
  }

  function AllRows(w: World, parent: string): seq<nat> { RelationRows(w, parent, |w.logs|) }

  /** The row limit hides none of the parent's rows. */
  ghost predicate RowsFit(w: World, parent: string, limit: nat) { |AllRows(w, parent)| <= limit }

  ghost predicate EarliestRelation(w: World, i: nat, parent: string, child: string) {
    i < |w.logs| && Relates(w, w.logs[i], parent, child)
    && forall k | 0 <= k < i :: !Relates(w, w.logs[k], parent, child)
  }

  method FirstProof(w: World, relation: Event, child: string) returns (p: Option<Event>)
    requires Ordered(w)
    ensures p.Some? ==>
              p.value in w.logs && Proves(w, p.value, relation, child)
              && forall e | e in w.logs && Proves(w, e, relation, child) :: e == p.value || Later(e, p.value)
    ensures p.None? ==> forall e | e in w.logs :: !Proves(w, e, relation, child)
  {
    for j := 0 to |w.logs|
      invariant forall k | 0 <= k < j :: !Proves(w, w.logs[k], relation, child)
    {
      if Proves(w, w.logs[j], relation, child) {
        forall e | e in w.logs && Proves(w, e, relation, child)
          ensures e == w.logs[j] || Later(e, w.logs[j])
        {
          var k :| 0 <= k < |w.logs| && w.logs[k] == e;
          assert k >= j;
        }
        return Some(w.logs[j]);
      }
    }
    p := None;
  }

  ghost predicate DistinctKeys(seen: seq<(string, nat)>) {
    forall i, j | 0 <= i < j < |seen| :: seen[i].0 != seen[j].0
  }

  predicate HasKey(seen: seq<(string, nat)>, child: string) {
    exists k | 0 <= k < |seen| :: seen[k].0 == child
  }

  /** The destination of the row is recorded unless there is a reason not to. */
  ghost predicate ReadChild(w: World, parent: string, admitted: set<string>, seen: seq<(string, nat)>, row: nat)
    requires row < |w.logs|
  {
    var child := w.valid(w.logs[row].destination);
    child == "" || child == parent || child in admitted || HasKey(seen, child)
  }

  ghost predicate GoodKey(w: World, parent: string, admitted: set<string>, key: (string, nat)) {
    key.0 !in admitted && EarliestRelation(w, key.1, parent, key.0)
  }

  ghost predicate GoodKeys(w: World, parent: string, admitted: set<string>, seen: seq<(string, nat)>) {
    DistinctKeys(seen) && forall k | 0 <= k < |seen| :: GoodKey(w, parent, admitted, seen[k])
  }

  ghost predicate FirstRows(w: World, parent: string, rows: seq<nat>) {
    |rows| <= |AllRows(w, parent)| && rows == AllRows(w, parent)[..|rows|]
  }

  /** The new destinations among the rows, each with its earliest relation. */
  method FirstSeen(w: World, parent: string, admitted: set<string>, limit: nat) returns (seen: seq<(string, nat)>)
    ensures GoodKeys(w, parent, admitted, seen)
    ensures RowsFit(w, parent, limit) ==>
              forall e, child | e in w.logs && Relates(w, e, parent, child) && child !in admitted :: HasKey(seen, child)
  {
    hide GoodKey, ReadChild, HasKey;
    var rows := AllRows(w, parent);
    if limit < |rows| {
      rows := rows[..limit];
    }
    seen := [];
    for r := 0 to |rows|
      invariant GoodKeys(w, parent, admitted, seen)
      invariant forall k | 0 <= k < r :: ReadChild(w, parent, admitted, seen, rows[k])
    {
      var child := w.valid(w.logs[rows[r]].destination);
      if child == "" || child == parent || child in admitted || HasKey(seen, child) {
        NothingToRead(w, parent, admitted, seen, rows[r]);
      } else {
        EarlierRowsRead(w, parent, child, rows, r, admitted, seen);
        AddKey(w, parent, admitted, seen, rows[r]);
        forall k | 0 <= k < r
          ensures ReadChild(w, parent, admitted, seen + [(child, rows[r])], rows[k])
        {
          StillRead(w, parent, admitted, seen, (child, rows[r]), rows[k]);
        }
        seen := seen + [(child, rows[r])];
      }
    }
    if RowsFit(w, parent, limit) {
      AllRead(w, parent, admitted, seen, rows);
    }
  }

  lemma NothingToRead(w: World, parent: string, admitted: set<string>, seen: seq<(string, nat)>, row: nat)
    requires row < |w.logs|
    requires var child := w.valid(w.logs[row].destination);
             child == "" || child == parent || child in admitted || HasKey(seen, child)
    ensures ReadChild(w, parent, admitted, seen, row)
  {
  }

  lemma StillRead(w: World, parent: string, admitted: set<string>, seen: seq<(string, nat)>, key: (string, nat),
                  row: nat)
    requires row < |w.logs| && ReadChild(w, parent, admitted, seen, row)
    ensures ReadChild(w, parent, admitted, seen + [key], row)
  {
    assert forall k | 0 <= k < |seen| :: (seen + [key])[k] == seen[k];
  }

  lemma AddKey(w: World, parent: string, admitted: set<string>, seen: seq<(string, nat)>, row: nat)
    requires row < |w.logs| && GoodKeys(w, parent, admitted, seen)
    requires var child := w.valid(w.logs[row].destination);
             !HasKey(seen, child) && GoodKey(w, parent, admitted, (child, row))
    ensures var child := w.valid(w.logs[row].destination);
            GoodKeys(w, parent, admitted, seen + [(child, row)])
            && ReadChild(w, parent, admitted, seen + [(child, row)], row)
  {
    hide GoodKey;
    var key := (w.valid(w.logs[row].destination), row);
    assert (seen + [key])[|seen|] == key;
  }

  /** A destination not recorded yet has no relation before the row at hand. */
  lemma EarlierRowsRead(w: World, parent: string, child: string, rows: seq<nat>, r: nat, admitted: set<string>,
                        seen: seq<(string, nat)>)
    requires r < |rows| && FirstRows(w, parent, rows)
    requires forall k | 0 <= k < r :: ReadChild(w, parent, admitted, seen, rows[k])
    requires child == w.valid(w.logs[rows[r]].destination)
    requires child != "" && child != parent && child !in admitted && !HasKey(seen, child)
    ensures GoodKey(w, parent, admitted, (child, rows[r]))
  {
    hide HasKey;
    var all := AllRows(w, parent);
    forall i | 0 <= i < rows[r]
      ensures !Relates(w, w.logs[i], parent, child)
    {
      if Sends(w, w.logs[i], parent) {
        var k :| 0 <= k < |all| && all[k] == i;
        assert k < r;
        assert ReadChild(w, parent, admitted, seen, rows[k]);
      }
    }
  }

  lemma AllRead(w: World, parent: string, admitted: set<string>, seen: seq<(string, nat)>, rows: seq<nat>)
    requires rows == AllRows(w, parent)
    requires forall k | 0 <= k < |rows| :: ReadChild(w, parent, admitted, seen, rows[k])
    ensures forall e, child | e in w.logs && Relates(w, e, parent, child) && child !in admitted :: HasKey(seen, child)
  {
    hide HasKey;
    forall e, child | e in w.logs && Relates(w, e, parent, child) && child !in admitted
      ensures HasKey(seen, child)
    {
      var i :| 0 <= i < |w.logs| && w.logs[i] == e;
      assert i in rows;
      var k :| 0 <= k < |rows| && rows[k] == i;
      assert ReadChild(w, parent, admitted, seen, rows[k]);
    }
  }

  /** Any proof after any relation is a proof after the earliest one. */
  lemma EarliestDecides(w: World, i: nat, parent: string, child: string)
    requires Ordered(w) && EarliestRelation(w, i, parent, child)
    ensures Edge(w, parent, child) <==> exists p :: p in w.logs && Proves(w, p, w.logs[i], child)
  {
    if Edge(w, parent, child) {
      var r, p :| r in w.logs && p in w.logs && Relates(w, r, parent, child) && Proves(w, p, r, child);
      var k :| 0 <= k < |w.logs| && w.logs[k] == r;
      assert k == i || Later(w.logs[k], w.logs[i]);
      assert Proves(w, p, w.logs[i], child);
    }
  }

  // ---- Growing the chain ------------------------------------------------------

  datatype Walk = Walk(entities: seq<string>, admitted: set<string>, next: seq<string>, hops: seq<Hop>)

  ghost predicate Distinct(entities: seq<string>) {
    forall i, j | 0 <= i < j < |entities| :: entities[i] != entities[j]
  }

  /** The node has a recorded depth: zero for the root, else the depth of its hop. */
  ghost predicate Recorded(root: string, hops: seq<Hop>, node: string, depth: nat) {
    (depth == 0 && node == root)
    || exists m | 0 <= m < |hops| :: hops[m].entity == node && hops[m].depth == depth
  }

  /** The hop leaves a node recorded one level higher before it. */
  ghost predicate Continues(root: string, hops: seq<Hop>, k: nat)
    requires k < |hops|
  {
    hops[k].depth > 0 && Recorded(root, hops[..k], hops[k].parent, hops[k].depth - 1)
  }

  /** The root and then one real hop for each further entity, no entity twice. */
  ghost predicate Chain(w: World, root: string, entities: seq<string>, hops: seq<Hop>) {
    && entities != [] && entities[0] == root && Distinct(entities)
    && |hops| == |entities| - 1
    && (forall k | 0 <= k < |hops| ::
          hops[k].entity == entities[k + 1] && IsHop(w, hops[k]) && Continues(root, hops, k))
  }

  ghost predicate Valid(w: World, root: string, s: Walk) {
    Chain(w, root, s.entities, s.hops) && s.admitted == (set e | e in s.entities)
  }

  function Admit(s: Walk, h: Hop): Walk {
    Walk(s.entities + [h.entity], s.admitted + {h.entity}, s.next + [h.entity], s.hops + [h])
  }

  lemma AdmitKeepsValid(w: World, root: string, s: Walk, h: Hop)
    requires Valid(w, root, s) && IsHop(w, h) && h.entity !in s.admitted
    requires h.depth > 0 && Recorded(root, s.hops, h.parent, h.depth - 1)
    ensures Valid(w, root, Admit(s, h))
  {
    hide IsHop;
    var hops := s.hops + [h];
    forall k | 0 <= k < |hops|
      ensures hops[k].entity == Admit(s, h).entities[k + 1] && IsHop(w, hops[k]) && Continues(root, hops, k)
    {
      hide Recorded;
      assert hops[..k] == s.hops[..k];
      assert s.hops[..|s.hops|] == s.hops;
    }
  }

  /** `t` grew from `s` by hops of the given depth from the given parents. */
  ghost predicate Grown(s: Walk, t: Walk, parents: seq<string>, depth: nat) {
    && s.entities <= t.entities && s.hops <= t.hops
    && t.next == s.next + t.entities[|s.entities|..]
    && forall k | |s.hops| <= k < |t.hops| :: t.hops[k].parent in parents && t.hops[k].depth == depth
  }

  lemma GrownOnce(s: Walk, t: Walk, parents: seq<string>, depth: nat, h: Hop)
    requires Grown(s, t, parents, depth) && h.parent in parents && h.depth == depth
    ensures Grown(s, Admit(t, h), parents, depth)
  {
    var u := Admit(t, h);
    assert u.entities[|s.entities|..] == t.entities[|s.entities|..] + [h.entity];
  }

  lemma RecordedStays(root: string, hops: seq<Hop>, more: seq<Hop>, node: string, depth: nat)
    requires Recorded(root, hops, node, depth) && hops <= more
    ensures Recorded(root, more, node, depth)
  {
  }

  /** Admit the parent's confirmed destinations until the entity cap. */
  method ExpandParent(w: World, root: string, parent: string, depth: nat, limit: nat, max: nat, s: Walk)
    returns (t: Walk)
    requires Ordered(w) && Valid(w, root, s) && |s.entities| <= max
    requires depth > 0 && Recorded(root, s.hops, parent, depth - 1)
    ensures Valid(w, root, t) && |t.entities| <= max && Grown(s, t, [parent], depth)
    ensures RowsFit(w, parent, limit) && |t.entities| < max ==> forall c | Edge(w, parent, c) :: c in t.admitted
  {
    hide Valid, Grown, Recorded, Edge, IsHop, Ordered, GoodKey, Relates, Proves, Later;
    var seen := FirstSeen(w, parent, s.admitted, limit);
    t := s;
    GrownNone(s, [parent], depth);
    forall m | 0 <= m < |seen|
      ensures seen[m].0 !in s.admitted
    {
      KeyIs(w, parent, s.admitted, seen[m]);
    }
    var k := 0;
    while k < |seen| && |t.entities| < max
      invariant k <= |seen|
      invariant Valid(w, root, t) && |t.entities| <= max && Grown(s, t, [parent], depth)
      invariant Recorded(root, t.hops, parent, depth - 1)
      invariant s.admitted <= t.admitted
      invariant forall m | k <= m < |seen| :: seen[m].0 !in t.admitted
      invariant forall m | 0 <= m < k :: Edge(w, parent, seen[m].0) ==> seen[m].0 in t.admitted
    {
      var child, i := seen[k].0, seen[k].1;
      KeyIs(w, parent, s.admitted, seen[k]);
      var p := FirstProof(w, w.logs[i], child);
      EarliestDecides(w, i, parent, child);
      if p.Some? {
        var h := Hop(depth, parent, child, w.logs[i], p.value);
        HopFound(w, h, i);
        AdmitKeepsValid(w, root, t, h);
        GrownOnce(s, t, [parent], depth, h);
        RecordedStays(root, t.hops, t.hops + [h], parent, depth - 1);
        t := Admit(t, h);
      }
      k := k + 1;
    }
    if RowsFit(w, parent, limit) && |t.entities| < max {
      forall c | Edge(w, parent, c)
        ensures c in t.admitted
      {
        EdgeRelates(w, parent, c);
        if c !in s.admitted {
          var m :| 0 <= m < |seen| && seen[m].0 == c;
        }
      }
    }
  }

  lemma GrownNone(s: Walk, parents: seq<string>, depth: nat)
    ensures Grown(s, s, parents, depth)
  {
  }

  lemma KeyIs(w: World, parent: string, admitted: set<string>, key: (string, nat))
    requires GoodKey(w, parent, admitted, key)
    ensures key.0 !in admitted && EarliestRelation(w, key.1, parent, key.0)
  {
  }

  lemma HopFound(w: World, h: Hop, i: nat)
    requires EarliestRelation(w, i, h.parent, h.entity) && h.relation == w.logs[i]
    requires Ordered(w) && h.proof in w.logs && Proves(w, h.proof, h.relation, h.entity)
    requires forall e | e in w.logs && Proves(w, e, h.relation, h.entity) :: e == h.proof || Later(e, h.proof)
    ensures IsHop(w, h)
  {
    forall e | e in w.logs && Relates(w, e, h.parent, h.entity)
      ensures e == h.relation || Later(e, h.relation)
    {
      var k :| 0 <= k < |w.logs| && w.logs[k] == e;
      assert k >= i;
    }
  }

  lemma EdgeRelates(w: World, parent: string, child: string)
    requires Edge(w, parent, child)
    ensures exists e :: e in w.logs && Relates(w, e, parent, child)
  {
  }

  lemma GrownThen(s: Walk, t: Walk, u: Walk, parents: seq<string>, parent: string, depth: nat)
    requires Grown(s, t, parents, depth) && Grown(t, u, [parent], depth) && parent in parents
    ensures Grown(s, u, parents, depth)
  {
    assert u.entities[|s.entities|..] == t.entities[|s.entities|..] + u.entities[|t.entities|..];
  }

  lemma AdmittedGrows(w: World, root: string, s: Walk, t: Walk, parents: seq<string>, depth: nat)
    requires Valid(w, root, s) && Valid(w, root, t) && Grown(s, t, parents, depth)
    ensures s.admitted <= t.admitted && |s.entities| <= |t.entities| && s.hops <= t.hops
  {
    assert forall i | 0 <= i < |s.entities| :: s.entities[i] == t.entities[i];
  }

  /** One level: every parent of the frontier until the entity cap. */
  method ExpandLevel(w: World, root: string, frontier: seq<string>, depth: nat, limit: nat, max: nat, s: Walk)
    returns (t: Walk)
    requires Ordered(w) && Valid(w, root, s) && |s.entities| <= max
    requires depth > 0 && forall p | p in frontier :: Recorded(root, s.hops, p, depth - 1)
    ensures Valid(w, root, t) && |t.entities| <= max && Grown(s, t, frontier, depth)
    ensures |t.entities| < max ==>
              forall p, c | p in frontier && RowsFit(w, p, limit) && Edge(w, p, c) :: c in t.admitted
  {
    hide Valid, Grown, Recorded, Edge, Ordered, RowsFit;
    t := s;
    GrownNone(s, frontier, depth);
    var f := 0;
    while f < |frontier| && |t.entities| < max
      invariant f <= |frontier|
      invariant Valid(w, root, t) && |t.entities| <= max && Grown(s, t, frontier, depth) && s.hops <= t.hops
      invariant |t.entities| < max ==>
                  forall m, c | 0 <= m < f && RowsFit(w, frontier[m], limit) && Edge(w, frontier[m], c) ::
                    c in t.admitted
    {
      assert frontier[f] in frontier;
      RecordedStays(root, s.hops, t.hops, frontier[f], depth - 1);
      var u := ExpandParent(w, root, frontier[f], depth, limit, max, t);
      GrownThen(s, t, u, frontier, frontier[f], depth);
      AdmittedGrows(w, root, t, u, [frontier[f]], depth);
      t := u;
      f := f + 1;
    }
  }

  // ---- Exactness ---------------------------------------------------------------

  ghost predicate AllFit(w: World, entities: seq<string>, limit: nat) {
    forall e | e in entities :: RowsFit(w, e, limit)
  }

  /** The recorded depths are the shortest distances. */
  ghost predicate DepthsExact(w: World, root: string, hops: seq<Hop>) {
    forall k | 0 <= k < |hops| :: Distance(w, root, hops[k].entity, hops[k].depth)
  }

  /** The walk holds exactly the nodes within the depth, and the frontier the outermost ones. */
  ghost predicate Exact(w: World, root: string, s: Walk, frontier: seq<string>, depth: nat) {
    && DepthsExact(w, root, s.hops)
    && (forall n :: n in s.admitted <==> Within(w, root, n, depth))
    && (forall n :: n in frontier <==> Distance(w, root, n, depth))
  }

  lemma NextDistances(w: World, root: string, s: Walk, frontier: seq<string>, depth: nat, t: Walk)
    requires Exact(w, root, s, frontier, depth) && Valid(w, root, s) && Valid(w, root, t)
    requires Grown(s, t, frontier, depth + 1)
    ensures DepthsExact(w, root, t.hops)
    ensures forall n | n in t.admitted :: Within(w, root, n, depth + 1)
  {
    hide Edge, Continues;
    forall k | |s.hops| <= k < |t.hops|
      ensures Distance(w, root, t.hops[k].entity, depth + 1)
    {
      var h := t.hops[k];
      HopIsEdge(w, h);
      assert Distance(w, root, h.parent, depth);
      assert h.entity !in s.admitted by {
        assert forall i | 0 <= i < |s.entities| :: s.entities[i] == t.entities[i] && i < k + 1;
      }
    }
    assert forall k | 0 <= k < |s.hops| :: t.hops[k] == s.hops[k];
    forall n | n in t.admitted
      ensures Within(w, root, n, depth + 1)
    {
      var i :| 0 <= i < |t.entities| && t.entities[i] == n;
      if i < |s.entities| {
        assert s.entities[i] == n;
      } else {
        assert t.hops[i - 1].entity == n;
      }
    }
  }

  lemma HopIsEdge(w: World, h: Hop)
    requires IsHop(w, h)
    ensures Edge(w, h.parent, h.entity)
  {
  }

  /** A level that missed no edge leaves the walk exact one level deeper. */
  lemma LevelIsExact(w: World, root: string, s: Walk, frontier: seq<string>, depth: nat, t: Walk)
    requires Exact(w, root, s, frontier, depth) && Valid(w, root, s) && Valid(w, root, t)
    requires s.next == [] && Grown(s, t, frontier, depth + 1)
    requires forall p, c | p in frontier && Edge(w, p, c) :: c in t.admitted
    ensures Exact(w, root, t, t.next, depth + 1)
  {
    NextDistances(w, root, s, frontier, depth, t);
    AdmittedGrows(w, root, s, t, frontier, depth + 1);
    hide Edge, IsHop, Continues, Chain, Grown, Valid;
    forall n | Within(w, root, n, depth + 1)
      ensures n in t.admitted
    {
      if !Within(w, root, n, depth) {
        var p :| Within(w, root, p, depth) && Edge(w, p, n);
        assert Distance(w, root, p, depth);
      }
    }
    forall n
      ensures n in t.next <==> Distance(w, root, n, depth + 1)
    {
      NextAreNew(w, root, s, frontier, depth, t, n);
    }
  }

  lemma NextAreNew(w: World, root: string, s: Walk, frontier: seq<string>, depth: nat, t: Walk, n: string)
    requires Valid(w, root, s) && Valid(w, root, t) && s.next == [] && Grown(s, t, frontier, depth + 1)
    ensures n in t.next <==> n in t.admitted && n !in s.admitted
  {
    hide Edge, IsHop, Continues, Distinct;
    assert t.entities == s.entities + t.next;
    ChainDistinct(w, root, t);
    PartsDisjoint(s.entities, t.next);
  }

  lemma ChainDistinct(w: World, root: string, t: Walk)
    requires Valid(w, root, t)
    ensures Distinct(t.entities)
  {
  }

  lemma PartsDisjoint(a: seq<string>, b: seq<string>)
    requires Distinct(a + b)
    ensures forall n | n in b :: n !in a
  {
    forall i, j | 0 <= i < |a| && 0 <= j < |b|
      ensures a[i] != b[j]
    {
      assert (a + b)[i] != (a + b)[|a| + j];
    }
  }

  /** If nothing lies at a distance, nothing lies farther. */
  lemma {:induction false} NothingFarther(w: World, root: string, depth: nat, deeper: nat)
    requires depth <= deeper
    requires forall n :: Within(w, root, n, depth + 1) ==> Within(w, root, n, depth)
    ensures forall n :: Within(w, root, n, deeper) <==> Within(w, root, n, depth)
    decreases deeper - depth
  {
    hide Edge;
    if deeper > depth {
      NothingFarther(w, root, depth, deeper - 1);
      forall n | Within(w, root, n, deeper)
        ensures Within(w, root, n, depth)
      {
        if p :| Within(w, root, p, deeper - 1) && Edge(w, p, n) {
          assert Within(w, root, p, depth);
          assert Within(w, root, n, depth + 1);
        }
      }
      WithinGrows(w, root, depth, deeper);
    }
  }

  lemma {:induction false} WithinGrows(w: World, root: string, depth: nat, deeper: nat)
    requires depth <= deeper
    ensures forall n | Within(w, root, n, depth) :: Within(w, root, n, deeper)
    decreases deeper
  {
    if deeper > depth {
      WithinGrows(w, root, depth, deeper - 1);
    }
  }

  /** The number itself if it is within the bounds, else the bound it exceeds. */
  function Clamp(n: int, low: int, high: int): (r: int)
    ensures low <= high ==> low <= r <= high
    ensures r == n || (n < r == low) || (high == r < n)
  {
    if n < low then low else if n > high then high else n
  }

  ghost predicate LevelReady(w: World, root: string, s: Walk, frontier: seq<string>, depth: nat, limit: nat) {
    && Valid(w, root, s) && s.next == []
    && (forall p | p in frontier :: Recorded(root, s.hops, p, depth))
    && (AllFit(w, s.entities, limit) ==> Exact(w, root, s, frontier, depth))
  }

  lemma StartReady(w: World, root: string, limit: nat)
    ensures LevelReady(w, root, Walk([root], {root}, [], []), [root], 0, limit)
  {
  }

  lemma FitEarlier(w: World, s: seq<string>, t: seq<string>, limit: nat)
    requires s <= t && AllFit(w, t, limit)
    ensures AllFit(w, s, limit)
  {
    hide RowsFit;
    assert forall e | e in s :: e in t;
  }

  /** One whole level: what the result satisfies, cut short by the entity cap or not. */
  method NextLevel(w: World, root: string, frontier: seq<string>, depth: nat, limit: nat, max: nat, s: Walk)
    returns (t: Walk)
    requires Ordered(w) && LevelReady(w, root, s, frontier, depth, limit) && |s.entities| <= max
    ensures Valid(w, root, t) && |t.entities| <= max
    ensures AllFit(w, t.entities, limit) ==> DepthsExact(w, root, t.hops)
    ensures AllFit(w, t.entities, limit) ==> forall n | n in t.admitted :: Within(w, root, n, depth + 1)
    ensures |t.entities| < max ==> LevelReady(w, root, t.(next := []), t.next, depth + 1, limit)
  {
    hide Valid, Exact, Recorded, Edge, Ordered, RowsFit, Grown, AllFit, DepthsExact;
    t := ExpandLevel(w, root, frontier, depth + 1, limit, max, s);
    LevelMeans(w, root, frontier, depth, limit, max, s, t);
  }

  lemma LevelMeans(w: World, root: string, frontier: seq<string>, depth: nat, limit: nat, max: nat, s: Walk, t: Walk)
    requires LevelReady(w, root, s, frontier, depth, limit)
    requires Valid(w, root, t) && Grown(s, t, frontier, depth + 1)
    requires |t.entities| < max ==>
               forall p, c | p in frontier && RowsFit(w, p, limit) && Edge(w, p, c) :: c in t.admitted
    ensures AllFit(w, t.entities, limit) ==> DepthsExact(w, root, t.hops)
    ensures AllFit(w, t.entities, limit) ==> forall n | n in t.admitted :: Within(w, root, n, depth + 1)
    ensures |t.entities| < max ==> LevelReady(w, root, t.(next := []), t.next, depth + 1, limit)
  {
    hide Edge, RowsFit, AllFit, DepthsExact, Exact, IsHop, Continues, Recorded;
    GrownPrefix(s, t, frontier, depth + 1);
    if AllFit(w, t.entities, limit) {
      FitEarlier(w, s.entities, t.entities, limit);
      NextDistances(w, root, s, frontier, depth, t);
      if |t.entities| < max {
        FrontierFits(w, root, s, frontier, depth, t, limit);
        LevelIsExact(w, root, s, frontier, depth, t);
        ExactWithoutNext(w, root, t, depth + 1);
      }
    }
    forall p | p in t.next
      ensures Recorded(root, t.hops, p, depth + 1)
    {
      NextRecorded(w, root, s, t, frontier, depth + 1, p);
    }
  }

  lemma GrownPrefix(s: Walk, t: Walk, parents: seq<string>, depth: nat)
    requires Grown(s, t, parents, depth)
    ensures s.entities <= t.entities
  {
  }

  lemma FrontierFits(w: World, root: string, s: Walk, frontier: seq<string>, depth: nat, t: Walk, limit: nat)
    requires Exact(w, root, s, frontier, depth) && Valid(w, root, s) && s.entities <= t.entities
    requires AllFit(w, t.entities, limit)
    ensures forall p | p in frontier :: RowsFit(w, p, limit)
  {
    hide RowsFit, Within, IsHop, Continues;
    FitEarlier(w, s.entities, t.entities, limit);
    assert forall p | p in frontier :: p in s.admitted;
  }

  lemma ExactWithoutNext(w: World, root: string, t: Walk, depth: nat)
    requires Exact(w, root, t, t.next, depth)
    ensures Exact(w, root, t.(next := []), t.next, depth)
  {
  }

  lemma NextRecorded(w: World, root: string, s: Walk, t: Walk, parents: seq<string>, depth: nat, p: string)
    requires Valid(w, root, s) && Valid(w, root, t) && Grown(s, t, parents, depth) && s.next == [] && p in t.next
    ensures Recorded(root, t.hops, p, depth)
  {
    hide IsHop, Continues, Distinct;
    var j :| 0 <= j < |t.next| && t.next[j] == p;
    var m := |s.hops| + j;
    assert t.entities[m + 1] == p;
    assert t.hops[m].entity == p;
  }

  /** The admitted addresses form a chain of real, time-confirmed hops. When no address has more
      relation rows than the row limit, recorded depths are shortest distances, and when the
      entity cap was not reached either, exactly the nodes within the depth are admitted. */
  method Discover(w: World, rootText: string, maxDepth: int, maxEntities: int, candidates: int)
    returns (entities: seq<string>, hops: seq<Hop>)
    requires Ordered(w)
    ensures var root := w.valid(rootText);
            var depth, max := Clamp(maxDepth, 0, 4), Clamp(maxEntities, 1, 24);
            var limit := Clamp(if candidates == 0 then 1 else candidates, 1, 500);
            if root == "" then entities == [] && hops == [] else
            && Chain(w, root, entities, hops) && |entities| <= max
            && (AllFit(w, entities, limit) ==> DepthsExact(w, root, hops))
            && (AllFit(w, entities, limit) ==> forall n | n in entities :: Within(w, root, n, depth))
            && (AllFit(w, entities, limit) && |entities| < max ==>
                  forall n :: n in entities <==> Within(w, root, n, depth))
  {
    hide Valid, Exact, Recorded, Ordered, AllFit, DepthsExact, LevelReady, Within;
    var root := w.valid(rootText);
    if root == "" {
      return [], [];
    }
    var deepest, max := Clamp(maxDepth, 0, 4), Clamp(maxEntities, 1, 24);
    var limit := Clamp(if candidates == 0 then 1 else candidates, 1, ROW_CAP);
    var s, frontier := Walk([root], {root}, [], []), [root];
    StartReady(w, root, limit);
    var depth := 0;
    var settled := false;
    while depth < deepest && !settled
      invariant depth <= deepest && |s.entities| <= max
      invariant !settled ==> LevelReady(w, root, s, frontier, depth, limit)
      invariant settled ==> Finished(w, root, s, deepest, limit, max)
      decreases deepest - depth, !settled
    {
      var t := NextLevel(w, root, frontier, depth, limit, max, s);
      if t.next == [] || |t.entities| >= max {
        SettledMeans(w, root, t, depth, deepest, limit, max);
        settled := true;
      }
      s, frontier := t.(next := []), t.next;
      depth := depth + 1;
    }
    if !settled {
      ReadyIsFinished(w, root, s, frontier, depth, limit, max);
    }
    entities, hops := s.entities, s.hops;
    FinishedMeans(w, root, s, deepest, limit, max);
  }

  ghost predicate Finished(w: World, root: string, s: Walk, depth: nat, limit: nat, max: nat) {
    && Valid(w, root, s)
    && (AllFit(w, s.entities, limit) ==> DepthsExact(w, root, s.hops))
    && (AllFit(w, s.entities, limit) ==> forall n | n in s.admitted :: Within(w, root, n, depth))
    && (AllFit(w, s.entities, limit) && |s.entities| < max ==>
          forall n :: n in s.admitted <==> Within(w, root, n, depth))
  }

  lemma ReadyIsFinished(w: World, root: string, s: Walk, frontier: seq<string>, depth: nat, limit: nat, max: nat)
    requires LevelReady(w, root, s, frontier, depth, limit)
    ensures Finished(w, root, s, depth, limit, max)
  {
    hide AllFit, Within, Distance, Valid;
  }

  /** After a level without new nodes, or at the entity cap, deeper levels change nothing. */
  lemma SettledMeans(w: World, root: string, t: Walk, depth: nat, deepest: nat, limit: nat, max: nat)
    requires depth < deepest && Valid(w, root, t)
    requires AllFit(w, t.entities, limit) ==> DepthsExact(w, root, t.hops)
    requires AllFit(w, t.entities, limit) ==> forall n | n in t.admitted :: Within(w, root, n, depth + 1)
    requires |t.entities| < max ==> t.next == [] && LevelReady(w, root, t.(next := []), t.next, depth + 1, limit)
    ensures Finished(w, root, t.(next := []), deepest, limit, max)
  {
    hide AllFit, Edge, Chain;
    if AllFit(w, t.entities, limit) {
      WithinGrows(w, root, depth + 1, deepest);
      if |t.entities| < max {
        forall n
          ensures Within(w, root, n, depth + 1) ==> Within(w, root, n, depth)
        {
          assert Distance(w, root, n, depth + 1) ==> n in t.next;
        }
        NothingFarther(w, root, depth, deepest);
        WithinGrows(w, root, depth, depth + 1);
      }
    }
  }

  lemma FinishedMeans(w: World, root: string, s: Walk, depth: nat, limit: nat, max: nat)
    requires Finished(w, root, s, depth, limit, max)
    ensures Chain(w, root, s.entities, s.hops)
    ensures forall n :: n in s.entities <==> n in s.admitted
    ensures AllFit(w, s.entities, limit) ==> DepthsExact(w, root, s.hops)
    ensures AllFit(w, s.entities, limit) ==> forall n | n in s.entities :: Within(w, root, n, depth)
    ensures AllFit(w, s.entities, limit) && |s.entities| < max ==>
              forall n :: n in s.entities <==> Within(w, root, n, depth)
  {
    hide Chain, AllFit, Within, DepthsExact;
  }
}
