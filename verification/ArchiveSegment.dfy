/**
 An archive segment (archive.py): payloads stored once under their fingerprint,
 occurrences that keep their own id and time, and the views `logs` and `log_fields`
 through which a segment is read back.
 */
module ArchiveSegments {
  import opened Options

  type LogId = nat

  datatype Field = Field(name: string, value: Option<string>)

  /** A hot log row with its extracted fields; `columns` are the twelve text columns and
      the message. */
  datatype Event = Event(received: int, columns: seq<Option<string>>, raw: Option<string>, fields: seq<Field>)

  function Text(o: Option<string>): string {
    match o case None => "" case Some(s) => s
  }

  type Pair = (string, string)

  function Pairs(fields: seq<Field>): seq<Pair> {
    if fields == [] then [] else [(fields[0].name, Text(fields[0].value))] + Pairs(fields[1..])
  }

  /** The canonical payload: it stands for its own digest, and the sorted list of field
      pairs for the multiset it orders. */
  datatype Payload = Payload(columns: seq<Option<string>>, raw: Option<string>, fields: multiset<Pair>)

  function Canonical(e: Event): Payload {
    Payload(e.columns, e.raw, multiset(Pairs(e.fields)))
  }

  /** What the views return for one archived log. */
  datatype Archived = Archived(received: int, columns: seq<Option<string>>, raw: string, fields: multiset<Pair>)

  /** The event as it can be read back: a missing raw text or field value becomes "". */
  function Restored(e: Event): Archived {
    Archived(e.received, e.columns, Text(e.raw), multiset(Pairs(e.fields)))
  }

  datatype PayloadRow = PayloadRow(fingerprint: Payload, columns: seq<Option<string>>, raw: string)

  datatype FieldRow = FieldRow(payload: nat, pair: Pair)

  datatype Occurrence = Occurrence(received: int, payload: nat)

  /** The join of the field table for one payload. */
  function FieldsOf(rows: seq<FieldRow>, payload: nat): multiset<Pair> {
    if rows == [] then multiset{}
    else
      var n := |rows| - 1;
      FieldsOf(rows[..n], payload) + if rows[n].payload == payload then multiset{rows[n].pair} else multiset{}
  }

  function RowsFor(payload: nat, pairs: seq<Pair>): (rows: seq<FieldRow>)
    ensures |rows| == |pairs| && forall i | 0 <= i < |rows| :: rows[i] == FieldRow(payload, pairs[i])
  {
    seq(|pairs|, i requires 0 <= i < |pairs| => FieldRow(payload, pairs[i]))
  }

  lemma FieldsOfAppended(rows: seq<FieldRow>, payload: nat, pairs: seq<Pair>, k: nat)
    ensures FieldsOf(rows + RowsFor(payload, pairs), k) ==
            FieldsOf(rows, k) + if k == payload then multiset(pairs) else multiset{}
    decreases |pairs|
  {
    if pairs == [] {
      assert rows + RowsFor(payload, pairs) == rows;
    } else {
      var n := |pairs| - 1;
      var all := rows + RowsFor(payload, pairs);
      assert all[..|all| - 1] == rows + RowsFor(payload, pairs[..n]);
      assert pairs == pairs[..n] + [pairs[n]];
      FieldsOfAppended(rows, payload, pairs[..n], k);
    }
  }

  lemma NoRowsNoFields(rows: seq<FieldRow>, payload: nat)
    requires forall r | r in rows :: r.payload != payload
    ensures FieldsOf(rows, payload) == multiset{}
  {
  }

  lemma NoFieldsNoRows(rows: seq<FieldRow>, payload: nat)
    requires FieldsOf(rows, payload) == multiset{}
    ensures forall r | r in rows :: r.payload != payload
  {
    if rows != [] {
      var n := |rows| - 1;
      assert rows == rows[..n] + [rows[n]];
      assert FieldsOf(rows, payload) >= FieldsOf(rows[..n], payload);
    }
  }

  // ---- The tables and what the views read from them ------------------------

  datatype Tables = Tables(payloads: seq<PayloadRow>, fields: seq<FieldRow>, occurrences: map<LogId, Occurrence>)

  /** A payload row and its field rows hold exactly what was fingerprinted. */
  ghost predicate Faithful(p: PayloadRow, fields: multiset<Pair>) {
    p.columns == p.fingerprint.columns && p.raw == Text(p.fingerprint.raw) && fields == p.fingerprint.fields
  }

  ghost predicate DistinctFingerprints(payloads: seq<PayloadRow>) {
    forall i, j | 0 <= i < j < |payloads| :: payloads[i].fingerprint != payloads[j].fingerprint
  }

  ghost predicate ValidPayloads(payloads: seq<PayloadRow>, fields: seq<FieldRow>) {
    && DistinctFingerprints(payloads)
    && (forall k | 0 <= k < |payloads| :: Faithful(payloads[k], FieldsOf(fields, k)))
    && (forall r | r in fields :: r.payload < |payloads|)
  }

  ghost predicate ValidTables(t: Tables) {
    && ValidPayloads(t.payloads, t.fields)
    && forall id | id in t.occurrences :: t.occurrences[id].payload < |t.payloads|
  }

  /** `SELECT ... FROM logs` joined with `log_fields`, for one occurrence. */
  ghost function Read(t: Tables, id: LogId): Archived
    requires ValidTables(t) && id in t.occurrences
  {
    var o := t.occurrences[id];
    Archived(o.received, t.payloads[o.payload].columns, t.payloads[o.payload].raw, FieldsOf(t.fields, o.payload))
  }

  ghost function Contents(t: Tables): map<LogId, Archived>
    requires ValidTables(t)
  {
    map id | id in t.occurrences :: Read(t, id)
  }

  function Fingerprints(payloads: seq<PayloadRow>): set<Payload> {
    if payloads == [] then {}
    else Fingerprints(payloads[..|payloads| - 1]) + {payloads[|payloads| - 1].fingerprint}
  }

  lemma {:induction false} FingerprintMember(payloads: seq<PayloadRow>, f: Payload)
    ensures f in Fingerprints(payloads) <==> exists i :: 0 <= i < |payloads| && payloads[i].fingerprint == f
    decreases |payloads|
  {
    if payloads != [] {
      var n := |payloads| - 1;
      FingerprintMember(payloads[..n], f);
      assert forall i | 0 <= i < n :: payloads[..n][i] == payloads[i];
    }
  }

  lemma ReadsItsFingerprint(t: Tables, id: LogId)
    requires ValidTables(t) && id in t.occurrences
    ensures var o := t.occurrences[id];
            var p := t.payloads[o.payload].fingerprint;
            Read(t, id) == Archived(o.received, p.columns, Text(p.raw), p.fields)
  {
    assert Faithful(t.payloads[t.occurrences[id].payload], FieldsOf(t.fields, t.occurrences[id].payload));
  }

  /** Appending payloads does not change what an old occurrence reads. */
  lemma ReadSurvives(t: Tables, u: Tables, id: LogId)
    requires ValidTables(t) && ValidTables(u) && t.payloads <= u.payloads
    requires id in t.occurrences && id in u.occurrences && u.occurrences[id] == t.occurrences[id]
    ensures Read(u, id) == Read(t, id)
  {
    ReadsItsFingerprint(t, id);
    ReadsItsFingerprint(u, id);
  }

  lemma ReadsAfterInsert(t: Tables, u: Tables, id: LogId, e: Event, i: LogId)
    requires ValidTables(t) && ValidTables(u) && t.payloads <= u.payloads
    requires i in u.occurrences && (i in t.occurrences ==> u.occurrences[i] == t.occurrences[i])
    requires i !in t.occurrences ==>
               u.occurrences[i].received == e.received
                 && u.payloads[u.occurrences[i].payload].fingerprint == Canonical(e)
    ensures Read(u, i) == if i in t.occurrences then Read(t, i) else Restored(e)
  {
    if i in t.occurrences {
      ReadSurvives(t, u, i);
    } else {
      ReadsItsFingerprint(u, i);
    }
  }

  lemma ContentsAfterInsert(t: Tables, u: Tables, id: LogId, e: Event, k: nat)
    requires ValidTables(t) && ValidPayloads(u.payloads, u.fields) && t.payloads <= u.payloads
    requires k < |u.payloads| && u.payloads[k].fingerprint == Canonical(e)
    requires u.occurrences ==
             if id in t.occurrences then t.occurrences else t.occurrences[id := Occurrence(e.received, k)]
    ensures ValidTables(u)
    ensures Contents(u) == if id in Contents(t) then Contents(t) else Contents(t)[id := Restored(e)]
  {
    hide ValidPayloads, Read, Canonical, Restored;
    assert ValidTables(u);
    forall i | i in u.occurrences
      ensures Read(u, i) == if i in t.occurrences then Read(t, i) else Restored(e)
    {
      ReadsAfterInsert(t, u, id, e, i);
    }
  }

  lemma OneMoreFingerprint(payloads: seq<PayloadRow>, p: PayloadRow)
    ensures Fingerprints(payloads + [p]) == Fingerprints(payloads) + {p.fingerprint}
  {
    assert (payloads + [p])[..|payloads|] == payloads;
  }

  class Segment {
    var payloads: seq<PayloadRow>
    var fields: seq<FieldRow>
    var occurrences: map<LogId, Occurrence>

    function View(): Tables reads this { Tables(payloads, fields, occurrences) }

    ghost predicate Valid() reads this { ValidTables(View()) }

    constructor ()
      ensures Valid() && Contents(View()) == map[] && payloads == []
    {
      payloads, fields, occurrences := [], [], map[];
    }

    /** `SELECT id FROM archive_payloads WHERE fingerprint=?`. */
    method Find(fingerprint: Payload) returns (k: nat)
      ensures k <= |payloads|
      ensures k < |payloads| ==> payloads[k].fingerprint == fingerprint
      ensures k == |payloads| ==> fingerprint !in Fingerprints(payloads)
    {
      k := 0;
      while k < |payloads| && payloads[k].fingerprint != fingerprint
        invariant k <= |payloads| && forall i | 0 <= i < k :: payloads[i].fingerprint != fingerprint
      {
        k := k + 1;
      }
      FingerprintMember(payloads, fingerprint);
    }

    /** The field rows of payload `k`, unless it has some already. */
    method InsertFields(k: nat, pairs: seq<Pair>)
      requires forall r | r in fields :: r.payload < |payloads|
      requires k < |payloads|
      requires FieldsOf(fields, k) == multiset{} || FieldsOf(fields, k) == multiset(pairs)
      modifies this`fields
      ensures forall r | r in fields :: r.payload < |payloads|
      ensures FieldsOf(fields, k) == multiset(pairs)
      ensures forall j | j != k :: FieldsOf(fields, j) == FieldsOf(old(fields), j)
    {
      var haveFields := exists r :: r in fields && r.payload == k;
      if haveFields {
        if FieldsOf(fields, k) == multiset{} {
          NoFieldsNoRows(fields, k);
        }
      } else {
        NoRowsNoFields(fields, k);
        forall j: nat
          ensures FieldsOf(fields + RowsFor(k, pairs), j) ==
                  FieldsOf(fields, j) + if j == k then multiset(pairs) else multiset{}
        {
          FieldsOfAppended(fields, k, pairs, j);
        }
        fields := fields + RowsFor(k, pairs);
      }
    }

    /** `INSERT OR IGNORE` of the payload row, and the id it has afterwards. */
    method InsertPayload(e: Event) returns (k: nat)
      requires ValidPayloads(payloads, fields)
      modifies this`payloads
      ensures old(payloads) <= payloads && k < |payloads| && DistinctFingerprints(payloads)
      ensures payloads[k].fingerprint == Canonical(e)
      ensures payloads[k].columns == e.columns && payloads[k].raw == Text(e.raw)
      ensures k < |old(payloads)| ==> payloads == old(payloads)
      ensures k >= |old(payloads)| ==> k == |old(payloads)| == |payloads| - 1 && FieldsOf(fields, k) == multiset{}
      ensures Fingerprints(payloads) == Fingerprints(old(payloads)) + {Canonical(e)}
    {
      var fingerprint := Canonical(e);
      k := Find(fingerprint);
      FingerprintMember(payloads, fingerprint);
      if k == |payloads| {
        NoRowsNoFields(fields, k);
        OneMoreFingerprint(payloads, PayloadRow(fingerprint, e.columns, Text(e.raw)));
        payloads := payloads + [PayloadRow(fingerprint, e.columns, Text(e.raw))];
      } else {
        assert Faithful(payloads[k], FieldsOf(fields, k));
      }
    }

    /** Store the payload and its field rows once; existing payloads are not touched. */
    method Insert(e: Event) returns (k: nat)
      requires ValidPayloads(payloads, fields)
      modifies this`payloads, this`fields
      ensures ValidPayloads(payloads, fields)
      ensures k < |payloads| && payloads[k].fingerprint == Canonical(e)
      ensures old(payloads) <= payloads
      ensures Fingerprints(payloads) == Fingerprints(old(payloads)) + {Canonical(e)}
    {
      hide Fingerprints, FieldsOf, Pairs, DistinctFingerprints;
      k := InsertPayload(e);
      assert k < |old(payloads)| ==> Faithful(old(payloads)[k], FieldsOf(fields, k));
      InsertFields(k, Pairs(e.fields));
      forall j | 0 <= j < |payloads|
        ensures Faithful(payloads[j], FieldsOf(fields, j))
      {
        assert j != k ==> j < |old(payloads)| && Faithful(old(payloads)[j], FieldsOf(old(fields), j));
      }
    }

    /** Archive one event: what was readable before stays as it was, and a new id reads
        back as the event. */
    method InsertEvent(id: LogId, e: Event)
      requires Valid()
      modifies this
      ensures Valid()
      ensures Contents(View()) ==
              if id in Contents(old(View())) then Contents(old(View()))
              else Contents(old(View()))[id := Restored(e)]
      ensures Fingerprints(payloads) == Fingerprints(old(payloads)) + {Canonical(e)}
    {
      hide ValidPayloads, Contents, Fingerprints, Canonical;
      ghost var before := View();
      var k := Insert(e);
      if id !in occurrences {
        occurrences := occurrences[id := Occurrence(e.received, k)];
      }
      ContentsAfterInsert(before, View(), id, e, k);
    }
  }

  // ---- A whole segment ---------------------------------------------------

  type Rows = seq<(LogId, Event)>

  predicate DistinctIds(rows: Rows) {
    forall i, j | 0 <= i < j < |rows| :: rows[i].0 != rows[j].0
  }

  /** The readable contents of the segment built from `rows`. */
  function Built(rows: Rows): map<LogId, Archived> {
    if rows == [] then map[]
    else
      var n := |rows| - 1;
      Built(rows[..n])[rows[n].0 := Restored(rows[n].1)]
  }

  function DistinctPayloads(rows: Rows): set<Payload> {
    if rows == [] then {} else DistinctPayloads(rows[..|rows| - 1]) + {Canonical(rows[|rows| - 1].1)}
  }

  /** Reading a built segment returns for every archived id its own event ... */
  lemma {:induction false} BuiltReadsBack(rows: Rows, i: nat)
    requires DistinctIds(rows) && i < |rows|
    ensures rows[i].0 in Built(rows) && Built(rows)[rows[i].0] == Restored(rows[i].1)
    decreases |rows|
  {
    var n := |rows| - 1;
    if i < n {
      BuiltReadsBack(rows[..n], i);
    }
  }

  /** ... and nothing else. */
  lemma {:induction false} BuiltOnlyRows(rows: Rows, id: LogId)
    requires id in Built(rows)
    ensures exists i :: 0 <= i < |rows| && rows[i].0 == id
    decreases |rows|
  {
    var n := |rows| - 1;
    if rows[n].0 != id {
      BuiltOnlyRows(rows[..n], id);
      var i :| 0 <= i < n && rows[..n][i].0 == id;
      assert rows[i].0 == id;
    }
  }

  lemma DistinctCount(t: Tables)
    requires ValidTables(t)
    ensures |Fingerprints(t.payloads)| == |t.payloads|
  {
    CountFingerprints(t.payloads);
  }

  lemma CountFingerprints(payloads: seq<PayloadRow>)
    requires DistinctFingerprints(payloads)
    ensures |Fingerprints(payloads)| == |payloads|
  {
    if payloads != [] {
      var n := |payloads| - 1;
      CountFingerprints(payloads[..n]);
      FingerprintMember(payloads[..n], payloads[n].fingerprint);
    }
  }

  datatype Counts = Counts(events: nat, uniquePayloads: nat, duplicates: int)

  /** Build a segment from the selected rows and count it: every id reads back as its
      event, and a payload row is stored per distinct payload. */
  method BuildSegment(rows: Rows) returns (s: Segment, counts: Counts)
    requires DistinctIds(rows)
    ensures fresh(s) && s.Valid() && Contents(s.View()) == Built(rows)
    ensures counts == Counts(|rows|, |DistinctPayloads(rows)|, |rows| - |DistinctPayloads(rows)|)
  {
    hide ValidTables, Contents, Fingerprints, DistinctPayloads, Built, Canonical;
    s := new Segment();
    NoRows(rows);
    var i := 0;
    while i < |rows|
      invariant i <= |rows| && fresh(s) && s.Valid()
      invariant Contents(s.View()) == Built(rows[..i])
      invariant Fingerprints(s.payloads) == DistinctPayloads(rows[..i])
    {
      OneMoreRow(rows, i);
      s.InsertEvent(rows[i].0, rows[i].1);
      i := i + 1;
    }
    DistinctCount(s.View());
    counts := Counts(|rows|, |s.payloads|, |rows| - |s.payloads|);
  }

  lemma NoRows(rows: Rows)
    ensures Built(rows[..0]) == map[] && DistinctPayloads(rows[..0]) == {} && Fingerprints([]) == {}
    ensures rows[..|rows|] == rows
  {
  }

  lemma OneMoreRow(rows: Rows, i: nat)
    requires DistinctIds(rows) && i < |rows|
    ensures rows[i].0 !in Built(rows[..i])
    ensures Built(rows[..i + 1]) == Built(rows[..i])[rows[i].0 := Restored(rows[i].1)]
    ensures DistinctPayloads(rows[..i + 1]) == DistinctPayloads(rows[..i]) + {Canonical(rows[i].1)}
  {
    assert rows[..i + 1][..i] == rows[..i];
    assert rows[..i + 1] == rows[..i] + [rows[i]];
    if rows[i].0 in Built(rows[..i]) {
      BuiltOnlyRows(rows[..i], rows[i].0);
    }
  }
}
