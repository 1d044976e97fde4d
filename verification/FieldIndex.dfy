/**
 The extracted-field index in its two forms: the rows of `log_fields`
 (normalize.py, `normalized_field_rows` and `write_fields`) and the JSON document of
 the projection (event_storage_v2.py, `search_field_payload`).
 */
module FieldIndex {
  import opened Options

  const MAX_KEY := 60
  const MAX_VALUE := 300
  const BATCH := 128

  /** Extracted fields in dictionary order. */
  type Fields = seq<(string, string)>

  datatype Row = Row(key: string, value: string, norm: string)

  function Cut(s: string, n: nat): string { if |s| <= n then s else s[..n] }

  /** Keys and values are cut, so different keys can collide; `fold` is the case folding. */
  function RowOf(f: (string, string), fold: string -> string): Row {
    var text := Cut(f.1, MAX_VALUE);
    Row(Cut(f.0, MAX_KEY), text, fold(text))
  }

  function NormalizedRows(fields: Fields, fold: string -> string): (rows: seq<Row>)
    ensures |rows| == |fields| && forall i | 0 <= i < |fields| :: rows[i] == RowOf(fields[i], fold)
  {
    if fields == [] then [] else [RowOf(fields[0], fold)] + NormalizedRows(fields[1..], fold)
  }

  /** What the rows hold: names of at most sixty characters and values of at most three hundred, each
      as long as it can be. */
  lemma RowsAreCut(fields: Fields, fold: string -> string, i: nat)
    requires i < |fields|
    ensures var row := NormalizedRows(fields, fold)[i];
            && |row.key| <= 60 && row.key <= fields[i].0 && (|row.key| < 60 ==> row.key == fields[i].0)
            && |row.value| <= 300 && row.value <= fields[i].1 && (|row.value| < 300 ==> row.value == fields[i].1)
            && row.norm == fold(row.value)
  {
  }

  /** A log has the exact value under the name: the `EXISTS` form on the rows. */
  predicate HasRow(rows: seq<Row>, name: string, needle: string) {
    exists r :: r in rows && r.key == name && r.norm == needle
  }

  type Document = map<string, seq<string>>

  /** JSONB containment of `{name: [needle]}`. */
  predicate Contains(doc: Document, name: string, needle: string) {
    name in doc && needle in doc[name]
  }

  /** Containment of a whole `{name: [needle], ...}` document. */
  predicate ContainsAll(doc: Document, exact: map<string, seq<string>>) {
    forall name, needle | name in exact && needle in exact[name] :: Contains(doc, name, needle)
  }

  ghost predicate NoDuplicates(values: seq<string>) {
    forall i, j | 0 <= i < j < |values| :: values[i] != values[j]
  }

  /** The document contains an exact value exactly when some row has it, cut and colliding
      keys included, and it stores each value once. */
  method SearchFieldPayload(fields: Fields, fold: string -> string) returns (doc: Document)
    ensures forall name, needle :: Contains(doc, name, needle) <==> HasRow(NormalizedRows(fields, fold), name, needle)
    ensures forall name | name in doc :: doc[name] != [] && NoDuplicates(doc[name])
  {
    doc := map[];
    var rows := NormalizedRows(fields, fold);
    var i := 0;
    while i < |rows|
      invariant i <= |rows|
      invariant forall name, needle :: Contains(doc, name, needle) <==> HasRow(rows[..i], name, needle)
      invariant forall name | name in doc :: doc[name] != [] && NoDuplicates(doc[name])
    {
      var key, norm := rows[i].key, rows[i].norm;
      var values := if key in doc then doc[key] else [];
      ghost var before := doc;
      if norm !in values {
        values := values + [norm];
      }
      doc := doc[key := values];
      forall name, needle
        ensures Contains(doc, name, needle) <==> HasRow(rows[..i + 1], name, needle)
      {
        HasRowNext(rows, i, name, needle);
        assert Contains(before, name, needle) <==> HasRow(rows[..i], name, needle);
        assert name == key ==> (needle in values <==> Contains(before, name, needle) || needle == norm);
      }
      i := i + 1;
    }
    assert rows[..i] == rows;
  }

  lemma HasRowNext(rows: seq<Row>, i: nat, name: string, needle: string)
    requires i < |rows|
    ensures HasRow(rows[..i + 1], name, needle) <==>
            HasRow(rows[..i], name, needle) || (rows[i].key == name && rows[i].norm == needle)
  {
    assert rows[..i + 1] == rows[..i] + [rows[i]];
    assert rows[i] in rows[..i + 1];
  }

  // ---- The field table ---------------------------------------------------

  /** `time` is `None` for an undated row (`-infinity`). */
  datatype FieldRow = FieldRow(log: nat, row: Row, time: Option<int>)

  function Stamped(log: nat, rows: seq<Row>, time: Option<int>): (s: seq<FieldRow>)
    ensures |s| == |rows| && forall i | 0 <= i < |rows| :: s[i] == FieldRow(log, rows[i], time)
  {
    seq(|rows|, i requires 0 <= i < |rows| => FieldRow(log, rows[i], time))
  }

  lemma StampedAppend(log: nat, a: seq<Row>, b: seq<Row>, time: Option<int>)
    ensures Stamped(log, a + b, time) == Stamped(log, a, time) + Stamped(log, b, time)
  {
  }

  lemma NextBatch(log: nat, all: seq<Row>, offset: nat, end: nat, time: Option<int>)
    requires offset <= end <= |all|
    ensures Stamped(log, all[..end], time) == Stamped(log, all[..offset], time) + Stamped(log, all[offset..end], time)
  {
    assert all[..end] == all[..offset] + all[offset..end];
    StampedAppend(log, all[..offset], all[offset..end], time);
  }

  class FieldTable {
    var rows: seq<FieldRow>

    constructor ()
      ensures rows == []
    {
      rows := [];
    }

    /** Insert in batches that bound the statement: every row once, in order. */
    method WriteFields(log: nat, fields: Fields, time: Option<int>, fold: string -> string)
      modifies this
      ensures rows == old(rows) + Stamped(log, NormalizedRows(fields, fold), time)
    {
      hide NormalizedRows, Stamped;
      var all := NormalizedRows(fields, fold);
      var offset := 0;
      assert Stamped(log, all[..0], time) == [];
      while offset < |all|
        invariant offset <= |all|
        invariant rows == old(rows) + Stamped(log, all[..offset], time)
      {
        var end := if offset + BATCH <= |all| then offset + BATCH else |all|;
        var batch := all[offset..end];
        NextBatch(log, all, offset, end, time);
        rows := rows + Stamped(log, batch, time);
        offset := end;
      }
      assert all[..offset] == all;
    }
  }
}
