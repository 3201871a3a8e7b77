/**
 * `write_csv`: the column list it collects from a group of records and the
 * table of cells `csv.DictWriter` writes from it. The CSV text itself
 * (quoting, delimiters, line endings) is not modelled; a table is its header
 * and its rows of cells.
 */
module Table {
  import opened Wrappers
  import opened Records

  const HostColumn: string := "hostname"

  /** Every key of every record, record after record, each record's keys in
      insertion order: what the nested loop visits. */
  function KeyStream(rows: seq<Record>): seq<string>
    decreases |rows|
  {
    if rows == [] then [] else KeyStream(rows[..|rows| - 1]) + Keys(rows[|rows| - 1])
  }

  /** `s` without the occurrences of `x`, in order. */
  function Without(s: seq<string>, x: string): seq<string>
    decreases |s|
  {
    if s == [] then []
    else if s[|s| - 1] == x then Without(s[..|s| - 1], x)
    else Without(s[..|s| - 1], x) + [s[|s| - 1]]
  }

  /** The columns `write_csv` collects: the keys other than `hostname`, each
      once, in order of first appearance. */
  function Columns(rows: seq<Record>): seq<string> {
    Distinct(Without(KeyStream(rows), HostColumn))
  }

  /** The header: `hostname` first, then the collected columns. */
  function FieldNames(rows: seq<Record>): seq<string> {
    [HostColumn] + Columns(rows)
  }

  /** A written table: its header and one row of cells per record. */
  datatype Csv = Csv(header: seq<string>, body: seq<seq<string>>)

  /** `DictWriter.writerow`, a library operation this definition stands for:
      `None` is the `ValueError` raised for a key that is not a field name;
      otherwise one cell per field name, the record's value or the empty
      `restval` when the record lacks that key. The ensures restate the
      definition for callers; what the converter relies on is proved in
      `FieldNamesCover` and `Tabulated`. */
  function WriteRow(fieldNames: seq<string>, r: Record): (cells: Option<seq<string>>)
    ensures cells.None? <==> exists k :: k in Keys(r) && k !in fieldNames
    ensures cells.Some? ==> |cells.value| == |fieldNames|
    ensures cells.Some? ==> forall j :: 0 <= j < |fieldNames| ==>
      cells.value[j] == match Get(r, fieldNames[j]) case Some(v) => v case None => ""
  {
    if exists k :: k in Keys(r) && k !in fieldNames then None
    else Some(seq(|fieldNames|, j requires 0 <= j < |fieldNames| =>
      match Get(r, fieldNames[j]) case Some(v) => v case None => ""))
  }

  lemma WithoutSnoc(s: seq<string>, k: string, x: string)
    ensures Without(s + [k], x) == if k == x then Without(s, x) else Without(s, x) + [k]
  {
    assert (s + [k])[..|s|] == s;
  }

  lemma DistinctSnoc<T>(s: seq<T>, k: T)
    ensures Distinct(s + [k]) == if k in Distinct(s) then Distinct(s) else Distinct(s) + [k]
  {
    assert (s + [k])[..|s|] == s;
  }

  lemma {:induction false} WithoutMembers(s: seq<string>, x: string)
    ensures forall k :: k in Without(s, x) <==> k in s && k != x
    decreases |s|
  {
    if s != [] {
      WithoutMembers(s[..|s| - 1], x);
      assert s == s[..|s| - 1] + [s[|s| - 1]];
    }
  }

  lemma {:induction false} KeyStreamMembers(rows: seq<Record>)
    ensures forall k :: k in KeyStream(rows) <==> exists i :: 0 <= i < |rows| && k in Keys(rows[i])
    decreases |rows|
  {
    if rows != [] {
      var init := rows[..|rows| - 1];
      KeyStreamMembers(init);
      forall k | k in KeyStream(rows) ensures exists i :: 0 <= i < |rows| && k in Keys(rows[i]) {
        if k in KeyStream(init) {
          var i :| 0 <= i < |init| && k in Keys(init[i]);
          assert init[i] == rows[i];
        }
      }
      forall k, i | 0 <= i < |rows| && k in Keys(rows[i]) ensures k in KeyStream(rows) {
        if i < |init| {
          assert init[i] == rows[i];
        }
      }
    }
  }

  /** A column is collected exactly when it is not `hostname` and some record
      has it as a key. */
  lemma ColumnsExact(rows: seq<Record>, k: string)
    ensures k in Columns(rows) <==> k != HostColumn && exists i :: 0 <= i < |rows| && k in Keys(rows[i])
  {
    KeyStreamMembers(rows);
    WithoutMembers(KeyStream(rows), HostColumn);
    DistinctMembers(Without(KeyStream(rows), HostColumn));
  }

  /** The header names every key of every record, so `writerow` never raises,
      and it names no column twice. */
  lemma FieldNamesCover(rows: seq<Record>)
    ensures forall i, k :: 0 <= i < |rows| && k in Keys(rows[i]) ==> k in FieldNames(rows)
    ensures NoDuplicates(FieldNames(rows))
  {
    forall i, k | 0 <= i < |rows| && k in Keys(rows[i]) ensures k in FieldNames(rows) {
      ColumnsExact(rows, k);
    }
    DistinctNoDuplicates(Without(KeyStream(rows), HostColumn));
    ColumnsExact(rows, HostColumn);
  }

  /** The collected columns appear in order of first appearance in the key
      stream. */
  lemma ColumnsFirstSeen(rows: seq<Record>)
    ensures FirstSeenOrder(Without(KeyStream(rows), HostColumn), Columns(rows))
  {
    DistinctFirstSeen(Without(KeyStream(rows), HostColumn));
  }

  /** The table `write_csv` writes for `rows`: since the header names every
      key, no row is rejected. */
  function Tabulated(rows: seq<Record>): (t: Csv)
    ensures t.header == FieldNames(rows) && |t.body| == |rows|
    ensures forall i :: 0 <= i < |rows| ==> WriteRow(t.header, rows[i]) == Some(t.body[i])
  {
    FieldNamesCover(rows);
    Csv(FieldNames(rows), seq(|rows|, i requires 0 <= i < |rows| => WriteRow(FieldNames(rows), rows[i]).value))
  }

  /** `write_csv`: collect the columns, then write the header and one row of
      cells per record. */
  method WriteCsv(rows: seq<Record>) returns (t: Csv)
    ensures t == Tabulated(rows)
  {
    var cols := CollectColumns(rows);
    var header := [HostColumn] + cols;
    ghost var expected := Tabulated(rows);
    var body: seq<seq<string>> := [];
    for i := 0 to |rows|
      invariant |body| == i
      invariant forall q :: 0 <= q < i ==> body[q] == expected.body[q]
    {
      var cells := WriteRow(header, rows[i]);
      body := body + [cells.value];
    }
    t := Csv(header, body);
  }

  /** The outer loop of the column collection, over the records. */
  method CollectColumns(rows: seq<Record>) returns (cols: seq<string>)
    ensures cols == Columns(rows)
  {
    cols := [];
    for i := 0 to |rows|
      invariant cols == Distinct(Without(KeyStream(rows[..i]), HostColumn))
    {
      assert rows[..i + 1][..i] == rows[..i];
      cols := AddColumns(cols, KeyStream(rows[..i]), Keys(rows[i]));
    }
    assert rows[..|rows|] == rows;
  }

  /** The inner loop, over one record's keys: a key other than `hostname`
      that is not yet a column is appended. */
  method AddColumns(cols: seq<string>, ghost seen: seq<string>, keys: seq<string>) returns (cols': seq<string>)
    requires cols == Distinct(Without(seen, HostColumn))
    ensures cols' == Distinct(Without(seen + keys, HostColumn))
  {
    cols' := cols;
    assert seen + keys[..0] == seen;
    for j := 0 to |keys|
      invariant cols' == Distinct(Without(seen + keys[..j], HostColumn))
    {
      var k := keys[j];
      assert seen + keys[..j + 1] == (seen + keys[..j]) + [k];
      WithoutSnoc(seen + keys[..j], k, HostColumn);
      DistinctSnoc(Without(seen + keys[..j], HostColumn), k);
      if k != HostColumn && k !in cols' {
        cols' := cols' + [k];
      }
    }
    assert keys[..|keys|] == keys;
  }

  /** A record that carries its host under `hostname` has the host as the
      first cell of its row. */
  lemma HostFirstCell(rows: seq<Record>, i: nat, host: string)
    requires i < |rows| && Get(rows[i], HostColumn) == Some(host)
    ensures var cells := WriteRow(FieldNames(rows), rows[i]);
      cells.Some? && cells.value[0] == host
  {
    FieldNamesCover(rows);
  }

  lemma ExampleStream(v1: string, v2: string, v3: string, v4: string)
    ensures KeyStream([[("a", v1), ("b", v2)], [("c", v3), ("a", v4)]]) == ["a", "b", "c", "a"]
  {
    var rows: seq<Record> := [[("a", v1), ("b", v2)], [("c", v3), ("a", v4)]];
    assert rows[..1] == [rows[0]] && rows[..1][..0] == [];
    assert Keys(rows[0]) == ["a", "b"];
    assert Keys(rows[1]) == ["c", "a"];
    assert KeyStream(rows[..1]) == ["a", "b"];
    assert KeyStream(rows) == ["a", "b"] + ["c", "a"];
  }

  lemma ExampleWithout()
    ensures Without(["a", "b", "c", "a"], HostColumn) == ["a", "b", "c", "a"]
  {
    assert ["a", "b", "c", "a"] == ["a", "b", "c"] + ["a"];
    assert ["a", "b", "c"] == ["a", "b"] + ["c"];
    assert ["a", "b"] == ["a"] + ["b"];
    WithoutSnoc(["a", "b", "c"], "a", HostColumn);
    WithoutSnoc(["a", "b"], "c", HostColumn);
    WithoutSnoc(["a"], "b", HostColumn);
    WithoutSnoc([], "a", HostColumn);
  }

  lemma ExampleDistinct()
    ensures Distinct(["a", "b", "c", "a"]) == ["a", "b", "c"]
  {
    assert ["a", "b", "c", "a"] == ["a", "b", "c"] + ["a"];
    assert ["a", "b", "c"] == ["a", "b"] + ["c"];
    assert ["a", "b"] == ["a"] + ["b"];
    DistinctSnoc(["a", "b", "c"], "a");
    DistinctSnoc(["a", "b"], "c");
    DistinctSnoc(["a"], "b");
    DistinctSnoc([], "a");
  }

  /** Records `{a, b}` and `{c, a}` give the header `hostname, a, b, c`. */
  lemma FirstSeenExample(v1: string, v2: string, v3: string, v4: string)
    ensures FieldNames([[("a", v1), ("b", v2)], [("c", v3), ("a", v4)]]) == [HostColumn, "a", "b", "c"]
  {
    ExampleStream(v1, v2, v3, v4);
    ExampleWithout();
    ExampleDistinct();
  }
}
