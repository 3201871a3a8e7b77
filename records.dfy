/**
 * Records as the converter builds them: a Python dict from column name to
 * cell value, kept as its list of entries in insertion order, and the
 * projection `parse_text` applies to every row the parsing engine returns.
 */
module Records {
  import opened Wrappers
  import opened Strings

  predicate NoDuplicates<T(==)>(s: seq<T>) {
    forall i, j :: 0 <= i < j < |s| ==> s[i] != s[j]
  }

  /** The elements of `s` without repeats, each kept at its first occurrence:
      what appending `x` only when `x not in out` builds. */
  function Distinct<T(==)>(s: seq<T>): seq<T>
    decreases |s|
  {
    if s == [] then []
    else
      var init := Distinct(s[..|s| - 1]);
      if s[|s| - 1] in init then init else init + [s[|s| - 1]]
  }

  lemma {:induction false} DistinctMembers<T>(s: seq<T>)
    ensures forall x :: x in Distinct(s) <==> x in s
    ensures forall i :: 0 <= i < |Distinct(s)| ==> Distinct(s)[i] in s
    decreases |s|
  {
    if s != [] {
      var s' := s[..|s| - 1];
      DistinctMembers(s');
      assert s == s' + [s[|s| - 1]];
    }
  }

  lemma {:induction false} DistinctNoDuplicates<T>(s: seq<T>)
    ensures NoDuplicates(Distinct(s))
    decreases |s|
  {
    if s != [] {
      DistinctNoDuplicates(s[..|s| - 1]);
    }
  }

  /** A sequence without repeats is its own `Distinct`. */
  lemma {:induction false} DistinctOfUnique<T>(s: seq<T>)
    requires NoDuplicates(s)
    ensures Distinct(s) == s
    decreases |s|
  {
    if s != [] {
      var s' := s[..|s| - 1];
      DistinctOfUnique(s');
      DistinctMembers(s');
      assert s == s' + [s[|s| - 1]];
    }
  }

  /** The position of the first occurrence of `x`. */
  function IndexOf<T(==)>(s: seq<T>, x: T): (i: nat)
    requires x in s
    ensures i < |s| && s[i] == x && x !in s[..i]
  {
    if s[0] == x then 0
    else
      var j := IndexOf(s[1..], x);
      assert s[..j + 1] == [s[0]] + s[1..][..j];
      j + 1
  }

  lemma IndexOfExtend<T>(s: seq<T>, c: T, x: T)
    requires x in s
    ensures IndexOf(s + [c], x) == IndexOf(s, x)
  {
    var i := IndexOf(s, x);
    var k := IndexOf(s + [c], x);
    assert (s + [c])[i] == x;
    assert k <= i;
    assert k >= i;
  }

  /** The positions of first occurrences increase along `d`. */
  predicate FirstSeenOrder<T(==)>(s: seq<T>, d: seq<T>) {
    forall i, j :: 0 <= i < j < |d| ==> d[i] in s && d[j] in s && IndexOf(s, d[i]) < IndexOf(s, d[j])
  }

  lemma DistinctFirstSeenSnoc<T>(t: seq<T>, c: T)
    requires FirstSeenOrder(t, Distinct(t))
    ensures FirstSeenOrder(t + [c], Distinct(t + [c]))
  {
    var s := t + [c];
    var d' := Distinct(t);
    var d := Distinct(s);
    DistinctMembers(t);
    assert s[..|s| - 1] == t;
    assert d == if c in d' then d' else d' + [c];
    forall i, j | 0 <= i < j < |d|
      ensures d[i] in s && d[j] in s && IndexOf(s, d[i]) < IndexOf(s, d[j])
    {
      assert d[i] == d'[i] && d'[i] in t;
      IndexOfExtend(t, c, d[i]);
      if j < |d'| {
        assert d[j] == d'[j] && d'[j] in t;
        IndexOfExtend(t, c, d[j]);
      } else {
        assert c !in t;
        assert IndexOf(s, c) == |t|;
      }
    }
  }

  /** `Distinct` keeps the order of first occurrences. */
  lemma {:induction false} DistinctFirstSeen<T>(s: seq<T>)
    ensures FirstSeenOrder(s, Distinct(s))
    decreases |s|
  {
    if s != [] {
      DistinctFirstSeen(s[..|s| - 1]);
      DistinctFirstSeenSnoc(s[..|s| - 1], s[|s| - 1]);
      assert s == s[..|s| - 1] + [s[|s| - 1]];
    }
  }

  /** A dict, as its entries in insertion order. */
  type Dict<K, V> = seq<(K, V)>

  function Keys<K, V>(r: Dict<K, V>): (ks: seq<K>)
    ensures |ks| == |r| && forall i :: 0 <= i < |r| ==> ks[i] == r[i].0
  {
    if r == [] then [] else [r[0].0] + Keys(r[1..])
  }

  predicate UniqueKeys<K(==), V>(r: Dict<K, V>) {
    NoDuplicates(Keys(r))
  }

  /** `r.get(k)` */
  function Get<K(==), V>(r: Dict<K, V>, k: K): (v: Option<V>)
    ensures v.Some? ==> exists i :: 0 <= i < |r| && r[i] == (k, v.value)
    decreases |r|
  {
    if r == [] then None
    else if r[0].0 == k then Some(r[0].1)
    else
      var v := Get(r[1..], k);
      assert v.Some? ==> exists i :: 0 <= i < |r| - 1 && r[1..][i] == (k, v.value);
      v
  }

  /** A key is found exactly when it is one of the dict's keys. */
  lemma {:induction false} GetDefined<K, V>(r: Dict<K, V>, k: K)
    ensures Get(r, k).Some? <==> k in Keys(r)
    decreases |r|
  {
    if r != [] {
      GetDefined(r[1..], k);
      assert Keys(r) == [r[0].0] + Keys(r[1..]);
    }
  }

  /** With unique keys, each entry is what `Get` finds under its name. */
  lemma {:induction false} GetEntry<K, V>(r: Dict<K, V>, i: nat)
    requires UniqueKeys(r) && i < |r|
    ensures Get(r, r[i].0) == Some(r[i].1)
    decreases |r|
  {
    if i > 0 {
      assert r[0].0 != r[i].0 by { assert Keys(r)[0] != Keys(r)[i]; }
      GetEntry(r[1..], i - 1);
    }
  }

  /** `r[k] = v`: an existing key keeps its position and takes the new value;
      a new key is appended; every other key keeps its value. */
  function Put<K(==,!new), V>(r: Dict<K, V>, k: K, v: V): (r': Dict<K, V>)
    ensures Get(r', k) == Some(v)
    decreases |r|
  {
    if r == [] then [(k, v)]
    else if r[0].0 == k then
      var r' := [(k, v)] + r[1..];
      assert r'[1..] == r[1..];
      r'
    else
      var tail := Put(r[1..], k, v);
      var r' := [r[0]] + tail;
      assert r'[1..] == tail;
      r'
  }

  /** An existing key keeps its position; a new key goes last. */
  lemma {:induction false} PutKeys<K(!new), V>(r: Dict<K, V>, k: K, v: V)
    ensures Keys(Put(r, k, v)) == if k in Keys(r) then Keys(r) else Keys(r) + [k]
    decreases |r|
  {
    if r == [] {
      KeysCons((k, v), []);
    } else {
      var rest := r[1..];
      assert r == [r[0]] + rest;
      KeysCons(r[0], rest);
      if r[0].0 == k {
        KeysCons((k, v), rest);
      } else {
        PutKeys(rest, k, v);
        KeysCons(r[0], Put(rest, k, v));
        if k !in Keys(rest) {
          AppendAssoc([r[0].0], Keys(rest), [k]);
        }
      }
    }
  }

  lemma AppendAssoc<T>(a: seq<T>, b: seq<T>, c: seq<T>)
    ensures (a + b) + c == a + (b + c)
  {
  }

  lemma KeysCons<K, V>(e: (K, V), rest: Dict<K, V>)
    ensures Keys([e] + rest) == [e.0] + Keys(rest)
  {
    assert ([e] + rest)[1..] == rest;
  }

  /** Assignment leaves every other key's value alone. */
  lemma {:induction false} PutOther<K(!new), V>(r: Dict<K, V>, k: K, v: V, other: K)
    requires other != k
    ensures Get(Put(r, k, v), other) == Get(r, other)
    decreases |r|
  {
    if r != [] && r[0].0 != k {
      PutOther(r[1..], k, v, other);
      assert Put(r, k, v)[1..] == Put(r[1..], k, v);
    } else if r != [] {
      assert Put(r, k, v)[1..] == r[1..];
    }
  }

  /** Assignment keeps the keys of a dict unique. */
  lemma PutUnique<K(!new), V>(r: Dict<K, V>, k: K, v: V)
    requires UniqueKeys(r)
    ensures UniqueKeys(Put(r, k, v))
  {
    PutKeys(r, k, v);
    if k !in Keys(r) {
      NoDuplicatesSnoc(Keys(r), k);
    }
  }

  lemma NoDuplicatesSnoc<T>(s: seq<T>, x: T)
    requires NoDuplicates(s) && x !in s
    ensures NoDuplicates(s + [x])
  {
  }

  /** `{names[i]: row[i] for i in range(n)}`: the keys assigned one after the
      other, left to right. */
  function Assign<K(==,!new), V>(names: seq<K>, row: seq<V>, n: nat): Dict<K, V>
    requires n <= |names| <= |row|
  {
    if n == 0 then [] else Put(Assign(names, row, n - 1), names[n - 1], row[n - 1])
  }

  /** The keys are the names without repeats, in order of first occurrence. */
  lemma {:induction false} AssignKeys<K(!new), V>(names: seq<K>, row: seq<V>, n: nat)
    requires n <= |names| <= |row|
    ensures Keys(Assign(names, row, n)) == Distinct(names[..n])
    decreases n
  {
    if n > 0 {
      AssignKeys(names, row, n - 1);
      AssignKeysStep(names, row, n);
      DistinctPrefixStep(names, n);
    }
  }

  lemma AssignKeysStep<K(!new), V>(names: seq<K>, row: seq<V>, n: nat)
    requires 0 < n <= |names| <= |row|
    ensures var prev := Keys(Assign(names, row, n - 1));
      Keys(Assign(names, row, n)) == if names[n - 1] in prev then prev else prev + [names[n - 1]]
  {
    PutKeys(Assign(names, row, n - 1), names[n - 1], row[n - 1]);
  }

  lemma DistinctPrefixStep<T>(s: seq<T>, n: nat)
    requires 0 < n <= |s|
    ensures var init := Distinct(s[..n - 1]);
      Distinct(s[..n]) == if s[n - 1] in init then init else init + [s[n - 1]]
  {
    assert s[..n][..n - 1] == s[..n - 1];
  }

  /** `j` is the last position before `n` that holds `k`. */
  predicate LastNamed<K(==)>(names: seq<K>, n: nat, k: K, j: nat)
    requires n <= |names|
  {
    j < n && names[j] == k && forall q :: j < q < n ==> names[q] != k
  }

  /** No key is there that no name gives. */
  lemma AssignAbsent<K(!new), V>(names: seq<K>, row: seq<V>, n: nat, k: K)
    requires n <= |names| <= |row|
    ensures Get(Assign(names, row, n), k).None? <==> k !in names[..n]
  {
    GetDefined(Assign(names, row, n), k);
    AssignKeys(names, row, n);
    DistinctMembers(names[..n]);
  }

  /** A key holds the cell of the last position that names it. */
  lemma {:induction false} AssignValue<K(!new), V>(names: seq<K>, row: seq<V>, n: nat, k: K, j: nat)
    requires n <= |names| <= |row|
    requires LastNamed(names, n, k, j)
    ensures Get(Assign(names, row, n), k) == Some(row[j])
    decreases n
  {
    if j < n - 1 {
      AssignOther(names, row, n, k);
      assert LastNamed(names, n - 1, k, j);
      AssignValue(names, row, n - 1, k, j);
    } else {
      AssignLast(names, row, n);
    }
  }

  lemma AssignLast<K(!new), V>(names: seq<K>, row: seq<V>, n: nat)
    requires 0 < n <= |names| <= |row|
    ensures Get(Assign(names, row, n), names[n - 1]) == Some(row[n - 1])
  {
  }

  lemma AssignOther<K(!new), V>(names: seq<K>, row: seq<V>, n: nat, k: K)
    requires 0 < n <= |names| <= |row| && names[n - 1] != k
    ensures Get(Assign(names, row, n), k) == Get(Assign(names, row, n - 1), k)
  {
    PutOther(Assign(names, row, n - 1), names[n - 1], row[n - 1], k);
  }

  /** One engine row as a record: column name (lowered) to cell value. */
  type Record = Dict<string, string>

  /** The header names as the record's keys: `headers[i].lower()`. */
  function LoweredHeader(header: seq<string>): seq<string> {
    seq(|header|, i requires 0 <= i < |header| => Lower(header[i]))
  }

  /** `parse_text`'s projection of one row; `None` is the `IndexError` a row
      shorter than the header raises. A longer row's extra cells are
      ignored. */
  function ProjectRow(header: seq<string>, row: seq<string>): Option<Record> {
    if |row| < |header| then None else Some(Assign(LoweredHeader(header), row, |header|))
  }

  /** `parse_text`'s projection of one row: `None` exactly when the row is
      shorter than the header; otherwise the keys are the lowered header names
      in order of first occurrence, without repeats; every key holds the cell
      of the last column of that name, and no other key is there. */
  lemma ProjectRowSpec(header: seq<string>, row: seq<string>)
    ensures ProjectRow(header, row).None? <==> |row| < |header|
    ensures var p := ProjectRow(header, row);
      p.Some? ==> Keys(p.value) == Distinct(LoweredHeader(header)) && UniqueKeys(p.value)
    ensures var p := ProjectRow(header, row);
      p.Some? ==> forall j :: 0 <= j < |header| && LastNamed(LoweredHeader(header), |header|, Lower(header[j]), j) ==>
        Get(p.value, Lower(header[j])) == Some(row[j])
    ensures var p := ProjectRow(header, row);
      p.Some? ==> forall k :: Get(p.value, k).None? <==> k !in LoweredHeader(header)
  {
    var names := LoweredHeader(header);
    if |row| >= |header| {
      AssignKeys(names, row, |header|);
      assert names[..|header|] == names;
      DistinctNoDuplicates(names);
      forall j | 0 <= j < |header| && LastNamed(names, |header|, Lower(header[j]), j)
        ensures Get(Assign(names, row, |header|), Lower(header[j])) == Some(row[j])
      {
        AssignValue(names, row, |header|, Lower(header[j]), j);
      }
      forall k ensures Get(Assign(names, row, |header|), k).None? <==> k !in names {
        AssignAbsent(names, row, |header|, k);
      }
    }
  }

  /** When the lowered header names are all different, the record pairs every
      name with the cell in the same column, in column order. */
  lemma ProjectDistinctHeader(header: seq<string>, row: seq<string>)
    requires NoDuplicates(LoweredHeader(header)) && |header| <= |row|
    ensures ProjectRow(header, row) ==
      Some(seq(|header|, i requires 0 <= i < |header| => (Lower(header[i]), row[i])))
  {
    var names := LoweredHeader(header);
    var r := Assign(names, row, |header|);
    var zip := seq(|header|, i requires 0 <= i < |header| => (Lower(header[i]), row[i]));
    AssignKeys(names, row, |header|);
    assert names[..|header|] == names;
    DistinctOfUnique(names);
    assert |r| == |Keys(r)| == |names| == |zip|;
    forall i | 0 <= i < |header| ensures r[i] == zip[i] {
      assert r[i].0 == Keys(r)[i] == names[i];
      GetEntry(r, i);
      assert LastNamed(names, |header|, names[i], i);
      AssignValue(names, row, |header|, names[i], i);
    }
    assert r == zip;
  }

  /** `parse_text`'s list comprehension over the engine's rows: one record per
      row, or `None` when some row is too short. This is the definition of
      the comprehension; what each record holds is `ProjectRowSpec`. */
  function ProjectRows(header: seq<string>, rows: seq<seq<string>>): (r: Option<seq<Record>>)
    ensures r.None? <==> exists i :: 0 <= i < |rows| && |rows[i]| < |header|
    ensures r.Some? ==> |r.value| == |rows|
    ensures r.Some? ==> forall i :: 0 <= i < |rows| ==> ProjectRow(header, rows[i]) == Some(r.value[i])
  {
    if exists i :: 0 <= i < |rows| && |rows[i]| < |header| then None
    else Some(seq(|rows|, i requires 0 <= i < |rows| => Assign(LoweredHeader(header), rows[i], |header|)))
  }
}
