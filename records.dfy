/** The values the catalog merge works on: YAML mappings read as Python
    dicts, Python's ordering of strings, `sorted(..., key=name)` and the
    insertion order of a Python dict. */
module Records {

  // ---------------------------------------------------------------- values

  /** A YAML value as the merge sees it. */
  datatype Value =
    | Null
    | Bool(b: bool)
    | Num(n: int)
    | Str(s: string)
    | List(elems: seq<Value>)
    | Dict(fields: map<string, Value>)

  /** A mapping such as one resource or one version. */
  type Record = map<string, Value>

  /** The record has a string under "name", the key it is merged by. */
  predicate Named(r: Record) {
    "name" in r && r["name"].Str?
  }

  function NameOf(r: Record): string
    requires Named(r)
  {
    r["name"].s
  }

  predicate AllNamed(rs: seq<Record>) {
    forall i :: 0 <= i < |rs| ==> Named(rs[i])
  }

  /** The names occurring in a list of records. */
  function Names(rs: seq<Record>): set<string>
    requires AllNamed(rs)
  {
    set i | 0 <= i < |rs| :: NameOf(rs[i])
  }

  /** No two records of the list share a name. */
  predicate DistinctNames(rs: seq<Record>)
    requires AllNamed(rs)
  {
    forall i, j :: 0 <= i < j < |rs| ==> NameOf(rs[i]) != NameOf(rs[j])
  }

  /** Appending a record adds its name. */
  lemma NamesSnoc(rs: seq<Record>, r: Record)
    requires AllNamed(rs) && Named(r)
    ensures AllNamed(rs + [r])
    ensures Names(rs + [r]) == Names(rs) + {NameOf(r)}
  {
    var s := rs + [r];
    assert s[|rs|] == r;
    forall k | k in Names(rs) ensures k in Names(s) {
      var i :| 0 <= i < |rs| && NameOf(rs[i]) == k;
      assert s[i] == rs[i];
    }
  }

  // ---------------------------------------------------------------- string order

  /** Python's `<` on strings: lexicographic by code point, a proper prefix
      coming first. */
  predicate Less(a: string, b: string) {
    if a == [] then b != []
    else if b == [] then false
    else if a[0] != b[0] then a[0] < b[0]
    else Less(a[1..], b[1..])
  }

  lemma {:induction false} LessIrreflexive(a: string)
    ensures !Less(a, a)
  {
    if a != [] {
      LessIrreflexive(a[1..]);
    }
  }

  lemma {:induction false} LessAsymmetric(a: string, b: string)
    ensures Less(a, b) ==> !Less(b, a)
  {
    if a != [] && b != [] && a[0] == b[0] {
      LessAsymmetric(a[1..], b[1..]);
    }
  }

  lemma {:induction false} LessTransitive(a: string, b: string, c: string)
    requires Less(a, b) && Less(b, c)
    ensures Less(a, c)
  {
    if a != [] && a[0] == b[0] && b[0] == c[0] {
      LessTransitive(a[1..], b[1..], c[1..]);
    }
  }

  lemma {:induction false} LessTotal(a: string, b: string)
    requires a != b
    ensures Less(a, b) || Less(b, a)
  {
    if a != [] && b != [] && a[0] == b[0] {
      assert a == [a[0]] + a[1..] && b == [b[0]] + b[1..];
      LessTotal(a[1..], b[1..]);
    }
  }

  // ---------------------------------------------------------------- sorted(key=name)

  /** Ordered by name, ties allowed. */
  predicate SortedByName(rs: seq<Record>)
    requires AllNamed(rs)
  {
    forall i, j :: 0 <= i < j < |rs| ==> !Less(NameOf(rs[j]), NameOf(rs[i]))
  }

  /** Ordered by name with every name once. */
  predicate StrictlySortedByName(rs: seq<Record>)
    requires AllNamed(rs)
  {
    forall i, j :: 0 <= i < j < |rs| ==> Less(NameOf(rs[i]), NameOf(rs[j]))
  }

  /** Puts `x` before the first record whose name is not smaller. */
  function Insert(x: Record, rs: seq<Record>): (r: seq<Record>)
    requires Named(x) && AllNamed(rs)
    ensures AllNamed(r) && |r| == |rs| + 1
    ensures multiset(r) == multiset(rs) + multiset{x}
    ensures SortedByName(rs) ==> SortedByName(r)
    ensures StrictlySortedByName(rs) && NameOf(x) !in Names(rs) ==> StrictlySortedByName(r)
  {
    if rs == [] then
      [x]
    else if Less(NameOf(rs[0]), NameOf(x)) then
      var tail := Insert(x, rs[1..]);
      InsertBehind(x, rs, tail);
      [rs[0]] + tail
    else
      SortedCons(x, rs);
      [x] + rs
  }

  /** Inserting behind a smaller first record keeps the order and the
      records, given the same of the insertion into the rest. */
  lemma InsertBehind(x: Record, rs: seq<Record>, tail: seq<Record>)
    requires Named(x) && AllNamed(rs) && AllNamed(tail) && rs != [] && Less(NameOf(rs[0]), NameOf(x))
    requires multiset(tail) == multiset(rs[1..]) + multiset{x}
    requires SortedByName(rs[1..]) ==> SortedByName(tail)
    requires StrictlySortedByName(rs[1..]) && NameOf(x) !in Names(rs[1..]) ==> StrictlySortedByName(tail)
    ensures multiset([rs[0]] + tail) == multiset(rs) + multiset{x}
    ensures SortedByName(rs) ==> SortedByName([rs[0]] + tail)
    ensures StrictlySortedByName(rs) && NameOf(x) !in Names(rs) ==> StrictlySortedByName([rs[0]] + tail)
  {
    assert multiset(rs) == multiset{rs[0]} + multiset(rs[1..]) by {
      assert rs == [rs[0]] + rs[1..];
    }
    if SortedByName(rs) {
      InsertAfterSmaller(rs, x, tail);
    }
    if StrictlySortedByName(rs) && NameOf(x) !in Names(rs) {
      InsertAfterSmallerStrict(rs, x, tail);
    }
  }

  /** Putting a record in front of a list whose names are not smaller keeps
      the order, strictly when its name is new and the list is strict. */
  lemma SortedCons(x: Record, rs: seq<Record>)
    requires Named(x) && AllNamed(rs)
    requires rs != [] ==> !Less(NameOf(rs[0]), NameOf(x))
    ensures SortedByName(rs) ==> SortedByName([x] + rs)
    ensures StrictlySortedByName(rs) && NameOf(x) !in Names(rs) ==> StrictlySortedByName([x] + rs)
  {
    var r := [x] + rs;
    if SortedByName(rs) {
      forall j | 1 < j < |r| ensures !Less(NameOf(r[j]), NameOf(x)) {
        assert r[j] == rs[j - 1];
        if Less(NameOf(rs[j - 1]), NameOf(x)) {
          if NameOf(rs[j - 1]) != NameOf(rs[0]) {
            LessTotal(NameOf(rs[j - 1]), NameOf(rs[0]));
            LessTransitive(NameOf(rs[0]), NameOf(rs[j - 1]), NameOf(x));
          }
        }
      }
    }
    if StrictlySortedByName(rs) && NameOf(x) !in Names(rs) && rs != [] {
      assert NameOf(rs[0]) in Names(rs);
      LessTotal(NameOf(rs[0]), NameOf(x));
      forall j | 1 < j < |r| ensures Less(NameOf(x), NameOf(r[j])) {
        assert r[j] == rs[j - 1];
        LessTransitive(NameOf(x), NameOf(rs[0]), NameOf(rs[j - 1]));
      }
    }
  }

  /** A record smaller than `x` stays in front of the insertion of `x` into
      the records that followed it. */
  lemma InsertAfterSmaller(rs: seq<Record>, x: Record, tail: seq<Record>)
    requires AllNamed(rs) && rs != [] && Named(x) && AllNamed(tail)
    requires Less(NameOf(rs[0]), NameOf(x))
    requires multiset(tail) == multiset(rs[1..]) + multiset{x}
    requires SortedByName(rs[1..]) ==> SortedByName(tail)
    requires SortedByName(rs)
    ensures SortedByName([rs[0]] + tail)
  {
    var h, rest := rs[0], rs[1..];
    var r := [h] + tail;
    forall j | 0 <= j < |tail| ensures !Less(NameOf(tail[j]), NameOf(h)) {
      assert tail[j] in multiset(tail);
      if tail[j] == x {
        LessAsymmetric(NameOf(h), NameOf(x));
      } else {
        var i :| 0 <= i < |rest| && rest[i] == tail[j];
        assert rs[i + 1] == rest[i];
      }
    }
    assert SortedByName(rest) by {
      forall i, j | 0 <= i < j < |rest| ensures !Less(NameOf(rest[j]), NameOf(rest[i])) {
        assert rs[i + 1] == rest[i] && rs[j + 1] == rest[j];
      }
    }
    forall i, j | 0 <= i < j < |r| ensures !Less(NameOf(r[j]), NameOf(r[i])) {
      assert r[j] == tail[j - 1];
      if i > 0 {
        assert r[i] == tail[i - 1];
      }
    }
  }

  /** The same, strictly, when the name of `x` is new. */
  lemma InsertAfterSmallerStrict(rs: seq<Record>, x: Record, tail: seq<Record>)
    requires AllNamed(rs) && rs != [] && Named(x) && AllNamed(tail)
    requires Less(NameOf(rs[0]), NameOf(x))
    requires multiset(tail) == multiset(rs[1..]) + multiset{x}
    requires StrictlySortedByName(rs[1..]) && NameOf(x) !in Names(rs[1..]) ==> StrictlySortedByName(tail)
    requires StrictlySortedByName(rs) && NameOf(x) !in Names(rs)
    ensures StrictlySortedByName([rs[0]] + tail)
  {
    var h, rest := rs[0], rs[1..];
    var r := [h] + tail;
    forall j | 0 <= j < |tail| ensures Less(NameOf(h), NameOf(tail[j])) {
      assert tail[j] in multiset(tail);
      if tail[j] != x {
        var i :| 0 <= i < |rest| && rest[i] == tail[j];
        assert rs[i + 1] == rest[i];
      }
    }
    assert StrictlySortedByName(rest) by {
      forall i, j | 0 <= i < j < |rest| ensures Less(NameOf(rest[i]), NameOf(rest[j])) {
        assert rs[i + 1] == rest[i] && rs[j + 1] == rest[j];
      }
    }
    assert NameOf(x) !in Names(rest) by {
      forall i | 0 <= i < |rest| ensures NameOf(rest[i]) != NameOf(x) {
        assert rs[i + 1] == rest[i];
      }
    }
    forall i, j | 0 <= i < j < |r| ensures Less(NameOf(r[i]), NameOf(r[j])) {
      assert r[j] == tail[j - 1];
      if i > 0 {
        assert r[i] == tail[i - 1];
      }
    }
  }

  /** Two lists holding the same records hold the same names. */
  lemma NamesOfPermutation(a: seq<Record>, b: seq<Record>)
    requires AllNamed(a) && AllNamed(b) && multiset(a) == multiset(b)
    ensures Names(a) == Names(b)
  {
    forall k | k in Names(a) ensures k in Names(b) {
      var i :| 0 <= i < |a| && NameOf(a[i]) == k;
      assert a[i] in multiset(b);
      var j :| 0 <= j < |b| && b[j] == a[i];
    }
    forall k | k in Names(b) ensures k in Names(a) {
      var j :| 0 <= j < |b| && NameOf(b[j]) == k;
      assert b[j] in multiset(a);
      var i :| 0 <= i < |a| && a[i] == b[j];
    }
  }

  /** The first record and a permutation of the others hold the records of
      `rs`; without repeated names, the first name is not among the others. */
  lemma SortStep(rs: seq<Record>, rest: seq<Record>)
    requires AllNamed(rs) && rs != [] && AllNamed(rest) && multiset(rest) == multiset(rs[1..])
    ensures multiset(rs) == multiset(rest) + multiset{rs[0]}
    ensures DistinctNames(rs) ==> DistinctNames(rs[1..]) && NameOf(rs[0]) !in Names(rest)
  {
    assert rs == [rs[0]] + rs[1..];
    if DistinctNames(rs) {
      NamesOfPermutation(rest, rs[1..]);
      forall i, j | 0 <= i < j < |rs[1..]| ensures NameOf(rs[1..][i]) != NameOf(rs[1..][j]) {
        assert rs[1..][i] == rs[i + 1] && rs[1..][j] == rs[j + 1];
      }
      forall i | 0 <= i < |rs[1..]| ensures NameOf(rs[1..][i]) != NameOf(rs[0]) {
        assert rs[1..][i] == rs[i + 1];
      }
    }
  }

  /** `sorted(rs, key=lambda x: x["name"])`, as a stable insertion sort. */
  function SortByName(rs: seq<Record>): (r: seq<Record>)
    requires AllNamed(rs)
    ensures AllNamed(r) && |r| == |rs|
    ensures multiset(r) == multiset(rs)
    ensures SortedByName(r)
    ensures DistinctNames(rs) ==> StrictlySortedByName(r)
  {
    if rs == [] then []
    else
      var rest := SortByName(rs[1..]);
      SortStep(rs, rest);
      Insert(rs[0], rest)
  }

  // ---------------------------------------------------------------- dicts

  /** A Python dict: its keys in insertion order and the mapping itself. */
  datatype ODict<V> = ODict(keys: seq<string>, entries: map<string, V>) {

    /** Every key once in `keys`, and `keys` lists exactly the mapped keys. */
    predicate Valid() {
      && (forall i, j :: 0 <= i < j < |keys| ==> keys[i] != keys[j])
      && (forall k :: k in keys ==> k in entries)
      && (forall k :: k in entries ==> k in keys)
    }

    /** `d[k] = v`: a new key goes to the end, an existing key keeps its place. */
    function Put(k: string, v: V): (d: ODict<V>)
      requires Valid()
      ensures d.Valid()
      ensures d.entries == entries[k := v]
      ensures d.keys == if k in entries then keys else keys + [k]
    {
      if k in entries then ODict(keys, entries[k := v]) else ODict(keys + [k], entries[k := v])
    }

    /** `d.values()`, in key order. */
    function Values(): (vs: seq<V>)
      requires Valid()
      ensures |vs| == |keys|
      ensures forall i :: 0 <= i < |keys| ==> vs[i] == entries[keys[i]]
    {
      seq(|keys|, i requires 0 <= i < |keys| && Valid() => entries[keys[i]])
    }
  }

  /** `{}`. */
  function EmptyDict<V>(): (d: ODict<V>)
    ensures d.Valid() && d.entries == map[]
  {
    ODict([], map[])
  }
}
