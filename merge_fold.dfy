/** The keyed merge that both `merge_versions` and `merge_crds` perform: index
    the old records by name (a later duplicate replacing an earlier one), fold
    the new records in one by one (a known name is combined with the stored
    record, an unknown one is stored as given) and sort the stored records by
    name. The two merges differ only in how a known name is combined. */
module KeyedMerge {
  import opened Records

  /** Every stored record carries the name it is stored under. */
  predicate Keyed(d: ODict<Record>) {
    && d.Valid()
    && forall k :: k in d.entries ==> Named(d.entries[k]) && NameOf(d.entries[k]) == k
  }

  /** How a record is combined with the stored record of the same name; it
      may be undefined on some pairs, where the program would raise. */
  type Combine = (Record, Record) --> Record

  /** Combining two records of one name yields a record of that name. */
  ghost predicate KeepsName(combine: Combine) {
    forall a, b :: Named(a) && Named(b) && NameOf(a) == NameOf(b) && combine.requires(a, b) ==>
      Named(combine(a, b)) && NameOf(combine(a, b)) == NameOf(a)
  }

  /** The combination is defined on every pair. */
  ghost predicate Total(combine: Combine) {
    forall a, b :: combine.requires(a, b)
  }

  /** The later record replaces the stored one. */
  function Latter(stored: Record, r: Record): Record {
    r
  }

  lemma LatterKeepsName()
    ensures KeepsName(Latter) && Total(Latter)
  {
  }

  // ---------------------------------------------------------------- the fold

  /** The step for `r` is defined: a known name can be combined. */
  ghost predicate StepDefined(d: ODict<Record>, r: Record, combine: Combine)
    requires Named(r)
  {
    NameOf(r) in d.entries ==> combine.requires(d.entries[NameOf(r)], r)
  }

  /** One iteration: `if name in d: d[name] = combine(d[name], r)` and
      `else: d[name] = r`. */
  function Step(d: ODict<Record>, r: Record, combine: Combine): (e: ODict<Record>)
    requires d.Valid() && Named(r) && StepDefined(d, r, combine)
    ensures e.Valid()
    ensures e.entries.Keys == d.entries.Keys + {NameOf(r)}
  {
    var k := NameOf(r);
    if k in d.entries then d.Put(k, combine(d.entries[k], r)) else d.Put(k, r)
  }

  /** Every step of the fold over `rs` is defined. */
  ghost predicate FoldDefined(d: ODict<Record>, rs: seq<Record>, combine: Combine)
    requires d.Valid() && AllNamed(rs)
    decreases |rs|, 0
  {
    rs == [] ||
    (var init := rs[..|rs| - 1];
     FoldDefined(d, init, combine) && StepDefined(Fold(d, init, combine), rs[|rs| - 1], combine))
  }

  /** The dict after stepping through all of `rs`. */
  function Fold(d: ODict<Record>, rs: seq<Record>, combine: Combine): (e: ODict<Record>)
    requires d.Valid() && AllNamed(rs) && FoldDefined(d, rs, combine)
    ensures e.Valid()
    ensures e.entries.Keys == d.entries.Keys + Names(rs)
    decreases |rs|, 1
  {
    if rs == [] then d
    else
      var init := rs[..|rs| - 1];
      assert rs == init + [rs[|rs| - 1]];
      NamesSnoc(init, rs[|rs| - 1]);
      Step(Fold(d, init, combine), rs[|rs| - 1], combine)
  }

  /** The fold over one more record of `rs` is one more step. */
  lemma FoldSnoc(d: ODict<Record>, rs: seq<Record>, combine: Combine, n: nat)
    requires d.Valid() && AllNamed(rs) && n < |rs|
    requires FoldDefined(d, rs[..n + 1], combine)
    ensures AllNamed(rs[..n]) && FoldDefined(d, rs[..n], combine)
    ensures StepDefined(Fold(d, rs[..n], combine), rs[n], combine)
    ensures Fold(d, rs[..n + 1], combine) == Step(Fold(d, rs[..n], combine), rs[n], combine)
  {
    var p := rs[..n + 1];
    assert |p| == n + 1 && p[..n] == rs[..n] && p[n] == rs[n];
  }

  /** A total combination never fails. */
  lemma {:induction false} FoldDefinedTotal(d: ODict<Record>, rs: seq<Record>, combine: Combine)
    requires d.Valid() && AllNamed(rs) && Total(combine)
    ensures FoldDefined(d, rs, combine)
    decreases |rs|
  {
    if rs != [] {
      FoldDefinedTotal(d, rs[..|rs| - 1], combine);
    }
  }

  /** A property of records that the stored records and the folded records
      have, and that every combination is defined on and keeps, holds for
      every record of the fold, which is then defined. */
  lemma {:induction false} FoldPreserves(d: ODict<Record>, rs: seq<Record>, combine: Combine, P: Record -> bool)
    requires d.Valid() && AllNamed(rs)
    requires forall k :: k in d.entries ==> P(d.entries[k])
    requires forall i :: 0 <= i < |rs| ==> P(rs[i])
    requires forall a, b :: P(a) && P(b) ==> combine.requires(a, b) && P(combine(a, b))
    ensures FoldDefined(d, rs, combine)
    ensures forall k :: k in Fold(d, rs, combine).entries ==> P(Fold(d, rs, combine).entries[k])
    decreases |rs|
  {
    if rs != [] {
      var init := rs[..|rs| - 1];
      assert forall i :: 0 <= i < |init| ==> init[i] == rs[i];
      FoldPreserves(d, init, combine, P);
      StepPreserves(Fold(d, init, combine), rs[|rs| - 1], combine, P);
    }
  }

  lemma StepPreserves(d: ODict<Record>, r: Record, combine: Combine, P: Record -> bool)
    requires d.Valid() && Named(r) && P(r)
    requires forall k :: k in d.entries ==> P(d.entries[k])
    requires forall a, b :: P(a) && P(b) ==> combine.requires(a, b) && P(combine(a, b))
    ensures StepDefined(d, r, combine)
    ensures forall k :: k in Step(d, r, combine).entries ==> P(Step(d, r, combine).entries[k])
  {
    var k := NameOf(r);
    if k in d.entries {
      assert P(d.entries[k]);
    }
  }

  /** Definedness of a fold carries over to its prefixes. */
  lemma {:induction false} FoldDefinedPrefix(d: ODict<Record>, rs: seq<Record>, combine: Combine, n: nat)
    requires d.Valid() && AllNamed(rs) && FoldDefined(d, rs, combine) && n <= |rs|
    ensures AllNamed(rs[..n]) && FoldDefined(d, rs[..n], combine)
    decreases |rs|
  {
    if n < |rs| {
      var init := rs[..|rs| - 1];
      assert rs[..n] == init[..n];
      FoldDefinedPrefix(d, init, combine, n);
    } else {
      assert rs[..n] == rs;
    }
  }

  /** A loop folding `rs` into `d0` has folded its first `n` records into
      `d`: the invariant of the loops of `merge_versions` and `merge_crds`. */
  ghost predicate FoldedUpTo(d0: ODict<Record>, rs: seq<Record>, n: int, d: ODict<Record>, combine: Combine) {
    d0.Valid() && AllNamed(rs) && 0 <= n <= |rs| && AllNamed(rs[..n]) && FoldDefined(d0, rs[..n], combine)
    && d == Fold(d0, rs[..n], combine)
  }

  lemma FoldedStart(d0: ODict<Record>, rs: seq<Record>, combine: Combine)
    requires d0.Valid() && AllNamed(rs)
    ensures FoldedUpTo(d0, rs, 0, d0, combine)
  {
    assert rs[..0] == [];
  }

  /** One more iteration is one more step of the fold. */
  lemma FoldedStep(d0: ODict<Record>, rs: seq<Record>, n: nat, d: ODict<Record>, combine: Combine)
    requires FoldedUpTo(d0, rs, n, d, combine) && n < |rs| && FoldDefined(d0, rs[..n + 1], combine)
    ensures Named(rs[n]) && StepDefined(d, rs[n], combine)
    ensures FoldedUpTo(d0, rs, n + 1, Step(d, rs[n], combine), combine)
  {
    FoldSnoc(d0, rs, combine, n);
  }

  lemma FoldedAll(d0: ODict<Record>, rs: seq<Record>, d: ODict<Record>, combine: Combine)
    requires FoldedUpTo(d0, rs, |rs|, d, combine)
    ensures FoldDefined(d0, rs, combine) && d == Fold(d0, rs, combine)
  {
    assert rs[..|rs|] == rs;
  }

  /** `{r["name"]: r for r in rs}`: the comprehension is the fold in which a
      later record replaces an earlier one of the same name. */
  function Index(rs: seq<Record>): (d: ODict<Record>)
    requires AllNamed(rs)
    ensures d.Valid() && d.entries.Keys == Names(rs)
  {
    LatterKeepsName();
    FoldDefinedTotal(EmptyDict(), rs, Latter);
    Fold(EmptyDict(), rs, Latter)
  }

  // ---------------------------------------------------------------- reference definition

  /** The records of `rs` named `k`, in order. */
  function Filter(rs: seq<Record>, k: string): (f: seq<Record>)
    requires AllNamed(rs)
    ensures AllNamed(f) && |f| <= |rs|
    ensures forall i :: 0 <= i < |f| ==> NameOf(f[i]) == k
    ensures f == [] <==> k !in Names(rs)
    decreases |rs|
  {
    if rs == [] then []
    else
      var init := rs[..|rs| - 1];
      assert rs == init + [rs[|rs| - 1]];
      NamesSnoc(init, rs[|rs| - 1]);
      Filter(init, k) + (if NameOf(rs[|rs| - 1]) == k then [rs[|rs| - 1]] else [])
  }

  /** The last record of `rs` named `k`. */
  function LastNamed(rs: seq<Record>, k: string): (r: Record)
    requires AllNamed(rs) && k in Names(rs)
    ensures Named(r) && NameOf(r) == k
    ensures r in rs
  {
    var f := Filter(rs, k);
    FilterIn(rs, k);
    f[|f| - 1]
  }

  /** In a list without repeated names, a record is the only one of its name. */
  lemma {:induction false} FilterDistinct(rs: seq<Record>, i: nat)
    requires AllNamed(rs) && DistinctNames(rs) && i < |rs|
    ensures Filter(rs, NameOf(rs[i])) == [rs[i]]
    ensures LastNamed(rs, NameOf(rs[i])) == rs[i]
    decreases |rs|
  {
    var init := rs[..|rs| - 1];
    var last := rs[|rs| - 1];
    var k := NameOf(rs[i]);
    assert rs == init + [last];
    FilterSnoc(init, last, k);
    DistinctDropLast(rs);
    if i == |rs| - 1 {
      assert Filter(init, k) == [];
    } else {
      assert NameOf(last) != k;
      assert init[i] == rs[i];
      FilterDistinct(init, i);
    }
    assert Filter(rs, k) == [rs[i]];
  }

  /** Without its last record, a list without repeated names still has
      none, and no longer has the last name. */
  lemma DistinctDropLast(rs: seq<Record>)
    requires AllNamed(rs) && DistinctNames(rs) && rs != []
    ensures AllNamed(rs[..|rs| - 1]) && DistinctNames(rs[..|rs| - 1])
    ensures NameOf(rs[|rs| - 1]) !in Names(rs[..|rs| - 1])
  {
    var init := rs[..|rs| - 1];
    forall p, q | 0 <= p < q < |init| ensures NameOf(init[p]) != NameOf(init[q]) {
      assert init[p] == rs[p] && init[q] == rs[q];
    }
    forall p | 0 <= p < |init| ensures NameOf(init[p]) != NameOf(rs[|rs| - 1]) {
      assert init[p] == rs[p];
    }
  }

  /** Every record of a filter comes from the list. */
  lemma {:induction false} FilterIn(rs: seq<Record>, k: string)
    requires AllNamed(rs)
    ensures forall r :: r in Filter(rs, k) ==> r in rs
    decreases |rs|
  {
    if rs != [] {
      var init := rs[..|rs| - 1];
      assert rs == init + [rs[|rs| - 1]];
      FilterIn(init, k);
    }
  }

  /** The records that end up combined into the entry for `k`: the stored
      one, if any, then those of `rs` named `k`. */
  function Layers(d: ODict<Record>, rs: seq<Record>, k: string): (ls: seq<Record>)
    requires AllNamed(rs)
    ensures |ls| >= 1 <==> k in d.entries || k in Names(rs)
  {
    (if k in d.entries then [d.entries[k]] else []) + Filter(rs, k)
  }

  /** The layers can be combined from the first to the last. */
  ghost predicate OverlayDefined(ls: seq<Record>, combine: Combine)
    decreases |ls|, 0
  {
    |ls| >= 1 &&
    (|ls| == 1 ||
     (OverlayDefined(ls[..|ls| - 1], combine) && combine.requires(Overlay(ls[..|ls| - 1], combine), ls[|ls| - 1])))
  }

  /** The layers combined from the first to the last. */
  function Overlay(ls: seq<Record>, combine: Combine): Record
    requires OverlayDefined(ls, combine)
    decreases |ls|, 1
  {
    if |ls| == 1 then ls[0] else combine(Overlay(ls[..|ls| - 1], combine), ls[|ls| - 1])
  }

  /** With a total combination, any non-empty layers can be combined. */
  lemma {:induction false} OverlayDefinedTotal(ls: seq<Record>, combine: Combine)
    requires |ls| >= 1 && Total(combine)
    ensures OverlayDefined(ls, combine)
    decreases |ls|
  {
    if |ls| > 1 {
      OverlayDefinedTotal(ls[..|ls| - 1], combine);
    }
  }

  /** Overlaying with `Latter` keeps the last layer. */
  lemma {:induction false} OverlayLatter(ls: seq<Record>)
    requires |ls| >= 1
    ensures OverlayDefined(ls, Latter) && Overlay(ls, Latter) == ls[|ls| - 1]
  {
    LatterKeepsName();
    OverlayDefinedTotal(ls, Latter);
  }

  /** `x` is what the layers combine to. */
  ghost predicate IsOverlay(x: Record, ls: seq<Record>, combine: Combine) {
    OverlayDefined(ls, combine) && x == Overlay(ls, combine)
  }

  /** Each entry of the fold is the overlay of its layers. */
  lemma {:induction false} FoldEntries(d: ODict<Record>, rs: seq<Record>, combine: Combine)
    requires d.Valid() && AllNamed(rs) && FoldDefined(d, rs, combine)
    ensures forall k :: k in Fold(d, rs, combine).entries ==>
              IsOverlay(Fold(d, rs, combine).entries[k], Layers(d, rs, k), combine)
    decreases |rs|
  {
    if rs != [] {
      var init := rs[..|rs| - 1];
      var r := rs[|rs| - 1];
      assert rs == init + [r];
      FoldEntries(d, init, combine);
      forall k | k in Fold(d, rs, combine).entries
        ensures IsOverlay(Fold(d, rs, combine).entries[k], Layers(d, rs, k), combine)
      {
        StepEntry(d, init, Fold(d, init, combine), r, combine, k);
      }
    }
  }

  /** Filtering a list with one more record. */
  lemma FilterSnoc(rs: seq<Record>, r: Record, k: string)
    requires AllNamed(rs) && Named(r)
    ensures AllNamed(rs + [r])
    ensures Filter(rs + [r], k) == Filter(rs, k) + (if NameOf(r) == k then [r] else [])
  {
    assert (rs + [r])[..|rs|] == rs;
  }

  /** The entry for `k` after one more step of the fold. */
  lemma StepEntry(d: ODict<Record>, init: seq<Record>, prev: ODict<Record>, r: Record, combine: Combine, k: string)
    requires AllNamed(init) && Named(r) && prev.Valid() && StepDefined(prev, r, combine)
    requires k in prev.entries <==> k in d.entries || k in Names(init)
    requires k in prev.entries ==> IsOverlay(prev.entries[k], Layers(d, init, k), combine)
    requires k in Step(prev, r, combine).entries
    ensures AllNamed(init + [r])
    ensures IsOverlay(Step(prev, r, combine).entries[k], Layers(d, init + [r], k), combine)
  {
    FilterSnoc(init, r, k);
    if k != NameOf(r) {
      assert Step(prev, r, combine).entries[k] == prev.entries[k];
      assert Layers(d, init + [r], k) == Layers(d, init, k);
    } else if k in prev.entries {
      StepEntryKnown(d, init, prev, r, combine);
    } else {
      StepEntryNew(d, init, prev, r, combine);
    }
  }

  /** A new name: the record is stored as given, its only layer. */
  lemma StepEntryNew(d: ODict<Record>, init: seq<Record>, prev: ODict<Record>, r: Record, combine: Combine)
    requires AllNamed(init) && Named(r) && prev.Valid() && StepDefined(prev, r, combine)
    requires NameOf(r) !in d.entries && NameOf(r) !in Names(init) && NameOf(r) !in prev.entries
    ensures AllNamed(init + [r])
    ensures IsOverlay(Step(prev, r, combine).entries[NameOf(r)], Layers(d, init + [r], NameOf(r)), combine)
  {
    var k := NameOf(r);
    FilterSnoc(init, r, k);
    assert Layers(d, init, k) == [];
    assert Layers(d, init + [r], k) == [r];
  }

  /** A known name: the stored overlay is combined with the new record. */
  lemma StepEntryKnown(d: ODict<Record>, init: seq<Record>, prev: ODict<Record>, r: Record, combine: Combine)
    requires AllNamed(init) && Named(r) && prev.Valid() && StepDefined(prev, r, combine)
    requires NameOf(r) in prev.entries
    requires IsOverlay(prev.entries[NameOf(r)], Layers(d, init, NameOf(r)), combine)
    ensures AllNamed(init + [r])
    ensures IsOverlay(Step(prev, r, combine).entries[NameOf(r)], Layers(d, init + [r], NameOf(r)), combine)
  {
    var k := NameOf(r);
    FilterSnoc(init, r, k);
    var pre: seq<Record> := if k in d.entries then [d.entries[k]] else [];
    var before := Layers(d, init, k);
    var ls := Layers(d, init + [r], k);
    assert before == pre + Filter(init, k);
    assert ls == pre + (Filter(init, k) + [r]);
    assert ls == before + [r];
    assert ls[..|ls| - 1] == before;
    assert Step(prev, r, combine).entries[k] == combine(prev.entries[k], r);
  }

  /** The fold keeps every record under its own name. */
  lemma {:induction false} FoldKeyed(d: ODict<Record>, rs: seq<Record>, combine: Combine)
    requires Keyed(d) && AllNamed(rs) && KeepsName(combine) && FoldDefined(d, rs, combine)
    ensures Keyed(Fold(d, rs, combine))
    decreases |rs|
  {
    if rs != [] {
      var init := rs[..|rs| - 1];
      assert AllNamed(init);
      FoldKeyed(d, init, combine);
      StepKeyed(Fold(d, init, combine), rs[|rs| - 1], combine);
    }
  }

  /** One step keeps every record under its own name. */
  lemma StepKeyed(d: ODict<Record>, r: Record, combine: Combine)
    requires Keyed(d) && Named(r) && KeepsName(combine) && StepDefined(d, r, combine)
    ensures Keyed(Step(d, r, combine))
  {
    var k := NameOf(r);
    if k in d.entries {
      assert Named(combine(d.entries[k], r));
    }
  }

  /** The comprehension keeps, for each name, the last record of that name. */
  lemma IndexEntries(rs: seq<Record>)
    requires AllNamed(rs)
    ensures Keyed(Index(rs))
    ensures forall k :: k in Names(rs) ==> Index(rs).entries[k] == LastNamed(rs, k)
  {
    LatterKeepsName();
    var e: ODict<Record> := EmptyDict();
    FoldDefinedTotal(e, rs, Latter);
    FoldKeyed(e, rs, Latter);
    forall k | k in Names(rs) ensures Index(rs).entries[k] == LastNamed(rs, k) {
      IndexEntry(rs, k);
    }
  }

  lemma IndexEntry(rs: seq<Record>, k: string)
    requires AllNamed(rs) && k in Names(rs)
    ensures Index(rs).entries[k] == LastNamed(rs, k)
  {
    var e: ODict<Record> := EmptyDict();
    LatterKeepsName();
    FoldDefinedTotal(e, rs, Latter);
    FoldEntries(e, rs, Latter);
    assert Layers(e, rs, k) == Filter(rs, k);
    OverlayLatter(Filter(rs, k));
  }

  /** The stored records, listed in key order, have each name once: the
      names are the keys. */
  lemma KeyedValues(d: ODict<Record>)
    requires Keyed(d)
    ensures AllNamed(d.Values())
    ensures DistinctNames(d.Values())
    ensures Names(d.Values()) == d.entries.Keys
  {
    var vs := d.Values();
    forall k | k in d.entries ensures k in Names(vs) {
      var i :| 0 <= i < |d.keys| && d.keys[i] == k;
      assert NameOf(vs[i]) == k;
    }
  }

  // ---------------------------------------------------------------- the merge

  /** The layers of the merge of `oldRs` and `newRs` for name `k`: the last
      old record of that name, if any, then the new records of that name. */
  function MergeLayers(oldRs: seq<Record>, newRs: seq<Record>, k: string): (ls: seq<Record>)
    requires AllNamed(oldRs) && AllNamed(newRs)
    ensures |ls| >= 1 <==> k in Names(oldRs) + Names(newRs)
  {
    (if k in Names(oldRs) then [LastNamed(oldRs, k)] else []) + Filter(newRs, k)
  }

  /** Every step of folding `newRs` onto the index of `oldRs` is defined. */
  ghost predicate MergeDefined(oldRs: seq<Record>, newRs: seq<Record>, combine: Combine)
    requires AllNamed(oldRs) && AllNamed(newRs)
  {
    FoldDefined(Index(oldRs), newRs, combine)
  }

  /** `sorted(d.values(), key=lambda x: x["name"])`: the stored records,
      each name once, ascending. */
  function SortedValues(d: ODict<Record>): (r: seq<Record>)
    requires Keyed(d)
    ensures AllNamed(r) && multiset(r) == multiset(d.Values())
    ensures StrictlySortedByName(r) && Names(r) == d.entries.Keys
  {
    KeyedValues(d);
    var r := SortByName(d.Values());
    NamesOfPermutation(r, d.Values());
    r
  }

  /** Index the old records, fold in the new ones, sort by name. */
  function MergeSorted(oldRs: seq<Record>, newRs: seq<Record>, combine: Combine): seq<Record>
    requires AllNamed(oldRs) && AllNamed(newRs) && KeepsName(combine)
    requires MergeDefined(oldRs, newRs, combine)
  {
    IndexEntries(oldRs);
    FoldKeyed(Index(oldRs), newRs, combine);
    SortedValues(Fold(Index(oldRs), newRs, combine))
  }

  /** The merge lists every old and new name exactly once, in ascending
      order, and the record for a name is its layers combined in order. */
  lemma MergeSortedSpec(oldRs: seq<Record>, newRs: seq<Record>, combine: Combine)
    requires AllNamed(oldRs) && AllNamed(newRs) && KeepsName(combine)
    requires MergeDefined(oldRs, newRs, combine)
    ensures AllNamed(MergeSorted(oldRs, newRs, combine))
    ensures StrictlySortedByName(MergeSorted(oldRs, newRs, combine))
    ensures Names(MergeSorted(oldRs, newRs, combine)) == Names(oldRs) + Names(newRs)
    ensures forall i :: 0 <= i < |MergeSorted(oldRs, newRs, combine)| ==>
              var r := MergeSorted(oldRs, newRs, combine);
              IsOverlay(r[i], MergeLayers(oldRs, newRs, NameOf(r[i])), combine)
  {
    MergeSortedNames(oldRs, newRs, combine);
    MergeSortedEntries(oldRs, newRs, combine);
  }

  /** The names of the merge, each once and ascending. */
  lemma MergeSortedNames(oldRs: seq<Record>, newRs: seq<Record>, combine: Combine)
    requires AllNamed(oldRs) && AllNamed(newRs) && KeepsName(combine)
    requires MergeDefined(oldRs, newRs, combine)
    ensures AllNamed(MergeSorted(oldRs, newRs, combine))
    ensures StrictlySortedByName(MergeSorted(oldRs, newRs, combine))
    ensures Names(MergeSorted(oldRs, newRs, combine)) == Names(oldRs) + Names(newRs)
  {
    IndexEntries(oldRs);
    FoldKeyed(Index(oldRs), newRs, combine);
  }

  /** The records of the merge. */
  lemma MergeSortedEntries(oldRs: seq<Record>, newRs: seq<Record>, combine: Combine)
    requires AllNamed(oldRs) && AllNamed(newRs) && KeepsName(combine)
    requires MergeDefined(oldRs, newRs, combine)
    ensures AllNamed(MergeSorted(oldRs, newRs, combine))
    ensures forall i :: 0 <= i < |MergeSorted(oldRs, newRs, combine)| ==>
              var r := MergeSorted(oldRs, newRs, combine);
              IsOverlay(r[i], MergeLayers(oldRs, newRs, NameOf(r[i])), combine)
  {
    var d := Fold(Index(oldRs), newRs, combine);
    var r := MergeSorted(oldRs, newRs, combine);
    IndexEntries(oldRs);
    FoldKeyed(Index(oldRs), newRs, combine);
    FoldEntries(Index(oldRs), newRs, combine);
    KeyedValues(d);
    forall i | 0 <= i < |r| ensures IsOverlay(r[i], MergeLayers(oldRs, newRs, NameOf(r[i])), combine) {
      MergedEntry(oldRs, newRs, combine, d, r[i]);
    }
  }

  /** A record of the stored list is the overlay of its merge layers. */
  lemma MergedEntry(oldRs: seq<Record>, newRs: seq<Record>, combine: Combine, d: ODict<Record>, x: Record)
    requires AllNamed(oldRs) && AllNamed(newRs) && Keyed(d)
    requires d.entries.Keys == Names(oldRs) + Names(newRs)
    requires forall k :: k in d.entries ==> IsOverlay(d.entries[k], Layers(Index(oldRs), newRs, k), combine)
    requires x in multiset(d.Values())
    ensures Named(x) && NameOf(x) in Names(oldRs) + Names(newRs)
    ensures IsOverlay(x, MergeLayers(oldRs, newRs, NameOf(x)), combine)
  {
    ValuesMember(d, x);
    IndexLayers(oldRs, newRs, NameOf(x));
  }

  /** A listed record is the one stored under its name. */
  lemma ValuesMember(d: ODict<Record>, x: Record)
    requires Keyed(d) && x in d.Values()
    ensures Named(x) && NameOf(x) in d.entries && d.entries[NameOf(x)] == x
  {
    var j :| 0 <= j < |d.Values()| && d.Values()[j] == x;
    assert d.entries[d.keys[j]] == x;
  }

  /** Folding onto the index of the old records layers the last old record
      of a name under the new ones. */
  lemma IndexLayers(oldRs: seq<Record>, newRs: seq<Record>, k: string)
    requires AllNamed(oldRs) && AllNamed(newRs)
    ensures Layers(Index(oldRs), newRs, k) == MergeLayers(oldRs, newRs, k)
  {
    if k in Names(oldRs) {
      IndexEntry(oldRs, k);
    }
  }

  /** Some record of the merge is the overlay of the layers of `k`. */
  lemma MergeSortedHas(oldRs: seq<Record>, newRs: seq<Record>, combine: Combine, k: string)
    requires AllNamed(oldRs) && AllNamed(newRs) && KeepsName(combine)
    requires MergeDefined(oldRs, newRs, combine)
    requires k in Names(oldRs) + Names(newRs)
    ensures exists x :: x in MergeSorted(oldRs, newRs, combine) && IsOverlay(x, MergeLayers(oldRs, newRs, k), combine)
  {
    MergeSortedSpec(oldRs, newRs, combine);
    var r := MergeSorted(oldRs, newRs, combine);
    var p :| 0 <= p < |r| && NameOf(r[p]) == k;
    assert r[p] in r;
  }

  /** For lists without repeated names: a name only in the old list keeps
      its old record, a name only in the new list takes its new record, and
      a name in both gets the combination of the two. */
  lemma MergeSortedCases(oldRs: seq<Record>, newRs: seq<Record>, combine: Combine)
    requires AllNamed(oldRs) && AllNamed(newRs) && KeepsName(combine)
    requires DistinctNames(oldRs) && DistinctNames(newRs)
    requires MergeDefined(oldRs, newRs, combine)
    ensures forall i :: 0 <= i < |oldRs| && NameOf(oldRs[i]) !in Names(newRs) ==>
              oldRs[i] in MergeSorted(oldRs, newRs, combine)
    ensures forall j :: 0 <= j < |newRs| && NameOf(newRs[j]) !in Names(oldRs) ==>
              newRs[j] in MergeSorted(oldRs, newRs, combine)
    ensures forall i, j :: 0 <= i < |oldRs| && 0 <= j < |newRs| && NameOf(oldRs[i]) == NameOf(newRs[j]) ==>
              combine.requires(oldRs[i], newRs[j]) && combine(oldRs[i], newRs[j]) in MergeSorted(oldRs, newRs, combine)
  {
    forall i | 0 <= i < |oldRs| && NameOf(oldRs[i]) !in Names(newRs)
      ensures oldRs[i] in MergeSorted(oldRs, newRs, combine)
    {
      OnlyOldCase(oldRs, newRs, combine, i);
    }
    forall j | 0 <= j < |newRs| && NameOf(newRs[j]) !in Names(oldRs)
      ensures newRs[j] in MergeSorted(oldRs, newRs, combine)
    {
      OnlyNewCase(oldRs, newRs, combine, j);
    }
    forall i, j | 0 <= i < |oldRs| && 0 <= j < |newRs| && NameOf(oldRs[i]) == NameOf(newRs[j])
      ensures combine.requires(oldRs[i], newRs[j]) && combine(oldRs[i], newRs[j]) in MergeSorted(oldRs, newRs, combine)
    {
      BothCase(oldRs, newRs, combine, i, j);
    }
  }

  lemma OnlyOldCase(oldRs: seq<Record>, newRs: seq<Record>, combine: Combine, i: nat)
    requires AllNamed(oldRs) && AllNamed(newRs) && KeepsName(combine)
    requires DistinctNames(oldRs) && MergeDefined(oldRs, newRs, combine)
    requires i < |oldRs| && NameOf(oldRs[i]) !in Names(newRs)
    ensures oldRs[i] in MergeSorted(oldRs, newRs, combine)
  {
    var k := NameOf(oldRs[i]);
    assert k in Names(oldRs);
    FilterDistinct(oldRs, i);
    assert MergeLayers(oldRs, newRs, k) == [oldRs[i]];
    MergeSortedHas(oldRs, newRs, combine, k);
  }

  lemma OnlyNewCase(oldRs: seq<Record>, newRs: seq<Record>, combine: Combine, j: nat)
    requires AllNamed(oldRs) && AllNamed(newRs) && KeepsName(combine)
    requires DistinctNames(newRs) && MergeDefined(oldRs, newRs, combine)
    requires j < |newRs| && NameOf(newRs[j]) !in Names(oldRs)
    ensures newRs[j] in MergeSorted(oldRs, newRs, combine)
  {
    var k := NameOf(newRs[j]);
    assert k in Names(newRs);
    FilterDistinct(newRs, j);
    assert MergeLayers(oldRs, newRs, k) == [newRs[j]];
    MergeSortedHas(oldRs, newRs, combine, k);
  }

  lemma BothCase(oldRs: seq<Record>, newRs: seq<Record>, combine: Combine, i: nat, j: nat)
    requires AllNamed(oldRs) && AllNamed(newRs) && KeepsName(combine)
    requires DistinctNames(oldRs) && DistinctNames(newRs) && MergeDefined(oldRs, newRs, combine)
    requires i < |oldRs| && j < |newRs| && NameOf(oldRs[i]) == NameOf(newRs[j])
    ensures combine.requires(oldRs[i], newRs[j]) && combine(oldRs[i], newRs[j]) in MergeSorted(oldRs, newRs, combine)
  {
    var k := NameOf(oldRs[i]);
    assert k in Names(oldRs) && k in Names(newRs);
    FilterDistinct(oldRs, i);
    FilterDistinct(newRs, j);
    var ls := MergeLayers(oldRs, newRs, k);
    assert ls == [oldRs[i]] + [newRs[j]];
    MergeSortedHas(oldRs, newRs, combine, k);
    var x :| x in MergeSorted(oldRs, newRs, combine) && IsOverlay(x, ls, combine);
    OverlayPair(ls, combine);
  }

  /** Two layers overlay to their combination. */
  lemma OverlayPair(ls: seq<Record>, combine: Combine)
    requires |ls| == 2 && OverlayDefined(ls, combine)
    ensures combine.requires(ls[0], ls[1]) && Overlay(ls, combine) == combine(ls[0], ls[1])
  {
    assert ls[..1] == [ls[0]];
  }
}
