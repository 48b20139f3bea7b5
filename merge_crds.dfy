/** `merge_versions` and `merge_crds` of static/merge-crds.py: the keyed merge
    of two version lists, and of two resource lists whose records carry a
    version list. Each is a method that builds the name-keyed dict in a loop
    and sorts its values, proved equal to the keyed merge of KeyedMerge. */
module MergeCrds {
  import opened Records
  import opened KeyedMerge

  // ---------------------------------------------------------------- dict.update

  /** `stored.update(r)`: every field of `r` overrides, the other fields of
      `stored` stay. */
  function Update(stored: Record, r: Record): (u: Record)
    ensures u.Keys == stored.Keys + r.Keys
    ensures forall f :: f in r ==> u[f] == r[f]
    ensures forall f :: f in stored && f !in r ==> u[f] == stored[f]
  {
    stored + r
  }

  lemma UpdateKeepsName()
    ensures KeepsName(Update) && Total(Update)
  {
  }

  /** Overlaying with `update`: a field is present when some layer has it,
      and its value comes from the last layer that has it. */
  lemma OverlayUpdate(ls: seq<Record>)
    requires |ls| >= 1
    ensures OverlayDefined(ls, Update)
    ensures forall f :: f in Overlay(ls, Update) <==> exists i :: 0 <= i < |ls| && f in ls[i]
    ensures forall i, f :: 0 <= i < |ls| && f in ls[i] && (forall j :: i < j < |ls| ==> f !in ls[j]) ==>
              Overlay(ls, Update)[f] == ls[i][f]
  {
    UpdateKeepsName();
    OverlayDefinedTotal(ls, Update);
    forall f ensures f in Overlay(ls, Update) <==> exists i :: 0 <= i < |ls| && f in ls[i] {
      OverlayUpdateHas(ls, f);
    }
    forall i, f | 0 <= i < |ls| && f in ls[i] && (forall j :: i < j < |ls| ==> f !in ls[j])
      ensures Overlay(ls, Update)[f] == ls[i][f]
    {
      OverlayUpdateValue(ls, f, i);
    }
  }

  /** Field `f` is in an overlay with `update` when some layer has it. */
  lemma {:induction false} OverlayUpdateHas(ls: seq<Record>, f: string)
    requires |ls| >= 1
    ensures OverlayDefined(ls, Update)
    ensures f in Overlay(ls, Update) <==> exists i :: 0 <= i < |ls| && f in ls[i]
    decreases |ls|
  {
    UpdateKeepsName();
    OverlayDefinedTotal(ls, Update);
    if |ls| > 1 {
      var init := ls[..|ls| - 1];
      var last := ls[|ls| - 1];
      OverlayUpdateHas(init, f);
      assert Overlay(ls, Update) == Update(Overlay(init, Update), last);
      if f in last {
        assert f in ls[|ls| - 1];
      } else {
        if f in Overlay(init, Update) {
          var i :| 0 <= i < |init| && f in init[i];
          assert ls[i] == init[i];
        }
        if exists i :: 0 <= i < |ls| && f in ls[i] {
          var i :| 0 <= i < |ls| && f in ls[i];
          assert init[i] == ls[i];
        }
      }
    }
  }

  /** Field `f` of an overlay with `update` comes from the last layer that
      has it. */
  lemma {:induction false} OverlayUpdateValue(ls: seq<Record>, f: string, i: nat)
    requires i < |ls| && f in ls[i] && (forall j :: i < j < |ls| ==> f !in ls[j])
    ensures OverlayDefined(ls, Update)
    ensures f in Overlay(ls, Update) && Overlay(ls, Update)[f] == ls[i][f]
    decreases |ls|
  {
    UpdateKeepsName();
    OverlayDefinedTotal(ls, Update);
    if |ls| > 1 {
      var init := ls[..|ls| - 1];
      var last := ls[|ls| - 1];
      assert Overlay(ls, Update) == Update(Overlay(init, Update), last);
      if i < |init| {
        assert init[i] == ls[i] && f !in last;
        forall j | i < j < |init| ensures f !in init[j] {
          assert init[j] == ls[j];
        }
        OverlayUpdateValue(init, f, i);
      }
    }
  }

  // ---------------------------------------------------------------- merge_versions

  /** `merge_versions(old_versions, new_versions)`. */
  function MergedVersions(oldVersions: seq<Record>, newVersions: seq<Record>): seq<Record>
    requires AllNamed(oldVersions) && AllNamed(newVersions)
  {
    UpdateKeepsName();
    FoldDefinedTotal(Index(oldVersions), newVersions, Update);
    MergeSorted(oldVersions, newVersions, Update)
  }

  /** `{r["name"]: r for r in rs}`. */
  method IndexByName(rs: seq<Record>) returns (d: ODict<Record>)
    requires AllNamed(rs)
    ensures d == Index(rs)
  {
    ghost var empty: ODict<Record> := EmptyDict();
    d := EmptyDict();
    FoldedStart(empty, rs, Latter);
    var i := 0;
    while i < |rs|
      invariant FoldedUpTo(empty, rs, i, d, Latter)
    {
      IndexStep(rs, i, d);
      d := d.Put(NameOf(rs[i]), rs[i]);
      i := i + 1;
    }
    FoldedAll(empty, rs, d, Latter);
  }

  /** The body of the comprehension: a later record replaces the stored one. */
  lemma IndexStep(rs: seq<Record>, i: nat, d: ODict<Record>)
    requires FoldedUpTo(EmptyDict(), rs, i, d, Latter) && i < |rs|
    ensures FoldedUpTo(EmptyDict(), rs, i + 1, d.Put(NameOf(rs[i]), rs[i]), Latter)
  {
    LatterKeepsName();
    FoldDefinedTotal(EmptyDict(), rs[..i + 1], Latter);
    FoldedStep(EmptyDict(), rs, i, d, Latter);
  }

  /** The loop of `merge_versions`: an existing version is updated in place
      with the fields of the new one, a new name is added; then the values
      are sorted by name. */
  method MergeVersions(oldVersions: seq<Record>, newVersions: seq<Record>) returns (merged: seq<Record>)
    requires AllNamed(oldVersions) && AllNamed(newVersions)
    ensures merged == MergedVersions(oldVersions, newVersions)
    ensures AllNamed(merged) && StrictlySortedByName(merged)
    ensures Names(merged) == Names(oldVersions) + Names(newVersions)
  {
    var versionMap := IndexByName(oldVersions);
    ghost var base := Index(oldVersions);
    FoldedStart(base, newVersions, Update);
    var j := 0;
    while j < |newVersions|
      invariant FoldedUpTo(base, newVersions, j, versionMap, Update)
    {
      VersionStep(base, newVersions, j, versionMap);
      var v := newVersions[j];
      var name := NameOf(v);
      if name in versionMap.entries {
        versionMap := versionMap.Put(name, versionMap.entries[name] + v);
      } else {
        versionMap := versionMap.Put(name, v);
      }
      j := j + 1;
    }
    FoldedAll(base, newVersions, versionMap, Update);
    VersionsSorted(oldVersions, newVersions);
    merged := SortedValues(versionMap);
  }

  /** The body of the loop of `merge_versions` is one step of the fold with
      `update`. */
  lemma VersionStep(base: ODict<Record>, vs: seq<Record>, j: nat, d: ODict<Record>)
    requires FoldedUpTo(base, vs, j, d, Update) && j < |vs|
    ensures var k := NameOf(vs[j]);
            FoldedUpTo(base, vs, j + 1, if k in d.entries then d.Put(k, d.entries[k] + vs[j]) else d.Put(k, vs[j]), Update)
  {
    UpdateKeepsName();
    FoldDefinedTotal(base, vs[..j + 1], Update);
    FoldedStep(base, vs, j, d, Update);
  }

  /** Sorting the values of the finished dict gives `merge_versions`. */
  lemma VersionsSorted(oldVersions: seq<Record>, newVersions: seq<Record>)
    requires AllNamed(oldVersions) && AllNamed(newVersions)
    requires FoldDefined(Index(oldVersions), newVersions, Update)
    ensures Keyed(Fold(Index(oldVersions), newVersions, Update))
    ensures SortedValues(Fold(Index(oldVersions), newVersions, Update)) == MergedVersions(oldVersions, newVersions)
  {
    UpdateKeepsName();
    IndexEntries(oldVersions);
    FoldKeyed(Index(oldVersions), newVersions, Update);
  }

  /** Every version of the merge is the last old version of its name, if
      any, updated in turn with each new version of that name; the names are
      those of both lists, each once, ascending. */
  lemma MergedVersionsSpec(oldVersions: seq<Record>, newVersions: seq<Record>)
    requires AllNamed(oldVersions) && AllNamed(newVersions)
    ensures AllNamed(MergedVersions(oldVersions, newVersions))
    ensures StrictlySortedByName(MergedVersions(oldVersions, newVersions))
    ensures Names(MergedVersions(oldVersions, newVersions)) == Names(oldVersions) + Names(newVersions)
    ensures forall i :: 0 <= i < |MergedVersions(oldVersions, newVersions)| ==>
              var r := MergedVersions(oldVersions, newVersions);
              IsOverlay(r[i], MergeLayers(oldVersions, newVersions, NameOf(r[i])), Update)
  {
    UpdateKeepsName();
    FoldDefinedTotal(Index(oldVersions), newVersions, Update);
    MergeSortedSpec(oldVersions, newVersions, Update);
  }

  /** For version lists without repeated names: an old-only version is kept
      unchanged, a new-only version is taken as given, and a version in
      both is the old one with the new one's fields written over it. */
  lemma MergedVersionsCases(oldVersions: seq<Record>, newVersions: seq<Record>)
    requires AllNamed(oldVersions) && AllNamed(newVersions)
    requires DistinctNames(oldVersions) && DistinctNames(newVersions)
    ensures forall i :: 0 <= i < |oldVersions| && NameOf(oldVersions[i]) !in Names(newVersions) ==>
              oldVersions[i] in MergedVersions(oldVersions, newVersions)
    ensures forall j :: 0 <= j < |newVersions| && NameOf(newVersions[j]) !in Names(oldVersions) ==>
              newVersions[j] in MergedVersions(oldVersions, newVersions)
    ensures forall i, j ::
              0 <= i < |oldVersions| && 0 <= j < |newVersions| && NameOf(oldVersions[i]) == NameOf(newVersions[j]) ==>
              Update(oldVersions[i], newVersions[j]) in MergedVersions(oldVersions, newVersions)
  {
    UpdateKeepsName();
    FoldDefinedTotal(Index(oldVersions), newVersions, Update);
    MergeSortedCases(oldVersions, newVersions, Update);
  }

  // ---------------------------------------------------------------- versions of a resource

  /** What `merge_versions` can iterate without raising: a list of named
      mappings, or an empty mapping or empty string, which iterate as
      nothing. */
  predicate VersionList(v: Value) {
    || (v.List? && forall i :: 0 <= i < |v.elems| ==> v.elems[i].Dict? && Named(v.elems[i].fields))
    || v == Dict(map[])
    || v == Str("")
  }

  /** `r.get("versions", [])` is something `merge_versions` accepts. */
  predicate VersionsWF(r: Record) {
    "versions" !in r || VersionList(r["versions"])
  }

  /** `r.get("versions", [])` as a list of records: a missing field, an empty
      mapping and an empty string all give no versions. */
  function VersionsOf(r: Record): (vs: seq<Record>)
    requires VersionsWF(r)
    ensures AllNamed(vs)
    ensures "versions" !in r || !r["versions"].List? ==> vs == []
    ensures "versions" in r && !r["versions"].List? ==> r["versions"] in {Dict(map[]), Str("")}
    ensures "versions" in r && r["versions"].List? ==> |vs| == |r["versions"].elems|
    ensures "versions" in r && r["versions"].List? ==>
              forall i :: 0 <= i < |vs| ==> r["versions"].elems[i] == Dict(vs[i])
  {
    if "versions" in r && r["versions"].List? then
      var elems := r["versions"].elems;
      seq(|elems|, i requires 0 <= i < |elems| && VersionList(r["versions"]) => elems[i].fields)
    else []
  }

  /** A stored `versions: {}` or `versions: ""` merges exactly like a
      missing one. */
  lemma EmptyVersionsAsMissing(stored: Record, crd: Record)
    requires VersionsWF(crd)
    requires "versions" in stored && stored["versions"] in {Dict(map[]), Str("")}
    ensures VersionsWF(stored) && VersionsWF(stored - {"versions"})
    ensures CrdCombine(stored, crd) == CrdCombine(stored - {"versions"}, crd)
  {
    assert VersionsOf(stored) == [] == VersionsOf(stored - {"versions"});
    CombineSeesOnlyVersionsOf(stored, stored - {"versions"}, crd);
  }

  /** CrdCombine reads the stored `versions` only through VersionsOf. */
  lemma CombineSeesOnlyVersionsOf(s1: Record, s2: Record, crd: Record)
    requires VersionsWF(s1) && VersionsWF(s2) && VersionsWF(crd)
    requires s1 - {"versions"} == s2 - {"versions"} && VersionsOf(s1) == VersionsOf(s2)
    ensures CrdCombine(s1, crd) == CrdCombine(s2, crd)
  {
    var x := crd - {"versions"};
    UpdateKeepsVersions(s1, crd);
    UpdateKeepsVersions(s2, crd);
    var v := AsList(MergedVersions(VersionsOf(s1), VersionsOf(crd)));
    SetSameOffVersions(s1, s2, x, v);
    assert CrdCombine(s1, crd) == (s1 + x)["versions" := v];
  }

  /** Two records that agree off `versions` still agree once updated with
      the same fields but `versions` and given the same `versions`. */
  lemma SetSameOffVersions(s1: Record, s2: Record, x: Record, v: Value)
    requires s1 - {"versions"} == s2 - {"versions"} && "versions" !in x
    ensures (s1 + x)["versions" := v] == (s2 + x)["versions" := v]
  {
    var r := s1 - {"versions"};
    assert (s1 + x)["versions" := v] == (r + x)["versions" := v];
    assert (s2 + x)["versions" := v] == (r + x)["versions" := v];
  }

  /** A list of records as a YAML list of mappings. */
  function AsList(vs: seq<Record>): (v: Value)
    ensures v.List? && |v.elems| == |vs|
    ensures forall i :: 0 <= i < |vs| ==> v.elems[i] == Dict(vs[i])
  {
    List(seq(|vs|, i requires 0 <= i < |vs| => Dict(vs[i])))
  }

  /** Reading the versions written back gives the same records, and the
      versions read from a resource, written back, give its list. */
  lemma VersionsRoundTrip(r: Record, vs: seq<Record>)
    requires AllNamed(vs)
    ensures VersionsWF(r["versions" := AsList(vs)])
    ensures VersionsOf(r["versions" := AsList(vs)]) == vs
    ensures VersionsWF(r) && "versions" in r && r["versions"].List? ==> AsList(VersionsOf(r)) == r["versions"]
  {
    if VersionsWF(r) && "versions" in r && r["versions"].List? {
      assert AsList(VersionsOf(r)).elems == r["versions"].elems;
    }
  }

  // ---------------------------------------------------------------- merge_crds

  /** A resource seen again: its top-level fields but `versions` are updated
      from `crd`, then its `versions` become the merge of its own versions
      (read after the update, which leaves them alone) with those of `crd`. */
  function CrdCombine(stored: Record, crd: Record): (c: Record)
    requires VersionsWF(stored) && VersionsWF(crd)
    ensures c.Keys == stored.Keys + crd.Keys + {"versions"}
    ensures forall f :: f in crd && f != "versions" ==> c[f] == crd[f]
    ensures forall f :: f in stored && f !in crd && f != "versions" ==> c[f] == stored[f]
    ensures c["versions"] == AsList(MergedVersions(VersionsOf(stored), VersionsOf(crd)))
    ensures VersionsWF(c)
  {
    var updated := Update(stored, crd - {"versions"});
    UpdateKeepsVersions(stored, crd);
    var merged := MergedVersions(VersionsOf(updated), VersionsOf(crd));
    MergedVersionsSpec(VersionsOf(updated), VersionsOf(crd));
    SetVersions(stored, crd, merged);
    updated["versions" := AsList(merged)]
  }

  /** The update of the fields but `versions` leaves the versions alone. */
  lemma UpdateKeepsVersions(stored: Record, crd: Record)
    requires VersionsWF(stored)
    ensures VersionsWF(stored + (crd - {"versions"}))
    ensures VersionsOf(stored + (crd - {"versions"})) == VersionsOf(stored)
  {
    var updated := stored + (crd - {"versions"});
    assert "versions" in updated ==> updated["versions"] == stored["versions"];
    assert VersionsWF(updated);
  }

  /** The fields of the updated resource with its versions replaced. */
  lemma SetVersions(stored: Record, crd: Record, vs: seq<Record>)
    requires AllNamed(vs)
    ensures var c := (stored + (crd - {"versions"}))["versions" := AsList(vs)];
            && c.Keys == stored.Keys + crd.Keys + {"versions"}
            && (forall f :: f in crd && f != "versions" ==> c[f] == crd[f])
            && (forall f :: f in stored && f !in crd && f != "versions" ==> c[f] == stored[f])
            && c["versions"] == AsList(vs)
            && VersionsWF(c)
  {
    VersionsRoundTrip(stored + (crd - {"versions"}), vs);
  }

  lemma CrdCombineKeepsName()
    ensures KeepsName(CrdCombine)
  {
  }

  /** No resource that `merge_crds` combines has versions it cannot merge:
      the precondition under which the program does not raise. */
  ghost predicate CrdsMergeable(oldCrds: seq<Record>, newCrds: seq<Record>)
    requires AllNamed(oldCrds) && AllNamed(newCrds)
  {
    MergeDefined(oldCrds, newCrds, CrdCombine)
  }

  /** `merge_crds(old_crds, new_crds)`. */
  function MergedCrds(oldCrds: seq<Record>, newCrds: seq<Record>): seq<Record>
    requires AllNamed(oldCrds) && AllNamed(newCrds) && CrdsMergeable(oldCrds, newCrds)
  {
    CrdCombineKeepsName();
    MergeSorted(oldCrds, newCrds, CrdCombine)
  }

  /** The loop of `merge_crds`. */
  method MergeCrds(oldCrds: seq<Record>, newCrds: seq<Record>) returns (merged: seq<Record>)
    requires AllNamed(oldCrds) && AllNamed(newCrds) && CrdsMergeable(oldCrds, newCrds)
    ensures merged == MergedCrds(oldCrds, newCrds)
    ensures AllNamed(merged) && StrictlySortedByName(merged)
    ensures Names(merged) == Names(oldCrds) + Names(newCrds)
  {
    var crdMap := IndexByName(oldCrds);
    ghost var base := Index(oldCrds);
    FoldedStart(base, newCrds, CrdCombine);
    var j := 0;
    while j < |newCrds|
      invariant FoldedUpTo(base, newCrds, j, crdMap, CrdCombine)
    {
      CrdStep(base, newCrds, j, crdMap);
      var crd := newCrds[j];
      var name := NameOf(crd);
      if name in crdMap.entries {
        var updated := crdMap.entries[name] + (crd - {"versions"});
        var versions := MergeVersions(VersionsOf(updated), VersionsOf(crd));
        crdMap := crdMap.Put(name, updated["versions" := AsList(versions)]);
      } else {
        crdMap := crdMap.Put(name, crd);
      }
      j := j + 1;
    }
    FoldedAll(base, newCrds, crdMap, CrdCombine);
    CrdsSorted(oldCrds, newCrds);
    merged := SortedValues(crdMap);
  }

  /** The body of the loop of `merge_crds` is one step of the fold with
      `CrdCombine`: a known name is updated and its versions merged, a new
      name is stored as given. */
  lemma CrdStep(base: ODict<Record>, crds: seq<Record>, j: nat, d: ODict<Record>)
    requires FoldedUpTo(base, crds, j, d, CrdCombine) && j < |crds| && FoldDefined(base, crds, CrdCombine)
    ensures var k := NameOf(crds[j]);
            k in d.entries ==>
              var updated := d.entries[k] + (crds[j] - {"versions"});
              VersionsWF(updated) && VersionsWF(crds[j]) &&
              FoldedUpTo(base, crds, j + 1,
                d.Put(k, updated["versions" := AsList(MergedVersions(VersionsOf(updated), VersionsOf(crds[j])))]),
                CrdCombine)
    ensures NameOf(crds[j]) !in d.entries ==> FoldedUpTo(base, crds, j + 1, d.Put(NameOf(crds[j]), crds[j]), CrdCombine)
  {
    FoldDefinedPrefix(base, crds, CrdCombine, j + 1);
    FoldedStep(base, crds, j, d, CrdCombine);
    CrdStepValue(d, crds[j]);
  }

  lemma CrdStepValue(d: ODict<Record>, crd: Record)
    requires d.Valid() && Named(crd) && StepDefined(d, crd, CrdCombine)
    ensures var k := NameOf(crd);
            k in d.entries ==>
              var updated := d.entries[k] + (crd - {"versions"});
              VersionsWF(updated) && VersionsWF(crd) &&
              Step(d, crd, CrdCombine)
                == d.Put(k, updated["versions" := AsList(MergedVersions(VersionsOf(updated), VersionsOf(crd)))])
    ensures NameOf(crd) !in d.entries ==> Step(d, crd, CrdCombine) == d.Put(NameOf(crd), crd)
  {
    var k := NameOf(crd);
    if k in d.entries {
      var stored := d.entries[k];
      assert CrdCombine.requires(stored, crd);
      assert VersionsWF(stored);
      UpdateKeepsVersions(stored, crd);
    }
  }

  /** Sorting the values of the finished dict gives `merge_crds`. */
  lemma CrdsSorted(oldCrds: seq<Record>, newCrds: seq<Record>)
    requires AllNamed(oldCrds) && AllNamed(newCrds) && CrdsMergeable(oldCrds, newCrds)
    ensures FoldDefined(Index(oldCrds), newCrds, CrdCombine)
    ensures Keyed(Fold(Index(oldCrds), newCrds, CrdCombine))
    ensures SortedValues(Fold(Index(oldCrds), newCrds, CrdCombine)) == MergedCrds(oldCrds, newCrds)
  {
    CrdCombineKeepsName();
    IndexEntries(oldCrds);
    FoldKeyed(Index(oldCrds), newCrds, CrdCombine);
  }

  /** Every resource of the merge is the last old resource of its name, if
      any, combined in turn with each new resource of that name; the names
      are those of both lists, each once, ascending. */
  lemma MergedCrdsSpec(oldCrds: seq<Record>, newCrds: seq<Record>)
    requires AllNamed(oldCrds) && AllNamed(newCrds) && CrdsMergeable(oldCrds, newCrds)
    ensures AllNamed(MergedCrds(oldCrds, newCrds))
    ensures StrictlySortedByName(MergedCrds(oldCrds, newCrds))
    ensures Names(MergedCrds(oldCrds, newCrds)) == Names(oldCrds) + Names(newCrds)
    ensures forall i :: 0 <= i < |MergedCrds(oldCrds, newCrds)| ==>
              var r := MergedCrds(oldCrds, newCrds);
              IsOverlay(r[i], MergeLayers(oldCrds, newCrds, NameOf(r[i])), CrdCombine)
  {
    CrdCombineKeepsName();
    MergeSortedSpec(oldCrds, newCrds, CrdCombine);
  }

  /** For resource lists without repeated names: an old-only resource is
      kept unchanged, a new-only resource is taken as given (its versions
      neither sorted nor deduplicated), and a resource in both is combined. */
  lemma MergedCrdsCases(oldCrds: seq<Record>, newCrds: seq<Record>)
    requires AllNamed(oldCrds) && AllNamed(newCrds) && CrdsMergeable(oldCrds, newCrds)
    requires DistinctNames(oldCrds) && DistinctNames(newCrds)
    ensures forall i :: 0 <= i < |oldCrds| && NameOf(oldCrds[i]) !in Names(newCrds) ==>
              oldCrds[i] in MergedCrds(oldCrds, newCrds)
    ensures forall j :: 0 <= j < |newCrds| && NameOf(newCrds[j]) !in Names(oldCrds) ==>
              newCrds[j] in MergedCrds(oldCrds, newCrds)
    ensures forall i, j ::
              0 <= i < |oldCrds| && 0 <= j < |newCrds| && NameOf(oldCrds[i]) == NameOf(newCrds[j]) ==>
              VersionsWF(oldCrds[i]) && VersionsWF(newCrds[j]) &&
              CrdCombine(oldCrds[i], newCrds[j]) in MergedCrds(oldCrds, newCrds)
  {
    CrdCombineKeepsName();
    MergeSortedCases(oldCrds, newCrds, CrdCombine);
  }

  /** Every resource is named and its versions, if any, are a list of named
      mappings. */
  predicate WellFormedCrds(rs: seq<Record>) {
    AllNamed(rs) && forall i :: 0 <= i < |rs| ==> VersionsWF(rs[i])
  }

  /** Well-formed resource lists always merge, into a well-formed list. */
  lemma WellFormedMerge(oldCrds: seq<Record>, newCrds: seq<Record>)
    requires WellFormedCrds(oldCrds) && WellFormedCrds(newCrds)
    ensures CrdsMergeable(oldCrds, newCrds)
    ensures WellFormedCrds(MergedCrds(oldCrds, newCrds))
  {
    IndexEntries(oldCrds);
    forall k | k in Index(oldCrds).entries ensures VersionsWF(Index(oldCrds).entries[k]) {
      assert LastNamed(oldCrds, k) in oldCrds;
    }
    FoldPreserves(Index(oldCrds), newCrds, CrdCombine, VersionsWF);
    var d := Fold(Index(oldCrds), newCrds, CrdCombine);
    CrdCombineKeepsName();
    FoldKeyed(Index(oldCrds), newCrds, CrdCombine);
    KeyedValues(d);
    var r := MergedCrds(oldCrds, newCrds);
    MergeSortedNames(oldCrds, newCrds, CrdCombine);
    forall i | 0 <= i < |r| ensures VersionsWF(r[i]) {
      assert r[i] in multiset(d.Values());
      ValuesMember(d, r[i]);
    }
  }

  /** A resource merged into an empty list comes out exactly as given. */
  lemma MergeIntoEmpty(crd: Record)
    requires Named(crd)
    ensures CrdsMergeable([], [crd])
    ensures MergedCrds([], [crd]) == [crd]
  {
    var e: ODict<Record> := EmptyDict();
    assert Index([]) == e;
    assert AllNamed([crd]) && [crd][..0] == [];
    assert FoldDefined(e, [], CrdCombine) && Fold(e, [], CrdCombine) == e;
    assert StepDefined(e, crd, CrdCombine);
    assert FoldDefined(e, [crd], CrdCombine);
    var d := Fold(e, [crd], CrdCombine);
    assert d == e.Put(NameOf(crd), crd);
    assert d.Values() == [crd];
    CrdCombineKeepsName();
    IndexEntries([]);
    FoldKeyed(e, [crd], CrdCombine);
    var r := SortedValues(d);
    assert r == MergedCrds([], [crd]);
    assert r[0] in multiset(r);
  }

  /** A resource that only the new list has keeps its versions in the order
      given: here `b` stays before `a`. */
  lemma NewResourceVersionsUnsorted(crd: Record)
    requires crd == map["name" := Str("x"), "versions" := List([Dict(map["name" := Str("b")]), Dict(map["name" := Str("a")])])]
    ensures CrdsMergeable([], [crd])
    ensures MergedCrds([], [crd]) == [crd]
    ensures VersionsWF(crd) && !SortedByName(VersionsOf(crd))
  {
    MergeIntoEmpty(crd);
    var vs := VersionsOf(crd);
    assert vs[0] == map["name" := Str("b")] && vs[1] == map["name" := Str("a")];
    assert Less("a", "b");
  }
}
