/** The group loop of `merge_yaml_files` in static/merge-crds.py: the parsed
    files are visited in order and, within a file, its groups in key order;
    a group seen for the first time is stored as given, a group seen again
    is replaced by `merge_crds` of what is stored and the file's list. */
module MergeFiles {
  import opened Records
  import opened MergeCrds

  /** One parsed file: a group key to that group's resources, in the file's
      key order. */
  type Catalog = ODict<seq<Record>>

  /** No string occurs twice. */
  predicate Distinct(s: seq<string>) {
    forall i, j :: 0 <= i < j < |s| ==> s[i] != s[j]
  }

  // ---------------------------------------------------------------- reference definition

  /** The groups that some file has. */
  function Groups(files: seq<Catalog>): set<string>
    decreases |files|
  {
    if files == [] then {} else Groups(files[..|files| - 1]) + files[|files| - 1].entries.Keys
  }

  /** The lists that the files give for group `g`, in file order. */
  function GroupLists(files: seq<Catalog>, g: string): (ls: seq<seq<Record>>)
    ensures |ls| <= |files|
    ensures ls == [] <==> g !in Groups(files)
    decreases |files|
  {
    if files == [] then []
    else
      var init := files[..|files| - 1];
      var last := files[|files| - 1];
      GroupLists(init, g) + (if g in last.entries then [last.entries[g]] else [])
  }

  /** The lists can be merged from the first to the last: `merge_crds` is
      defined on each pair it is given. */
  ghost predicate ChainDefined(ls: seq<seq<Record>>)
    decreases |ls|, 0
  {
    |ls| >= 1 &&
    (|ls| == 1 ||
     (var init := ls[..|ls| - 1];
      var last := ls[|ls| - 1];
      && ChainDefined(init) && AllNamed(Chain(init)) && AllNamed(last)
      && CrdsMergeable(Chain(init), last)))
  }

  /** The first list, merged in turn with each later one. */
  function Chain(ls: seq<seq<Record>>): seq<Record>
    requires ChainDefined(ls)
    decreases |ls|, 1
  {
    if |ls| == 1 then ls[0] else MergedCrds(Chain(ls[..|ls| - 1]), ls[|ls| - 1])
  }

  /** Chaining one list more merges it into the chain so far. */
  lemma ChainSnoc(ls: seq<seq<Record>>, x: seq<Record>)
    requires ls != [] && ChainDefined(ls + [x])
    ensures ChainDefined(ls)
    ensures AllNamed(Chain(ls)) && AllNamed(x) && CrdsMergeable(Chain(ls), x)
    ensures Chain(ls + [x]) == MergedCrds(Chain(ls), x)
  {
    assert (ls + [x])[..|ls|] == ls;
    assert (ls + [x])[|ls|] == x;
  }

  /** Where `x` first occurs in `s`. */
  function FirstPos(s: seq<string>, x: string): (i: nat)
    requires x in s
    ensures i < |s| && s[i] == x && x !in s[..i]
  {
    if s[0] == x then 0 else 1 + FirstPos(s[1..], x)
  }

  /** Appending an element moves no first occurrence, and a new element
      first occurs at the end. */
  lemma FirstPosSnoc(s: seq<string>, m: string)
    ensures forall y :: y in s ==> FirstPos(s + [m], y) == FirstPos(s, y)
    ensures m !in s ==> FirstPos(s + [m], m) == |s|
  {
    forall y | y in s
      ensures FirstPos(s + [m], y) == FirstPos(s, y)
    {
      FirstPosKept(s, m, y);
    }
    if m !in s {
      FirstPosLast(s, m);
    }
  }

  lemma {:induction false} FirstPosKept(s: seq<string>, m: string, y: string)
    requires y in s
    ensures FirstPos(s + [m], y) == FirstPos(s, y)
  {
    if s[0] != y {
      assert (s + [m])[1..] == s[1..] + [m];
      FirstPosKept(s[1..], m, y);
    }
  }

  lemma {:induction false} FirstPosLast(s: seq<string>, m: string)
    requires m !in s
    ensures FirstPos(s + [m], m) == |s|
  {
    if s != [] {
      assert (s + [m])[1..] == s[1..] + [m];
      FirstPosLast(s[1..], m);
    }
  }

  /** `r` is `ks` followed by elements of `more` that are not in `ks`, each
      once and in the order they first occur in `more`. */
  predicate FreshTail(ks: seq<string>, more: seq<string>, r: seq<string>) {
    && |ks| <= |r| && r[..|ks|] == ks
    && (forall i :: |ks| <= i < |r| ==> r[i] in more && r[i] !in ks)
    && (forall i, j :: |ks| <= i < j < |r| ==> r[i] != r[j])
    && (forall i, j :: |ks| <= i < j < |r| ==> FirstPos(more, r[i]) < FirstPos(more, r[j]))
  }

  /** `ks` followed by the elements of `more` that are not yet there, in
      order: how new keys join a dict. */
  function AppendNew(ks: seq<string>, more: seq<string>): (r: seq<string>)
    ensures |ks| <= |r| && r[..|ks|] == ks
    ensures forall x :: x in r <==> x in ks || x in more
    ensures Distinct(ks) ==> Distinct(r)
    decreases |more|
  {
    if more == [] then ks
    else
      var p := AppendNew(ks, more[..|more| - 1]);
      var m := more[|more| - 1];
      assert forall x :: x in more <==> x in more[..|more| - 1] || x == m by {
        assert more == more[..|more| - 1] + [m];
      }
      if m in p then p else p + [m]
  }

  /** What AppendNew adds after `ks` is the elements of `more` not in `ks`,
      each once, in the order they first occur in `more`. */
  lemma {:induction false} AppendNewOrder(ks: seq<string>, more: seq<string>)
    ensures FreshTail(ks, more, AppendNew(ks, more))
    ensures forall x :: x in more && x !in ks ==> x in AppendNew(ks, more)[|ks|..]
    decreases |more|
  {
    if more != [] {
      var init := more[..|more| - 1];
      var m := more[|more| - 1];
      AppendNewOrder(ks, init);
      assert more == init + [m];
      AppendNewStep(ks, init, m, AppendNew(ks, init));
    }
    var r := AppendNew(ks, more);
    assert r == r[..|ks|] + r[|ks|..];
  }

  /** One more candidate keeps the fresh tail fresh, distinct and ordered. */
  lemma AppendNewStep(ks: seq<string>, init: seq<string>, m: string, p: seq<string>)
    requires FreshTail(ks, init, p)
    requires forall x :: x in p <==> x in ks || x in init
    ensures FreshTail(ks, init + [m], if m in p then p else p + [m])
  {
    FirstPosSnoc(init, m);
    var more := init + [m];
    if m !in p {
      var r := p + [m];
      assert r[..|ks|] == ks;
      assert forall i :: |ks| <= i < |p| ==> FirstPos(more, r[i]) < |init|;
    }
  }

  /** Every file is a well-formed dict. */
  predicate AllValid(files: seq<Catalog>) {
    forall i :: 0 <= i < |files| ==> files[i].Valid()
  }

  /** The groups in the order they are first met. */
  function FirstSeen(files: seq<Catalog>): (ks: seq<string>)
    requires AllValid(files)
    ensures Distinct(ks)
    ensures forall g :: g in ks <==> g in Groups(files)
    decreases |files|
  {
    if files == [] then []
    else
      var init := files[..|files| - 1];
      var last := files[|files| - 1];
      assert AllValid(init) by {
        assert forall i :: 0 <= i < |init| ==> init[i] == files[i];
      }
      AppendNew(FirstSeen(init), last.keys)
  }

  /** Every file is a well-formed dict and every group can be merged. */
  ghost predicate Mergeable(files: seq<Catalog>) {
    && AllValid(files)
    && (forall g :: g in Groups(files) ==> ChainDefined(GroupLists(files, g)))
  }

  /** The merged catalog: the groups in the order first met, each group the
      chain of its lists. */
  function MergeAll(files: seq<Catalog>): (m: Catalog)
    requires Mergeable(files)
    ensures m.Valid()
    ensures m.keys == FirstSeen(files)
    ensures m.entries.Keys == Groups(files)
  {
    ODict(FirstSeen(files), map g | g in Groups(files) :: Chain(GroupLists(files, g)))
  }

  // ---------------------------------------------------------------- one more file

  /** Adding a file adds its groups. */
  lemma GroupsSnoc(fs: seq<Catalog>, d: Catalog)
    ensures Groups(fs + [d]) == Groups(fs) + d.entries.Keys
  {
    assert (fs + [d])[..|fs|] == fs;
  }

  /** Adding a file appends its list, if it has one, to each group's lists. */
  lemma GroupListsSnoc(fs: seq<Catalog>, d: Catalog, g: string)
    ensures GroupLists(fs + [d], g) == GroupLists(fs, g) + (if g in d.entries then [d.entries[g]] else [])
  {
    assert (fs + [d])[..|fs|] == fs;
  }

  /** Adding a file appends its new groups to the key order. */
  lemma FirstSeenSnoc(fs: seq<Catalog>, d: Catalog)
    requires AllValid(fs) && d.Valid()
    ensures AllValid(fs + [d])
    ensures FirstSeen(fs + [d]) == AppendNew(FirstSeen(fs), d.keys)
  {
    assert (fs + [d])[..|fs|] == fs;
  }

  /** A catalog that can be merged stays mergeable without its last file. */
  lemma MergeableInit(fs: seq<Catalog>, d: Catalog)
    requires Mergeable(fs + [d])
    ensures Mergeable(fs)
  {
    assert AllValid(fs) by {
      assert forall i :: 0 <= i < |fs| ==> fs[i] == (fs + [d])[i];
    }
    GroupsSnoc(fs, d);
    forall g | g in Groups(fs) ensures ChainDefined(GroupLists(fs, g)) {
      assert g in Groups(fs + [d]);
      GroupInit(fs, d, g);
    }
  }

  /** A group's lists that can be chained can be chained without the last file. */
  lemma GroupInit(fs: seq<Catalog>, d: Catalog, g: string)
    requires g in Groups(fs)
    requires ChainDefined(GroupLists(fs + [d], g))
    ensures ChainDefined(GroupLists(fs, g))
  {
    GroupListsSnoc(fs, d, g);
    var a := GroupLists(fs, g);
    var b := GroupLists(fs + [d], g);
    assert a != [];
    if g in d.entries {
      assert b == a + [d.entries[g]];
      ChainSnoc(a, d.entries[g]);
    } else {
      assert b == a;
    }
  }

  /** Every prefix of a mergeable sequence of files is mergeable. */
  lemma {:induction false} MergeablePrefix(files: seq<Catalog>, n: nat)
    requires Mergeable(files) && n <= |files|
    ensures Mergeable(files[..n])
    decreases |files| - n
  {
    if n < |files| {
      MergeablePrefix(files, n + 1);
      assert files[..n + 1] == files[..n] + [files[n]];
      MergeableInit(files[..n], files[n]);
    } else {
      assert files[..n] == files;
    }
  }

  // ---------------------------------------------------------------- one more group of a file

  /** `d1` is `d0` with one group `g` more, at the end. */
  predicate Extends(d0: Catalog, d1: Catalog, g: string) {
    && d0.Valid() && d1.Valid() && g !in d0.entries && g in d1.entries
    && d1.keys == d0.keys + [g] && d1.entries == d0.entries[g := d1.entries[g]]
  }

  /** The first `n` groups of `data`, with their lists. */
  function Head(data: Catalog, n: nat): (h: Catalog)
    requires data.Valid() && n <= |data.keys|
    ensures h.Valid()
    ensures h.keys == data.keys[..n]
    ensures h.entries.Keys == set g | g in data.keys[..n]
    ensures forall g :: g in h.entries ==> h.entries[g] == data.entries[g]
  {
    ODict(data.keys[..n], map g | g in data.keys[..n] :: data.entries[g])
  }

  /** All the groups of a file are the file. */
  lemma HeadAll(data: Catalog)
    requires data.Valid()
    ensures Head(data, |data.keys|) == data
  {
    assert data.keys[..|data.keys|] == data.keys;
  }

  /** The first `j + 1` groups of `data` are the first `j` and one more. */
  lemma HeadSnoc(data: Catalog, j: nat)
    requires data.Valid() && j < |data.keys|
    ensures Extends(Head(data, j), Head(data, j + 1), data.keys[j])
  {
    var g := data.keys[j];
    var k0, k1 := data.keys[..j], data.keys[..j + 1];
    assert k1 == k0 + [g];
    assert g !in k0;
    var h0, h1 := Head(data, j), Head(data, j + 1);
    assert h1.entries.Keys == h0.entries.Keys + {g};
    assert h1.entries == h0.entries[g := data.entries[g]];
  }

  /** No group of a file is a file with no groups. */
  lemma HeadNone(data: Catalog)
    requires data.Valid()
    ensures Head(data, 0) == EmptyDict()
  {
    assert Head(data, 0).entries == map[];
  }

  /** Two file lists that give the same groups, in the same order, with the
      same lists, merge to the same catalog. */
  lemma MergeAllSame(f0: seq<Catalog>, f1: seq<Catalog>)
    requires Mergeable(f0) && AllValid(f1)
    requires FirstSeen(f0) == FirstSeen(f1) && Groups(f0) == Groups(f1)
    requires forall k :: GroupLists(f0, k) == GroupLists(f1, k)
    ensures Mergeable(f1) && MergeAll(f0) == MergeAll(f1)
  {
    assert MergeAll(f0).entries == MergeAll(f1).entries;
  }

  /** A file with no groups changes nothing. */
  lemma MergeAllEmptyFile(fs: seq<Catalog>)
    requires Mergeable(fs)
    ensures Mergeable(fs + [EmptyDict()]) && MergeAll(fs + [EmptyDict()]) == MergeAll(fs)
  {
    var e: Catalog := EmptyDict();
    GroupsSnoc(fs, e);
    FirstSeenSnoc(fs, e);
    forall k ensures GroupLists(fs, k) == GroupLists(fs + [e], k) {
      GroupListsSnoc(fs, e, k);
    }
    MergeAllSame(fs, fs + [e]);
  }

  /** One group more in the last file adds that group. */
  lemma ExtendGroups(fs: seq<Catalog>, d0: Catalog, d1: Catalog, g: string)
    requires Extends(d0, d1, g)
    ensures Groups(fs + [d1]) == Groups(fs + [d0]) + {g}
  {
    GroupsSnoc(fs, d0);
    GroupsSnoc(fs, d1);
  }

  /** One group more in the last file appends its list to that group's lists
      and leaves the other groups' lists alone. */
  lemma ExtendLists(fs: seq<Catalog>, d0: Catalog, d1: Catalog, g: string, k: string)
    requires Extends(d0, d1, g)
    ensures GroupLists(fs + [d1], k) == GroupLists(fs + [d0], k) + (if k == g then [d1.entries[g]] else [])
  {
    GroupListsSnoc(fs, d0, k);
    GroupListsSnoc(fs, d1, k);
    var l := GroupLists(fs, k);
    if k == g {
      assert GroupLists(fs + [d0], k) == l;
    }
  }

  /** One group more in the last file puts it at the end of the key order
      if it is new. */
  lemma ExtendKeys(fs: seq<Catalog>, d0: Catalog, d1: Catalog, g: string)
    requires AllValid(fs) && Extends(d0, d1, g)
    ensures AllValid(fs + [d0]) && AllValid(fs + [d1])
    ensures FirstSeen(fs + [d1])
              == if g in Groups(fs + [d0]) then FirstSeen(fs + [d0]) else FirstSeen(fs + [d0]) + [g]
  {
    FirstSeenSnoc(fs, d0);
    FirstSeenSnoc(fs, d1);
    assert d1.keys[..|d1.keys| - 1] == d0.keys;
    assert d1.keys[|d1.keys| - 1] == g;
  }

  /** One group fewer in the last file keeps a file list mergeable. */
  lemma ExtendMergeable(fs: seq<Catalog>, d0: Catalog, d1: Catalog, g: string)
    requires Extends(d0, d1, g) && Mergeable(fs + [d1])
    ensures Mergeable(fs + [d0])
  {
    var f0 := fs + [d0];
    var f1 := fs + [d1];
    assert AllValid(fs) by {
      assert forall i :: 0 <= i < |fs| ==> fs[i] == f1[i];
    }
    ExtendKeys(fs, d0, d1, g);
    ExtendGroups(fs, d0, d1, g);
    forall k | k in Groups(f0) ensures ChainDefined(GroupLists(f0, k)) {
      ExtendChain(fs, d0, d1, g, k);
    }
  }

  /** The same for one group `k`. */
  lemma ExtendChain(fs: seq<Catalog>, d0: Catalog, d1: Catalog, g: string, k: string)
    requires Extends(d0, d1, g) && k in Groups(fs + [d0]) && ChainDefined(GroupLists(fs + [d1], k))
    ensures ChainDefined(GroupLists(fs + [d0], k))
  {
    ExtendLists(fs, d0, d1, g, k);
    if k == g {
      ChainSnoc(GroupLists(fs + [d0], k), d1.entries[g]);
    }
  }

  /** The stored list of a group `g` added by the last file: as given if it
      is new, merged into the earlier chain otherwise. */
  lemma ExtendEntry(fs: seq<Catalog>, d0: Catalog, d1: Catalog, g: string)
    requires Extends(d0, d1, g) && Mergeable(fs + [d1]) && Mergeable(fs + [d0])
    ensures var m := MergeAll(fs + [d0]);
            var crds := d1.entries[g];
            && (g in m.entries ==> AllNamed(m.entries[g]) && AllNamed(crds) && CrdsMergeable(m.entries[g], crds))
            && MergeAll(fs + [d1]).entries[g]
                 == if g in m.entries then MergedCrds(m.entries[g], crds) else crds
  {
    ExtendGroups(fs, d0, d1, g);
    ExtendLists(fs, d0, d1, g, g);
    var l0 := GroupLists(fs + [d0], g);
    var crds := d1.entries[g];
    assert g in Groups(fs + [d1]);
    if l0 != [] {
      ChainSnoc(l0, crds);
    } else {
      assert GroupLists(fs + [d1], g) == [crds];
    }
  }

  /** The stored lists of the other groups stay as they were. */
  lemma ExtendOther(fs: seq<Catalog>, d0: Catalog, d1: Catalog, g: string, k: string)
    requires Extends(d0, d1, g) && Mergeable(fs + [d1]) && Mergeable(fs + [d0])
    requires k != g && k in MergeAll(fs + [d0]).entries
    ensures k in MergeAll(fs + [d1]).entries
    ensures MergeAll(fs + [d1]).entries[k] == MergeAll(fs + [d0]).entries[k]
  {
    ExtendGroups(fs, d0, d1, g);
    ExtendLists(fs, d0, d1, g, k);
  }

  /** One iteration of the group loop on the stored catalog `m`. */
  function StoreGroup(m: Catalog, g: string, crds: seq<Record>): Catalog
    requires m.Valid()
    requires g in m.entries ==> AllNamed(m.entries[g]) && AllNamed(crds) && CrdsMergeable(m.entries[g], crds)
  {
    if g in m.entries then m.Put(g, MergedCrds(m.entries[g], crds)) else m.Put(g, crds)
  }

  lemma ExtendStepKeys(fs: seq<Catalog>, d0: Catalog, d1: Catalog, g: string)
    requires Extends(d0, d1, g) && Mergeable(fs + [d1]) && Mergeable(fs + [d0])
    requires var m := MergeAll(fs + [d0]);
            var crds := d1.entries[g];
            g in m.entries ==> AllNamed(m.entries[g]) && AllNamed(crds) && CrdsMergeable(m.entries[g], crds)
    ensures MergeAll(fs + [d1]).keys == StoreGroup(MergeAll(fs + [d0]), g, d1.entries[g]).keys
  {
    ExtendKeys(fs, d0, d1, g);
  }

  lemma ExtendStepEntries(fs: seq<Catalog>, d0: Catalog, d1: Catalog, g: string)
    requires Extends(d0, d1, g) && Mergeable(fs + [d1]) && Mergeable(fs + [d0])
    requires var m := MergeAll(fs + [d0]);
            var crds := d1.entries[g];
            g in m.entries ==> AllNamed(m.entries[g]) && AllNamed(crds) && CrdsMergeable(m.entries[g], crds)
    ensures MergeAll(fs + [d1]).entries == StoreGroup(MergeAll(fs + [d0]), g, d1.entries[g]).entries
  {
    var m := MergeAll(fs + [d0]);
    var m1 := MergeAll(fs + [d1]);
    ExtendGroups(fs, d0, d1, g);
    ExtendEntry(fs, d0, d1, g);
    forall k | k != g && k in m.entries ensures k in m1.entries && m1.entries[k] == m.entries[k] {
      ExtendOther(fs, d0, d1, g, k);
    }
    MapStep(m.entries, m1.entries, g, StoreGroup(m, g, d1.entries[g]).entries[g]);
  }

  /** A map that agrees with `m0` except at `g`, where it holds `e`. */
  lemma MapStep(m0: map<string, seq<Record>>, m1: map<string, seq<Record>>, g: string, e: seq<Record>)
    requires m1.Keys == m0.Keys + {g} && m1[g] == e
    requires forall k :: k != g && k in m0 ==> k in m1 && m1[k] == m0[k]
    ensures m1 == m0[g := e]
  {
  }

  lemma ExtendMerge(fs: seq<Catalog>, d0: Catalog, d1: Catalog, g: string)
    requires Extends(d0, d1, g) && Mergeable(fs + [d1])
    ensures Mergeable(fs + [d0])
    ensures var m := MergeAll(fs + [d0]);
            var crds := d1.entries[g];
            g in m.entries ==> AllNamed(m.entries[g]) && AllNamed(crds) && CrdsMergeable(m.entries[g], crds)
    ensures MergeAll(fs + [d1]) == StoreGroup(MergeAll(fs + [d0]), g, d1.entries[g])
  {
    ExtendMergeable(fs, d0, d1, g);
    ExtendEntry(fs, d0, d1, g);
    ExtendStepKeys(fs, d0, d1, g);
    ExtendStepEntries(fs, d0, d1, g);
  }

  /** A mergeable file list stays mergeable with only the first `j` groups of
      its last file. */
  lemma {:induction false} MergeableHead(fs: seq<Catalog>, data: Catalog, j: nat)
    requires Mergeable(fs + [data]) && j <= |data.keys|
    ensures data.Valid()
    ensures Mergeable(fs + [Head(data, j)])
    decreases |data.keys| - j
  {
    assert (fs + [data])[|fs|] == data;
    if j == |data.keys| {
      HeadAll(data);
    } else {
      MergeableHead(fs, data, j + 1);
      HeadSnoc(data, j);
      ExtendMergeable(fs, Head(data, j), Head(data, j + 1), data.keys[j]);
    }
  }

  // ---------------------------------------------------------------- the loop

  /** `merge_yaml_files` after parsing: each file's groups, in order, are
      stored if new and merged with `merge_crds` if seen before. */
  method MergeYamlFiles(files: seq<Catalog>) returns (merged: Catalog)
    requires Mergeable(files)
    ensures merged == MergeAll(files)
  {
    merged := EmptyDict();
    assert files[..0] == [];
    var i := 0;
    while i < |files|
      invariant 0 <= i <= |files|
      invariant Mergeable(files[..i])
      invariant merged == MergeAll(files[..i])
    {
      var data := files[i];
      var fs := files[..i];
      MergeablePrefix(files, i + 1);
      assert files[..i + 1] == fs + [data];
      MergeableHead(fs, data, 0);
      HeadNone(data);
      MergeAllEmptyFile(fs);
      var j := 0;
      while j < |data.keys|
        invariant 0 <= j <= |data.keys|
        invariant Mergeable(fs + [Head(data, j)])
        invariant merged == MergeAll(fs + [Head(data, j)])
      {
        var group := data.keys[j];
        var crds := data.entries[group];
        MergeableHead(fs, data, j + 1);
        HeadSnoc(data, j);
        ExtendMerge(fs, Head(data, j), Head(data, j + 1), group);
        if group in merged.entries {
          var m := MergeCrds.MergeCrds(merged.entries[group], crds);
          merged := merged.Put(group, m);
        } else {
          merged := merged.Put(group, crds);
        }
        j := j + 1;
      }
      HeadAll(data);
      i := i + 1;
    }
    assert files[..i] == files;
  }

  // ---------------------------------------------------------------- properties of the merged catalog

  /** A group is in the catalog exactly when some file has it. */
  lemma {:induction false} GroupsMember(files: seq<Catalog>, g: string)
    ensures g in Groups(files) <==> exists i :: 0 <= i < |files| && g in files[i].entries
    decreases |files|
  {
    if files != [] {
      var init := files[..|files| - 1];
      GroupsMember(init, g);
      assert forall i :: 0 <= i < |init| ==> init[i] == files[i];
    }
  }

  /** A group that only one file has gets exactly that file's list. */
  lemma {:induction false} GroupListsSingle(files: seq<Catalog>, i: nat, g: string)
    requires i < |files| && g in files[i].entries
    requires forall j :: 0 <= j < |files| && j != i ==> g !in files[j].entries
    ensures GroupLists(files, g) == [files[i].entries[g]]
    decreases |files|
  {
    var init := files[..|files| - 1];
    var last := files[|files| - 1];
    assert files == init + [last];
    GroupListsSnoc(init, last, g);
    assert forall j :: 0 <= j < |init| ==> init[j] == files[j];
    if i == |files| - 1 {
      GroupsMember(init, g);
    } else {
      GroupListsSingle(init, i, g);
    }
  }

  /** A group that only one file has is stored as that file gives it: not
      sorted, not deduplicated, not passed to `merge_crds`. */
  lemma GroupInOneFile(files: seq<Catalog>, i: nat, g: string)
    requires Mergeable(files)
    requires i < |files| && g in files[i].entries
    requires forall j :: 0 <= j < |files| && j != i ==> g !in files[j].entries
    ensures g in MergeAll(files).entries
    ensures MergeAll(files).entries[g] == files[i].entries[g]
  {
    GroupsMember(files, g);
    GroupListsSingle(files, i, g);
  }

  /** What one more file does to the merged catalog's keys: its new groups
      join the key order at the end, in the file's order. */
  lemma MergeAllSnocKeys(files: seq<Catalog>, d: Catalog)
    requires Mergeable(files + [d])
    ensures Mergeable(files)
    ensures MergeAll(files + [d]).keys == AppendNew(MergeAll(files).keys, d.keys)
    ensures MergeAll(files + [d]).entries.Keys == MergeAll(files).entries.Keys + d.entries.Keys
  {
    MergeableInit(files, d);
    assert (files + [d])[|files|] == d;
    FirstSeenSnoc(files, d);
    GroupsSnoc(files, d);
  }

  /** What one more file does to a group's stored list: a group the file has
      is stored as given if it is new and replaced by `merge_crds` of the
      stored list and the file's list if it was seen before; a group the
      file does not have stays as it was. */
  lemma MergeAllSnoc(files: seq<Catalog>, d: Catalog, g: string)
    requires Mergeable(files + [d])
    ensures Mergeable(files)
    ensures var m := MergeAll(files).entries;
            var m1 := MergeAll(files + [d]).entries;
            && (g in d.entries && g !in m ==> g in m1 && m1[g] == d.entries[g])
            && (g in d.entries && g in m ==>
                  && AllNamed(m[g]) && AllNamed(d.entries[g]) && CrdsMergeable(m[g], d.entries[g])
                  && g in m1 && m1[g] == MergedCrds(m[g], d.entries[g]))
            && (g !in d.entries && g in m ==> g in m1 && m1[g] == m[g])
  {
    MergeAllSnocKeys(files, d);
    GroupListsSnoc(files, d, g);
    var l := GroupLists(files, g);
    var l1 := GroupLists(files + [d], g);
    if g in d.entries {
      assert l1 == l + [d.entries[g]];
      if l != [] {
        ChainSnoc(l, d.entries[g]);
      } else {
        assert l1 == [d.entries[g]];
      }
    } else {
      assert l1 == l;
    }
  }

  /** `a` is a prefix of `b`. */
  predicate IsPrefix(a: seq<string>, b: seq<string>) {
    |a| <= |b| && b[..|a|] == a
  }

  /** Every prefix of a list of well-formed files is one. */
  lemma AllValidPrefix(files: seq<Catalog>, n: nat)
    requires AllValid(files) && n <= |files|
    ensures AllValid(files[..n])
  {
    assert forall i :: 0 <= i < n ==> files[..n][i] == files[i];
  }

  /** The merged catalog lists the groups of the first files first: merging
      more files only appends new groups to the key order. */
  lemma {:induction false} MergeAllKeysPrefix(files: seq<Catalog>, n: nat)
    requires AllValid(files) && n <= |files|
    ensures AllValid(files[..n])
    ensures IsPrefix(FirstSeen(files[..n]), FirstSeen(files))
    decreases |files| - n
  {
    AllValidPrefix(files, n);
    if n < |files| {
      MergeAllKeysPrefix(files, n + 1);
      var fs := files[..n];
      assert files[..n + 1] == fs + [files[n]];
      FirstSeenSnoc(fs, files[n]);
      PrefixTransitive(FirstSeen(fs), FirstSeen(files[..n + 1]), FirstSeen(files));
    } else {
      assert files[..n] == files;
    }
  }

  /** A prefix of a prefix is a prefix. */
  lemma PrefixTransitive(a: seq<string>, b: seq<string>, c: seq<string>)
    requires IsPrefix(a, b) && IsPrefix(b, c)
    ensures IsPrefix(a, c)
  {
    assert c[..|a|] == c[..|b|][..|a|];
  }

  /** The first file's groups come first, in that file's order. */
  lemma FirstFileFirst(files: seq<Catalog>)
    requires AllValid(files) && files != []
    ensures |files[0].keys| <= |FirstSeen(files)|
    ensures FirstSeen(files)[..|files[0].keys|] == files[0].keys
  {
    MergeAllKeysPrefix(files, 1);
    assert files[..1] == [] + [files[0]];
    assert IsPrefix(FirstSeen(files[..1]), FirstSeen(files));
    FirstSeenSnoc([], files[0]);
    AppendNewFresh([], files[0].keys);
  }

  /** Distinct keys appended to nothing are appended as they are. */
  lemma {:induction false} AppendNewFresh(ks: seq<string>, more: seq<string>)
    requires Distinct(ks + more)
    ensures AppendNew(ks, more) == ks + more
    decreases |more|
  {
    if more != [] {
      var init := more[..|more| - 1];
      var m := more[|more| - 1];
      assert ks + more == (ks + init) + [m];
      assert Distinct(ks + init) by {
        assert forall i :: 0 <= i < |ks + init| ==> (ks + init)[i] == (ks + more)[i];
      }
      AppendNewFresh(ks, init);
      assert m !in ks + init by {
        forall i | 0 <= i < |ks + init| ensures (ks + init)[i] != m {
          assert (ks + more)[i] == (ks + init)[i];
          assert (ks + more)[|ks + more| - 1] == m;
        }
      }
    }
  }

  // ---------------------------------------------------------------- when the loop cannot fail

  /** Every list of every file is a well-formed resource list. */
  predicate WellFormedFiles(files: seq<Catalog>) {
    && AllValid(files)
    && forall i, g :: 0 <= i < |files| && g in files[i].entries ==> WellFormedCrds(files[i].entries[g])
  }

  /** Well-formed lists always chain, into a well-formed list. */
  lemma {:induction false} ChainWellFormed(ls: seq<seq<Record>>)
    requires ls != [] && forall k :: 0 <= k < |ls| ==> WellFormedCrds(ls[k])
    ensures ChainDefined(ls) && WellFormedCrds(Chain(ls))
    decreases |ls|
  {
    if |ls| > 1 {
      var init := ls[..|ls| - 1];
      var last := ls[|ls| - 1];
      assert forall k :: 0 <= k < |init| ==> init[k] == ls[k];
      ChainWellFormed(init);
      WellFormedMerge(Chain(init), last);
    }
  }

  /** Each list a group's lists hold comes from some file. */
  lemma {:induction false} GroupListsFrom(files: seq<Catalog>, g: string)
    ensures forall x :: x in GroupLists(files, g) ==>
              exists i :: 0 <= i < |files| && g in files[i].entries && x == files[i].entries[g]
    decreases |files|
  {
    if files != [] {
      var init := files[..|files| - 1];
      var last := files[|files| - 1];
      assert files == init + [last];
      GroupListsSnoc(init, last, g);
      GroupListsFrom(init, g);
      var l := GroupLists(init, g);
      forall x | x in GroupLists(files, g)
        ensures exists i :: 0 <= i < |files| && g in files[i].entries && x == files[i].entries[g]
      {
        if x in l {
          var i :| 0 <= i < |init| && g in init[i].entries && x == init[i].entries[g];
          assert files[i] == init[i];
        } else {
          assert files[|files| - 1] == last;
        }
      }
    }
  }

  /** When every resource is named and every `versions` is a list of named
      mappings, the loop does not fail. */
  lemma WellFormedMergeable(files: seq<Catalog>)
    requires WellFormedFiles(files)
    ensures Mergeable(files)
  {
    forall g | g in Groups(files) ensures ChainDefined(GroupLists(files, g)) {
      GroupListsFrom(files, g);
      var ls := GroupLists(files, g);
      assert forall k :: 0 <= k < |ls| ==> ls[k] in ls;
      ChainWellFormed(ls);
    }
  }

  /** A group met once keeps its order: a single file whose group lists
      "b" before "a" is stored with "b" before "a". */
  lemma GroupSeenOnceUnsorted(files: seq<Catalog>)
    requires files == [ODict(["g"], map["g" := [map["name" := Str("b")], map["name" := Str("a")]]])]
    ensures Mergeable(files)
    ensures MergeAll(files).keys == ["g"]
    ensures !SortedByName(MergeAll(files).entries["g"])
  {
    var l := files[0].entries["g"];
    assert AllValid(files);
    assert Groups(files) == {"g"} by {
      assert files[..0] == [];
    }
    GroupInOneFile(files, 0, "g");
    FirstFileFirst(files);
    assert MergeAll(files).entries["g"] == l;
    assert Less("a", "b");
    assert NameOf(l[1]) == "a" && NameOf(l[0]) == "b";
  }
}
