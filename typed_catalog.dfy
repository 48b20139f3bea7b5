/** The typed catalog of src/lib/structure.ts read as the mappings the merge
    works on: a catalog whose entries have the declared shape is always
    mergeable, and the reading forgets nothing. */
module TypedCatalog {
  import opened Structure
  import opened Records
  import opened KeyedMerge
  import opened MergeCrds
  import opened MergeFiles

  /** A version `{name, deprecated, appVersion}` as a mapping. */
  function VersionRecord(v: CrdVersion): (r: Record)
    ensures Named(r) && NameOf(r) == v.name
  {
    map["name" := Str(v.name), "deprecated" := Bool(v.deprecated), "appVersion" := Str(v.appVersion)]
  }

  /** The version list, in order. */
  function VersionRecords(vs: seq<CrdVersion>): (rs: seq<Record>)
    ensures |rs| == |vs|
    ensures forall i :: 0 <= i < |vs| ==> rs[i] == VersionRecord(vs[i])
    ensures AllNamed(rs)
  {
    seq(|vs|, i requires 0 <= i < |vs| => VersionRecord(vs[i]))
  }

  /** A resource `{name, group, kind, versions}` as a mapping. */
  function ResourceRecord(c: CrdResource): (r: Record)
    ensures Named(r) && NameOf(r) == c.name
    ensures VersionsWF(r) && VersionsOf(r) == VersionRecords(c.versions)
  {
    var vs := VersionRecords(c.versions);
    var r := map["name" := Str(c.name), "group" := Str(c.group), "kind" := Str(c.kind), "versions" := AsList(vs)];
    VersionsRoundTrip(r, vs);
    r
  }

  /** A group's resource list. */
  function ResourceRecords(cs: seq<CrdResource>): (rs: seq<Record>)
    ensures |rs| == |cs|
    ensures forall i :: 0 <= i < |cs| ==> rs[i] == ResourceRecord(cs[i])
  {
    seq(|cs|, i requires 0 <= i < |cs| => ResourceRecord(cs[i]))
  }

  /** A parsed file of the typed shape: a `CrdVersionsMap` with its key order. */
  type TypedFile = ODict<seq<CrdResource>>

  /** The file as the merge reads it. */
  function FileRecords(d: TypedFile): (c: Catalog)
    requires d.Valid()
    ensures c.Valid() && c.keys == d.keys && c.entries.Keys == d.entries.Keys
    ensures forall g :: g in d.entries ==> c.entries[g] == ResourceRecords(d.entries[g])
  {
    ODict(d.keys, map g | g in d.entries :: ResourceRecords(d.entries[g]))
  }

  /** A version's mapping determines the version. */
  lemma VersionRecordInjective(a: CrdVersion, b: CrdVersion)
    requires VersionRecord(a) == VersionRecord(b)
    ensures a == b
  {
    assert VersionRecord(a)["deprecated"] == Bool(a.deprecated);
    assert VersionRecord(a)["appVersion"] == Str(a.appVersion);
  }

  /** A version list's mappings determine the list. */
  lemma VersionRecordsInjective(a: seq<CrdVersion>, b: seq<CrdVersion>)
    requires VersionRecords(a) == VersionRecords(b)
    ensures a == b
  {
    forall i | 0 <= i < |a| ensures a[i] == b[i] {
      VersionRecordInjective(a[i], b[i]);
    }
  }

  /** A resource's mapping determines the resource: no field is lost. */
  lemma ResourceRecordInjective(a: CrdResource, b: CrdResource)
    requires ResourceRecord(a) == ResourceRecord(b)
    ensures a == b
  {
    assert ResourceRecord(a)["group"] == Str(a.group);
    assert ResourceRecord(a)["kind"] == Str(a.kind);
    assert VersionsOf(ResourceRecord(a)) == VersionsOf(ResourceRecord(b));
    VersionRecordsInjective(a.versions, b.versions);
  }

  /** Every list of a typed file is a well-formed resource list. */
  lemma TypedWellFormed(cs: seq<CrdResource>)
    ensures WellFormedCrds(ResourceRecords(cs))
  {
    var rs := ResourceRecords(cs);
    assert forall i :: 0 <= i < |rs| ==> Named(rs[i]) && VersionsWF(rs[i]);
  }

  /** Files of the typed shape always merge: the group loop cannot fail on
      them. */
  lemma TypedFilesMergeable(files: seq<TypedFile>)
    requires forall i :: 0 <= i < |files| ==> files[i].Valid()
    ensures var cs := seq(|files|, i requires 0 <= i < |files| && files[i].Valid() => FileRecords(files[i]));
            Mergeable(cs)
  {
    var cs := seq(|files|, i requires 0 <= i < |files| && files[i].Valid() => FileRecords(files[i]));
    forall i, g | 0 <= i < |cs| && g in cs[i].entries ensures WellFormedCrds(cs[i].entries[g]) {
      TypedWellFormed(files[i].entries[g]);
    }
    WellFormedMergeable(cs);
  }
}
