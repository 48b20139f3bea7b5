# Resource browser core, modelled in Dafny

The resource browser shows Kubernetes custom resources (CRDs) of a catalog. This project models two parts of it and proves properties about them.

**Schema field helpers (`src/lib/components/functions.ts`).** These functions read display metadata off one field of a CRD's JSON schema: description, default, enum, format, minimum and maximum. The field's own value comes first. For an array field the helpers then fall back exactly one level, into its `items`. `stripResourcePrefixFQDN` cuts the first label off a resource name in the `eda.nokia.com` domain, and `hashExistDeep` is a substring test. The schema shapes of `src/lib/structure.ts` become datatypes. The JavaScript string built-ins that the helpers call (`trim`, `endsWith`, `split`, `join`, `indexOf`) are defined with their characterising properties.

**Catalog merging (`static/merge-crds.py`).** The script merges several YAML catalogs, each mapping a group key to a list of resources.
- `merge_versions` and `merge_crds` index the old list by `name`. They fold the new list in with `dict.update`; for resources, `versions` is excluded from the update and merged recursively instead. They return the values sorted by name.
- The loop of `merge_yaml_files` stores a group the first time it is met. It replaces the group with `merge_crds` of the stored list and the file's list when it meets the group again.

**How the model is built.**
- The dicts the script builds and indexes by key (`merged`, `crd_map`, `version_map`) and each parsed file are ordered by insertion, so they are an `ODict`: a key sequence and a map.
- A resource or version record is a `map<string, Value>`, without field order.
- `sorted(key=name)` is a stable insertion sort under Python's string order.
- Each loop of the script is a `method` with a `while` loop. Each method is proved equal to a reference function:
  - `KeyedMerge.Fold`/`MergeSorted` for the two list merges;
  - `MergeFiles.MergeAll` for the file loop.
- The invariant of the loops over a list is `KeyedMerge.FoldedUpTo`: the dict holds the fold of the records visited so far. A lemma per loop (`IndexStep`, `VersionStep`, `CrdStep`) shows that the body, both branches as written, is one more step of that fold.
- The properties are proved about those functions.
- The keyed merge is written once, generic in how two records of one name combine:
  - `Update` is used for versions.
  - `CrdCombine` is used for resources. It is partial, because `versions` must be something `merge_versions` can iterate: a list of named mappings, an empty mapping or an empty string.
- Where the program would raise, the model states a precondition instead: `CrdsMergeable`, `Mergeable`. It admits every input on which no step raises, except versions or resources whose names are not strings (see "## Left out"). Sufficient conditions for these are proved separately: `WellFormedMerge`, `WellFormedMergeable`, `TypedFilesMergeable`.

Modules, each in its own file:
- `Wrappers`: `Option`.
- `Structure`: structure.ts.
- `JsStrings`: the JavaScript string built-ins.
- `Functions`: functions.ts.
- `Records`: values, string order, sort, ordered dict.
- `KeyedMerge`: the shared keyed merge.
- `MergeCrds`: `merge_versions`, `merge_crds`.
- `MergeFiles`: the group loop.
- `TypedCatalog`: the typed catalog read as records.

## Model

| member | source | states |
|---|---|---|
| Structure.Schema.Type | src/lib/structure.ts:18-47 | the `type` tag is "object" exactly for object schemas and "array" exactly for array schemas; a primitive schema carries one of the other four types |
| Structure.TypeName | src/lib/structure.ts:18 | every JSON type has a non-empty name as written in a schema |
| Functions.ScopeEndsChain | src/lib/components/functions.ts:3-5 | the last metadata record an extractor consults is that of the scope, and the scope differs from the field exactly when the field is an array |
| Functions.MetaChain | src/lib/components/functions.ts:14-16 | the metadata the extractors may consult is the field's own, then, only for an array, that of its items; never more than two levels |
| Functions.FallbackChain | src/lib/components/functions.ts:12-16 | getFormat, getMinimum, getMaximum, getEnumArray and the default choice of getDefault are each the first acceptable value along the chain (own metadata, then an array's items); getFormat alone skips empty strings |
| Functions.OneLevelOnly | src/lib/components/functions.ts:27-35 | for an array of arrays, metadata of the innermost items is never reached: with nothing on the outer two levels getMinimum, getFormat, getEnum and getDefault give their empty results and getDescription gives "array" unless the field has its own description |
| Functions.DescriptionEmpty | src/lib/components/functions.ts:7-9 | getDescription is the field's own non-empty description; otherwise an array gives the type name of its items (never "") and any other field gives "" |
| Functions.DefaultExamples | src/lib/components/functions.ts:18-20 | an object default becomes its JSON text, a number `String(n)`, a string itself, `false` the text "false", and an explicit null is serialised, not treated as missing |
| Functions.OwnEnumHidesItems | src/lib/components/functions.ts:27-30 | when an array field has its own enum, even an empty one, replacing its items by any other schema changes neither getEnumArray nor getEnum |
| Functions.EnumTextDetermines | src/lib/components/functions.ts:37-42 | two fields with the same non-empty getEnum text have the same enum, as long as no enum value contains ", " |
| Functions.EnumTextMentionsValues | src/lib/components/functions.ts:38-42 | every enum value occurs in the rendered enum text |
| Functions.EnumExample | src/lib/components/functions.ts:27-42 | `["a","b"]` renders as `[a, b]` whether on the field or on its items, and an empty own enum hides the items' enum |
| Functions.TruthinessVersusDefinedness | src/lib/components/functions.ts:49-68 | getFormat skips an empty format and falls back to the items, getMinimum keeps a defined 0 |
| Functions.HashExistDeep | src/lib/components/functions.ts:81-86 | true exactly when `currentId` occurs somewhere in `hash` |
| Functions.EmptyIdExists | src/lib/components/functions.ts:81-86 | the empty id is found in every hash |
| Functions.SuffixGuardUnreachable | src/lib/components/functions.ts:93-95 | a trimmed name ending in `.eda.nokia.com` splits into at least four parts, so the "fewer than three parts" branch cannot be taken |
| Functions.StripSpec | src/lib/components/functions.ts:89-97 | the result is "" for "", otherwise the trimmed name with everything up to its first dot removed when it ends in `.eda.nokia.com`, and the trimmed name itself otherwise |
| Functions.AfterFirstLabelKeepsDomain | src/lib/components/functions.ts:93-96 | stripping makes a name of the domain shorter and it still ends in `eda.nokia.com` |
| Functions.StripFirstLabel | src/lib/components/functions.ts:89-97 | a trimmed `first.rest` of the domain with a dot-free first label becomes exactly `rest` |
| Functions.StripExampleResource | src/lib/components/functions.ts:88-89 | `ntpclients.timing.eda.nokia.com` becomes `timing.eda.nokia.com` |
| Functions.StripExamplesUnchanged | src/lib/components/functions.ts:90-93 | the bare domain `eda.nokia.com` and a foreign name are returned unchanged |
| JsStrings.TrimStart | src/lib/components/functions.ts:92 | drops exactly the leading white space |
| JsStrings.TrimEnd | src/lib/components/functions.ts:92 | drops exactly the trailing white space |
| JsStrings.TrimSpec | src/lib/components/functions.ts:92 | `trim` returns the middle of white space, a trimmed part and white space |
| JsStrings.TrimOfTrimmed | src/lib/components/functions.ts:92 | a string without surrounding white space is its own `trim` |
| JsStrings.TrimIdempotent | src/lib/components/functions.ts:92 | `trim` applied twice equals `trim` applied once |
| JsStrings.SplitCount | src/lib/components/functions.ts:94-95 | `split` yields one more piece than there are separators, none containing the separator |
| JsStrings.JoinSplit | src/lib/components/functions.ts:94-96 | joining the pieces of a split with the separator gives back the string |
| JsStrings.SplitJoin | src/lib/components/functions.ts:94-96 | splitting a join of separator-free pieces gives back the pieces |
| JsStrings.JoinFirstSeparator | src/lib/components/functions.ts:41 | in a join of parts free of a two-character separator, the separator first occurs right after the first part, and nowhere when there is one part |
| JsStrings.JoinInjective | src/lib/components/functions.ts:41 | `join` with a separator of two different characters is injective on non-empty lists of parts free of it |
| JsStrings.DropFirstPiece | src/lib/components/functions.ts:94-96 | `parts.slice(1).join('.')` is the text after the first dot |
| JsStrings.FirstIndex | src/lib/components/functions.ts:94-96 | the position of the first occurrence of a character |
| JsStrings.IndexOfFrom | src/lib/components/functions.ts:82 | `indexOf` is -1 when the needle does not occur at or after `from`, and otherwise its first position there |
| Records.LessIrreflexive | static/merge-crds.py:18 | under Python's string order no name sorts before itself |
| Records.LessAsymmetric | static/merge-crds.py:18 | two names are never each before the other |
| Records.LessTransitive | static/merge-crds.py:18 | the order is transitive |
| Records.LessTotal | static/merge-crds.py:18 | of two different names one sorts first |
| Records.Insert | static/merge-crds.py:18 | insertion adds exactly the one record, keeps a sorted list sorted, and keeps it strictly sorted when the name is new |
| Records.SortByName | static/merge-crds.py:18 | `sorted(key=name)` is a permutation of its input ordered by name, strictly when the names are distinct |
| Records.NamesOfPermutation | static/merge-crds.py:18 | sorting keeps the set of names |
| Records.ODict.Put | static/merge-crds.py:16-17 | `d[k] = v` maps `k` to `v`, appends a new key at the end and leaves an existing key in place |
| Records.ODict.Values | static/merge-crds.py:18 | `d.values()` lists the mapped values in key order |
| KeyedMerge.Step | static/merge-crds.py:13-17 | one iteration adds the record's name to the keys |
| KeyedMerge.Fold | static/merge-crds.py:12-17 | the loop over the new list leaves exactly the old keys and the new names |
| KeyedMerge.FoldSnoc | static/merge-crds.py:12-17 | the loop over one more record is one more iteration |
| KeyedMerge.FoldDefinedTotal | static/merge-crds.py:12-17 | with a combination defined everywhere the loop never fails |
| KeyedMerge.FoldPreserves | static/merge-crds.py:12-17 | a property of records that the combination keeps holds for every stored record after the loop, and the loop does not fail |
| KeyedMerge.Index | static/merge-crds.py:11 | the comprehension is keyed by exactly the names of the list |
| KeyedMerge.IndexEntries | static/merge-crds.py:11 | the comprehension stores, under each name, the last record of that name |
| KeyedMerge.FoldEntries | static/merge-crds.py:12-17 | every stored record is the stored record before the loop, if any, combined in turn with each new record of its name |
| KeyedMerge.FoldKeyed | static/merge-crds.py:12-17 | every record stays stored under its own name |
| KeyedMerge.KeyedValues | static/merge-crds.py:18 | the stored values carry each stored name exactly once |
| KeyedMerge.SortedValues | static/merge-crds.py:18 | the sorted values are a permutation of the dict's values, strictly ascending by name, with exactly the dict's keys as names |
| KeyedMerge.FoldedStep | static/merge-crds.py:12-17 | one more iteration of a loop that has folded the first records folds one more |
| KeyedMerge.Filter | static/merge-crds.py:12-17 | the records of a name, empty exactly when the name is absent |
| KeyedMerge.FilterDistinct | static/merge-crds.py:11-17 | in a list without repeated names a record is the only one of its name |
| KeyedMerge.LastNamed | static/merge-crds.py:11 | the last record of a name is a record of the list with that name |
| KeyedMerge.OverlayLatter | static/merge-crds.py:11 | overlaying with replacement keeps the last layer |
| KeyedMerge.MergeSortedSpec | static/merge-crds.py:10-18 | the keyed merge lists every old and new name exactly once, ascending, and each record is the last old record of its name, if any, combined in turn with each new record of that name |
| KeyedMerge.MergeSortedCases | static/merge-crds.py:11-17 | without repeated names: an old-only record is kept unchanged, a new-only record is taken as given, a record in both is the combination of the two |
| MergeCrds.Update | static/merge-crds.py:15 | `stored.update(r)`: every field of `r` overrides, every other field of `stored` stays, and no other field appears |
| MergeCrds.OverlayUpdate | static/merge-crds.py:14-15 | updating in turn: a field is present when some layer has it and takes its value from the last layer that has it |
| MergeCrds.IndexByName | static/merge-crds.py:11 | the comprehension loop builds exactly `Index` |
| MergeCrds.IndexStep | static/merge-crds.py:11 | one more element of the comprehension replaces what is stored under its name |
| MergeCrds.VersionStep | static/merge-crds.py:12-17 | one iteration of the loop of `merge_versions`, both branches, extends the fold over the new versions by one version |
| MergeCrds.VersionsSorted | static/merge-crds.py:18 | sorting the values of the finished dict gives `merge_versions` |
| MergeCrds.MergeVersions | static/merge-crds.py:10-18 | the loop of `merge_versions` returns the keyed merge with `update`, strictly sorted by name, with the union of the names |
| MergeCrds.MergedVersionsSpec | static/merge-crds.py:10-18 | each name of either list exactly once, ascending; each version is the last old version of its name, if any, updated in turn with each new version of that name |
| MergeCrds.MergedVersionsCases | static/merge-crds.py:11-17 | an old-only version is output unchanged, a new-only version as given, a version in both is the old one updated with the new one |
| MergeCrds.VersionsOf | static/merge-crds.py:30 | `r.get("versions", [])` is empty when the key is missing or holds an empty mapping or empty string, and otherwise the list's mappings, in order |
| MergeCrds.EmptyVersionsAsMissing | static/merge-crds.py:29-31 | a stored `versions: {}` or `versions: ""` is accepted and merges exactly like a missing `versions` |
| MergeCrds.CombineSeesOnlyVersionsOf | static/merge-crds.py:27-31 | combining two resources depends on the stored resource's `versions` only through the versions it iterates |
| MergeCrds.AsList | static/merge-crds.py:29 | a list of records written back as a YAML list, element for element |
| MergeCrds.VersionsRoundTrip | static/merge-crds.py:29-31 | versions written back read back as the same records, and versions read and written back give the original list |
| MergeCrds.CrdCombine | static/merge-crds.py:25-31 | a resource seen again takes every top-level field but `versions` from the new resource, keeps its other fields, and gets as `versions` the merge of its own versions with the new ones |
| MergeCrds.MergeCrds | static/merge-crds.py:21-34 | the loop of `merge_crds` returns the keyed merge with `CrdCombine`, strictly sorted by name, with the union of the names |
| MergeCrds.CrdStep | static/merge-crds.py:23-33 | one iteration of the loop of `merge_crds`, both branches, extends the fold over the new resources by one resource |
| MergeCrds.CrdStepValue | static/merge-crds.py:25-33 | for a known name the update without `versions` and the merge of the versions are one combination step; an unknown name is stored as given |
| MergeCrds.CrdsSorted | static/merge-crds.py:34 | sorting the values of the finished dict gives `merge_crds` |
| MergeCrds.UpdateKeepsVersions | static/merge-crds.py:27 | updating the fields other than `versions` leaves the resource's versions as they were |
| MergeCrds.MergedCrdsSpec | static/merge-crds.py:21-34 | each resource name of either list exactly once, ascending; each resource is the last old resource of its name, if any, combined in turn with each new one |
| MergeCrds.MergedCrdsCases | static/merge-crds.py:22-33 | an old-only resource is kept, a new-only resource is inserted as given, a resource in both is combined |
| MergeCrds.WellFormedMerge | static/merge-crds.py:22-34 | named resources whose versions are lists of named mappings always merge, into such a list again |
| MergeCrds.MergeIntoEmpty | static/merge-crds.py:32-34 | a resource merged into an empty list comes out exactly as given |
| MergeCrds.NewResourceVersionsUnsorted | static/merge-crds.py:32-33 | a new-only resource keeps its versions unsorted: `b` stays before `a` |
| MergeFiles.AppendNew | static/merge-crds.py:45-46 | old keys keep their place at the front; a key is in the result exactly when it is old or new; no key twice when the old keys are distinct |
| MergeFiles.AppendNewOrder | static/merge-crds.py:45-46 | after the old keys come exactly the new keys not already present, each once, in the order they first occur among the new keys |
| MergeFiles.GroupLists | static/merge-crds.py:39-46 | the lists given for a group, one per file having it, empty exactly when no file has it |
| MergeFiles.FirstSeen | static/merge-crds.py:38-46 | the merged key order has every group of any file exactly once |
| MergeFiles.MergeAll | static/merge-crds.py:37-47 | the merged catalog is a well-formed dict keyed by exactly the groups of all files, in the order first met |
| MergeFiles.MergeYamlFiles | static/merge-crds.py:37-47 | the nested loop builds exactly `MergeAll` of the parsed files |
| MergeFiles.ExtendMerge | static/merge-crds.py:42-46 | one iteration: a new group is stored as given, a group seen before becomes `merge_crds` of the stored list and the file's list |
| MergeFiles.MergeAllSnoc | static/merge-crds.py:42-46 | one more file: its new groups are stored as given, its groups seen before are merged with `merge_crds`, all other groups stay |
| MergeFiles.MergeAllSnocKeys | static/merge-crds.py:42-46 | one more file appends its new groups to the key order, in the file's order |
| MergeFiles.GroupInOneFile | static/merge-crds.py:45-46 | a group that only one file has is stored exactly as that file gives it |
| MergeFiles.GroupSeenOnceUnsorted | static/merge-crds.py:45-46 | a group met once is not sorted: `b` stays before `a` |
| MergeFiles.MergeAllKeysPrefix | static/merge-crds.py:38-46 | merging more files only appends groups to the key order of the first files |
| MergeFiles.FirstFileFirst | static/merge-crds.py:38-46 | the first file's groups come first, in that file's order |
| MergeFiles.GroupsMember | static/merge-crds.py:42 | a group is in the catalog exactly when some file has it |
| MergeFiles.WellFormedMergeable | static/merge-crds.py:42-44 | when every resource is named and every `versions` is a list of named mappings, the loop does not fail |
| TypedCatalog.VersionRecord | src/lib/structure.ts:1-5 | a `CrdVersions` record as a mapping, named by its name |
| TypedCatalog.ResourceRecord | src/lib/structure.ts:7-12 | a `CrdResource` as a mapping, named by its name, with its versions as a list of named mappings |
| TypedCatalog.FileRecords | src/lib/structure.ts:14-16 | a `CrdVersionsMap` as the merge reads it, with the same groups in the same order |
| TypedCatalog.VersionRecordsInjective | src/lib/structure.ts:1-5 | a version list is determined by its mappings |
| TypedCatalog.ResourceRecordInjective | src/lib/structure.ts:7-12 | a resource is determined by its mapping: no field is lost in the reading |
| TypedCatalog.TypedWellFormed | src/lib/structure.ts:7-12 | a typed resource list is one the merge accepts |
| TypedCatalog.TypedFilesMergeable | src/lib/structure.ts:14-16 | catalogs of the declared shape always go through the group loop without failing |

## Left out

- File reading, YAML loading and dumping, and the command-line entry point of `static/merge-crds.py` (lines 39-41 and 50-56) are I/O and a foreign library. The loop takes the files as already parsed catalogs. An empty file (`yaml.load(f) or {}`) is a catalog with no groups.
- A YAML top level that is not a mapping, or a group whose value is not a list of mappings, is outside the model: files are typed as group-to-list-of-records catalogs.
- MergeCrds.MergeCrds: a resource or version without a `name` makes the program raise `KeyError`. The model requires string names (`AllNamed`) rather than modelling the exception. Names that are not strings are outside the model: `sorted` orders them when they are all numbers and raises when numbers meet strings.
- MergeCrds.CrdCombine: a stored or new `versions` that `merge_versions` cannot iterate as named mappings makes the program raise: `null`, a number or boolean, a non-empty mapping or string (its keys or characters have no `name`), or a list with an element that is not a mapping with a `name`. The model states this as the partial combination's precondition (`CrdsMergeable`, `Mergeable`) rather than modelling the exception. An empty mapping and an empty string iterate as nothing and are modelled as no versions.
- Field order within a record is not modelled: `update` keeps a record's old fields in place and appends new ones (static/merge-crds.py:15 and 27), and line 29 appends `versions` to a resource that had none. A record is a `map`, so the order of fields in the dumped YAML is outside the model.
- `versions: null` is not treated as an empty list. The code reads `.get("versions", [])`, which defaults only a missing key, so a null `versions` on a resource seen again is a raising case. The model follows the code.
- Python's in-place mutation and aliasing are not modelled. `update` changes the dicts of the earlier file, and objects shared through YAML anchors would change in every place they occur. The model describes the returned values only.
- `JSON.stringify` and `String(number)` are uninterpreted functions, the `Serializer`. The `catch` branches of `getDefault` and `getEnum` are not modelled: they are unreachable for the values a schema holds.
- `minimum`, `maximum` and numeric defaults are integers: the helpers only pass them on.
- JavaScript strings are UTF-16 code units; here they are sequences of Unicode characters. `trim` removes the ECMAScript WhiteSpace and LineTerminator characters.
- `stripResourcePrefixFQDN` on a non-string argument: the model's argument is a string, and "" stands for every falsy input.
- The OpenAPI schema wrapper types `OpenAPISchema` and `VersionSchema` (src/lib/structure.ts:49-68) only describe the input documents.
- src/lib/store.ts (reactive UI state) is not part of this model, nor are the Svelte routes and components that call these helpers.
