/** Display metadata of one schema field. Each extractor reads the field's
    own metadata and, for an array field, falls back exactly one level into
    its `items`; all of them are total. */
module Functions {
  import opened Wrappers
  import opened Structure
  import opened JsStrings

  // ---------------------------------------------------------------- the fallback chain

  /** The schema that nested rendering continues with: an array's items,
      any other field itself. */
  function Scope(s: Schema): (r: Schema)
    ensures s.ArraySchema? ==> r == s.items
    ensures !s.ArraySchema? ==> r == s
  {
    if s.ArraySchema? then s.items else s
  }

  /** The chain ends at the scope, and the scope moves away from the field
      exactly when the field is an array. */
  lemma ScopeEndsChain(s: Schema)
    ensures MetaChain(s)[|MetaChain(s)| - 1] == Scope(s).meta
    ensures Scope(s) != s <==> s.ArraySchema?
  {
    if s.ArraySchema? {
      assert s.items < s;
    }
  }

  /** The metadata records an extractor may consult, in order: the field's
      own, then, for an array only, that of its items. Never deeper. */
  function MetaChain(s: Schema): (chain: seq<Meta>)
    ensures 1 <= |chain| <= 2 && chain[0] == s.meta
    ensures |chain| == 2 <==> s.ArraySchema?
    ensures |chain| == 2 ==> chain[1] == Scope(s).meta
  {
    if s.ArraySchema? then [s.meta, s.items.meta] else [s.meta]
  }

  /** One attribute read off every record of a chain. */
  function Project<T>(chain: seq<Meta>, attr: Meta -> T): (vals: seq<T>)
    ensures |vals| == |chain|
    ensures forall i :: 0 <= i < |chain| ==> vals[i] == attr(chain[i])
  {
    seq(|chain|, i requires 0 <= i < |chain| => attr(chain[i]))
  }

  /** The first present value that `keep` accepts, trying candidates in order. */
  function FirstKept<T>(vals: seq<Option<T>>, keep: T -> bool): (r: Option<T>)
    ensures r.Some? ==> keep(r.value)
    ensures r.Some? ==> exists i :: (&& 0 <= i < |vals| && vals[i] == r
                                    && forall j :: 0 <= j < i ==> !(vals[j].Some? && keep(vals[j].value)))
    ensures r.None? ==> forall i :: 0 <= i < |vals| ==> !(vals[i].Some? && keep(vals[i].value))
  {
    if vals == [] then None
    else if vals[0].Some? && keep(vals[0].value) then vals[0]
    else
      var r := FirstKept(vals[1..], keep);
      assert forall i :: 1 <= i < |vals| ==> vals[i] == vals[1..][i - 1];
      r
  }

  /** A JavaScript string attribute is truthy when present and non-empty. */
  predicate Truthy(v: Option<string>) {
    v.Some? && v.value != ""
  }

  // ---------------------------------------------------------------- extractors

  /** getDescription: the field's own non-empty description; otherwise an
      array shows the type name of its items and any other field shows "". */
  function Description(s: Schema): string {
    if Truthy(s.meta.description) then s.meta.description.value
    else if s.ArraySchema? then TypeName(s.items.Type())
    else ""
  }

  /** How getDefault turns a default that is not a string into text:
      `JSON.stringify` for values whose `typeof` is "object" (null, arrays,
      objects) and `String` for numbers, both left uninterpreted. */
  datatype Serializer = Serializer(stringify: Json -> string, numberText: int -> string)

  /** `typeof d === 'object' ? JSON.stringify(d) : String(d)`. */
  function Text(d: Json, ser: Serializer): string {
    match d
    case JNull => ser.stringify(d)
    case JArray(_) => ser.stringify(d)
    case JObject(_) => ser.stringify(d)
    case JString(str) => str
    case JBool(b) => if b then "true" else "false"
    case JNumber(n) => ser.numberText(n)
  }

  /** The default getDefault settles on: the field's own when defined (a
      null default counts), else its items' for an array. */
  function DefaultValue(s: Schema): Option<Json> {
    if s.meta.default.Some? then s.meta.default
    else if s.ArraySchema? then s.items.meta.default
    else None
  }

  /** getDefault: the text of the chosen default, "" when there is none. */
  function Default(s: Schema, ser: Serializer): string {
    match DefaultValue(s)
    case None => ""
    case Some(d) => Text(d, ser)
  }

  /** getEnumArray: the field's own enum whenever it has one, even an empty
      one; otherwise an array's items enum. */
  function EnumArray(s: Schema): Option<seq<string>> {
    if s.meta.enum.Some? then s.meta.enum
    else if s.ArraySchema? then s.items.meta.enum
    else None
  }

  /** getEnum: `[v1, v2, …]`, or "" when the enum is absent or empty. */
  function EnumText(s: Schema): string {
    var e := EnumArray(s);
    if e.None? || |e.value| == 0 then "" else "[" + Join(e.value, ", ") + "]"
  }

  /** getFormat: the field's own non-empty format, else an array's non-empty
      items format, else "". */
  function Format(s: Schema): string {
    if Truthy(s.meta.format) then s.meta.format.value
    else if s.ArraySchema? && Truthy(s.items.meta.format) then s.items.meta.format.value
    else ""
  }

  /** getMinimum: the field's own minimum when defined (0 included), else an
      array's items minimum; None stands for `undefined`. */
  function Minimum(s: Schema): Option<int> {
    if s.meta.minimum.Some? then s.meta.minimum
    else if s.ArraySchema? then s.items.meta.minimum
    else None
  }

  /** getMaximum: as getMinimum, for the maximum. */
  function Maximum(s: Schema): Option<int> {
    if s.meta.maximum.Some? then s.meta.maximum
    else if s.ArraySchema? then s.items.meta.maximum
    else None
  }

  // ---------------------------------------------------------------- string helpers

  /** hashExistDeep: whether `currentId` occurs in `hash`. */
  function HashExistDeep(hash: string, currentId: string): (r: bool)
    ensures r <==> exists k :: OccursAt(hash, currentId, k)
  {
    IndexOf(hash, currentId) != -1
  }

  /** The domain whose resource names get their first label stripped. */
  const Suffix: string := ".eda.nokia.com"

  /** stripResourcePrefixFQDN ("" stands for every falsy input). */
  function StripResourcePrefixFQDN(fqdn: string): string {
    if fqdn == "" then fqdn
    else
      var trimmed := Trim(fqdn);
      if !EndsWith(trimmed, Suffix) then trimmed
      else
        var parts := Split(trimmed, '.');
        if |parts| < 3 then trimmed else Join(parts[1..], ".")
  }

  // ---------------------------------------------------------------- properties

  /** Every extractor but getDescription is "the first acceptable value along
      the chain": own metadata first, then an array's items. */
  lemma FallbackChain(s: Schema)
    ensures Format(s) == FirstKept(Project(MetaChain(s), (m: Meta) => m.format), (f: string) => f != "").GetOr("")
    ensures Minimum(s) == FirstKept(Project(MetaChain(s), (m: Meta) => m.minimum), (x: int) => true)
    ensures Maximum(s) == FirstKept(Project(MetaChain(s), (m: Meta) => m.maximum), (x: int) => true)
    ensures EnumArray(s) == FirstKept(Project(MetaChain(s), (m: Meta) => m.enum), (e: seq<string>) => true)
    ensures DefaultValue(s) == FirstKept(Project(MetaChain(s), (m: Meta) => m.default), (d: Json) => true)
  {
    var chain := MetaChain(s);
    if s.ArraySchema? {
      assert chain == [s.meta, s.items.meta];
    } else {
      assert chain == [s.meta];
    }
  }

  /** The fallback looks one level into `items` and no further: for an array
      of arrays, metadata of the innermost items is never reached. */
  lemma OneLevelOnly(s: Schema)
    requires s.ArraySchema? && s.items.ArraySchema?
    requires s.meta.minimum.None? && s.items.meta.minimum.None?
    requires s.meta.format.None? && s.items.meta.format.None?
    requires s.meta.enum.None? && s.items.meta.enum.None?
    requires s.meta.default.None? && s.items.meta.default.None?
    ensures Minimum(s).None? && Format(s) == "" && EnumText(s) == ""
    ensures forall ser :: Default(s, ser) == ""
    ensures Description(s) == "array" || Truthy(s.meta.description)
  {
  }

  /** getDescription never yields "" for an array, and yields "" for any
      other field exactly when it has no non-empty description. */
  lemma DescriptionEmpty(s: Schema)
    ensures s.ArraySchema? ==> Description(s) != ""
    ensures !s.ArraySchema? ==> (Description(s) == "" <==> !Truthy(s.meta.description))
    ensures Truthy(s.meta.description) ==> Description(s) == s.meta.description.value
    ensures s.ArraySchema? && !Truthy(s.meta.description) ==> Description(s) == TypeName(s.items.Type())
  {
  }

  /** How getDefault renders each kind of default: an object and an explicit
      null go through JSON.stringify, a number through String, a string and a
      boolean as their text. */
  lemma DefaultExamples(m: Meta, ser: Serializer, fields: map<string, Json>)
    ensures Default(PrimitiveSchema(m.(default := Some(JObject(fields))), IntegerType), ser) == ser.stringify(JObject(fields))
    ensures Default(PrimitiveSchema(m.(default := Some(JNumber(5))), IntegerType), ser) == ser.numberText(5)
    ensures Default(PrimitiveSchema(m.(default := Some(JString("x"))), StringType), ser) == "x"
    ensures Default(PrimitiveSchema(m.(default := Some(JNull)), StringType), ser) == ser.stringify(JNull)
    ensures Default(PrimitiveSchema(m.(default := Some(JBool(false))), BooleanType), ser) == "false"
  {
  }

  /** A field's own enum, even an empty one, hides its items' enum: swapping
      the items of an array field for any other schema changes neither
      getEnumArray nor getEnum. */
  lemma OwnEnumHidesItems(m: Meta, items: Schema, other: Schema)
    requires m.enum.Some?
    ensures EnumArray(ArraySchema(m, items)) == EnumArray(ArraySchema(m, other)) == m.enum
    ensures EnumText(ArraySchema(m, items)) == EnumText(ArraySchema(m, other))
  {
  }

  /** The rendered enum text determines the enum, as long as no value
      contains the separator ", ": two fields with the same non-empty getEnum
      text have the same getEnumArray. */
  lemma EnumTextDetermines(s: Schema, t: Schema)
    requires SeparatorFreeEnum(s) && SeparatorFreeEnum(t)
    requires EnumText(s) != "" && EnumText(s) == EnumText(t)
    ensures EnumArray(s) == EnumArray(t)
  {
    var x := EnumText(s);
    var e, f := EnumArray(s).value, EnumArray(t).value;
    assert Join(e, ", ") == x[1..|x| - 1];
    assert Join(f, ", ") == x[1..|x| - 1];
    JoinInjective(e, f, ", ");
  }

  /** No value of the field's enum contains ", ". */
  predicate SeparatorFreeEnum(s: Schema) {
    EnumArray(s).Some? ==>
      forall i :: 0 <= i < |EnumArray(s).value| ==> SeparatorFree(EnumArray(s).value[i], ", ")
  }

  /** Every enum value can be found in the rendered enum text. */
  lemma EnumTextMentionsValues(s: Schema, i: nat)
    requires EnumArray(s).Some? && i < |EnumArray(s).value|
    ensures HashExistDeep(EnumText(s), EnumArray(s).value[i])
  {
    var e := EnumArray(s).value;
    var k := JoinMentions(e, ", ", i);
    var t := EnumText(s);
    assert t == "[" + Join(e, ", ") + "]";
    assert t[k + 1..k + 1 + |e[i]|] == Join(e, ", ")[k..k + |e[i]|];
    assert OccursAt(t, e[i], k + 1);
  }

  /** Each part of a join occurs in it. */
  lemma {:induction false} JoinMentions(parts: seq<string>, sep: string, i: nat) returns (k: nat)
    requires i < |parts|
    ensures OccursAt(Join(parts, sep), parts[i], k)
  {
    if |parts| == 1 {
      k := 0;
    } else if i == 0 {
      k := 0;
      assert Join(parts, sep) == parts[0] + (sep + Join(parts[1..], sep));
    } else {
      var k' := JoinMentions(parts[1..], sep, i - 1);
      var rest := Join(parts[1..], sep);
      k := |parts[0]| + |sep| + k';
      assert Join(parts, sep) == (parts[0] + sep) + rest;
      assert Join(parts, sep)[k..k + |parts[i]|] == rest[k'..k' + |parts[i]|];
    }
  }

  /** `["a","b"]` renders as exactly `[a, b]`, on the field or on its items. */
  lemma EnumExample(m: Meta, im: Meta)
    requires im.enum == Some(["a", "b"])
    ensures EnumText(PrimitiveSchema(m.(enum := Some(["a", "b"])), StringType)) == "[a, b]"
    ensures EnumText(ArraySchema(m.(enum := None), PrimitiveSchema(im, StringType))) == "[a, b]"
    ensures EnumText(ArraySchema(m.(enum := Some([])), PrimitiveSchema(im, StringType))) == ""
  {
    assert Join(["a", "b"], ", ") == "a, b" by {
      assert Join(["a", "b"][1..], ", ") == "b";
    }
  }

  /** getFormat skips an empty format; getMinimum keeps a 0. */
  lemma TruthinessVersusDefinedness(m: Meta, im: Meta)
    requires m.format == Some("") && im.format == Some("int32")
    requires m.minimum == Some(0) && im.minimum == Some(5)
    ensures Format(ArraySchema(m, PrimitiveSchema(im, IntegerType))) == "int32"
    ensures Minimum(ArraySchema(m, PrimitiveSchema(im, IntegerType))) == Some(0)
    ensures Format(PrimitiveSchema(m, IntegerType)) == ""
  {
  }

  /** hashExistDeep of the empty id is always true. */
  lemma EmptyIdExists(hash: string)
    ensures HashExistDeep(hash, "")
  {
    assert OccursAt(hash, "", 0);
  }

  /** The suffix has three dots, so a name ending in it has at least four
      labels and the "fewer than three parts" guard can never fire. */
  lemma SuffixGuardUnreachable(t: string)
    requires EndsWith(t, Suffix)
    ensures |Split(t, '.')| >= 4
  {
    var n := |t| - |Suffix|;
    assert t == t[..n] + Suffix;
    CountAppend(t[..n], Suffix, '.');
    SplitCount(t, '.');
  }

  /** What stripResourcePrefixFQDN makes of an already trimmed name: a name
      of the domain loses the text up to and including its first dot, any
      other name is kept. */
  function AfterFirstLabel(t: string): string {
    if EndsWith(t, Suffix) then
      assert t[|t| - |Suffix|] == '.';
      t[FirstIndex(t, '.') + 1..]
    else t
  }

  /** stripResourcePrefixFQDN returns "" unchanged and otherwise cuts the
      first label off the trimmed name when it ends in `.eda.nokia.com`. */
  lemma StripSpec(fqdn: string)
    ensures StripResourcePrefixFQDN(fqdn) == if fqdn == "" then "" else AfterFirstLabel(Trim(fqdn))
  {
    if fqdn != "" && EndsWith(Trim(fqdn), Suffix) {
      var t := Trim(fqdn);
      assert t[|t| - |Suffix|] == '.';
      SuffixGuardUnreachable(t);
      DropFirstPiece(t, '.');
    }
  }

  /** What is left of a name of the domain is shorter and still ends in
      `eda.nokia.com`. */
  lemma AfterFirstLabelKeepsDomain(t: string)
    requires EndsWith(t, Suffix)
    ensures |AfterFirstLabel(t)| < |t|
    ensures EndsWith(AfterFirstLabel(t), Suffix[1..])
  {
    var n := |t| - |Suffix|;
    assert t[n] == '.';
    var i := FirstIndex(t, '.');
    assert i <= n;
    var r := t[i + 1..];
    assert r[|r| - |Suffix[1..]|..] == t[n + 1..];
  }

  /** A name `first.rest` of the domain, with a dot-free first label, loses
      exactly that label. */
  lemma StripFirstLabel(first: string, rest: string)
    requires '.' !in first
    requires IsTrimmed(first + "." + rest)
    requires EndsWith("." + rest, Suffix)
    ensures StripResourcePrefixFQDN(first + "." + rest) == rest
  {
    var t := first + "." + rest;
    LabelKeepsSuffix(first, rest);
    TrimOfTrimmed(t);
    StripSpec(t);
    FirstIndexAfter(first, rest, '.');
    assert t[|first| + 1..] == rest;
  }

  lemma LabelKeepsSuffix(first: string, rest: string)
    requires EndsWith("." + rest, Suffix)
    ensures EndsWith(first + "." + rest, Suffix)
  {
    var t := first + "." + rest;
    assert ("." + rest)[|"." + rest| - |Suffix|..] == t[|t| - |Suffix|..];
  }

  /** `ntpclients.timing.eda.nokia.com` becomes `timing.eda.nokia.com`. */
  lemma StripExampleResource(a: string)
    requires a == "ntpclients.timing.eda.nokia.com"
    ensures StripResourcePrefixFQDN(a) == "timing.eda.nokia.com"
  {
    ExampleResourceParts(a);
    ExampleResourceTrimmed(a);
    ExampleResourceSuffix(".timing.eda.nokia.com");
    StripFirstLabel("ntpclients", "timing.eda.nokia.com");
  }

  lemma ExampleResourceParts(a: string)
    requires a == "ntpclients.timing.eda.nokia.com"
    ensures a == "ntpclients" + "." + "timing.eda.nokia.com" && '.' !in "ntpclients"
  {
  }

  lemma ExampleResourceTrimmed(a: string)
    requires a == "ntpclients.timing.eda.nokia.com"
    ensures IsTrimmed(a)
  {
  }

  lemma ExampleResourceSuffix(r: string)
    requires r == ".timing.eda.nokia.com"
    ensures EndsWith(r, Suffix)
  {
    assert r[|r| - |Suffix|..] == r[7..];
  }

  /** The bare domain and a foreign name are returned unchanged. */
  lemma StripExamplesUnchanged()
    ensures StripResourcePrefixFQDN("eda.nokia.com") == "eda.nokia.com"
    ensures StripResourcePrefixFQDN("foo.bar.com") == "foo.bar.com"
  {
    TrimOfTrimmed("eda.nokia.com");
    TrimOfTrimmed("foo.bar.com");
  }
}
