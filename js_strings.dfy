/** The JavaScript string built-ins that the schema-field helpers rely on:
    `endsWith`, `trim`, `split` on a one-character separator, `join` and
    `indexOf`. Strings are sequences of characters; each function is given
    with the property that characterises it. */
module JsStrings {

  // ---------------------------------------------------------------- endsWith

  /** `s.endsWith(suffix)`. */
  predicate EndsWith(s: string, suffix: string) {
    |suffix| <= |s| && s[|s| - |suffix|..] == suffix
  }

  // ---------------------------------------------------------------- trim

  /** The code points that ECMAScript's `String.prototype.trim` removes: the
      WhiteSpace production (TAB, VT, FF, ZWNBSP and the Unicode category Zs)
      and the LineTerminator production (LF, CR, LS, PS). */
  predicate IsWhiteSpace(c: char) {
    || c == '\t' || c == '\U{000B}' || c == '\U{000C}' || c == ' '
    || c == '\U{00A0}' || c == '\U{1680}' || ('\U{2000}' <= c <= '\U{200A}')
    || c == '\U{202F}' || c == '\U{205F}' || c == '\U{3000}' || c == '\U{FEFF}'
    || c == '\n' || c == '\r' || c == '\U{2028}' || c == '\U{2029}'
  }

  /** `s` neither starts nor ends with white space. */
  predicate IsTrimmed(s: string) {
    s == [] || (!IsWhiteSpace(s[0]) && !IsWhiteSpace(s[|s| - 1]))
  }

  /** Drops the leading white space: the result is the longest suffix of `s`
      that does not start with white space. */
  function TrimStart(s: string): (r: string)
    ensures |r| <= |s| && r == s[|s| - |r|..]
    ensures forall k :: 0 <= k < |s| - |r| ==> IsWhiteSpace(s[k])
    ensures r != [] ==> !IsWhiteSpace(r[0])
  {
    if s != [] && IsWhiteSpace(s[0]) then TrimStart(s[1..]) else s
  }

  /** Drops the trailing white space: the result is the longest prefix of `s`
      that does not end with white space. */
  function TrimEnd(s: string): (r: string)
    ensures |r| <= |s| && r == s[..|r|]
    ensures forall k :: |r| <= k < |s| ==> IsWhiteSpace(s[k])
    ensures r != [] ==> !IsWhiteSpace(r[|r| - 1])
  {
    if s != [] && IsWhiteSpace(s[|s| - 1]) then TrimEnd(s[..|s| - 1]) else s
  }

  /** `s.trim()`. */
  function Trim(s: string): string {
    TrimEnd(TrimStart(s))
  }

  /** `s[..i]` and `s[j..]` are white space. */
  predicate WhiteOutside(s: string, i: int, j: int) {
    && 0 <= i <= j <= |s|
    && (forall k :: 0 <= k < i ==> IsWhiteSpace(s[k]))
    && (forall k :: j <= k < |s| ==> IsWhiteSpace(s[k]))
  }

  /** `trim` cuts `s` into white space, a trimmed middle and white space, and
      returns the middle. */
  lemma TrimSpec(s: string)
    ensures IsTrimmed(Trim(s))
    ensures exists i, j :: WhiteOutside(s, i, j) && Trim(s) == s[i..j]
  {
    var t := TrimStart(s);
    var r := TrimEnd(t);
    var i := |s| - |t|;
    var j := i + |r|;
    assert r == s[i..j] by {
      assert t == s[i..] && r == t[..|r|];
    }
    assert r != [] ==> r[0] == t[0];
    forall k | j <= k < |s| ensures IsWhiteSpace(s[k]) {
      assert s[k] == t[k - i];
    }
    assert WhiteOutside(s, i, j);
  }

  /** A trimmed string is its own `trim`. */
  lemma TrimOfTrimmed(s: string)
    requires IsTrimmed(s)
    ensures Trim(s) == s
  {
  }

  /** `trim` is idempotent. */
  lemma TrimIdempotent(s: string)
    ensures Trim(Trim(s)) == Trim(s)
  {
    TrimSpec(s);
    TrimOfTrimmed(Trim(s));
  }

  // ---------------------------------------------------------------- split and join

  /** Number of occurrences of `c` in `s`. */
  function Count(s: string, c: char): nat {
    if s == [] then 0 else (if s[0] == c then 1 else 0) + Count(s[1..], c)
  }

  /** `s.split(c)` for a one-character separator: the maximal pieces between
      occurrences of `c`, so `"".split(c) == [""]`. */
  function Split(s: string, c: char): (parts: seq<string>)
    ensures |parts| >= 1
  {
    if s == [] then [""]
    else
      var rest := Split(s[1..], c);
      if s[0] == c then [""] + rest else [[s[0]] + rest[0]] + rest[1..]
  }

  /** `parts.join(sep)`. */
  function Join(parts: seq<string>, sep: string): string {
    if parts == [] then ""
    else if |parts| == 1 then parts[0]
    else parts[0] + sep + Join(parts[1..], sep)
  }

  /** `split` yields one piece more than there are separators, and no piece
      contains the separator. */
  lemma {:induction false} SplitCount(s: string, c: char)
    ensures |Split(s, c)| == Count(s, c) + 1
    ensures forall i :: 0 <= i < |Split(s, c)| ==> c !in Split(s, c)[i]
  {
    if s != [] {
      SplitCount(s[1..], c);
    }
  }

  /** Joining the pieces of a split with the separator gives back the string. */
  lemma {:induction false} JoinSplit(s: string, c: char)
    ensures Join(Split(s, c), [c]) == s
  {
    if s != [] {
      var rest := Split(s[1..], c);
      JoinSplit(s[1..], c);
      if s[0] == c {
        assert Join([""] + rest, [c]) == "" + [c] + Join(rest, [c]);
      } else {
        var parts := [[s[0]] + rest[0]] + rest[1..];
        assert parts[1..] == rest[1..];
        if |rest| > 1 {
          assert rest == [rest[0]] + rest[1..];
          assert Join(rest, [c]) == rest[0] + [c] + Join(rest[1..], [c]);
        }
      }
    }
  }

  /** Splitting a join of separator-free pieces gives back the pieces. */
  lemma {:induction false} SplitJoin(parts: seq<string>, c: char)
    requires |parts| >= 1
    requires forall i :: 0 <= i < |parts| ==> c !in parts[i]
    ensures Split(Join(parts, [c]), c) == parts
  {
    if |parts| == 1 {
      SplitPiece(parts[0], c);
    } else {
      SplitJoin(parts[1..], c);
      SplitAfterPiece(parts[0], Join(parts[1..], [c]), c);
    }
  }

  /** A string without the separator splits into itself. */
  lemma {:induction false} SplitPiece(p: string, c: char)
    requires c !in p
    ensures Split(p, c) == [p]
  {
    if p != [] {
      SplitPiece(p[1..], c);
      assert [p[0]] + p[1..] == p;
    }
  }

  /** A separator-free piece followed by the separator is the first part. */
  lemma {:induction false} SplitAfterPiece(p: string, t: string, c: char)
    requires c !in p
    ensures Split(p + [c] + t, c) == [p] + Split(t, c)
  {
    if p == [] {
      assert [c] + t == p + [c] + t;
      assert ([c] + t)[1..] == t;
    } else {
      assert (p + [c] + t)[0] == p[0] != c;
      assert (p + [c] + t)[1..] == p[1..] + [c] + t;
      SplitAfterPiece(p[1..], t, c);
      assert [p[0]] + p[1..] == p;
    }
  }

  /** Index of the first occurrence of `c` in `s`. */
  function FirstIndex(s: string, c: char): (i: nat)
    requires c in s
    ensures i < |s| && s[i] == c && c !in s[..i]
  {
    if s[0] == c then 0 else 1 + FirstIndex(s[1..], c)
  }

  /** The first separator after a separator-free prefix is right after it. */
  lemma {:induction false} FirstIndexAfter(p: string, t: string, c: char)
    requires c !in p
    ensures FirstIndex(p + [c] + t, c) == |p|
  {
    var s := p + [c] + t;
    if p != [] {
      assert s[0] == p[0] != c;
      assert s[1..] == p[1..] + [c] + t;
      FirstIndexAfter(p[1..], t, c);
    }
  }

  /** Dropping the first piece of a split and joining the rest gives the text
      after the first separator. */
  lemma DropFirstPiece(s: string, c: char)
    requires c in s
    ensures Split(s, c)[0] == s[..FirstIndex(s, c)]
    ensures Join(Split(s, c)[1..], [c]) == s[FirstIndex(s, c) + 1..]
  {
    var i := FirstIndex(s, c);
    assert s == s[..i] + [c] + s[i + 1..];
    SplitAfterPiece(s[..i], s[i + 1..], c);
    JoinSplit(s[i + 1..], c);
  }

  /** Separators in a concatenation add up. */
  lemma {:induction false} CountAppend(a: string, b: string, c: char)
    ensures Count(a + b, c) == Count(a, c) + Count(b, c)
  {
    if a != [] {
      assert (a + b)[0] == a[0];
      assert (a + b)[1..] == a[1..] + b;
      CountAppend(a[1..], b, c);
    } else {
      assert a + b == b;
    }
  }

  // ---------------------------------------------------------------- indexOf

  /** `needle` occurs in `s` at position `k`. */
  predicate OccursAt(s: string, needle: string, k: int) {
    0 <= k && k + |needle| <= |s| && s[k..k + |needle|] == needle
  }

  /** `s.indexOf(needle, from)`: the first position at or after `from` where
      `needle` occurs, or -1 when there is none. */
  function IndexOfFrom(s: string, needle: string, from: nat): (r: int)
    requires from <= |s|
    ensures r == -1 || (from <= r && OccursAt(s, needle, r))
    ensures forall k :: from <= k && (r == -1 || k < r) ==> !OccursAt(s, needle, k)
    decreases |s| - from
  {
    if from + |needle| > |s| then -1
    else if s[from..from + |needle|] == needle then from
    else IndexOfFrom(s, needle, from + 1)
  }

  /** `s.indexOf(needle)`. */
  function IndexOf(s: string, needle: string): int {
    IndexOfFrom(s, needle, 0)
  }

  /** `needle` occurs nowhere in `s`. */
  predicate SeparatorFree(s: string, needle: string) {
    forall k :: 0 <= k <= |s| ==> !OccursAt(s, needle, k)
  }

  /** A separator of two different characters first occurs in a join of
      separator-free parts right after the first part, and not at all when
      there is only one part. */
  lemma JoinFirstSeparator(parts: seq<string>, sep: string)
    requires |parts| >= 1 && |sep| == 2 && sep[0] != sep[1]
    requires forall i :: 0 <= i < |parts| ==> SeparatorFree(parts[i], sep)
    ensures |parts| == 1 ==> IndexOf(Join(parts, sep), sep) == -1
    ensures |parts| > 1 ==> IndexOf(Join(parts, sep), sep) == |parts[0]|
  {
    var j := Join(parts, sep);
    var p := parts[0];
    assert SeparatorFree(p, sep);
    if |parts| > 1 {
      assert j == p + sep + Join(parts[1..], sep);
      assert j[|p|..|p| + 2] == sep;
      forall k | 0 <= k < |p|
        ensures !OccursAt(j, sep, k)
      {
        if k + 2 <= |p| {
          assert j[k..k + 2] == p[k..k + 2];
          assert !OccursAt(p, sep, k);
        } else {
          assert j[k + 1] == sep[0];
        }
      }
      assert OccursAt(j, sep, |p|);
    }
  }

  /** Joining with a separator of two different characters is injective on
      non-empty lists of separator-free parts. */
  lemma {:induction false} JoinInjective(a: seq<string>, b: seq<string>, sep: string)
    requires |a| >= 1 && |b| >= 1 && |sep| == 2 && sep[0] != sep[1]
    requires forall i :: 0 <= i < |a| ==> SeparatorFree(a[i], sep)
    requires forall i :: 0 <= i < |b| ==> SeparatorFree(b[i], sep)
    requires Join(a, sep) == Join(b, sep)
    ensures a == b
  {
    JoinFirstSeparator(a, sep);
    JoinFirstSeparator(b, sep);
    if |a| == 1 {
      assert |b| == 1;
      assert a == [a[0]] && b == [b[0]];
    } else {
      assert |b| > 1 && |a[0]| == |b[0]|;
      var j := Join(a, sep);
      assert j == a[0] + sep + Join(a[1..], sep);
      assert j == b[0] + sep + Join(b[1..], sep);
      assert a[0] == j[..|a[0]|] == b[0];
      assert Join(a[1..], sep) == j[|a[0]| + 2..] == Join(b[1..], sep);
      JoinInjective(a[1..], b[1..], sep);
      assert a == [a[0]] + a[1..] && b == [b[0]] + b[1..];
    }
  }
}
