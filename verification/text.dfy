/** The .NET string primitives the daemon relies on: ordinal searches,
    `char.IsWhiteSpace`, `Trim` and `Split(char)`. */
module Text {
  import opened Common

  /** `pat` occurs in `s` starting at index `i`. */
  predicate OccursAt(s: string, pat: string, i: int) {
    0 <= i && i + |pat| <= |s| && s[i..i + |pat|] == pat
  }

  /** `s.IndexOf(pat, from)` with ordinal comparison: the first index at or
      after `from` where `pat` occurs. */
  function IndexOf(s: string, pat: string, from: nat): (r: Option<nat>)
    ensures r.Some? ==> from <= r.value && OccursAt(s, pat, r.value)
    ensures r.Some? ==> forall j :: from <= j < r.value ==> !OccursAt(s, pat, j)
    ensures r.None? ==> forall j :: from <= j ==> !OccursAt(s, pat, j)
    decreases |s| - from
  {
    if |s| < from + |pat| then None
    else if s[from..from + |pat|] == pat then Some(from)
    else IndexOf(s, pat, from + 1)
  }

  /** `s.IndexOfAny(chars, from)` (and `s.IndexOf(c, from)` for one char):
      the first index at or after `from` holding one of `chars`. .NET throws
      when `from` exceeds the length, so callers must rule that out. */
  function IndexOfAny(s: string, chars: set<char>, from: nat): (r: Option<nat>)
    requires from <= |s|
    ensures r.Some? ==> from <= r.value < |s| && s[r.value] in chars
    ensures r.Some? ==> forall j :: from <= j < r.value ==> s[j] !in chars
    ensures r.None? ==> forall j :: from <= j < |s| ==> s[j] !in chars
    decreases |s| - from
  {
    if from == |s| then None
    else if s[from] in chars then Some(from)
    else IndexOfAny(s, chars, from + 1)
  }

  /** A character outside the Basic Multilingual Plane. A .NET string holds
      it as two UTF-16 code units (a surrogate pair) and indexes each half;
      here it is one element. */
  predicate IsAstral(c: char) {
    c as int > 0xFFFF
  }

  /** `char.IsWhiteSpace`: the Unicode space separators, the line and
      paragraph separators, and U+0009..U+000D, U+0085, U+00A0. */
  predicate IsWhiteSpace(c: char) {
    || ('\t' <= c <= '\r')
    || c == ' '
    || c == '\U{0085}'
    || c == '\U{00A0}'
    || c == '\U{1680}'
    || ('\U{2000}' <= c <= '\U{200A}')
    || c == '\U{2028}'
    || c == '\U{2029}'
    || c == '\U{202F}'
    || c == '\U{205F}'
    || c == '\U{3000}'
  }

  /** `s.TrimStart()`: drops the leading white space. */
  function TrimStart(s: string): (r: string)
    ensures |r| <= |s| && r == s[|s| - |r|..]
    ensures forall k :: 0 <= k < |s| - |r| ==> IsWhiteSpace(s[k])
    ensures r == [] || !IsWhiteSpace(r[0])
  {
    if s != [] && IsWhiteSpace(s[0]) then TrimStart(s[1..]) else s
  }

  /** `s.TrimEnd()`: drops the trailing white space. */
  function TrimEnd(s: string): (r: string)
    ensures |r| <= |s| && r == s[..|r|]
    ensures forall k :: |r| <= k < |s| ==> IsWhiteSpace(s[k])
    ensures r == [] || !IsWhiteSpace(r[|r| - 1])
  {
    if s != [] && IsWhiteSpace(s[|s| - 1]) then TrimEnd(s[..|s| - 1]) else s
  }

  /** `s.Trim()`: the contiguous middle of `s` that neither starts nor ends
      with white space, everything cut away being white space. */
  function Trim(s: string): (r: string)
    ensures exists i :: TrimmedAt(s, r, i)
    ensures r == [] || (!IsWhiteSpace(r[0]) && !IsWhiteSpace(r[|r| - 1]))
    ensures (forall k :: 0 <= k < |s| ==> !IsWhiteSpace(s[k])) ==> r == s
  {
    var a := TrimStart(s);
    var r := TrimEnd(a);
    TrimWitness(s, a, r);
    r
  }

  /** `Trim`'s promises, from what `TrimStart` gives (`a`) and what `TrimEnd`
      then gives (`r`). */
  lemma TrimWitness(s: string, a: string, r: string)
    requires |a| <= |s| && a == s[|s| - |a|..]
    requires forall k :: 0 <= k < |s| - |a| ==> IsWhiteSpace(s[k])
    requires a == [] || !IsWhiteSpace(a[0])
    requires |r| <= |a| && r == a[..|r|]
    requires forall k :: |r| <= k < |a| ==> IsWhiteSpace(a[k])
    requires r == [] || !IsWhiteSpace(r[|r| - 1])
    ensures exists i :: TrimmedAt(s, r, i)
    ensures r == [] || (!IsWhiteSpace(r[0]) && !IsWhiteSpace(r[|r| - 1]))
    ensures (forall k :: 0 <= k < |s| ==> !IsWhiteSpace(s[k])) ==> r == s
  {
    TrimSlice(s, a, r);
    if r != [] {
      assert r[0] == a[0];
    }
    if forall k :: 0 <= k < |s| ==> !IsWhiteSpace(s[k]) {
      TrimNothing(s, a, r);
    }
  }

  /** What `TrimStart` and `TrimEnd` promise, composed into one slice. */
  lemma TrimSlice(s: string, a: string, r: string)
    requires |a| <= |s| && a == s[|s| - |a|..]
    requires forall k :: 0 <= k < |s| - |a| ==> IsWhiteSpace(s[k])
    requires |r| <= |a| && r == a[..|r|]
    requires forall k :: |r| <= k < |a| ==> IsWhiteSpace(a[k])
    ensures TrimmedAt(s, r, |s| - |a|)
  {
    var i := |s| - |a|;
    assert r == s[i..i + |r|];
    forall k | i + |r| <= k < |s|
      ensures IsWhiteSpace(s[k])
    {
      assert s[k] == a[k - i];
    }
  }

  /** With no white space in `s`, neither half of the trim cuts anything. */
  lemma TrimNothing(s: string, a: string, r: string)
    requires |a| <= |s| && a == s[|s| - |a|..]
    requires forall k :: 0 <= k < |s| - |a| ==> IsWhiteSpace(s[k])
    requires |r| <= |a| && r == a[..|r|]
    requires forall k :: |r| <= k < |a| ==> IsWhiteSpace(a[k])
    requires forall k :: 0 <= k < |s| ==> !IsWhiteSpace(s[k])
    ensures r == s
  {
    NothingCutAtStart(s, |s| - |a|);
    assert a == s;
    NothingCutAtEnd(a, |r|);
  }

  lemma NothingCutAtStart(s: string, n: nat)
    requires n <= |s|
    requires forall k :: 0 <= k < n ==> IsWhiteSpace(s[k])
    requires forall k :: 0 <= k < |s| ==> !IsWhiteSpace(s[k])
    ensures n == 0
  {
    if |s| > 0 {
      assert !IsWhiteSpace(s[0]);
    }
  }

  lemma NothingCutAtEnd(s: string, n: nat)
    requires n <= |s|
    requires forall k :: n <= k < |s| ==> IsWhiteSpace(s[k])
    requires forall k :: 0 <= k < |s| ==> !IsWhiteSpace(s[k])
    ensures n == |s|
  {
    if |s| > 0 {
      assert !IsWhiteSpace(s[|s| - 1]);
    }
  }

  /** `r` is the slice of `s` starting at `i`, and everything of `s` around
      it is white space. */
  predicate TrimmedAt(s: string, r: string, i: int) {
    && 0 <= i <= |s| - |r|
    && r == s[i..i + |r|]
    && (forall k :: 0 <= k < i ==> IsWhiteSpace(s[k]))
    && (forall k :: i + |r| <= k < |s| ==> IsWhiteSpace(s[k]))
  }

  /** The inverse of `Split`: the parts glued back with `sep` between them. */
  function Join(parts: seq<string>, sep: char): string
    requires |parts| >= 1
  {
    if |parts| == 1 then parts[0] else parts[0] + [sep] + Join(parts[1..], sep)
  }

  /** `s.Split(sep)`: cuts at every `sep`, keeping empty pieces, so the result
      always holds at least one piece, even for the empty string. */
  function Split(s: string, sep: char): (parts: seq<string>)
    ensures |parts| >= 1
    ensures forall k :: 0 <= k < |parts| ==> sep !in parts[k]
    ensures Join(parts, sep) == s
    decreases |s|
  {
    match IndexOfAny(s, {sep}, 0)
    case None => [s]
    case Some(i) =>
      var rest := Split(s[i + 1..], sep);
      assert s == s[..i] + [sep] + s[i + 1..];
      [s[..i]] + rest
  }

  /** `Split` is the only way to cut `s` at its separators: any pieces free
      of `sep` that join back to `s` are exactly `Split(s, sep)`. */
  lemma {:induction false} SplitUnique(s: string, sep: char, parts: seq<string>)
    requires |parts| >= 1
    requires forall k :: 0 <= k < |parts| ==> sep !in parts[k]
    requires Join(parts, sep) == s
    ensures parts == Split(s, sep)
    decreases |parts|
  {
    if |parts| == 1 {
      assert sep !in s;
    } else {
      var rest := Join(parts[1..], sep);
      var p := parts[0];
      assert s == p + [sep] + rest;
      assert s[|p|] == sep;
      assert forall j :: 0 <= j < |p| ==> s[j] == p[j] && s[j] != sep;
      assert IndexOfAny(s, {sep}, 0) == Some(|p|);
      assert s[|p| + 1..] == rest;
      assert s[..|p|] == p;
      SplitUnique(rest, sep, parts[1..]);
    }
  }

  /** The first piece of a split is a prefix of the text, followed by the
      separator unless it is the whole text. */
  lemma FirstTokenIsPrefix(parts: seq<string>, sep: char)
    requires |parts| >= 1
    ensures parts[0] <= Join(parts, sep)
    ensures |parts| > 1 ==> Join(parts, sep)[|parts[0]|] == sep
    ensures |parts| == 1 ==> Join(parts, sep) == parts[0]
  {
    if |parts| > 1 {
      assert Join(parts, sep) == parts[0] + [sep] + Join(parts[1..], sep);
    }
  }
}
