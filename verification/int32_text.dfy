/** Decimal text for 32-bit integers: `int.ToString()` and `int.TryParse`
    with the default `NumberStyles.Integer` and the invariant signs `+`, `-`. */
module Int32Text {
  import opened Common

  const MinInt32: int := -0x8000_0000
  const MaxInt32: int := 0x7FFF_FFFF

  /** A C# `int`. */
  type int32 = n: int | MinInt32 <= n <= MaxInt32

  predicate IsDigit(c: char) {
    '0' <= c <= '9'
  }

  predicate AllDigits(s: string) {
    forall k :: 0 <= k < |s| ==> IsDigit(s[k])
  }

  function DigitValue(c: char): (d: nat)
    requires IsDigit(c)
    ensures d < 10
  {
    (c as int) - ('0' as int)
  }

  function DigitChar(d: nat): (c: char)
    requires d < 10
    ensures IsDigit(c) && DigitValue(c) == d
  {
    ('0' as int + d) as char
  }

  /** The number a run of decimal digits denotes, most significant first. */
  function DigitsValue(s: string): nat
    requires AllDigits(s)
  {
    if s == [] then 0 else DigitsValue(s[..|s| - 1]) * 10 + DigitValue(s[|s| - 1])
  }

  /** The shortest decimal rendering of `n`, without leading zeros. */
  function NatDigits(n: nat): (r: string)
    ensures |r| >= 1 && AllDigits(r)
    ensures DigitsValue(r) == n
    ensures r[0] == '0' ==> n == 0
  {
    if n < 10 then [DigitChar(n)]
    else
      var r := NatDigits(n / 10) + [DigitChar(n % 10)];
      assert r[..|r| - 1] == NatDigits(n / 10);
      r
  }

  /** `n.ToString()`: a minus sign for negative numbers, then the digits. */
  function FormatInt32(n: int32): (r: string)
    ensures 1 <= |r| <= 11
    ensures forall k :: 0 <= k < |r| ==> IsDigit(r[k]) || (k == 0 && r[k] == '-')
    // canonical: a sign exactly for negatives, and no leading zeros
    ensures r[0] == '-' <==> n < 0
    ensures r[0] == '0' ==> r == "0"
    ensures n < 0 ==> |r| >= 2 && r[1] != '0'
  {
    assert Pow10(10) == 10_000_000_000;
    NatDigitsLength(if n < 0 then -(n as int) else n as int, 10);
    if n < 0 then "-" + NatDigits(-(n as int)) else NatDigits(n as int)
  }

  lemma {:induction false} NatDigitsLength(n: nat, k: nat)
    requires 1 <= k && n < Pow10(k)
    ensures |NatDigits(n)| <= k
    decreases k
  {
    if n >= 10 {
      assert k >= 2;
      NatDigitsLength(n / 10, k - 1);
    }
  }

  function Pow10(k: nat): nat {
    if k == 0 then 1 else 10 * Pow10(k - 1)
  }

  /** The white space `NumberStyles.AllowLeadingWhite` and
      `AllowTrailingWhite` accept: U+0009..U+000D and the space. */
  predicate IsParseWhite(c: char) {
    c == ' ' || '\t' <= c <= '\r'
  }

  function SkipParseWhite(s: string): (r: string)
    ensures |r| <= |s| && r == s[|s| - |r|..]
    ensures forall k :: 0 <= k < |s| - |r| ==> IsParseWhite(s[k])
    ensures r == [] || !IsParseWhite(r[0])
  {
    if s != [] && IsParseWhite(s[0]) then SkipParseWhite(s[1..]) else s
  }

  /** The longest prefix of `s` made of decimal digits. */
  function LeadingDigits(s: string): (r: string)
    ensures r <= s && AllDigits(r)
    ensures |r| == |s| || !IsDigit(s[|r|])
  {
    if s != [] && IsDigit(s[0]) then
      var r := [s[0]] + LeadingDigits(s[1..]);
      assert s == [s[0]] + s[1..];
      r
    else []
  }

  /** What may follow the digits: white space, then NUL characters, which
      .NET ignores at the end of a number. */
  predicate TrailingAccepted(s: string) {
    var t := SkipParseWhite(s);
    forall k :: 0 <= k < |t| ==> t[k] == '\0'
  }

  /** `int.TryParse(s, out v)`: leading white space, an optional sign, at
      least one digit, then only what `TrailingAccepted` allows; the value
      must fit in 32 bits. `None` is the `false` return. */
  function ParseInt32(s: string): (r: Option<int32>)
    ensures r.Some? ==> exists k :: 0 <= k < |s| && IsDigit(s[k])
  {
    var a := SkipParseWhite(s);
    if a == [] then None
    else
      var r := ParseSigned(a);
      if r.Some? then
        assert IsDigit(s[|s| - |a| + MagnitudeStart(a)]);
        r
      else r
  }

  /** Where the digits start once the white space is skipped: after the sign. */
  function MagnitudeStart(a: string): nat {
    if a != [] && (a[0] == '-' || a[0] == '+') then 1 else 0
  }

  /** The number after the leading white space: an optional sign, then the
      magnitude. */
  function ParseSigned(a: string): (r: Option<int32>)
    requires a != []
    ensures r.Some? ==> MagnitudeStart(a) < |a| && IsDigit(a[MagnitudeStart(a)])
  {
    ParseMagnitude(a[MagnitudeStart(a)..], a[0] == '-')
  }

  /** The digits and what may follow them. */
  function ParseMagnitude(b: string, negative: bool): (r: Option<int32>)
    ensures r.Some? ==> b != [] && IsDigit(b[0])
  {
    var digits := LeadingDigits(b);
    if digits == [] || !TrailingAccepted(b[|digits|..]) then None
    else Signed(DigitsValue(digits), negative)
  }

  /** The magnitude with its sign, if the result fits in 32 bits. */
  function Signed(magnitude: nat, negative: bool): (r: Option<int32>)
    ensures r.Some? <==> (if negative then magnitude <= -MinInt32 else magnitude <= MaxInt32)
    ensures r.Some? ==> r.value as int == if negative then -(magnitude as int) else magnitude
  {
    var v: int := if negative then -(magnitude as int) else magnitude;
    if MinInt32 <= v <= MaxInt32 then Some(v) else None
  }

  /** A run of digits alone is read as its value, with the sign applied. */
  lemma MagnitudeOfDigits(ds: string, negative: bool)
    requires |ds| >= 1 && AllDigits(ds)
    ensures ParseMagnitude(ds, negative) == Signed(DigitsValue(ds), negative)
  {
    LeadingDigitsOfDigits(ds);
    assert ds[|ds|..] == [];
    assert SkipParseWhite([]) == [];
  }

  /** Whatever `ToString` renders, `TryParse` reads back. */
  lemma ParseFormatRoundTrip(n: int32)
    ensures ParseInt32(FormatInt32(n)) == Some(n)
  {
    var m: nat := if n < 0 then -(n as int) else n as int;
    var ds := NatDigits(m);
    MagnitudeOfDigits(ds, n < 0);
    if n < 0 {
      var s := "-" + ds;
      assert FormatInt32(n) == s;
      NoLeadingWhite(s);
      assert s[1..] == ds;
    } else {
      assert FormatInt32(n) == ds;
      NoLeadingWhite(ds);
      assert ds[0..] == ds;
    }
  }

  /** Non-empty text that does not start with parse white space goes
      straight to the sign and magnitude. */
  lemma NoLeadingWhite(a: string)
    requires a != [] && !IsParseWhite(a[0])
    ensures ParseInt32(a) == ParseSigned(a)
  {
    assert SkipParseWhite(a) == a;
  }

  lemma LeadingDigitsOfDigits(s: string)
    requires AllDigits(s)
    ensures LeadingDigits(s) == s
  {
  }

  /** A run of one or more digits parses to the number it denotes exactly
      when that number fits in an `int`: overflow is a parse failure. */
  lemma ParseDigits(s: string)
    requires |s| >= 1 && AllDigits(s)
    ensures ParseInt32(s) == if DigitsValue(s) <= MaxInt32 then Some(DigitsValue(s) as int32) else None
  {
    NoLeadingWhite(s);
    assert s[0..] == s;
    assert ParseSigned(s) == ParseMagnitude(s, false);
    MagnitudeOfDigits(s, false);
  }

  /** Text without a single decimal digit never parses, the empty string
      included. */
  lemma ParseNeedsDigit(s: string)
    requires forall k :: 0 <= k < |s| ==> !IsDigit(s[k])
    ensures ParseInt32(s) == None
  {
  }

  /** A character that can have no place in text `TryParse` accepts: not a
      digit, not white space, not a sign and not a trailing NUL. */
  predicate IsForeign(c: char) {
    !IsDigit(c) && !IsParseWhite(c) && c != '+' && c != '-' && c != '\0'
  }

  /** The complete grammar, accepting side: white space, an optional sign,
      a maximal run of digits (leading zeros allowed), then a tail. The text
      parses exactly when the tail is white space followed by NULs, and then
      to the signed value of the digits. */
  lemma ParseLayout(w: string, sign: string, ds: string, tail: string)
    requires forall k :: 0 <= k < |w| ==> IsParseWhite(w[k])
    requires sign == "" || sign == "+" || sign == "-"
    requires |ds| >= 1 && AllDigits(ds)
    requires tail == [] || !IsDigit(tail[0])
    ensures ParseInt32(w + sign + ds + tail) ==
              if TrailingAccepted(tail) then Signed(DigitsValue(ds), sign == "-") else None
  {
    var b := ds + tail;
    var v := if TrailingAccepted(tail) then Signed(DigitsValue(ds), sign == "-") else None;
    assert ParseMagnitude(b, sign == "-") == v by { MagnitudeLayout(ds, tail, sign == "-"); }
    assert ParseSigned(sign + b) == v by { SignedLayout(sign, b); }
    assert ParseInt32(w + (sign + b)) == v by { ParseAfterWhite(w, sign + b); }
    Regroup(w, sign, ds, tail);
  }

  /** The complete grammar, rejecting side: when no digit follows the white
      space and the optional sign, the text does not parse. With
      `ParseLayout` this covers every text, split at its longest white
      prefix and its sign. */
  lemma ParseNoDigits(w: string, sign: string, rest: string)
    requires forall k :: 0 <= k < |w| ==> IsParseWhite(w[k])
    requires sign == "" || sign == "+" || sign == "-"
    requires rest == [] || !IsDigit(rest[0])
    requires sign == "" && rest != [] ==> !IsParseWhite(rest[0]) && rest[0] != '+' && rest[0] != '-'
    ensures ParseInt32(w + sign + rest) == None
  {
    var a := sign + rest;
    assert w + sign + rest == w + a;
    SkipWhitePrefix(w, a);
    if a != [] {
      assert MagnitudeStart(a) == |sign|;
      assert a[|sign|..] == rest;
      assert LeadingDigits(rest) == [];
    }
  }

  /** Explicitly signed digits, leading zeros included: `+42` reads 42 and
      `-007` reads -7. */
  lemma ParseSignedDigits(ds: string, negative: bool)
    requires |ds| >= 1 && AllDigits(ds)
    ensures ParseInt32((if negative then "-" else "+") + ds) == Signed(DigitsValue(ds), negative)
  {
    var sign := if negative then "-" else "+";
    var v := Signed(DigitsValue(ds), negative);
    assert ParseMagnitude(ds, negative) == v by { MagnitudeOfDigits(ds, negative); }
    assert ParseSigned(sign + ds) == v by { SignedLayout(sign, ds); }
    NoLeadingWhite(sign + ds);
  }

  /** A single foreign character anywhere makes the text unparsable:
      `42abc` and `0x1A` give `false`. */
  lemma ParseRejectsForeign(s: string, k: nat)
    requires k < |s| && IsForeign(s[k])
    ensures ParseInt32(s) == None
  {
    var a := SkipParseWhite(s);
    var off := |s| - |a|;
    assert k >= off;
    assert ParseSigned(a) == None by {
      assert a[k - off] == s[k];
      ForeignSigned(a, k - off);
    }
    ParseAfterSkip(s);
  }

  lemma {:induction false} SkipWhitePrefix(w: string, rest: string)
    requires forall k :: 0 <= k < |w| ==> IsParseWhite(w[k])
    requires rest == [] || !IsParseWhite(rest[0])
    ensures SkipParseWhite(w + rest) == rest
  {
    if w == [] {
      assert w + rest == rest;
    } else {
      assert (w + rest)[1..] == w[1..] + rest;
      SkipWhitePrefix(w[1..], rest);
    }
  }

  lemma {:induction false} LeadingDigitsPrefix(ds: string, tail: string)
    requires AllDigits(ds)
    requires tail == [] || !IsDigit(tail[0])
    ensures LeadingDigits(ds + tail) == ds
  {
    if ds == [] {
      assert ds + tail == tail;
    } else {
      assert (ds + tail)[1..] == ds[1..] + tail;
      LeadingDigitsPrefix(ds[1..], tail);
    }
  }

  /** After an optional sign, the magnitude starts at the first digit. */
  lemma SignedLayout(sign: string, b: string)
    requires sign == "" || sign == "+" || sign == "-"
    requires b != [] && IsDigit(b[0])
    ensures ParseSigned(sign + b) == ParseMagnitude(b, sign == "-")
  {
    var a := sign + b;
    assert MagnitudeStart(a) == |sign|;
    assert a[|sign|..] == b;
    assert a[0] == '-' <==> sign == "-";
  }

  /** A maximal digit run followed by a tail: the tail decides. */
  lemma MagnitudeLayout(ds: string, tail: string, negative: bool)
    requires |ds| >= 1 && AllDigits(ds)
    requires tail == [] || !IsDigit(tail[0])
    ensures ParseMagnitude(ds + tail, negative) ==
              if TrailingAccepted(tail) then Signed(DigitsValue(ds), negative) else None
  {
    LeadingDigitsPrefix(ds, tail);
    assert (ds + tail)[|ds|..] == tail;
  }

  lemma ParseAfterSkip(s: string)
    requires SkipParseWhite(s) != []
    ensures ParseInt32(s) == ParseSigned(SkipParseWhite(s))
  {
  }

  lemma Regroup(w: string, sign: string, ds: string, tail: string)
    ensures w + sign + ds + tail == w + (sign + (ds + tail))
  {
  }

  /** Leading white space is skipped, whatever follows it. */
  lemma ParseAfterWhite(w: string, a: string)
    requires forall k :: 0 <= k < |w| ==> IsParseWhite(w[k])
    requires a != [] && !IsParseWhite(a[0])
    ensures ParseInt32(w + a) == ParseSigned(a)
  {
    SkipWhitePrefix(w, a);
  }

  lemma ForeignSigned(a: string, i: nat)
    requires i < |a| && IsForeign(a[i])
    ensures ParseSigned(a) == None
  {
    var m := MagnitudeStart(a);
    if i >= m {
      ForeignMagnitude(a[m..], a[0] == '-', i - m);
    }
  }

  lemma ForeignMagnitude(b: string, negative: bool, i: nat)
    requires i < |b| && IsForeign(b[i])
    ensures ParseMagnitude(b, negative) == None
  {
    var digits := LeadingDigits(b);
    if digits != [] {
      assert i >= |digits|;
      ForeignNotTrailing(b[|digits|..], i - |digits|);
    }
  }

  lemma ForeignNotTrailing(t: string, i: nat)
    requires i < |t| && IsForeign(t[i])
    ensures !TrailingAccepted(t)
  {
    var u := SkipParseWhite(t);
    var j := i - (|t| - |u|);
    assert u[j] == t[i];
  }
}
