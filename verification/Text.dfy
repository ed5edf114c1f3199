/** Python text as a sequence of code points (lone surrogates included), with
    the two byte codecs the header values use: UTF-8 and base64. */
module Text {
  import opened Common

  type CodePoint = c: int | 0 <= c < 0x11_0000

  type Text = seq<CodePoint>

  type Byte = b: int | 0 <= b < 256

  /** A Dafny string literal as text. */
  function Lit(s: string): (t: Text)
    ensures |t| == |s|
    ensures forall i :: 0 <= i < |s| ==> t[i] == s[i] as int
  {
    seq(|s|, i requires 0 <= i < |s| => s[i] as int)
  }

  predicate Ascii(s: Text) { forall i :: 0 <= i < |s| ==> s[i] < 0x80 }

  predicate StartsWith(s: Text, p: Text) { |p| <= |s| && s[..|p|] == p }

  predicate EndsWith(s: Text, p: Text) { |p| <= |s| && s[|s| - |p|..] == p }

  /** The characters str.strip removes. */
  predicate IsSpace(c: CodePoint) {
    || 0x09 <= c <= 0x0D || 0x1C <= c <= 0x20 || c == 0x85 || c == 0xA0 || c == 0x1680
    || 0x2000 <= c <= 0x200A || c == 0x2028 || c == 0x2029 || c == 0x202F || c == 0x205F || c == 0x3000
  }

  function StripLeft(s: Text): Text {
    if s != [] && IsSpace(s[0]) then StripLeft(s[1..]) else s
  }

  function StripRight(s: Text): Text {
    if s != [] && IsSpace(s[|s| - 1]) then StripRight(s[..|s| - 1]) else s
  }

  function Strip(s: Text): Text { StripRight(StripLeft(s)) }

  predicate NoOuterSpace(s: Text) {
    s != [] ==> !IsSpace(s[0]) && !IsSpace(s[|s| - 1])
  }

  lemma {:induction false} StripRightShrinks(s: Text)
    ensures |StripRight(s)| <= |s|
    ensures |StripRight(s)| == |s| <==> (s == [] || !IsSpace(s[|s| - 1]))
    decreases |s|
  {
    if s != [] && IsSpace(s[|s| - 1]) { StripRightShrinks(s[..|s| - 1]); }
  }

  lemma {:induction false} StripLeftShrinks(s: Text)
    ensures |StripLeft(s)| <= |s|
    ensures |StripLeft(s)| == |s| <==> (s == [] || !IsSpace(s[0]))
    decreases |s|
  {
    if s != [] && IsSpace(s[0]) { StripLeftShrinks(s[1..]); }
  }

  /** Stripping changes nothing exactly when neither end is a space. */
  lemma StripFixed(s: Text)
    ensures Strip(s) == s <==> NoOuterSpace(s)
  {
    StripLeftShrinks(s);
    StripRightShrinks(StripLeft(s));
  }

  /** Stripping cuts off whitespace at both ends, and all of it. */
  lemma StripCuts(s: Text) returns (i: nat, j: nat)
    ensures i <= j <= |s| && Strip(s) == s[i..j] && NoOuterSpace(Strip(s))
    ensures forall k :: 0 <= k < i || j <= k < |s| ==> IsSpace(s[k])
  {
    i := StripLeftCuts(s);
    var n := StripRightCuts(s[i..]);
    j := i + n;
    assert forall k :: j <= k < |s| ==> s[k] == s[i..][k - i];
  }

  lemma {:induction false} StripLeftCuts(s: Text) returns (i: nat)
    ensures i <= |s| && StripLeft(s) == s[i..] && (i == |s| || !IsSpace(s[i]))
    ensures forall k :: 0 <= k < i ==> IsSpace(s[k])
    decreases |s|
  {
    i := 0;
    if s != [] && IsSpace(s[0]) {
      i := StripLeftCuts(s[1..]);
      i := i + 1;
      assert forall k :: 0 < k < |s| ==> s[k] == s[1..][k - 1];
    }
  }

  lemma {:induction false} StripRightCuts(s: Text) returns (j: nat)
    ensures j <= |s| && StripRight(s) == s[..j] && (j == 0 || !IsSpace(s[j - 1]))
    ensures forall k :: j <= k < |s| ==> IsSpace(s[k])
    decreases |s|
  {
    j := |s|;
    if s != [] && IsSpace(s[|s| - 1]) {
      j := StripRightCuts(s[..|s| - 1]);
    }
  }

  // ----- decimal -----

  function Digit(d: int): CodePoint
    requires 0 <= d < 10
  {
    '0' as int + d
  }

  predicate IsDigit(c: CodePoint) { '0' as int <= c <= '9' as int }

  function NatText(n: nat): (t: Text)
    ensures t != [] && forall i :: 0 <= i < |t| ==> IsDigit(t[i])
  {
    if n < 10 then [Digit(n)] else NatText(n / 10) + [Digit(n % 10)]
  }

  function NatValue(t: Text): int {
    if t == [] then 0 else NatValue(t[..|t| - 1]) * 10 + (t[|t| - 1] as int - '0' as int)
  }

  lemma {:induction false} NatTextValue(n: nat)
    ensures NatValue(NatText(n)) == n
  {
    if n >= 10 {
      NatTextValue(n / 10);
      assert NatText(n)[..|NatText(n)| - 1] == NatText(n / 10);
    } else {
      assert NatText(n)[..0] == [];
    }
  }

  lemma NatTextInjective(m: nat, n: nat)
    requires NatText(m) == NatText(n)
    ensures m == n
  {
    NatTextValue(m);
    NatTextValue(n);
  }

  function IntText(n: int): Text {
    if n < 0 then ['-' as int] + NatText(-n) else NatText(n)
  }

  lemma IntTextInjective(m: int, n: int)
    requires IntText(m) == IntText(n)
    ensures m == n
  {
    IntTextSign(m);
    IntTextSign(n);
    if m < 0 && n < 0 {
      assert IntText(m)[1..] == NatText(-m) && IntText(n)[1..] == NatText(-n);
      NatTextInjective(-m, -n);
    } else if m >= 0 && n >= 0 {
      NatTextInjective(m, n);
    }
  }

  lemma IntTextSign(n: int)
    ensures IntText(n) != [] && (IntText(n)[0] == '-' as int <==> n < 0)
  {
    assert IsDigit(NatText(if n < 0 then -n else n)[0]);
  }

  /** The decimal digits of n, without a leading zero. */
  predicate Decimal(t: Text, n: nat) {
    t != [] && (forall i :: 0 <= i < |t| ==> IsDigit(t[i])) && NatValue(t) == n && (|t| > 1 ==> t[0] != '0' as int)
  }

  lemma {:induction false} NatTextDecimal(n: nat)
    ensures Decimal(NatText(n), n)
  {
    NatTextValue(n);
    if n >= 10 {
      NatTextDecimal(n / 10);
      if n / 10 < 10 { assert NatText(n)[0] == Digit(n / 10); }
    }
  }

  /** The last digit and the ones before it. */
  lemma DecimalParts(t: Text, n: nat)
    requires Decimal(t, n) && |t| > 1
    ensures n >= 10 && Decimal(t[..|t| - 1], n / 10) && t[|t| - 1] == '0' as int + n % 10
  {
    DecimalFrom(t[..|t| - 1]);
  }

  lemma {:induction false} DecimalFrom(t: Text)
    requires t != [] && (forall i :: 0 <= i < |t| ==> IsDigit(t[i])) && t[0] != '0' as int
    ensures NatValue(t) > 0
    decreases |t|
  {
    if |t| > 1 { DecimalFrom(t[..|t| - 1]); } else { assert t[..0] == []; }
  }

  lemma {:induction false} DecimalUnique(t: Text, n: nat)
    requires Decimal(t, n)
    ensures t == NatText(n)
    decreases |t|
  {
    if |t| == 1 {
      assert |t| - 1 == 0 && t[..0] == [] && NatValue(t[..0]) == 0;
      assert NatValue(t) == t[0] - '0' as int;
      assert t == [t[0]];
    } else {
      DecimalParts(t, n);
      DecimalUnique(t[..|t| - 1], n / 10);
      assert t == t[..|t| - 1] + [t[|t| - 1]];
    }
  }

  predicate SignedDecimal(x: Text, n: int) {
    if n < 0 then x != [] && x[0] == '-' as int && Decimal(x[1..], -n) else Decimal(x, n)
  }

  /** An integer's text is its only decimal without leading zeros. */
  lemma IntTextIs(x: Text, n: int)
    ensures IntText(n) == x <==> SignedDecimal(x, n)
  {
    NatTextDecimal(if n < 0 then -n else n);
    if n < 0 {
      assert IntText(n)[1..] == NatText(-n);
      if x != [] && x[0] == '-' as int && Decimal(x[1..], -n) {
        DecimalUnique(x[1..], -n);
        assert x == [x[0]] + x[1..];
      }
    } else if Decimal(x, n) {
      DecimalUnique(x, n);
    }
  }

  // ----- UTF-8 -----

  predicate IsSurrogate(c: CodePoint) { 0xD800 <= c < 0xE000 }

  predicate Encodable(s: Text) { forall i :: 0 <= i < |s| ==> !IsSurrogate(s[i]) }

  function Utf8One(c: CodePoint): seq<Byte> {
    if c < 0x80 then [c]
    else if c < 0x800 then [0xC0 + c / 64, 0x80 + c % 64]
    else if c < 0x1_0000 then [0xE0 + c / 4096, 0x80 + c / 64 % 64, 0x80 + c % 64]
    else [0xF0 + c / 262144, 0x80 + c / 4096 % 64, 0x80 + c / 64 % 64, 0x80 + c % 64]
  }

  function Utf8(s: Text): seq<Byte> {
    if s == [] then [] else Utf8One(s[0]) + Utf8(s[1..])
  }

  predicate IsTail(b: Byte) { 0x80 <= b < 0xC0 }

  /** What a byte stands above a marker. */
  function Above(b: Byte, marker: int): int { b as int - marker }

  datatype Lead = Lead(c: CodePoint, used: nat)

  function OneOf(c: int, least: nat, used: nat): (r: Option<Lead>)
    ensures r.Some? ==> r.value.used == used
  {
    if least <= c < 0x11_0000 && !IsSurrogate(c) then Some(Lead(c, used)) else None
  }

  /** The first scalar value of some bytes and how many bytes it took; None for
      stray, overlong, surrogate or out-of-range forms. */
  function Utf8First(b: seq<Byte>): (r: Option<Lead>)
    ensures r.Some? ==> 0 < r.value.used <= |b|
  {
    if |b| >= 1 && b[0] < 0x80 then Some(Lead(b[0], 1))
    else if |b| >= 2 && 0xC0 <= b[0] < 0xE0 && IsTail(b[1]) then
      OneOf(Above(b[0], 0xC0) * 64 + Above(b[1], 0x80), 0x80, 2)
    else if |b| >= 3 && 0xE0 <= b[0] < 0xF0 && IsTail(b[1]) && IsTail(b[2]) then
      OneOf((Above(b[0], 0xE0) * 64 + Above(b[1], 0x80)) * 64 + Above(b[2], 0x80), 0x800, 3)
    else if |b| >= 4 && 0xF0 <= b[0] < 0xF8 && IsTail(b[1]) && IsTail(b[2]) && IsTail(b[3]) then
      OneOf(((Above(b[0], 0xF0) * 64 + Above(b[1], 0x80)) * 64 + Above(b[2], 0x80)) * 64 + Above(b[3], 0x80),
            0x1_0000, 4)
    else None
  }

  function Utf8Decode(b: seq<Byte>): Option<Text> {
    if b == [] then Some([])
    else
      var first := Utf8First(b);
      if first.None? then None
      else
        var rest := Utf8Decode(b[first.value.used..]);
        if rest.None? then None else Some([first.value.c] + rest.value)
  }

  lemma Digits64(c: int)
    requires c >= 0
    ensures c == c / 64 * 64 + c % 64
    ensures c / 4096 == c / 64 / 64 && c / 262144 == c / 64 / 64 / 64
  {
  }

  lemma Utf8FirstOfOne(c: CodePoint, rest: seq<Byte>)
    requires !IsSurrogate(c)
    ensures Utf8First(Utf8One(c) + rest) == Some(Lead(c, |Utf8One(c)|))
  {
    Digits64(c);
    Digits64(c / 64);
    Digits64(c / 4096);
  }

  lemma {:induction false} Utf8RoundTrip(s: Text)
    requires Encodable(s)
    ensures Utf8Decode(Utf8(s)) == Some(s)
    decreases |s|
  {
    if s != [] {
      Utf8RoundTrip(s[1..]);
      Utf8FirstOfOne(s[0], Utf8(s[1..]));
      assert Utf8(s)[|Utf8One(s[0])|..] == Utf8(s[1..]);
      assert s == [s[0]] + s[1..];
    }
  }

  // ----- base64 (RFC 4648 section 4) -----

  const PAD: CodePoint := '=' as int

  function SixToChar(v: int): CodePoint
    requires 0 <= v < 64
  {
    if v < 26 then 'A' as int + v
    else if v < 52 then 'a' as int + (v - 26)
    else if v < 62 then '0' as int + (v - 52)
    else if v == 62 then '+' as int
    else '/' as int
  }

  function CharToSix(c: CodePoint): (v: Option<int>)
    ensures v.Some? ==> 0 <= v.value < 64
  {
    if 'A' as int <= c <= 'Z' as int then Some(c - 'A' as int)
    else if 'a' as int <= c <= 'z' as int then Some(c - 'a' as int + 26)
    else if '0' as int <= c <= '9' as int then Some(c - '0' as int + 52)
    else if c == '+' as int then Some(62)
    else if c == '/' as int then Some(63)
    else None
  }

  lemma SixRoundTrip(v: int)
    requires 0 <= v < 64
    ensures CharToSix(SixToChar(v)) == Some(v) && SixToChar(v) != PAD
    ensures 0x21 <= SixToChar(v) <= 0x7E
  {
  }

  function Group1(a: Byte): Text { [SixToChar(a / 4), SixToChar(a % 4 * 16), PAD, PAD] }

  function Group2(a: Byte, b: Byte): Text {
    [SixToChar(a / 4), SixToChar(a % 4 * 16 + b / 16), SixToChar(b % 16 * 4), PAD]
  }

  function Group3(a: Byte, b: Byte, c: Byte): Text {
    [SixToChar(a / 4), SixToChar(a % 4 * 16 + b / 16), SixToChar(b % 16 * 4 + c / 64), SixToChar(c % 64)]
  }

  function Base64(b: seq<Byte>): Text {
    if b == [] then []
    else if |b| == 1 then Group1(b[0])
    else if |b| == 2 then Group2(b[0], b[1])
    else Group3(b[0], b[1], b[2]) + Base64(b[3..])
  }

  /** The bytes of one group of four characters; padding only where allowed. */
  function Ungroup(q: Text, last: bool): Option<seq<Byte>>
    requires |q| == 4
  {
    var v, w, x, y := CharToSix(q[0]), CharToSix(q[1]), CharToSix(q[2]), CharToSix(q[3]);
    if v.None? || w.None? then None
    else if last && q[2] == PAD && q[3] == PAD then Some([v.value * 4 + w.value / 16])
    else if x.None? then None
    else if last && q[3] == PAD then Some([v.value * 4 + w.value / 16, w.value % 16 * 16 + x.value / 4])
    else if y.None? then None
    else Some([v.value * 4 + w.value / 16, w.value % 16 * 16 + x.value / 4, x.value % 4 * 64 + y.value])
  }

  function Base64Decode(s: Text): Option<seq<Byte>> {
    if s == [] then Some([])
    else if |s| < 4 then None
    else
      var head := Ungroup(s[..4], |s| == 4);
      if head.None? then None
      else
        var tail := Base64Decode(s[4..]);
        if tail.None? then None else Some(head.value + tail.value)
  }

  lemma Ungroup1(a: Byte)
    ensures Ungroup(Group1(a), true) == Some([a])
  {
    SixRoundTrip(a / 4);
    SixRoundTrip(a % 4 * 16);
  }

  lemma Ungroup2(a: Byte, b: Byte)
    ensures Ungroup(Group2(a, b), true) == Some([a, b])
  {
    SixRoundTrip(a / 4);
    SixRoundTrip(a % 4 * 16 + b / 16);
    SixRoundTrip(b % 16 * 4);
  }

  lemma Ungroup3(a: Byte, b: Byte, c: Byte, last: bool)
    ensures Ungroup(Group3(a, b, c), last) == Some([a, b, c])
  {
    SixRoundTrip(a / 4);
    SixRoundTrip(a % 4 * 16 + b / 16);
    SixRoundTrip(b % 16 * 4 + c / 64);
    SixRoundTrip(c % 64);
  }

  lemma DecodeStep(q: Text, rest: Text, head: seq<Byte>, tail: seq<Byte>)
    requires |q| == 4 && Ungroup(q, rest == []) == Some(head) && Base64Decode(rest) == Some(tail)
    ensures Base64Decode(q + rest) == Some(head + tail)
  {
    assert (q + rest)[..4] == q && (q + rest)[4..] == rest;
  }

  lemma LastOne(a: Byte)
    ensures Base64Decode(Base64([a])) == Some([a])
  {
    Ungroup1(a);
    DecodeStep(Group1(a), [], [a], []);
    assert Group1(a) + [] == Base64([a]) && [a] + [] == [a];
  }

  lemma LastTwo(a: Byte, b: Byte)
    ensures Base64Decode(Base64([a, b])) == Some([a, b])
  {
    Ungroup2(a, b);
    DecodeStep(Group2(a, b), [], [a, b], []);
    assert Group2(a, b) + [] == Base64([a, b]) && [a, b] + [] == [a, b];
  }

  lemma {:induction false} Base64RoundTrip(b: seq<Byte>)
    ensures Base64Decode(Base64(b)) == Some(b)
    decreases |b|
  {
    if |b| == 1 {
      LastOne(b[0]);
      assert b == [b[0]];
    } else if |b| == 2 {
      LastTwo(b[0], b[1]);
      assert b == [b[0], b[1]];
    } else if |b| > 2 {
      var rest := Base64(b[3..]);
      Base64RoundTrip(b[3..]);
      Ungroup3(b[0], b[1], b[2], rest == []);
      DecodeStep(Group3(b[0], b[1], b[2]), rest, [b[0], b[1], b[2]], b[3..]);
      assert b == [b[0], b[1], b[2]] + b[3..];
    }
  }

  lemma {:induction false} Base64Visible(b: seq<Byte>)
    ensures forall i :: 0 <= i < |Base64(b)| ==> 0x21 <= Base64(b)[i] <= 0x7E
    decreases |b|
  {
    if |b| > 2 { Base64Visible(b[3..]); }
  }
}
