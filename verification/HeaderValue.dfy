/** The encoding of Mcp-Name and Mcp-Param header values: visible ASCII as it
    is, anything else as base64 of UTF-8 between sentinels. */
module HeaderValue {
  import opened Common
  import opened Text

  const B64_PREFIX: Text := Lit("=?base64?")
  const B64_SUFFIX: Text := Lit("?=")

  predicate Wrapped(s: Text) { StartsWith(s, B64_PREFIX) && EndsWith(s, B64_SUFFIX) }

  predicate FieldChar(c: CodePoint) { c == 0x09 || 0x20 <= c <= 0x7E }

  predicate Safe(value: Text) {
    && value == Strip(value)
    && (forall i :: 0 <= i < |value| ==> FieldChar(value[i]))
    && !Wrapped(value)
  }

  function Wrap(value: Text): Text { B64_PREFIX + Base64(Utf8(value)) + B64_SUFFIX }

  /** None is the UnicodeEncodeError of a lone surrogate. */
  function EncodeHeaderValue(value: Text): Option<Text> {
    if Safe(value) then Some(value)
    else if !Encodable(value) then None
    else Some(Wrap(value))
  }

  /** None is a base64 or UTF-8 error. A sentinel pair that overlaps leaves
      nothing between. */
  function DecodeHeaderValue(value: Text): Option<Text> {
    if Wrapped(value) then
      var from, to := |B64_PREFIX|, |value| - |B64_SUFFIX|;
      var bytes := Base64Decode(if from <= to then value[from..to] else []);
      if bytes.None? then None else Utf8Decode(bytes.value)
    else Some(value)
  }

  lemma WrapIsWrapped(value: Text)
    ensures Wrapped(Wrap(value))
    ensures Wrap(value)[|B64_PREFIX|..|Wrap(value)| - |B64_SUFFIX|] == Base64(Utf8(value))
  {
  }

  /** Every text without a lone surrogate encodes, and decoding gives it back. */
  lemma RoundTrip(value: Text)
    requires Encodable(value)
    ensures EncodeHeaderValue(value).Some?
    ensures DecodeHeaderValue(EncodeHeaderValue(value).value) == Some(value)
  {
    if !Safe(value) {
      WrapIsWrapped(value);
      Base64RoundTrip(Utf8(value));
      Utf8RoundTrip(value);
    }
  }

  /** Exactly the texts with a lone surrogate are refused. */
  lemma EncodesExactlyEncodable(value: Text)
    ensures EncodeHeaderValue(value).Some? <==> Encodable(value)
  {
    if Safe(value) {
      forall i | 0 <= i < |value| ensures !IsSurrogate(value[i]) {
        assert FieldChar(value[i]);
      }
    }
  }

  lemma Injective(v: Text, w: Text)
    requires EncodeHeaderValue(v).Some? && EncodeHeaderValue(v) == EncodeHeaderValue(w)
    ensures v == w
  {
    EncodesExactlyEncodable(v);
    EncodesExactlyEncodable(w);
    RoundTrip(v);
    RoundTrip(w);
  }

  lemma WrapIsFieldValue(value: Text, i: nat)
    requires i < |Wrap(value)|
    ensures 0x21 <= Wrap(value)[i] <= 0x7E
  {
    var b := Base64(Utf8(value));
    Base64Visible(Utf8(value));
    if i < 9 {
      assert Wrap(value)[i] == B64_PREFIX[i];
    } else if i < 9 + |b| {
      assert Wrap(value)[i] == b[i - 9];
    } else {
      assert Wrap(value)[i] == B64_SUFFIX[i - 9 - |b|];
    }
  }

  /** An encoded value is a legal field value: tab and visible ASCII only, with
      no whitespace at either end. */
  lemma EncodedIsFieldValue(value: Text)
    requires EncodeHeaderValue(value).Some?
    ensures var e := EncodeHeaderValue(value).value;
            NoOuterSpace(e) && forall i :: 0 <= i < |e| ==> FieldChar(e[i])
  {
    StripFixed(value);
    if !Safe(value) {
      var e := Wrap(value);
      forall i | 0 <= i < |e| ensures 0x21 <= e[i] <= 0x7E {
        WrapIsFieldValue(value, i);
      }
    }
  }

  /** A legal field value that does not itself look wrapped. */
  predicate Plain(value: Text) {
    && NoOuterSpace(value) && (forall i :: 0 <= i < |value| ==> value[i] == 0x09 || 0x20 <= value[i] <= 0x7E)
    && !(StartsWith(value, Lit("=?base64?")) && EndsWith(value, Lit("?=")))
  }

  /** A value is carried as it is exactly when it is plain; nothing else is ever
      wrapped, and everything else is, unless it has a lone surrogate. */
  lemma PlainExactlyWhen(value: Text)
    ensures Plain(value) ==> EncodeHeaderValue(value) == Some(value)
    ensures !Plain(value) && Encodable(value) ==>
              && EncodeHeaderValue(value) == Some(Lit("=?base64?") + Base64(Utf8(value)) + Lit("?="))
              && EncodeHeaderValue(value) != Some(value)
    ensures !Plain(value) && !Encodable(value) ==> EncodeHeaderValue(value) == None
  {
    StripFixed(value);
    if !Safe(value) && Wrap(value) == value {
      WrapIsWrapped(value);
      Utf8AtLeast(value);
      Base64Longer(Utf8(value));
      assert false;
    }
  }

  lemma {:induction false} Utf8AtLeast(s: Text)
    ensures |Utf8(s)| >= |s|
    decreases |s|
  {
    if s != [] { Utf8AtLeast(s[1..]); }
  }

  lemma {:induction false} Base64Longer(b: seq<Byte>)
    ensures |Base64(b)| >= |b|
    decreases |b|
  {
    if |b| > 2 { Base64Longer(b[3..]); }
  }
}
