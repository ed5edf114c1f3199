/** The canonical text of a value, read by the JSON grammar (RFC 8259): it is a
    writing of that value, without whitespace. */
module JsonWriting {
  import opened Common
  import opened Text
  import opened JsonText
  import opened JsonMerge
  import opened BracketDepth

  // ----- reading string literals -----

  function HexDigitValue(c: CodePoint): nat
    requires IsHex(c)
  {
    if IsDigit(c) then c - '0' as int else if c >= 'a' as int then c - 'a' as int + 10 else c - 'A' as int + 10
  }

  function HexValue(t: Text): nat
    requires forall i :: 0 <= i < |t| ==> IsHex(t[i])
  {
    if t == [] then 0 else HexValue(t[..|t| - 1]) * 16 + HexDigitValue(t[|t| - 1])
  }

  /** The unit that an escape letter stands for (RFC 8259 section 7). */
  function LetterUnit(c: CodePoint): int {
    if c == 'b' as int then 8
    else if c == 't' as int then 9
    else if c == 'n' as int then 10
    else if c == 'f' as int then 12
    else if c == 'r' as int then 13
    else c
  }

  /** The UTF-16 code units that the body of a string literal spells. */
  function Unescaped(b: Text): seq<int>
    requires LiteralBody(b)
    decreases |b|
  {
    if b == [] then []
    else if b[0] != BACKSLASH then Units([b[0]]) + Unescaped(b[1..])
    else if EscapeLetter(b[1]) then [LetterUnit(b[1])] + Unescaped(b[2..])
    else [HexValue(b[2..6])] + Unescaped(b[6..])
  }

  lemma {:induction false} HexReads(u: nat, n: nat)
    requires u < Pow16(n)
    ensures forall i :: 0 <= i < |Hex(u, n)| ==> IsHex(Hex(u, n)[i])
    ensures HexValue(Hex(u, n)) == u
    decreases n
  {
    if n > 0 {
      HexReads(u / 16, n - 1);
      assert Hex(u, n)[..n - 1] == Hex(u / 16, n - 1);
    }
  }

  lemma EscapeReads(u: Unit, rest: Text)
    requires LiteralBody(rest)
    ensures LiteralBody(EscapeUnit(u) + rest) && Unescaped(EscapeUnit(u) + rest) == [u as int] + Unescaped(rest)
  {
    var b := EscapeUnit(u) + rest;
    if ShortEscape(u).Some? {
      assert b[2..] == rest;
    } else if 0x20 <= u <= 0x7E {
      assert b[1..] == rest;
      OwnUnit(u);
    } else {
      Pow16Of4();
      HexReads(u, 4);
      assert b[2..6] == Hex(u, 4) && b[6..] == rest;
      assert forall i :: 2 <= i < 6 ==> b[i] == b[2..6][i - 2];
    }
  }

  lemma OwnUnit(u: Unit)
    ensures Units([u as int]) == [u]
  {
    assert [u as int][1..] == [];
  }

  lemma {:induction false} EscapesRead(us: seq<Unit>)
    ensures LiteralBody(EscapeUnits(us)) && Unescaped(EscapeUnits(us)) == us
    decreases |us|
  {
    if us != [] {
      EscapesRead(us[1..]);
      EscapeReads(us[0], EscapeUnits(us[1..]));
      assert us == [us[0]] + us[1..];
    }
  }

  // ----- reading values -----

  /** The written value, without whitespace, says this value. */
  ghost predicate Says(w: Written, v: Json)
    decreases w
  {
    match w
    case Word(t) =>
      || (v == Null && t == Lit("null")) || (v == Bool(true) && t == Lit("true"))
      || (v == Bool(false) && t == Lit("false")) || v == Float(t)
      || (v.Int? && SignedDecimal(t, v.n))
    case Literal(b) => v.Str? && LiteralBody(b) && Unescaped(b) == Units(v.s)
    case Array(pad, es) => pad == [] && v.Arr? && SayItems(es, v.items)
    case Object(pad, ms) => pad == [] && v.Obj? && SayFields(ms, v.fields)
  }

  ghost predicate SayItems(es: Elems, xs: Items)
    decreases es
  {
    match es
    case NoElems => xs.NoItems?
    case Elem(before, w, after, rest) =>
      before == [] && after == [] && xs.Item? && Says(w, xs.head) && SayItems(rest, xs.tail)
  }

  ghost predicate SayFields(ms: Members, fs: Fields)
    decreases ms
  {
    match ms
    case NoMembers => fs.NoFields?
    case Member(before, key, afterKey, beforeValue, w, after, rest) =>
      && before == [] && afterKey == [] && beforeValue == [] && after == [] && fs.Field?
      && LiteralBody(key) && Unescaped(key) == Units(fs.key) && Says(w, fs.value) && SayFields(rest, fs.rest)
  }

  // ----- the canonical text -----

  lemma {:induction false} CanonicalText(v: Json) returns (w: Written)
    requires Printable(v)
    ensures Show(w) == Dumps(v) && WellWritten(w) && Says(w, v) && Nesting(w) == JsonNesting(v)
    decreases v, 0
  {
    match v
    case Str(s) =>
      w := Literal(EscapeUnits(Units(s)));
      TextRead(s);
    case Arr(items) =>
      var es := CanonicalItems(items);
      w := Array([], es);
      assert Show(w) == Char('[') + ShowElems(es);
    case Obj(fields) =>
      var ms := CanonicalFields(fields);
      w := Object([], ms);
      assert Show(w) == Char('{') + ShowMembers(ms);
    case _ =>
      w := Written.Word(JsonText.Word(v));
      WordRead(v);
  }

  lemma TextRead(s: Text)
    ensures var w := Literal(EscapeUnits(Units(s))); Show(w) == Quoted(s) && WellWritten(w) && Says(w, Str(s))
  {
    EscapesRead(Units(s));
    assert Quote(EscapeUnits(Units(s))) == Quoted(s);
  }

  lemma WordRead(v: Json)
    requires Printable(v) && !v.Str? && !v.Arr? && !v.Obj?
    ensures var w := Written.Word(JsonText.Word(v)); WellWritten(w) && Says(w, v)
  {
    if v.Int? {
      IntTextIs(IntText(v.n), v.n);
      if v.n < 0 {
        assert forall i :: 0 < i < |IntText(v.n)| ==> IntText(v.n)[i] == IntText(v.n)[1..][i - 1];
      }
    }
  }

  lemma {:induction false} CanonicalItems(xs: Items) returns (es: Elems)
    requires PrintableItems(xs)
    ensures ShowElems(es) == DumpsItems(xs) && WellElems(es) && SayItems(es, xs)
    ensures ElemsNesting(es) == ItemsNesting(xs)
    decreases xs, 1
  {
    if xs.NoItems? {
      es := NoElems;
    } else {
      var w := CanonicalText(xs.head);
      var rest := CanonicalItems(xs.tail);
      es := Elem([], w, [], rest);
      OneElem(w, rest);
      assert rest.NoElems? <==> xs.tail.NoItems?;
    }
  }

  lemma OneElem(w: Written, rest: Elems)
    ensures ShowElems(Elem([], w, [], rest)) == Show(w) + AfterElem(rest)
  {
    assert [] + (Show(w) + ([] + AfterElem(rest))) == Show(w) + AfterElem(rest);
  }

  lemma {:induction false} CanonicalFields(fs: Fields) returns (ms: Members)
    requires PrintableFields(fs)
    ensures ShowMembers(ms) == DumpsFields(fs) && WellMembers(ms) && SayFields(ms, fs)
    ensures MembersNesting(ms) == FieldsNesting(fs)
    decreases fs, 1
  {
    if fs.NoFields? {
      ms := NoMembers;
    } else {
      var key := EscapeUnits(Units(fs.key));
      EscapesRead(Units(fs.key));
      var w := CanonicalText(fs.value);
      var rest := CanonicalFields(fs.rest);
      ms := Member([], key, [], [], w, [], rest);
      var after := if rest.NoMembers? then Char('}') else Char(',') + ShowMembers(rest);
      assert rest.NoMembers? <==> fs.rest.NoFields?;
      assert Quote(key) == Quoted(fs.key);
      OneMember(Quote(key), Show(w), after);
    }
  }

  lemma OneMember(key: Text, value: Text, after: Text)
    ensures [] + (key + ([] + (Char(':') + ([] + (value + ([] + after))))))
            == key + (Char(':') + (value + after))
  {
    assert [] + after == after && [] + (value + after) == value + after;
    assert [] + (Char(':') + (value + after)) == Char(':') + (value + after);
  }

  /** So the bracket scanner reads off a value's canonical text how deep it nests. */
  lemma CanonicalDepth(v: Json)
    requires Printable(v)
    ensures DepthOf(Dumps(v)) == JsonNesting(v)
  {
    var w := CanonicalText(v);
    ScannerReadsNesting([], w, []);
    assert [] + Show(w) + [] == Dumps(v);
  }
}
