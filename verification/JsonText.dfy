/** JSON values and the compact, ASCII-escaped text json.dumps gives them. The
    text of a value is self-delimiting, so it determines the value. */
module JsonText {
  import opened Common
  import opened Text

  /** A parsed JSON value. A number written with a fraction, an exponent or as
      NaN or an infinity keeps its literal; dicts are lists of fields. */
  datatype Json =
    | Null
    | Bool(b: bool)
    | Int(n: int)
    | Float(lit: Text)
    | Str(s: Text)
    | Arr(items: Items)
    | Obj(fields: Fields)

  datatype Items = NoItems | Item(head: Json, tail: Items)

  datatype Fields = NoFields | Field(key: Text, value: Json, rest: Fields)

  // ----- string literals -----

  type Unit = u: int | 0 <= u < 0x1_0000

  /** The UTF-16 code units of a text; a lone surrogate is its own unit. */
  function Units(s: Text): seq<Unit> {
    if s == [] then []
    else if s[0] < 0x1_0000 then [s[0]] + Units(s[1..])
    else [0xD800 + (s[0] - 0x1_0000) / 1024, 0xDC00 + (s[0] - 0x1_0000) % 1024] + Units(s[1..])
  }

  predicate IsHigh(c: int) { 0xD800 <= c < 0xDC00 }

  predicate IsLow(c: int) { 0xDC00 <= c < 0xE000 }

  /** No high surrogate directly before a low one: what every decoder yields. */
  predicate NoSplitPair(s: Text) {
    forall i {:trigger s[i]} :: 0 < i < |s| ==> !(IsHigh(s[i - 1]) && IsLow(s[i]))
  }

  lemma FirstUnit(s: Text)
    requires s != []
    ensures |Units(s)| > 0
    ensures s[0] < 0x1_0000 ==> Units(s)[0] == s[0] && Units(s)[1..] == Units(s[1..])
    ensures s[0] >= 0x1_0000 ==>
              (&& |Units(s)| > 1 && IsHigh(Units(s)[0]) && IsLow(Units(s)[1])
               && s[0] == 0x1_0000 + (Units(s)[0] as int - 0xD800) * 1024 + (Units(s)[1] as int - 0xDC00)
               && Units(s)[2..] == Units(s[1..]))
  {
  }

  /** A text starting with a low surrogate unit starts with that code point. */
  lemma LowFirst(s: Text)
    requires s != [] && IsLow(Units(s)[0])
    ensures IsLow(s[0])
  {
    FirstUnit(s);
  }

  lemma PairIsSplit(a: Text, b: Text)
    requires a != [] && b != [] && a[0] >= 0x1_0000 && b[0] < 0x1_0000 && Units(a) == Units(b)
    ensures !NoSplitPair(b)
  {
    FirstUnit(a);
    FirstUnit(b);
    assert Units(b)[1] == Units(b)[1..][0];
    assert Units([]) == [];
    assert b[1..] != [];
    LowFirst(b[1..]);
    assert b[1] == b[1..][0];
  }

  lemma TailNoSplit(s: Text)
    requires NoSplitPair(s) && s != []
    ensures NoSplitPair(s[1..])
  {
    forall i | 0 < i < |s[1..]| ensures !(IsHigh(s[1..][i - 1]) && IsLow(s[1..][i])) {
      assert s[1..][i] == s[i + 1] && s[1..][i - 1] == s[i];
    }
  }

  lemma {:induction false} UnitsInjective(a: Text, b: Text)
    requires NoSplitPair(a) && NoSplitPair(b) && Units(a) == Units(b)
    ensures a == b
    decreases |a|
  {
    if a != [] && b != [] {
      FirstUnit(a);
      FirstUnit(b);
      if a[0] >= 0x1_0000 && b[0] < 0x1_0000 {
        PairIsSplit(a, b);
      } else if a[0] < 0x1_0000 && b[0] >= 0x1_0000 {
        PairIsSplit(b, a);
      }
      assert a[0] == b[0];
      TailNoSplit(a);
      TailNoSplit(b);
      UnitsInjective(a[1..], b[1..]);
      assert a == [a[0]] + a[1..] && b == [b[0]] + b[1..];
    } else if a != [] {
      FirstUnit(a);
    } else if b != [] {
      FirstUnit(b);
    }
  }

  const QUOTE: CodePoint := '\"' as int
  const BACKSLASH: CodePoint := '\\' as int

  function HexDigit(d: int): CodePoint
    requires 0 <= d < 16
  {
    if d < 10 then '0' as int + d else 'a' as int + (d - 10)
  }

  /** The last n hex digits of u. */
  function Hex(u: nat, n: nat): (t: Text)
    ensures |t| == n
  {
    if n == 0 then [] else Hex(u / 16, n - 1) + [HexDigit(u % 16)]
  }

  /** The letter of a two-character escape, None for units without one. */
  function ShortEscape(u: Unit): (c: Option<CodePoint>) {
    if u == QUOTE then Some(QUOTE)
    else if u == BACKSLASH then Some(BACKSLASH)
    else if u == 0x0A then Some('n' as int)
    else if u == 0x0D then Some('r' as int)
    else if u == 0x09 then Some('t' as int)
    else if u == 0x0C then Some('f' as int)
    else if u == 0x08 then Some('b' as int)
    else None
  }

  function EscapeUnit(u: Unit): Text {
    if ShortEscape(u).Some? then [BACKSLASH, ShortEscape(u).value]
    else if 0x20 <= u <= 0x7E then [u]
    else [BACKSLASH, 'u' as int] + Hex(u, 4)
  }

  function EscapeUnits(us: seq<Unit>): Text {
    if us == [] then [] else EscapeUnit(us[0]) + EscapeUnits(us[1..])
  }

  function Quoted(s: Text): Text { [QUOTE] + EscapeUnits(Units(s)) + [QUOTE] }

  function Pow16(n: nat): nat { if n == 0 then 1 else 16 * Pow16(n - 1) }

  lemma {:induction false} HexInjective(u: nat, v: nat, n: nat)
    requires u < Pow16(n) && v < Pow16(n) && Hex(u, n) == Hex(v, n)
    ensures u == v
    decreases n
  {
    if n > 0 {
      assert Hex(u, n)[n - 1] == HexDigit(u % 16) && Hex(v, n)[n - 1] == HexDigit(v % 16);
      assert Hex(u, n)[..n - 1] == Hex(u / 16, n - 1) && Hex(v, n)[..n - 1] == Hex(v / 16, n - 1);
      HexInjective(u / 16, v / 16, n - 1);
    }
  }

  lemma Pow16Of4()
    ensures Pow16(4) == 0x1_0000
  {
    assert Pow16(2) == 256;
  }

  lemma EscapePrefixFree(u: Unit, x: Text, v: Unit, y: Text)
    requires EscapeUnit(u) + x == EscapeUnit(v) + y
    ensures u == v && x == y
  {
    var s, t := EscapeUnit(u) + x, EscapeUnit(v) + y;
    assert s[0] == EscapeUnit(u)[0] && t[0] == EscapeUnit(v)[0];
    if s[0] == BACKSLASH {
      assert s[1] == EscapeUnit(u)[1] && t[1] == EscapeUnit(v)[1];
      if s[1] == 'u' as int {
        assert EscapeUnit(u)[2..] == Hex(u, 4) == s[2..6] && EscapeUnit(v)[2..] == Hex(v, 4) == t[2..6];
        Pow16Of4();
        HexInjective(u, v, 4);
      }
    }
    assert x == s[|EscapeUnit(u)|..] && y == t[|EscapeUnit(v)|..];
  }

  lemma EscapeNotQuote(u: Unit)
    ensures EscapeUnit(u) != [] && EscapeUnit(u)[0] != QUOTE
  {
  }

  /** The rest of a string literal and what follows it. */
  function Unclosed(us: seq<Unit>, x: Text): Text { EscapeUnits(us) + [QUOTE] + x }

  lemma Peel(us: seq<Unit>, x: Text)
    ensures us == [] ==> Unclosed(us, x) == [QUOTE] + x
    ensures us != [] ==> Unclosed(us, x) == EscapeUnit(us[0]) + Unclosed(us[1..], x)
  {
  }

  lemma {:induction false} EscapedReading(us: seq<Unit>, x: Text, vs: seq<Unit>, y: Text)
    requires Unclosed(us, x) == Unclosed(vs, y)
    ensures us == vs && x == y
    decreases |us|
  {
    Peel(us, x);
    Peel(vs, y);
    if us == [] && vs == [] {
      DropFirst('\"', x, y);
    } else if us == [] {
      EscapeNotQuote(vs[0]);
      SameFirst([QUOTE], x, EscapeUnit(vs[0]), Unclosed(vs[1..], y));
    } else if vs == [] {
      EscapeNotQuote(us[0]);
      SameFirst(EscapeUnit(us[0]), Unclosed(us[1..], x), [QUOTE], y);
    } else {
      EscapePrefixFree(us[0], Unclosed(us[1..], x), vs[0], Unclosed(vs[1..], y));
      EscapedReading(us[1..], x, vs[1..], y);
      assert us == [us[0]] + us[1..] && vs == [vs[0]] + vs[1..];
    }
  }

  /** A string literal is self-delimiting. */
  lemma QuotedReading(a: Text, x: Text, b: Text, y: Text)
    requires NoSplitPair(a) && NoSplitPair(b)
    requires Quoted(a) + x == Quoted(b) + y
    ensures a == b && x == y
  {
    assert Quoted(a) + x == [QUOTE] + Unclosed(Units(a), x);
    assert Quoted(b) + y == [QUOTE] + Unclosed(Units(b), y);
    DropFirst('\"', Unclosed(Units(a), x), Unclosed(Units(b), y));
    EscapedReading(Units(a), x, Units(b), y);
    UnitsInjective(a, b);
  }

  /** Two texts print alike exactly when they have the same UTF-16 code units. */
  lemma QuotedAlikeExactlyWhen(a: Text, b: Text)
    ensures Quoted(a) == Quoted(b) <==> Units(a) == Units(b)
  {
    if Quoted(a) == Quoted(b) {
      assert Quoted(a) == [QUOTE] + Unclosed(Units(a), []) && Quoted(b) == [QUOTE] + Unclosed(Units(b), []);
      DropFirst('\"', Unclosed(Units(a), []), Unclosed(Units(b), []));
      EscapedReading(Units(a), [], Units(b), []);
    }
  }

  /** Without that condition it is not: a pair of lone surrogates and the code
      point they spell print alike. */
  lemma SplitPairPrintsAlike()
    ensures Quoted([0xD83D, 0xDE00]) == Quoted([0x1F600])
  {
    var a: Text, b: Text := [0xD83D, 0xDE00], [0x1F600];
    assert a[1..] == [0xDE00] && a[1..][1..] == [] && b[1..] == [];
    assert Units(a[1..]) == [0xDE00];
    assert Units(a) == [0xD83D, 0xDE00] && Units(b) == [0xD83D, 0xDE00];
  }

  // ----- values -----

  /** The characters of bare words: null, true, false and numbers. */
  predicate WordChar(c: CodePoint) {
    || IsDigit(c) || 'a' as int <= c <= 'z' as int || 'A' as int <= c <= 'Z' as int
    || c == '-' as int || c == '+' as int || c == '.' as int
  }

  predicate IsIntText(t: Text) {
    var u := if t != [] && t[0] == '-' as int then t[1..] else t;
    u != [] && forall i :: 0 <= i < |u| ==> IsDigit(u[i])
  }

  /** A number literal that is not an integer's. */
  predicate IsFloatText(t: Text) {
    && t != [] && (forall i :: 0 <= i < |t| ==> WordChar(t[i]))
    && (IsDigit(t[0]) || t[0] == '-' as int || t[0] == 'N' as int || t[0] == 'I' as int)
    && !IsIntText(t)
  }

  function Word(v: Json): Text
    requires v.Null? || v.Bool? || v.Int? || v.Float?
  {
    match v
    case Null => Lit("null")
    case Bool(b) => if b then Lit("true") else Lit("false")
    case Int(n) => IntText(n)
    case Float(lit) => lit
  }

  function Char(c: char): Text { [c as int] }

  /** json.dumps with separators (",", ":"). */
  function Dumps(v: Json): Text
    decreases v
  {
    match v
    case Str(s) => Quoted(s)
    case Arr(items) => Char('[') + DumpsItems(items)
    case Obj(fields) => Char('{') + DumpsFields(fields)
    case _ => Word(v)
  }

  /** The items and the closing bracket. */
  function DumpsItems(xs: Items): Text
    decreases xs
  {
    match xs
    case NoItems => Char(']')
    case Item(v, rest) => Dumps(v) + if rest.NoItems? then Char(']') else Char(',') + DumpsItems(rest)
  }

  function DumpsFields(fs: Fields): Text
    decreases fs
  {
    match fs
    case NoFields => Char('}')
    case Field(k, v, rest) =>
      Quoted(k) + (Char(':') + (Dumps(v) + if rest.NoFields? then Char('}') else Char(',') + DumpsFields(rest)))
  }

  /** What a decoder can yield: no split surrogate pair in any text, float
      literals that are not integers'. */
  predicate Decoded(v: Json)
    decreases v
  {
    match v
    case Float(lit) => IsFloatText(lit)
    case Str(s) => NoSplitPair(s)
    case Arr(items) => DecodedItems(items)
    case Obj(fields) => DecodedFields(fields)
    case _ => true
  }

  predicate DecodedItems(xs: Items)
    decreases xs
  {
    xs.Item? ==> Decoded(xs.head) && DecodedItems(xs.tail)
  }

  predicate DecodedFields(fs: Fields)
    decreases fs
  {
    fs.Field? ==> NoSplitPair(fs.key) && Decoded(fs.value) && DecodedFields(fs.rest)
  }

  /** Nothing, or a character that ends a bare word. */
  predicate Ends(s: Text) { s == [] || !WordChar(s[0]) }

  predicate IsWord(v: Json) { v.Null? || v.Bool? || v.Int? || v.Float? }

  lemma WordShape(v: Json)
    requires IsWord(v) && Decoded(v)
    ensures Word(v) != [] && forall i :: 0 <= i < |Word(v)| ==> WordChar(Word(v)[i])
    ensures v.Int? ==> IsIntText(Word(v))
  {
    if v.Int? {
      var t := NatText(if v.n < 0 then -v.n else v.n);
      assert Word(v) == if v.n < 0 then ['-' as int] + t else t;
      assert v.n < 0 ==> Word(v)[1..] == t;
    }
  }

  lemma WordFirst(v: Json)
    requires IsWord(v) && Decoded(v)
    ensures Word(v) != []
    ensures v.Null? <==> Word(v)[0] == 'n' as int
    ensures v == Bool(true) <==> Word(v)[0] == 't' as int
    ensures v == Bool(false) <==> Word(v)[0] == 'f' as int
  {
    WordShape(v);
  }

  lemma WordInjective(v: Json, w: Json)
    requires IsWord(v) && IsWord(w) && Decoded(v) && Decoded(w) && Word(v) == Word(w)
    ensures v == w
  {
    WordFirst(v);
    WordFirst(w);
    WordShape(v);
    WordShape(w);
    if v.Int? && w.Int? {
      IntTextInjective(v.n, w.n);
    }
  }

  lemma AtSeam(a: Text, x: Text, b: Text, y: Text)
    requires a + x == b + y && |a| < |b|
    ensures x != [] && x[0] == b[|a|]
  {
    assert x[0] == (a + x)[|a|] == (b + y)[|a|];
  }

  lemma {:induction false} WordMunch(a: Text, x: Text, b: Text, y: Text)
    requires forall i :: 0 <= i < |a| ==> WordChar(a[i])
    requires forall i :: 0 <= i < |b| ==> WordChar(b[i])
    requires Ends(x) && Ends(y) && a + x == b + y
    ensures a == b && x == y
  {
    var s := a + x;
    assert s == b + y;
    if |a| < |b| {
      AtSeam(a, x, b, y);
    } else if |b| < |a| {
      AtSeam(b, y, a, x);
    }
    assert a == s[..|a|] && b == s[..|b|] && x == s[|a|..] && y == s[|b|..];
  }

  /** The first character tells words, strings, arrays and objects apart. */
  lemma DumpsFirst(v: Json)
    requires Decoded(v)
    ensures Dumps(v) != []
    ensures IsWord(v) <==> WordChar(Dumps(v)[0])
    ensures v.Str? <==> Dumps(v)[0] == QUOTE
    ensures v.Arr? <==> Dumps(v)[0] == '[' as int
    ensures v.Obj? <==> Dumps(v)[0] == '{' as int
    ensures Dumps(v)[0] != ']' as int && Dumps(v)[0] != ',' as int
  {
    if IsWord(v) { WordShape(v); }
  }

  lemma DropFirst(c: char, a: Text, b: Text)
    requires Char(c) + a == Char(c) + b
    ensures a == b
  {
    assert a == (Char(c) + a)[1..] && b == (Char(c) + b)[1..];
  }

  lemma Assoc(a: Text, b: Text, c: Text)
    ensures a + b + c == a + (b + c)
  {
  }

  lemma SameFirst(a: Text, x: Text, b: Text, y: Text)
    requires a != [] && b != [] && a + x == b + y
    ensures a[0] == b[0]
  {
    assert (a + x)[0] == a[0] && (b + y)[0] == b[0];
  }

  /** Reading a value off the front of a text is unambiguous. */
  lemma {:induction false} DumpsReading(v: Json, x: Text, w: Json, y: Text)
    requires Decoded(v) && Decoded(w) && Ends(x) && Ends(y)
    requires Dumps(v) + x == Dumps(w) + y
    ensures v == w && x == y
    decreases v, 0
  {
    DumpsFirst(v);
    DumpsFirst(w);
    SameFirst(Dumps(v), x, Dumps(w), y);
    match v
    case Str(s) => QuotedReading(s, x, w.s, y);
    case Arr(items) =>
      Assoc(Char('['), DumpsItems(items), x);
      Assoc(Char('['), DumpsItems(w.items), y);
      DropFirst('[', DumpsItems(items) + x, DumpsItems(w.items) + y);
      ItemsReading(items, x, w.items, y);
    case Obj(fields) =>
      Assoc(Char('{'), DumpsFields(fields), x);
      Assoc(Char('{'), DumpsFields(w.fields), y);
      DropFirst('{', DumpsFields(fields) + x, DumpsFields(w.fields) + y);
      FieldsReading(fields, x, w.fields, y);
    case _ =>
      WordShape(v);
      WordShape(w);
      WordMunch(Word(v), x, Word(w), y);
      WordInjective(v, w);
  }

  /** What follows an item: the closing bracket, or a comma and more items. */
  function AfterItem(rest: Items): Text {
    if rest.NoItems? then Char(']') else Char(',') + DumpsItems(rest)
  }

  function AfterField(rest: Fields): Text {
    if rest.NoFields? then Char('}') else Char(',') + DumpsFields(rest)
  }

  lemma {:induction false} ItemsReading(xs: Items, x: Text, ys: Items, y: Text)
    requires DecodedItems(xs) && DecodedItems(ys)
    requires DumpsItems(xs) + x == DumpsItems(ys) + y
    ensures xs == ys && x == y
    decreases xs, 0
  {
    if xs.Item? { DumpsFirst(xs.head); }
    if ys.Item? { DumpsFirst(ys.head); }
    SameFirst(DumpsItems(xs), x, DumpsItems(ys), y);
    if xs.NoItems? {
      DropFirst(']', x, y);
    } else {
      Assoc(Dumps(xs.head), AfterItem(xs.tail), x);
      Assoc(Dumps(ys.head), AfterItem(ys.tail), y);
      DumpsReading(xs.head, AfterItem(xs.tail) + x, ys.head, AfterItem(ys.tail) + y);
      AfterItemReading(xs.tail, x, ys.tail, y);
    }
  }

  lemma {:induction false} AfterItemReading(xs: Items, x: Text, ys: Items, y: Text)
    requires DecodedItems(xs) && DecodedItems(ys)
    requires AfterItem(xs) + x == AfterItem(ys) + y
    ensures xs == ys && x == y
    decreases xs, 1
  {
    SameFirst(AfterItem(xs), x, AfterItem(ys), y);
    if xs.NoItems? {
      DropFirst(']', x, y);
    } else {
      Assoc(Char(','), DumpsItems(xs), x);
      Assoc(Char(','), DumpsItems(ys), y);
      DropFirst(',', DumpsItems(xs) + x, DumpsItems(ys) + y);
      ItemsReading(xs, x, ys, y);
    }
  }

  lemma {:induction false} FieldsReading(fs: Fields, x: Text, gs: Fields, y: Text)
    requires DecodedFields(fs) && DecodedFields(gs)
    requires DumpsFields(fs) + x == DumpsFields(gs) + y
    ensures fs == gs && x == y
    decreases fs, 0
  {
    SameFirst(DumpsFields(fs), x, DumpsFields(gs), y);
    if fs.NoFields? {
      DropFirst('}', x, y);
    } else {
      var p, q := Dumps(fs.value) + AfterField(fs.rest), Dumps(gs.value) + AfterField(gs.rest);
      Assoc(Quoted(fs.key), Char(':') + p, x);
      Assoc(Quoted(gs.key), Char(':') + q, y);
      QuotedReading(fs.key, Char(':') + p + x, gs.key, Char(':') + q + y);
      Assoc(Char(':'), p, x);
      Assoc(Char(':'), q, y);
      DropFirst(':', p + x, q + y);
      Assoc(Dumps(fs.value), AfterField(fs.rest), x);
      Assoc(Dumps(gs.value), AfterField(gs.rest), y);
      DumpsReading(fs.value, AfterField(fs.rest) + x, gs.value, AfterField(gs.rest) + y);
      AfterFieldReading(fs.rest, x, gs.rest, y);
    }
  }

  lemma {:induction false} AfterFieldReading(fs: Fields, x: Text, gs: Fields, y: Text)
    requires DecodedFields(fs) && DecodedFields(gs)
    requires AfterField(fs) + x == AfterField(gs) + y
    ensures fs == gs && x == y
    decreases fs, 1
  {
    SameFirst(AfterField(fs), x, AfterField(gs), y);
    if fs.NoFields? {
      DropFirst('}', x, y);
    } else {
      Assoc(Char(','), DumpsFields(fs), x);
      Assoc(Char(','), DumpsFields(gs), y);
      DropFirst(',', DumpsFields(fs) + x, DumpsFields(gs) + y);
      FieldsReading(fs, x, gs, y);
    }
  }

  /** Equal texts have equal values. */
  lemma DumpsInjective(v: Json, w: Json)
    requires Decoded(v) && Decoded(w) && Dumps(v) == Dumps(w)
    ensures v == w
  {
    assert Dumps(v) + [] == Dumps(v) && Dumps(w) + [] == Dumps(w);
    DumpsReading(v, [], w, []);
  }
}
