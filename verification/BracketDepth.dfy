/** The stack-free bracket scanner and the decode gate it guards. The reference
    is the JSON grammar (RFC 8259): values written with any whitespace and any
    valid string escapes. */
module BracketDepth {
  import opened Common
  import opened Text
  import opened JsonText

  const MAX_DECODE_DEPTH := 64

  // ----- the scanner -----

  datatype Scan = Scan(depth: int, best: int, inString: bool, escaped: bool)

  const START := Scan(0, 0, false, false)

  predicate Opens(c: CodePoint) { c == '[' as int || c == '{' as int }

  predicate Closes(c: CodePoint) { c == ']' as int || c == '}' as int }

  function Advance(s: Scan, c: CodePoint): Scan {
    if s.inString then
      if s.escaped then s.(escaped := false)
      else if c == BACKSLASH then s.(escaped := true)
      else if c == QUOTE then s.(inString := false)
      else s
    else if c == QUOTE then s.(inString := true)
    else if Opens(c) then
      s.(depth := s.depth + 1, best := if s.depth + 1 > s.best then s.depth + 1 else s.best)
    else if Closes(c) then s.(depth := s.depth - 1)
    else s
  }

  function ScanAll(s: Scan, text: Text): Scan
    decreases |text|
  {
    if text == [] then s else ScanAll(Advance(s, text[0]), text[1..])
  }

  function DepthOf(text: Text): int { ScanAll(START, text).best }

  method ScanDepth(text: Text) returns (best: int)
    ensures best == DepthOf(text)
  {
    var depth, inString, escaped := 0, false, false;
    best := 0;
    for i := 0 to |text|
      invariant ScanAll(START, text) == ScanAll(Scan(depth, best, inString, escaped), text[i..])
    {
      assert text[i..][0] == text[i] && text[i..][1..] == text[i + 1..];
      var ch := text[i];
      if inString {
        if escaped {
          escaped := false;
        } else if ch == BACKSLASH {
          escaped := true;
        } else if ch == QUOTE {
          inString := false;
        }
      } else if ch == QUOTE {
        inString := true;
      } else if Opens(ch) {
        depth := depth + 1;
        if depth > best {
          best := depth;
        }
      } else if Closes(ch) {
        depth := depth - 1;
      }
    }
  }

  // ----- written JSON values -----

  /** A value as written: bare words, string literals by their body between the
      quotes, containers with whitespace around their parts. */
  datatype Written =
    | Word(word: Text)
    | Literal(body: Text)
    | Array(pad: Text, elems: Elems)
    | Object(pad: Text, members: Members)

  datatype Elems = NoElems | Elem(before: Text, v: Written, after: Text, rest: Elems)

  datatype Members =
    | NoMembers
    | Member(before: Text, key: Text, afterKey: Text, beforeValue: Text, v: Written, after: Text, rest: Members)

  predicate JsonSpace(s: Text) {
    forall i :: 0 <= i < |s| ==> s[i] == 0x20 || s[i] == 0x09 || s[i] == 0x0A || s[i] == 0x0D
  }

  predicate EscapeLetter(c: CodePoint) {
    || c == QUOTE || c == BACKSLASH || c == '/' as int || c == 'b' as int || c == 'f' as int
    || c == 'n' as int || c == 'r' as int || c == 't' as int
  }

  predicate IsHex(c: CodePoint) {
    IsDigit(c) || 'a' as int <= c <= 'f' as int || 'A' as int <= c <= 'F' as int
  }

  /** The body of a string literal: unescaped characters, two-character escapes
      and four-digit escapes (RFC 8259 section 7). */
  predicate LiteralBody(b: Text) {
    || b == []
    || (b[0] != QUOTE && b[0] != BACKSLASH && b[0] >= 0x20 && LiteralBody(b[1..]))
    || (|b| >= 2 && b[0] == BACKSLASH && EscapeLetter(b[1]) && LiteralBody(b[2..]))
    || (|b| >= 6 && b[0] == BACKSLASH && b[1] == 'u' as int
        && IsHex(b[2]) && IsHex(b[3]) && IsHex(b[4]) && IsHex(b[5]) && LiteralBody(b[6..]))
  }

  predicate WellWritten(v: Written)
    decreases v
  {
    match v
    case Word(w) => w != [] && forall i :: 0 <= i < |w| ==> WordChar(w[i])
    case Literal(b) => LiteralBody(b)
    case Array(pad, es) => JsonSpace(pad) && WellElems(es)
    case Object(pad, ms) => JsonSpace(pad) && WellMembers(ms)
  }

  predicate WellElems(es: Elems)
    decreases es
  {
    es.Elem? ==> JsonSpace(es.before) && WellWritten(es.v) && JsonSpace(es.after) && WellElems(es.rest)
  }

  predicate WellMembers(ms: Members)
    decreases ms
  {
    ms.Member? ==>
      && JsonSpace(ms.before) && LiteralBody(ms.key) && JsonSpace(ms.afterKey) && JsonSpace(ms.beforeValue)
      && WellWritten(ms.v) && JsonSpace(ms.after) && WellMembers(ms.rest)
  }

  function Quote(body: Text): Text { Char('\"') + (body + Char('\"')) }

  function Show(v: Written): Text
    decreases v
  {
    match v
    case Word(w) => w
    case Literal(b) => Quote(b)
    case Array(pad, es) => Char('[') + (pad + ShowElems(es))
    case Object(pad, ms) => Char('{') + (pad + ShowMembers(ms))
  }

  function ShowElems(es: Elems): Text
    decreases es
  {
    match es
    case NoElems => Char(']')
    case Elem(before, v, after, rest) =>
      before + (Show(v) + (after + if rest.NoElems? then Char(']') else Char(',') + ShowElems(rest)))
  }

  function ShowMembers(ms: Members): Text
    decreases ms
  {
    match ms
    case NoMembers => Char('}')
    case Member(before, key, afterKey, beforeValue, v, after, rest) =>
      before + (Quote(key) + (afterKey + (Char(':') + (beforeValue + (Show(v) +
        (after + if rest.NoMembers? then Char('}') else Char(',') + ShowMembers(rest)))))))
  }

  function Max(a: int, b: int): int { if a >= b then a else b }

  /** How deeply containers nest. */
  function Nesting(v: Written): nat
    decreases v
  {
    match v
    case Array(_, es) => 1 + ElemsNesting(es)
    case Object(_, ms) => 1 + MembersNesting(ms)
    case _ => 0
  }

  function ElemsNesting(es: Elems): nat
    decreases es
  {
    if es.NoElems? then 0 else Max(Nesting(es.v), ElemsNesting(es.rest))
  }

  function MembersNesting(ms: Members): nat
    decreases ms
  {
    if ms.NoMembers? then 0 else Max(Nesting(ms.v), MembersNesting(ms.rest))
  }

  // ----- the scanner reads nesting -----

  lemma {:induction false} ScanAppend(s: Scan, a: Text, b: Text)
    ensures ScanAll(s, a + b) == ScanAll(ScanAll(s, a), b)
    decreases |a|
  {
    if a == [] {
      assert a + b == b;
    } else {
      assert (a + b)[0] == a[0] && (a + b)[1..] == a[1..] + b;
      ScanAppend(Advance(s, a[0]), a[1..], b);
    }
  }

  lemma ScanChar(s: Scan, c: char, b: Text)
    ensures ScanAll(s, Char(c) + b) == ScanAll(Advance(s, c as int), b)
    ensures ScanAll(s, Char(c)) == Advance(s, c as int)
  {
    assert (Char(c) + b)[1..] == b && Char(c)[1..] == [];
  }

  /** Outside strings, anything but quotes and brackets changes nothing. */
  lemma {:induction false} ScanQuiet(s: Scan, a: Text)
    requires !s.inString
    requires forall i :: 0 <= i < |a| ==> a[i] != QUOTE && !Opens(a[i]) && !Closes(a[i])
    ensures ScanAll(s, a) == s
    decreases |a|
  {
    if a != [] { ScanQuiet(s, a[1..]); }
  }

  lemma {:induction false} ScanHex(s: Scan, a: Text)
    requires s.inString && !s.escaped
    requires forall i :: 0 <= i < |a| ==> IsHex(a[i])
    ensures ScanAll(s, a) == s
    decreases |a|
  {
    if a != [] { ScanHex(s, a[1..]); }
  }

  /** Inside a string, a literal body leaves the scanner inside, unescaped. */
  lemma {:induction false} ScanBody(s: Scan, b: Text)
    requires s.inString && !s.escaped && LiteralBody(b)
    ensures ScanAll(s, b) == s
    decreases |b|
  {
    if b == [] {
    } else if b[0] != BACKSLASH {
      ScanBody(s, b[1..]);
    } else {
      var t := s.(escaped := true);
      assert Advance(s, b[0]) == t && Advance(t, b[1]) == s;
      assert b[1..][0] == b[1] && b[1..][1..] == b[2..];
      assert ScanAll(s, b) == ScanAll(s, b[2..]);
      if EscapeLetter(b[1]) && LiteralBody(b[2..]) {
        ScanBody(s, b[2..]);
      } else {
        assert b[2..] == b[2..6] + b[6..];
        ScanAppend(s, b[2..6], b[6..]);
        ScanHex(s, b[2..6]);
        ScanBody(s, b[6..]);
      }
    }
  }

  lemma ScanLiteral(s: Scan, b: Text)
    requires !s.inString && !s.escaped && LiteralBody(b)
    ensures ScanAll(s, Quote(b)) == s
  {
    ScanChar(s, '\"', b + Char('\"'));
    var t := s.(inString := true);
    ScanAppend(t, b, Char('\"'));
    ScanBody(t, b);
    ScanChar(t, '\"', []);
  }

  /** A scan that has seen nesting n above its depth. */
  function Seen(s: Scan, n: nat): Scan { s.(best := Max(s.best, s.depth + n)) }

  predicate Outside(s: Scan) { !s.inString && !s.escaped && s.depth <= s.best }

  lemma {:induction false} ScanWritten(s: Scan, v: Written)
    requires Outside(s) && WellWritten(v)
    ensures ScanAll(s, Show(v)) == Seen(s, Nesting(v))
    decreases v, 0
  {
    match v
    case Word(w) => ScanQuiet(s, w);
    case Literal(b) => ScanLiteral(s, b);
    case Array(pad, es) =>
      var t := Advance(s, '[' as int);
      ScanChar(s, '[', pad + ShowElems(es));
      ScanAppend(t, pad, ShowElems(es));
      ScanQuiet(t, pad);
      ScanElems(t, es);
    case Object(pad, ms) =>
      var t := Advance(s, '{' as int);
      ScanChar(s, '{', pad + ShowMembers(ms));
      ScanAppend(t, pad, ShowMembers(ms));
      ScanQuiet(t, pad);
      ScanMembers(t, ms);
  }

  function Closed(s: Scan): Scan { s.(depth := s.depth - 1) }

  function AfterElem(rest: Elems): Text {
    if rest.NoElems? then Char(']') else Char(',') + ShowElems(rest)
  }

  function AfterMember(rest: Members): Text {
    if rest.NoMembers? then Char('}') else Char(',') + ShowMembers(rest)
  }

  lemma {:induction false} ScanElems(s: Scan, es: Elems)
    requires Outside(s) && WellElems(es)
    ensures ScanAll(s, ShowElems(es)) == Closed(Seen(s, ElemsNesting(es)))
    decreases es, 0
  {
    if es.NoElems? {
      ScanChar(s, ']', []);
    } else {
      var t := Seen(s, Nesting(es.v));
      ScanAppend(s, es.before, Show(es.v) + (es.after + AfterElem(es.rest)));
      ScanQuiet(s, es.before);
      ScanAppend(s, Show(es.v), es.after + AfterElem(es.rest));
      ScanWritten(s, es.v);
      ScanAppend(t, es.after, AfterElem(es.rest));
      ScanQuiet(t, es.after);
      ScanAfterElem(t, es.rest);
    }
  }

  lemma {:induction false} ScanAfterElem(s: Scan, rest: Elems)
    requires Outside(s) && WellElems(rest)
    ensures ScanAll(s, AfterElem(rest)) == Closed(Seen(s, ElemsNesting(rest)))
    decreases rest, 1
  {
    if rest.NoElems? {
      ScanChar(s, ']', []);
    } else {
      ScanChar(s, ',', ShowElems(rest));
      ScanElems(s, rest);
    }
  }

  lemma {:induction false} ScanMembers(s: Scan, ms: Members)
    requires Outside(s) && WellMembers(ms)
    ensures ScanAll(s, ShowMembers(ms)) == Closed(Seen(s, MembersNesting(ms)))
    decreases ms, 0
  {
    if ms.NoMembers? {
      ScanChar(s, '}', []);
    } else {
      var t := Seen(s, Nesting(ms.v));
      ScanToValue(s, ms);
      ScanAppend(s, Show(ms.v), ms.after + AfterMember(ms.rest));
      ScanWritten(s, ms.v);
      ScanAppend(t, ms.after, AfterMember(ms.rest));
      ScanQuiet(t, ms.after);
      ScanAfterMember(t, ms.rest);
    }
  }

  /** A member's key, colon and whitespace change nothing. */
  lemma ScanToValue(s: Scan, ms: Members)
    requires Outside(s) && WellMembers(ms) && ms.Member?
    ensures ScanAll(s, ShowMembers(ms)) == ScanAll(s, Show(ms.v) + (ms.after + AfterMember(ms.rest)))
  {
    var tail := Show(ms.v) + (ms.after + AfterMember(ms.rest));
    var colon := Char(':') + (ms.beforeValue + tail);
    ScanAppend(s, ms.before, Quote(ms.key) + (ms.afterKey + colon));
    ScanQuiet(s, ms.before);
    ScanAppend(s, Quote(ms.key), ms.afterKey + colon);
    ScanLiteral(s, ms.key);
    ScanAppend(s, ms.afterKey, colon);
    ScanQuiet(s, ms.afterKey);
    ScanChar(s, ':', ms.beforeValue + tail);
    ScanAppend(s, ms.beforeValue, tail);
    ScanQuiet(s, ms.beforeValue);
  }

  lemma {:induction false} ScanAfterMember(s: Scan, rest: Members)
    requires Outside(s) && WellMembers(rest)
    ensures ScanAll(s, AfterMember(rest)) == Closed(Seen(s, MembersNesting(rest)))
    decreases rest, 1
  {
    if rest.NoMembers? {
      ScanChar(s, '}', []);
    } else {
      ScanChar(s, ',', ShowMembers(rest));
      ScanMembers(s, rest);
    }
  }

  /** For every JSON value, however written, the scanner returns its nesting. */
  lemma ScannerReadsNesting(before: Text, v: Written, after: Text)
    requires JsonSpace(before) && WellWritten(v) && JsonSpace(after)
    ensures DepthOf(before + Show(v) + after) == Nesting(v)
  {
    ScanAppend(START, before + Show(v), after);
    ScanAppend(START, before, Show(v));
    ScanQuiet(START, before);
    ScanWritten(START, v);
    ScanQuiet(Seen(START, Nesting(v)), after);
  }

  // ----- the decode gate -----

  function JsonNesting(v: Json): nat
    decreases v
  {
    match v
    case Arr(items) => 1 + ItemsNesting(items)
    case Obj(fields) => 1 + FieldsNesting(fields)
    case _ => 0
  }

  function ItemsNesting(xs: Items): nat
    decreases xs
  {
    if xs.NoItems? then 0 else Max(JsonNesting(xs.head), ItemsNesting(xs.tail))
  }

  function FieldsNesting(fs: Fields): nat
    decreases fs
  {
    if fs.NoFields? then 0 else Max(JsonNesting(fs.value), FieldsNesting(fs.rest))
  }

  /** json.loads: None on ValueError. */
  type Loads = Text -> Option<Json>

  /** Only written JSON loads, and a loaded value nests no deeper than it is
      written (a repeated key keeps only its last value). */
  ghost predicate Faithful(loads: Loads) {
    forall t: Text :: loads(t).Some? ==> exists before, v, after ::
      IsWriting(t, before, v, after) && JsonNesting(loads(t).value) <= Nesting(v)
  }

  ghost predicate IsWriting(t: Text, before: Text, v: Written, after: Text) {
    t == before + Show(v) + after && JsonSpace(before) && WellWritten(v) && JsonSpace(after)
  }

  /** A string argument the server would decode: it starts like a container. */
  predicate Candidate(v: Json) {
    v.Str? && Strip(v.s) != [] && Opens(Strip(v.s)[0])
  }

  predicate TooDeep(v: Json) { Candidate(v) && DepthOf(Strip(v.s)) > MAX_DECODE_DEPTH }

  function Decoding(loads: Loads, v: Json): Option<Json> {
    if Candidate(v) && loads(Strip(v.s)).Some?
       && (loads(Strip(v.s)).value.Obj? || loads(Strip(v.s)).value.Arr?)
    then loads(Strip(v.s)) else None
  }

  /** The decoded values of the string arguments, in order. */
  function DecodedOf(loads: Loads, fs: Fields): Fields {
    match fs
    case NoFields => NoFields
    case Field(k, v, rest) =>
      if Decoding(loads, v).Some? then Field(k, Decoding(loads, v).value, DecodedOf(loads, rest))
      else DecodedOf(loads, rest)
  }

  predicate SomeTooDeep(fs: Fields) { fs.Field? && (TooDeep(fs.value) || SomeTooDeep(fs.rest)) }

  function AppendField(fs: Fields, k: Text, v: Json): Fields {
    match fs
    case NoFields => Field(k, v, NoFields)
    case Field(k', v', rest) => Field(k', v', AppendField(rest, k, v))
  }

  function Concat(fs: Fields, gs: Fields): Fields {
    match fs
    case NoFields => gs
    case Field(k, v, rest) => Field(k, v, Concat(rest, gs))
  }

  lemma {:induction false} ConcatAppend(fs: Fields, k: Text, v: Json, gs: Fields)
    ensures Concat(AppendField(fs, k, v), gs) == Concat(fs, Field(k, v, gs))
  {
    if fs.Field? { ConcatAppend(fs.rest, k, v, gs); }
  }

  lemma {:induction false} ConcatNone(fs: Fields)
    ensures Concat(fs, NoFields) == fs
  {
    if fs.Field? { ConcatNone(fs.rest); }
  }

  /** None is the ValidationError of an argument that is written too deep. */
  method DecodedArguments(loads: Loads, arguments: Json) returns (out: Option<Fields>)
    ensures out == if arguments.Obj? then
                     (if SomeTooDeep(arguments.fields) then None else Some(DecodedOf(loads, arguments.fields)))
                   else Some(NoFields)
  {
    if !arguments.Obj? {
      return Some(NoFields);
    }
    var rest, found := arguments.fields, NoFields;
    while rest.Field?
      invariant SomeTooDeep(arguments.fields) == SomeTooDeep(rest)
      invariant DecodedOf(loads, arguments.fields) == Concat(found, DecodedOf(loads, rest))
      decreases rest
    {
      var key, value := rest.key, rest.value;
      if Candidate(value) {
        var depth := ScanDepth(Strip(value.s));
        if depth > MAX_DECODE_DEPTH {
          return None;
        }
        var decoded := loads(Strip(value.s));
        if decoded.Some? && (decoded.value.Obj? || decoded.value.Arr?) {
          ConcatAppend(found, key, decoded.value, DecodedOf(loads, rest.rest));
          found := AppendField(found, key, decoded.value);
        }
      }
      rest := rest.rest;
    }
    ConcatNone(found);
    out := Some(found);
  }

  predicate HasField(fs: Fields, v: Json) { fs.Field? && (fs.value == v || HasField(fs.rest, v)) }

  predicate HasPair(fs: Fields, k: Text, v: Json) {
    fs.Field? && ((fs.key == k && fs.value == v) || HasPair(fs.rest, k, v))
  }

  /** Stripped, the text starts with a bracket and loads as this container. */
  ghost predicate SpellsOut(loads: Loads, t: Text, d: Json) {
    && Strip(t) != [] && (Strip(t)[0] == '[' as int || Strip(t)[0] == '{' as int)
    && loads(Strip(t)) == Some(d) && (d.Arr? || d.Obj?)
  }

  lemma DecodingIs(loads: Loads, v: Json, d: Json)
    ensures Decoding(loads, v) == Some(d) <==> v.Str? && SpellsOut(loads, v.s, d)
  {
  }

  /** A pair is decoded exactly from a string argument that spells its value. */
  lemma {:induction false} DecodedExactly(loads: Loads, fs: Fields, k: Text, d: Json)
    ensures HasPair(DecodedOf(loads, fs), k, d) <==> exists t :: HasPair(fs, k, Str(t)) && SpellsOut(loads, t, d)
  {
    if fs.Field? {
      DecodedExactly(loads, fs.rest, k, d);
      DecodingIs(loads, fs.value, d);
      if t :| HasPair(fs.rest, k, Str(t)) && SpellsOut(loads, t, d) { assert HasPair(fs, k, Str(t)); }
      if fs.key == k && fs.value.Str? && SpellsOut(loads, fs.value.s, d) { assert HasPair(fs, k, Str(fs.value.s)); }
    }
  }

  /** Some top-level string that starts with a bracket is written more than 64 deep. */
  ghost predicate TextTooDeep(args: Json) {
    args.Obj? && exists t :: HasField(args.fields, Str(t)) && Strip(t) != []
                   && (Strip(t)[0] == '[' as int || Strip(t)[0] == '{' as int) && DepthOf(Strip(t)) > 64
  }

  /** The gate refuses exactly for that. */
  lemma {:induction false} RefusedExactlyWhen(fs: Fields)
    ensures SomeTooDeep(fs) <==> TextTooDeep(Obj(fs))
  {
    if fs.Field? {
      RefusedExactlyWhen(fs.rest);
      if TooDeep(fs.value) { assert HasField(fs, Str(fs.value.s)); }
      forall t ensures HasField(fs, Str(t)) <==> fs.value == Str(t) || HasField(fs.rest, Str(t)) {
      }
    }
  }

  lemma {:induction false} TooDeepFound(fs: Fields, v: Json)
    requires HasField(fs, v) && TooDeep(v)
    ensures SomeTooDeep(fs)
  {
    if fs.value != v { TooDeepFound(fs.rest, v); }
  }

  lemma ShownFirst(v: Written)
    requires Nesting(v) > 0
    ensures Show(v) != [] && Opens(Show(v)[0])
  {
  }

  /** An argument text that spells a value nested deeper than the limit never
      passes the gate. */
  lemma DeepTextRefused(fs: Fields, t: Text, v: Written, after: Text)
    requires HasField(fs, Str(t)) && WellWritten(v) && JsonSpace(after) && Strip(t) == Show(v) + after
    requires Nesting(v) > MAX_DECODE_DEPTH
    ensures SomeTooDeep(fs)
  {
    ShownFirst(v);
    ScannerReadsNesting([], v, after);
    assert [] + Show(v) + after == Strip(t);
    TooDeepFound(fs, Str(t));
  }

  /** Whatever the gate lets through nests within the limit. */
  lemma {:induction false} DecodedWithinLimit(loads: Loads, fs: Fields)
    requires Faithful(loads) && !SomeTooDeep(fs)
    ensures FieldsNesting(DecodedOf(loads, fs)) <= MAX_DECODE_DEPTH
    decreases fs
  {
    if fs.Field? {
      DecodedWithinLimit(loads, fs.rest);
      if Decoding(loads, fs.value).Some? {
        var t := Strip(fs.value.s);
        var before, v, after :| IsWriting(t, before, v, after) && JsonNesting(loads(t).value) <= Nesting(v);
        ScannerReadsNesting(before, v, after);
      }
    }
  }
}
