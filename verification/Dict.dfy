/** Python dicts of JSON values, as lists of fields in key order. */
module Dict {
  import opened Common
  import opened Text
  import opened JsonText

  /** The JSON Schema keyword for a mapping from names to sub-schemas. */
  const PROPERTIES: Text := Lit("properties")

  predicate Before(s: Text, t: Text) {
    if t == [] then false
    else if s == [] then true
    else if s[0] != t[0] then s[0] < t[0]
    else Before(s[1..], t[1..])
  }

  function Get(fs: Fields, k: Text): Option<Json> {
    match fs
    case NoFields => None
    case Field(key, v, rest) => if key == k then Some(v) else Get(rest, k)
  }

  /** Set a key, keeping the fields in key order. */
  function Put(fs: Fields, k: Text, v: Json): Fields {
    match fs
    case NoFields => Field(k, v, NoFields)
    case Field(key, w, rest) =>
      if key == k then Field(k, v, rest)
      else if Before(k, key) then Field(k, v, fs)
      else Field(key, w, Put(rest, k, v))
  }

  /** All fields but those under k. */
  function Without(fs: Fields, k: Text): Fields {
    match fs
    case NoFields => NoFields
    case Field(key, v, rest) => if key == k then Without(rest, k) else Field(key, v, Without(rest, k))
  }

  /** dict.update. */
  function Update(fs: Fields, extra: Fields): Fields
    decreases extra
  {
    match extra
    case NoFields => fs
    case Field(k, v, rest) => Update(Put(fs, k, v), rest)
  }

  lemma {:induction false} GetPut(fs: Fields, k: Text, v: Json, j: Text)
    ensures Get(Put(fs, k, v), j) == if j == k then Some(v) else Get(fs, j)
  {
    if fs.Field? { GetPut(fs.rest, k, v, j); }
  }

  lemma {:induction false} GetWithout(fs: Fields, k: Text, j: Text)
    ensures Get(Without(fs, k), j) == if j == k then None else Get(fs, j)
  {
    if fs.Field? { GetWithout(fs.rest, k, j); }
  }

  lemma {:induction false} WithoutPut(fs: Fields, k: Text, v: Json)
    ensures Without(Put(fs, k, v), k) == Without(fs, k)
  {
    if fs.Field? { WithoutPut(fs.rest, k, v); }
  }

  lemma {:induction false} WithoutSwap(fs: Fields, j: Text, k: Text)
    ensures Without(Without(fs, j), k) == Without(Without(fs, k), j)
  {
    if fs.Field? { WithoutSwap(fs.rest, j, k); }
  }

  lemma {:induction false} WithoutDecoded(fs: Fields, k: Text)
    requires DecodedFields(fs)
    ensures DecodedFields(Without(fs, k))
  {
    if fs.Field? { WithoutDecoded(fs.rest, k); }
  }

  /** The last value given for a key: the one an update leaves. */
  function Last(fs: Fields, k: Text): Option<Json> {
    match fs
    case NoFields => None
    case Field(key, v, rest) => if Last(rest, k).Some? then Last(rest, k) else if key == k then Some(v) else None
  }

  lemma {:induction false} GetUpdated(fs: Fields, extra: Fields, k: Text)
    ensures Get(Update(fs, extra), k) == if Last(extra, k).Some? then Last(extra, k) else Get(fs, k)
    decreases extra
  {
    if extra.Field? {
      GetUpdated(Put(fs, extra.key, extra.value), extra.rest, k);
      GetPut(fs, extra.key, extra.value, k);
    }
  }
}
