/** Attribute values, the attribute dictionary and blob contents. */
module Values {
  import opened Outcomes

  /** A scalar attribute value as JSON can carry it, plus Ruby symbols. */
  datatype Val = Nil | Bool(b: bool) | Int(i: int) | Str(s: string) | Sym(name: string)

  /** The attribute dictionary (a HashWithIndifferentAccess: keys are strings). */
  type Attrs = map<string, Val>

  /** Ruby truthiness: only `nil` and `false` are falsy. */
  predicate Truthy(v: Val) {
    !(v.Nil? || v == Bool(false))
  }

  /** `attributes[k]`: a missing key reads as `nil`. */
  function Read(a: Attrs, k: string): (v: Val)
    ensures k !in a ==> v == Nil
    ensures k in a ==> v == a[k]
  {
    if k in a then a[k] else Nil
  }

  /** The content of a blob.  `attributes.json` holds the JSON encoding of an
      attribute dictionary; the codec is kept opaque, so an encoded document
      is its own constructor and any other text is not a document. */
  datatype Data = Text(text: string) | Json(doc: Attrs)

  /** JSON has no symbols: the encoder writes a symbol as its name. */
  function JsonValue(v: Val): (r: Val)
    ensures !r.Sym?
    ensures !v.Sym? ==> r == v
  {
    match v
    case Sym(n) => Str(n)
    case _ => v
  }

  predicate SymbolFree(a: Attrs) {
    forall k :: k in a ==> !a[k].Sym?
  }

  /** The blob written to `attributes.json`. */
  function Encode(a: Attrs): (d: Data)
    ensures d.Json? && d.doc.Keys == a.Keys
    ensures forall k :: k in a ==> d.doc[k] == JsonValue(a[k])
  {
    Json(map k | k in a :: JsonValue(a[k]))
  }

  /** Parsing an `attributes.json` blob. */
  function Decode(d: Data): (r: Outcome<Attrs>)
    ensures r.Ok? <==> d.Json?
    ensures r.Raise? ==> r.error == ParseError
  {
    match d
    case Json(doc) => Ok(doc)
    case Text(_) => Raise(ParseError)
  }

  /** Encoding then decoding gives back every symbol-free dictionary, and
      the decoded dictionary is always symbol-free. */
  lemma DecodeEncode(a: Attrs)
    ensures Decode(Encode(a)).Ok?
    ensures SymbolFree(Decode(Encode(a)).value)
    ensures SymbolFree(a) ==> Decode(Encode(a)) == Ok(a)
  {
    if SymbolFree(a) {
      assert Encode(a).doc == a;
    }
  }

  /** Decimal digits of a natural number. */
  function NatToString(n: nat): (s: string)
    ensures |s| > 0
    decreases n
  {
    var d := ['0' + (n % 10) as char];
    if n < 10 then d else NatToString(n / 10) + d
  }

  /** String interpolation `"#{v}"`. */
  function ToS(v: Val): string {
    match v
    case Nil => ""
    case Bool(b) => if b then "true" else "false"
    case Int(i) => if i < 0 then "-" + NatToString(-i) else NatToString(i)
    case Str(s) => s
    case Sym(n) => n
  }
}
