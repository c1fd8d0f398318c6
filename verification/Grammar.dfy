/**
 The JSON grammar of RFC 7159 (sections 2 to 7), stated without any reference to the scanner:
 a document is a syntax tree that remembers its white space, together with the text it spells.
 */
module Grammar {
  import opened Bytes

  // Section 2: insignificant white space.
  predicate IsSpace(c: byte) {
    c == SPACE || c == TAB || c == CR || c == LF
  }

  predicate AllSpace(s: bytes) {
    forall i | 0 <= i < |s| :: IsSpace(s[i])
  }

  predicate IsDigit(c: byte) {
    ZERO <= c <= NINE
  }

  predicate IsHex(c: byte) {
    IsDigit(c) || 0x61 <= c <= 0x66 || 0x41 <= c <= 0x46
  }

  predicate AllDigits(s: bytes) {
    forall i | 0 <= i < |s| :: IsDigit(s[i])
  }

  // Section 3: the three literal names.
  const TRUE: bytes := [0x74, 0x72, 0x75, 0x65]
  const FALSE: bytes := [0x66, 0x61, 0x6C, 0x73, 0x65]
  const NULL: bytes := [0x6E, 0x75, 0x6C, 0x6C]

  predicate IsName(s: bytes) {
    s == TRUE || s == FALSE || s == NULL
  }

  // Section 6: number = [ minus ] int [ frac ] [ exp ].
  predicate IsInt(s: bytes) {
    s == [ZERO] || (|s| > 0 && s[0] != ZERO && AllDigits(s))
  }

  predicate IsFrac(s: bytes) {
    s == [] || (|s| >= 2 && s[0] == DOT && AllDigits(s[1..]))
  }

  predicate IsExp(s: bytes) {
    || s == []
    || (|s| >= 2 && IsE(s[0]) && AllDigits(s[1..]))
    || (|s| >= 3 && IsE(s[0]) && IsSign(s[1]) && AllDigits(s[2..]))
  }

  predicate IsE(c: byte) {
    c == 0x65 || c == 0x45
  }

  predicate IsSign(c: byte) {
    c == PLUS || c == MINUS
  }

  predicate NumberParts(s: bytes, minus: bytes, whole: bytes, frac: bytes, exp: bytes) {
    && s == minus + (whole + (frac + exp))
    && (minus == [] || minus == [MINUS])
    && IsInt(whole) && IsFrac(frac) && IsExp(exp)
  }

  ghost predicate IsNumber(s: bytes) {
    exists minus: bytes, whole: bytes, frac: bytes, exp: bytes :: NumberParts(s, minus, whole, frac, exp)
  }

  // Section 7: string = quotation-mark *char quotation-mark.
  predicate IsEscape(c: byte) {
    c == QUOTE || c == BACKSLASH || c == SLASH || c == 0x62 || c == 0x66 || c == 0x6E || c == 0x72 || c == 0x74
  }

  predicate IsChars(s: bytes) {
    if s == [] then true
    else if s[0] == BACKSLASH then
      && |s| >= 2
      && if s[1] == 0x75
         then |s| >= 6 && IsHex(s[2]) && IsHex(s[3]) && IsHex(s[4]) && IsHex(s[5]) && IsChars(s[6..])
         else IsEscape(s[1]) && IsChars(s[2..])
    else s[0] >= 0x20 && s[0] != QUOTE && IsChars(s[1..])
  }

  predicate IsString(s: bytes) {
    |s| >= 2 && s[0] == QUOTE && s[|s| - 1] == QUOTE && IsChars(s[1..|s| - 1])
  }

  ghost predicate IsLiteral(s: bytes) {
    IsName(s) || IsString(s) || IsNumber(s)
  }

  // Sections 3 to 5: values, objects and arrays.  `Node` is an object when `obj` holds, else an array.
  datatype Tree =
    | Leaf(text: bytes)
    | Node(obj: bool, gap: bytes, items: Items)

  /** The elements of an array, or the members of an object, in source order. */
  datatype Items = Nil | Cons(pre: bytes, key: Key, value: Tree, post: bytes, rest: Items)

  /** A member's name with the white space around its colon; array elements have none. */
  datatype Key = NoKey | Key(text: bytes, before: bytes, after: bytes)

  /** JSON-text = ws value ws. */
  datatype Doc = Doc(pre: bytes, tree: Tree, post: bytes)

  function Open(obj: bool): byte { if obj then LBRACE else LBRACKET }

  function Close(obj: bool): byte { if obj then RBRACE else RBRACKET }

  // Each function below gives the text of a phrase followed by the given bytes.

  function SpellKey(k: Key, r: bytes): bytes {
    match k
    case NoKey => r
    case Key(text, before, after) => text + (before + ([COLON] + (after + r)))
  }

  function Spell(t: Tree, r: bytes): bytes
    decreases t, 0
  {
    match t
    case Leaf(text) => text + r
    case Node(obj, gap, items) => [Open(obj)] + (gap + SpellItems(items, [Close(obj)] + r))
  }

  function SpellItems(xs: Items, r: bytes): bytes
    decreases xs, 0
  {
    match xs
    case Nil => r
    case Cons(pre, key, value, post, rest) =>
      pre + SpellKey(key, Spell(value, post + SpellTail(rest, r)))
  }

  /** The items that remain after a first one. */
  function SpellTail(rest: Items, r: bytes): bytes
    decreases rest, 1
  {
    if rest.Nil? then r else [COMMA] + SpellItems(rest, r)
  }

  function Text(t: Tree): bytes {
    Spell(t, [])
  }

  function DocText(d: Doc): bytes {
    d.pre + Spell(d.tree, d.post)
  }

  ghost predicate KeyOk(obj: bool, k: Key) {
    match k
    case NoKey => !obj
    case Key(text, before, after) => obj && IsString(text) && AllSpace(before) && AllSpace(after)
  }

  ghost predicate TreeOk(t: Tree)
    decreases t
  {
    match t
    case Leaf(text) => IsLiteral(text)
    case Node(obj, gap, items) => AllSpace(gap) && (items.Cons? ==> gap == []) && ItemsOk(obj, items)
  }

  ghost predicate ItemsOk(obj: bool, xs: Items)
    decreases xs
  {
    match xs
    case Nil => true
    case Cons(pre, key, value, post, rest) =>
      AllSpace(pre) && KeyOk(obj, key) && TreeOk(value) && AllSpace(post) && ItemsOk(obj, rest)
  }

  ghost predicate DocOk(d: Doc) {
    AllSpace(d.pre) && TreeOk(d.tree) && AllSpace(d.post)
  }

  /** `s` is a JSON text: white space, one value of the grammar, white space. */
  ghost predicate IsJson(s: bytes) {
    exists d: Doc :: DocOk(d) && DocText(d) == s
  }
}
