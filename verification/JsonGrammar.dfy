/**
 JSON values and texts, apart from any parser: derivation trees of the grammar in sections 2
 to 7 of RFC 8259 read over bytes, the text each derives, and the value each denotes.
 */
module JsonGrammar {
  import opened Words

  type byte = b: int | 0 <= b < 256

  type Text = seq<byte>

  // Values

  /**
   The source's variant. An object is its std::map: members in ascending key order. A double is
   kept as the literal it was read from.
   */
  datatype Json =
    | Null
    | Bool(b: bool)
    | Int64(i: int)
    | UInt64(u: nat)
    | Double(literal: Text)
    | String(s: Text)
    | Array(items: seq<Json>)
    | Object(members: seq<Member>)

  datatype Member = Member(key: Text, value: Json)

  /** Byte-wise order of keys, as std::string compares them. */
  predicate KeyLess(a: Text, b: Text)
  {
    if b == [] then false
    else if a == [] then true
    else if a[0] != b[0] then a[0] < b[0]
    else KeyLess(a[1..], b[1..])
  }

  predicate HasKey(members: seq<Member>, key: Text)
  {
    exists i | 0 <= i < |members| :: members[i].key == key
  }

  /** Where std::map keeps a new key. */
  function Insert(members: seq<Member>, m: Member): seq<Member>
  {
    if members == [] then [m]
    else if KeyLess(m.key, members[0].key) then [m] + members
    else [members[0]] + Insert(members[1..], m)
  }

  // Characters

  const QUOTE: byte := 0x22
  const BACKSLASH: byte := 0x5C
  const SLASH: byte := 0x2F
  const COMMA: byte := 0x2C
  const COLON: byte := 0x3A
  const LBRACKET: byte := 0x5B
  const RBRACKET: byte := 0x5D
  const LBRACE: byte := 0x7B
  const RBRACE: byte := 0x7D
  const MINUS: byte := 0x2D
  const PLUS: byte := 0x2B
  const DOT: byte := 0x2E
  const ZERO: byte := 0x30
  const LOWER_U: byte := 0x75
  const NULL: Text := [0x6E, 0x75, 0x6C, 0x6C]
  const TRUE: Text := [0x74, 0x72, 0x75, 0x65]
  const FALSE: Text := [0x66, 0x61, 0x6C, 0x73, 0x65]

  predicate IsWs(b: byte) { b == 0x20 || b == 0x0A || b == 0x0D || b == 0x09 }

  predicate IsDigit(b: byte) { 0x30 <= b <= 0x39 }

  predicate IsExponentMark(b: byte) { b == 0x65 || b == 0x45 }

  predicate AllWs(s: Text) { forall i | 0 <= i < |s| :: IsWs(s[i]) }

  predicate AllDigits(s: Text) { forall i | 0 <= i < |s| :: IsDigit(s[i]) }

  predicate IsHex(b: byte) { IsDigit(b) || 0x61 <= b <= 0x66 || 0x41 <= b <= 0x46 }

  function HexValue(b: byte): (v: nat)
    requires IsHex(b)
    ensures v < 16
  {
    if IsDigit(b) then b - 0x30 else if 0x61 <= b then b - 0x61 + 10 else b - 0x41 + 10
  }

  predicate IsHex4(h: Text) { |h| == 4 && forall i | 0 <= i < 4 :: IsHex(h[i]) }

  function Hex4Value(h: Text): (v: nat)
    requires IsHex4(h)
    ensures v < 0x10000
  {
    ((HexValue(h[0]) * 16 + HexValue(h[1])) * 16 + HexValue(h[2])) * 16 + HexValue(h[3])
  }

  predicate IsHighSurrogate(u: nat) { 0xD800 <= u <= 0xDBFF }

  predicate IsLowSurrogate(u: nat) { 0xDC00 <= u <= 0xDFFF }

  /** The code point of a surrogate pair (section 2.2 of RFC 2781). */
  function PairCode(high: nat, low: nat): nat
    requires IsHighSurrogate(high) && IsLowSurrogate(low)
  {
    0x10000 + (high - 0xD800) * 0x400 + (low - 0xDC00)
  }

  /** The UTF-8 bytes of a code point (section 3 of RFC 3629). */
  function Utf8(code: nat): Text
    requires code <= 0x10FFFF
  {
    if code <= 0x7F then [code]
    else if code <= 0x7FF then [0xC0 + code / 0x40, 0x80 + code % 0x40]
    else if code <= 0xFFFF then [0xE0 + code / 0x1000, 0x80 + code / 0x40 % 0x40, 0x80 + code % 0x40]
    else [0xF0 + code / 0x40000, 0x80 + code / 0x1000 % 0x40, 0x80 + code / 0x40 % 0x40, 0x80 + code % 0x40]
  }

  // Strings (section 7)

  /** One character of a string, as written. A Pair is two \u escapes read together. */
  datatype Char =
    | Plain(b: byte)
    | Escape(e: byte)
    | Unit(hex: Text)
    | Pair(high: Text, low: Text)

  predicate IsSimpleEscape(e: byte)
  {
    e == QUOTE || e == BACKSLASH || e == SLASH || e == 0x62 || e == 0x66 || e == 0x6E || e == 0x72 || e == 0x74
  }

  function SimpleEscape(e: byte): byte
    requires IsSimpleEscape(e)
  {
    if e == 0x62 then 0x08 else if e == 0x66 then 0x0C else if e == 0x6E then 0x0A
    else if e == 0x72 then 0x0D else if e == 0x74 then 0x09 else e
  }

  predicate InGrammar(c: Char)
  {
    match c
    case Plain(b) => 0x20 <= b && b != QUOTE && b != BACKSLASH
    case Escape(e) => IsSimpleEscape(e)
    case Unit(hex) => IsHex4(hex)
    case Pair(high, low) => IsHex4(high) && IsHex4(low)
  }

  /** Surrogates come in pairs and only there. */
  predicate Decodable(c: Char)
    requires InGrammar(c)
  {
    match c
    case Unit(hex) => !IsHighSurrogate(Hex4Value(hex)) && !IsLowSurrogate(Hex4Value(hex))
    case Pair(high, low) => IsHighSurrogate(Hex4Value(high)) && IsLowSurrogate(Hex4Value(low))
    case _ => true
  }

  predicate Accepted(c: Char) { InGrammar(c) && Decodable(c) }

  function CharYield(c: Char): Text
  {
    match c
    case Plain(b) => [b]
    case Escape(e) => [BACKSLASH, e]
    case Unit(hex) => [BACKSLASH, LOWER_U] + hex
    case Pair(high, low) => [BACKSLASH, LOWER_U] + high + [BACKSLASH, LOWER_U] + low
  }

  function CharMeaning(c: Char): Text
    requires Accepted(c)
  {
    match c
    case Plain(b) => [b]
    case Escape(e) => [SimpleEscape(e)]
    case Unit(hex) => Utf8(Hex4Value(hex))
    case Pair(high, low) => Utf8(PairCode(Hex4Value(high), Hex4Value(low)))
  }

  predicate CharsAccepted(cs: seq<Char>) { cs == [] || (Accepted(cs[0]) && CharsAccepted(cs[1..])) }

  function CharsYield(cs: seq<Char>): Text
  {
    if cs == [] then [] else CharYield(cs[0]) + CharsYield(cs[1..])
  }

  function CharsMeaning(cs: seq<Char>): Text
    requires CharsAccepted(cs)
  {
    if cs == [] then [] else CharMeaning(cs[0]) + CharsMeaning(cs[1..])
  }

  function StringYield(cs: seq<Char>): Text { [QUOTE] + CharsYield(cs) + [QUOTE] }

  // Numbers (section 6)

  datatype Exponent = NoExponent | Exponent(mark: byte, sign: Text, digits: Text)

  /** `fraction` holds the digits after the point; none means no point. */
  datatype Numeral = Numeral(minus: bool, digits: Text, fraction: Text, exponent: Exponent)

  predicate NumeralInGrammar(n: Numeral)
  {
    && n.digits != [] && AllDigits(n.digits) && (n.digits[0] == ZERO ==> |n.digits| == 1)
    && AllDigits(n.fraction)
    && (n.exponent.Exponent? ==>
          && IsExponentMark(n.exponent.mark)
          && (n.exponent.sign == [] || n.exponent.sign == [PLUS] || n.exponent.sign == [MINUS])
          && n.exponent.digits != [] && AllDigits(n.exponent.digits))
  }

  function ExponentYield(e: Exponent): Text
  {
    if e.NoExponent? then [] else [e.mark] + e.sign + e.digits
  }

  function FractionYield(f: Text): Text { if f == [] then [] else [DOT] + f }

  function NumeralYield(n: Numeral): Text
  {
    (if n.minus then [MINUS] else []) + n.digits + FractionYield(n.fraction) + ExponentYield(n.exponent)
  }

  function DigitsValue(s: Text): nat
    requires AllDigits(s)
  {
    if s == [] then 0 else DigitsValue(s[..|s| - 1]) * 10 + (s[|s| - 1] - 0x30)
  }

  predicate IsIntegral(n: Numeral) { n.fraction == [] && n.exponent.NoExponent? }

  const I64_MIN_ABS: nat := 0x8000_0000_0000_0000

  /** Integers in range stay integers, negative ones signed; anything else is a double. */
  function NumeralMeaning(n: Numeral): Json
    requires NumeralInGrammar(n)
  {
    if IsIntegral(n) && n.minus && DigitsValue(n.digits) <= I64_MIN_ABS then Int64(-(DigitsValue(n.digits) as int))
    else if IsIntegral(n) && !n.minus && DigitsValue(n.digits) < U64 then UInt64(DigitsValue(n.digits))
    else Double(NumeralYield(n))
  }

  // Values (sections 2 to 5)

  datatype Tree =
    | NullTree
    | TrueTree
    | FalseTree
    | NumberTree(numeral: Numeral)
    | StringTree(chars: seq<Char>)
    | EmptyArrayTree(ws: Text)
    | ArrayTree(items: seq<Item>)
    | EmptyObjectTree(ws: Text)
    | ObjectTree(entries: seq<Entry>)

  datatype Item = Item(before: Text, tree: Tree, after: Text)

  datatype Entry = Entry(before: Text, key: seq<Char>, afterKey: Text, beforeValue: Text, tree: Tree, after: Text)

  function Yield(t: Tree): Text
    decreases t, 0
  {
    match t
    case NullTree => NULL
    case TrueTree => TRUE
    case FalseTree => FALSE
    case NumberTree(n) => NumeralYield(n)
    case StringTree(cs) => StringYield(cs)
    case EmptyArrayTree(ws) => [LBRACKET] + ws + [RBRACKET]
    case ArrayTree(items) => [LBRACKET] + ItemsYield(items)
    case EmptyObjectTree(ws) => [LBRACE] + ws + [RBRACE]
    case ObjectTree(entries) => [LBRACE] + EntriesYield(entries)
  }

  /** A value with the white space about it. */
  function PaddedYield(before: Text, t: Tree, after: Text): Text
    decreases t, 1
  {
    before + Yield(t) + after
  }

  /** The rest of an array once its bracket is open, closing bracket included. */
  function ItemsYield(items: seq<Item>): Text
    decreases items, 0
  {
    if items == [] then []
    else
      PaddedYield(items[0].before, items[0].tree, items[0].after) +
      if |items| == 1 then [RBRACKET] else [COMMA] + ItemsYield(items[1..])
  }

  /** An entry up to its colon. */
  function KeyYield(e: Entry): Text { e.before + StringYield(e.key) + e.afterKey + [COLON] }

  function EntriesYield(entries: seq<Entry>): Text
    decreases entries, 0
  {
    if entries == [] then []
    else
      var e := entries[0];
      KeyYield(e) +
      (PaddedYield(e.beforeValue, e.tree, e.after) +
       if |entries| == 1 then [RBRACE] else [COMMA] + EntriesYield(entries[1..]))
  }

  /**
   A tree the parser is to accept: every production of the grammar, and beyond it paired
   surrogates, numbers whose double is finite, and keys distinct within each object.
   */
  predicate Legal(t: Tree, finite: iset<Text>)
    decreases t, 0
  {
    match t
    case NullTree => true
    case TrueTree => true
    case FalseTree => true
    case NumberTree(n) => NumeralInGrammar(n) && (NumeralMeaning(n).Double? ==> NumeralYield(n) in finite)
    case StringTree(cs) => CharsAccepted(cs)
    case EmptyArrayTree(ws) => AllWs(ws)
    case ArrayTree(items) => items != [] && ItemsLegal(items, finite)
    case EmptyObjectTree(ws) => AllWs(ws)
    case ObjectTree(entries) => entries != [] && EntriesLegal(entries, finite) && KeysDistinct(entries)
  }

  predicate ItemsLegal(items: seq<Item>, finite: iset<Text>)
    decreases items, 0
  {
    items != [] ==>
      && AllWs(items[0].before) && AllWs(items[0].after) && Legal(items[0].tree, finite)
      && ItemsLegal(items[1..], finite)
  }

  predicate EntriesLegal(entries: seq<Entry>, finite: iset<Text>)
    decreases entries, 0
  {
    entries != [] ==>
      && AllWs(entries[0].before) && AllWs(entries[0].afterKey)
      && AllWs(entries[0].beforeValue) && AllWs(entries[0].after)
      && CharsAccepted(entries[0].key) && Legal(entries[0].tree, finite)
      && EntriesLegal(entries[1..], finite)
  }

  /** The decoded key differs from every key among the entries. */
  predicate KeyAbsent(key: Text, entries: seq<Entry>)
  {
    entries != [] ==>
      && (CharsAccepted(entries[0].key) ==> CharsMeaning(entries[0].key) != key)
      && KeyAbsent(key, entries[1..])
  }

  predicate KeysDistinct(entries: seq<Entry>)
  {
    entries != [] ==>
      && (CharsAccepted(entries[0].key) ==> KeyAbsent(CharsMeaning(entries[0].key), entries[1..]))
      && KeysDistinct(entries[1..])
  }

  function Meaning(t: Tree, finite: iset<Text>): Json
    requires Legal(t, finite)
    decreases t, 0
  {
    match t
    case NullTree => Null
    case TrueTree => Bool(true)
    case FalseTree => Bool(false)
    case NumberTree(n) => NumeralMeaning(n)
    case StringTree(cs) => String(CharsMeaning(cs))
    case EmptyArrayTree(_) => Array([])
    case ArrayTree(items) => Array(ItemsMeaning(items, finite))
    case EmptyObjectTree(_) => Object([])
    case ObjectTree(entries) => Object(EntriesInto([], entries, finite))
  }

  function ItemsMeaning(items: seq<Item>, finite: iset<Text>): seq<Json>
    requires ItemsLegal(items, finite)
    decreases items, 0
  {
    if items == [] then []
    else [Meaning(items[0].tree, finite)] + ItemsMeaning(items[1..], finite)
  }

  /** A map after the entries, in the order written, have been put into it. */
  function EntriesInto(members: seq<Member>, entries: seq<Entry>, finite: iset<Text>): seq<Member>
    requires EntriesLegal(entries, finite)
    decreases entries, 0
  {
    if entries == [] then members
    else
      var e := entries[0];
      EntriesInto(Insert(members, Member(CharsMeaning(e.key), Meaning(e.tree, finite))), entries[1..], finite)
  }

  /** A JSON text: a value with white space about it. */
  datatype Document = Document(before: Text, tree: Tree, after: Text)

  predicate DocumentLegal(d: Document, finite: iset<Text>)
  {
    AllWs(d.before) && AllWs(d.after) && Legal(d.tree, finite)
  }

  function DocumentYield(d: Document): Text { d.before + Yield(d.tree) + d.after }
}
