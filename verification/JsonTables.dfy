/**
 The letters, digits and tables of the format, as sections 2 to 7 of RFC 8259 give them, against the
 parser and the printer: nothing here goes through the functions they share.
 */
module JsonTables {
  import opened Arithmetic
  import opened JsonGrammar
  import opened JsonParsing
  import opened JsonPrinting
  import opened JsonSoundness
  import opened Words

  /** A string of ASCII characters as bytes. */
  function Ascii(s: string): Text { seq(|s|, i requires 0 <= i < |s| => s[i] as int % 256) }

  // Escapes (section 7)

  /** The letter after the backslash and the byte meant. */
  predicate EscapePair(e: byte, b: byte)
  {
    || (e == '"' as int && b == 0x22)
    || (e == '\\' as int && b == 0x5C)
    || (e == '/' as int && b == 0x2F)
    || (e == 'b' as int && b == 0x08)
    || (e == 'f' as int && b == 0x0C)
    || (e == 'n' as int && b == 0x0A)
    || (e == 'r' as int && b == 0x0D)
    || (e == 't' as int && b == 0x09)
  }

  function EscapeText(e: byte): Text { ['"' as int, '\\' as int, e, '"' as int] }

  lemma EscapedCharRead(e: byte)
    ensures ParseChars(EscapeText(e), 1, []) == if IsSimpleEscape(e) then Ok([SimpleEscape(e)], 4) else Err
  {
    var t := EscapeText(e);
    if IsSimpleEscape(e) {
      assert [] + [SimpleEscape(e)] == [SimpleEscape(e)];
      assert ParseChars(t, 3, [SimpleEscape(e)]) == Ok([SimpleEscape(e)], 4);
    } else {
      assert ParseHex4(t, 3) == Err;
    }
  }

  /** A string of one escape is read as a byte exactly when the two are a pair. */
  lemma EscapeRead(e: byte, b: byte, finite: iset<Text>)
    ensures Parse(EscapeText(e), finite) == Ok(String([b]), 4) <==> EscapePair(e, b)
  {
    var t := EscapeText(e);
    EscapedCharRead(e);
    hide ParseChars;
    assert SkipWs(t, 0) == 0 && SkipWs(t, 4) == 4;
    assert ParseToken(t, 0, finite) == if IsSimpleEscape(e) then Ok(String([SimpleEscape(e)]), 4) else Err;
  }

  /** The printer writes a byte as itself, as a letter or in hex, each exactly where the source does. */
  lemma EscapeWritten(b: byte, e: byte)
    ensures EscapedByte(b) == ['\\' as int, e] <==> EscapePair(e, b) && e != '/' as int
    ensures EscapedByte(b) == [b] <==> b >= 0x20 && b != '"' as int && b != '\\' as int
    ensures b < 0x20 && b !in {0x08, 0x09, 0x0A, 0x0C, 0x0D} ==>
              EscapedByte(b) == Ascii("\\u00") + [HexDigit(b / 16), HexDigit(b % 16)]
  {
    if b < 0x20 && b !in {0x08, 0x09, 0x0A, 0x0C, 0x0D} {
      HexWritten(b / 16);
      HexWritten(b % 16);
      hide HexDigit, LowerHex;
    } else if ShortEscape(b) != [] {
      assert EscapedByte(b) == ['\\' as int, ShortEscape(b)[0]];
    }
  }

  // Hex digits

  function HexDigit(d: nat): byte
    requires d < 16
  {
    "0123456789abcdef"[d] as int % 256
  }

  function UpperHexDigit(d: nat): byte
    requires d < 16
  {
    "0123456789ABCDEF"[d] as int % 256
  }

  lemma HexWritten(d: nat)
    requires d < 16
    ensures LowerHex(d) == HexDigit(d)
  {
  }

  /** A hex digit is one of either case, and has the value of its place among them. */
  lemma HexRead(b: byte, d: nat)
    requires d < 16
    ensures IsHex(b) && HexValue(b) == d <==> b == HexDigit(d) || b == UpperHexDigit(d)
  {
    HexWritten(d);
    UpperHexCode(d);
    hide HexDigit, UpperHexDigit;
  }

  lemma UpperHexCode(d: nat)
    requires d < 16
    ensures UpperHexDigit(d) == if d < 10 then 0x30 + d else 0x41 + d - 10
  {
  }

  /** Four of them are read in base sixteen, the first the most significant. */
  lemma Hex4Read(a: nat, b: nat, c: nat, d: nat)
    requires a < 16 && b < 16 && c < 16 && d < 16
    ensures var h := [HexDigit(a), HexDigit(b), HexDigit(c), HexDigit(d)];
            IsHex4(h) && Hex4Value(h) == a * 4096 + b * 256 + c * 16 + d
  {
    HexRead(HexDigit(a), a);
    HexRead(HexDigit(b), b);
    HexRead(HexDigit(c), c);
    HexRead(HexDigit(d), d);
    hide HexValue, IsHex, HexDigit;
  }

  // Numbers (section 6)

  function DecimalDigit(d: nat): byte
    requires d < 10
  {
    "0123456789"[d] as int % 256
  }

  lemma DigitCode(d: nat)
    requires d < 10
    ensures DecimalDigit(d) == 0x30 + d
  {
  }

  lemma DigitRead(b: byte)
    ensures IsDigit(b) <==> exists d: nat | 0 <= d < 10 :: b == DecimalDigit(d)
  {
    if IsDigit(b) {
      assert b == DecimalDigit(b - 0x30);
    }
  }

  function Pow10(n: nat): nat { if n == 0 then 1 else 10 * Pow10(n - 1) }

  /** Digits with their places, the first the most significant. */
  function PlaceValue(ds: seq<nat>): nat
  {
    if ds == [] then 0 else ds[0] * Pow10(|ds| - 1) + PlaceValue(ds[1..])
  }

  function Written(ds: seq<nat>): Text
    requires forall i | 0 <= i < |ds| :: ds[i] < 10
  {
    seq(|ds|, i requires 0 <= i < |ds| => DecimalDigit(ds[i]))
  }

  lemma {:induction false} PlaceValueLast(ds: seq<nat>)
    requires ds != []
    ensures PlaceValue(ds) == PlaceValue(ds[..|ds| - 1]) * 10 + ds[|ds| - 1]
  {
    var n := |ds| - 1;
    if n > 0 {
      PlaceValueLast(ds[1..]);
      assert ds[1..][..n - 1] == ds[..n][1..];
      Tens(ds[0], n, PlaceValue(ds[..n][1..]));
    }
  }

  lemma Tens(d: nat, n: nat, rest: nat)
    requires n > 0
    ensures d * Pow10(n) + rest * 10 == (d * Pow10(n - 1) + rest) * 10
  {
    assert Pow10(n) == 10 * Pow10(n - 1);
  }

  lemma NoPlaces()
    ensures PlaceValue([]) == 0
  {
  }

  /** Decimal digits are read with their places. */
  lemma {:induction false} DigitsRead(ds: seq<nat>)
    requires forall i | 0 <= i < |ds| :: ds[i] < 10
    ensures AllDigits(Written(ds)) && DigitsValue(Written(ds)) == PlaceValue(ds)
  {
    hide DecimalDigit, PlaceValue;
    if ds != [] {
      var n := |ds| - 1;
      DigitsRead(ds[..n]);
      PlaceValueLast(ds);
      DigitCode(ds[n]);
      assert Written(ds) == Written(ds[..n]) + [DecimalDigit(ds[n])];
    } else {
      NoPlaces();
    }
  }

  /** The integers that stay integers are those of int64 below zero and of uint64 otherwise. */
  lemma IntegerRanges()
    ensures I64_MIN_ABS == Pow2(63) && U64 == Pow2(64)
  {
    Pow2Values();
    assert Pow2(64) == 2 * Pow2(63);
    hide Pow2;
  }

  // Words, marks and white space (sections 2 and 3)

  /** The three words, read and written. */
  lemma WordsExact(finite: iset<Text>)
    ensures Parse(Ascii("null"), finite) == Ok(Null, 4) && Print(Null) == Ascii("null")
    ensures Parse(Ascii("true"), finite) == Ok(Bool(true), 4) && Print(Bool(true)) == Ascii("true")
    ensures Parse(Ascii("false"), finite) == Ok(Bool(false), 5) && Print(Bool(false)) == Ascii("false")
  {
    assert NULL == Ascii("null") && TRUE == Ascii("true") && FALSE == Ascii("false");
    WordRead(NullTree, finite);
    WordRead(TrueTree, finite);
    WordRead(FalseTree, finite);
    hide Parse;
  }

  lemma WordRead(t: Tree, finite: iset<Text>)
    requires t.NullTree? || t.TrueTree? || t.FalseTree?
    ensures Parse(Yield(t), finite) == Ok(Meaning(t, finite), |Yield(t)|)
  {
    var d := Document([], t, []);
    assert DocumentYield(d) == Yield(t);
    ParseComplete(d, finite);
  }

  /** The structural characters and marks. */
  lemma MarksExact()
    ensures [LBRACKET, RBRACKET, LBRACE, RBRACE, COMMA, COLON] == Ascii("[]{},:")
    ensures [QUOTE, BACKSLASH, SLASH, LOWER_U] == Ascii("\"\\/u")
    ensures [MINUS, PLUS, DOT, ZERO] == Ascii("-+.0")
  {
  }

  /** White space, and the marks of an exponent. */
  lemma SpaceExact(b: byte)
    ensures IsWs(b) <==> b in {' ' as int, '\t' as int, '\n' as int, '\r' as int}
    ensures IsExponentMark(b) <==> b in {'e' as int, 'E' as int}
  {
  }

  // Keys

  /** Keys are in the order of their first different bytes, or of their lengths where one begins the other. */
  lemma {:induction false} KeyOrderExact(a: Text, b: Text)
    ensures KeyLess(a, b) <==> exists k | 0 <= k <= |a| && k < |b| :: a[..k] == b[..k] && (k == |a| || a[k] < b[k])
    decreases |b|
  {
    if a == [] {
      if b != [] {
        assert a[..0] == b[..0];
      }
    } else if b != [] {
      KeyOrderExact(a[1..], b[1..]);
      if KeyLess(a, b) {
        if a[0] != b[0] {
          assert a[..0] == b[..0];
        } else {
          var k :| 0 <= k <= |a| - 1 && k < |b| - 1 && a[1..][..k] == b[1..][..k] && (k == |a| - 1 || a[1..][k] < b[1..][k]);
          assert a[..k + 1] == [a[0]] + a[1..][..k] && b[..k + 1] == [b[0]] + b[1..][..k];
        }
      }
      if k :| 0 <= k <= |a| && k < |b| && a[..k] == b[..k] && (k == |a| || a[k] < b[k]) {
        if k > 0 {
          assert a[..k][0] == b[..k][0];
          assert a[1..][..k - 1] == a[..k][1..] && b[1..][..k - 1] == b[..k][1..];
        }
      }
    }
  }
}
