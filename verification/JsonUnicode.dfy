/**
 Escapes against the standards: the bytes of an accepted \u escape decode, by the table of
 section 3 of RFC 3629, to the code point meant, and surrogate pairs cover the supplementary
 planes one to one.
 */
module JsonUnicode {
  import opened JsonGrammar

  predicate IsScalar(code: nat) { code <= 0x10FFFF && !IsHighSurrogate(code) && !IsLowSurrogate(code) }

  predicate IsTail(b: byte) { 0x80 <= b <= 0xBF }

  /** A byte without its marker. */
  function Bits(b: byte, marker: int): int { b - marker }

  /**
   The UTF8-char production of section 4 of RFC 3629 with the character number each sequence
   stands for: overlong forms, surrogates and numbers past 0x10FFFF are not in it.
   */
  predicate Denotes(s: Text, code: nat)
  {
    match |s|
    case 1 => s[0] <= 0x7F && code == s[0]
    case 2 => 0xC2 <= s[0] <= 0xDF && IsTail(s[1]) && code == Bits(s[0], 0xC0) * 0x40 + Bits(s[1], 0x80)
    case 3 =>
      && 0xE0 <= s[0] <= 0xEF && IsTail(s[1]) && IsTail(s[2])
      && (s[0] == 0xE0 ==> 0xA0 <= s[1]) && (s[0] == 0xED ==> s[1] <= 0x9F)
      && code == Bits(s[0], 0xE0) * 0x1000 + Bits(s[1], 0x80) * 0x40 + Bits(s[2], 0x80)
    case 4 =>
      && 0xF0 <= s[0] <= 0xF4 && IsTail(s[1]) && IsTail(s[2]) && IsTail(s[3])
      && (s[0] == 0xF0 ==> 0x90 <= s[1]) && (s[0] == 0xF4 ==> s[1] <= 0x8F)
      && code == Bits(s[0], 0xF0) * 0x40000 + Bits(s[1], 0x80) * 0x1000 + Bits(s[2], 0x80) * 0x40 + Bits(s[3], 0x80)
    case _ => false
  }

  /** appendUtf8 writes the one sequence that denotes the code point. */
  lemma Utf8Exact(s: Text, code: nat)
    requires IsScalar(code)
    ensures Denotes(s, code) <==> s == Utf8(code)
  {
    if Denotes(s, code) {
      DecodeUnique(s, code);
    }
    EncodeDenotes(code);
  }

  lemma EncodeDenotes(code: nat)
    requires IsScalar(code)
    ensures Denotes(Utf8(code), code)
  {
    if 0x7F < code <= 0x7FF {
      assert code == code / 0x40 * 0x40 + code % 0x40;
    } else if 0x7FF < code <= 0xFFFF {
      EncodeDenotes3(code);
    } else if 0xFFFF < code {
      EncodeDenotes4(code);
    }
  }

  lemma EncodeDenotes3(code: nat)
    requires IsScalar(code) && 0x7FF < code <= 0xFFFF
    ensures Denotes(Utf8(code), code)
  {
    var a, b, c := code / 0x1000, code / 0x40 % 0x40, code % 0x40;
    assert code == a * 0x1000 + b * 0x40 + c;
    assert Utf8(code) == [0xE0 + a, 0x80 + b, 0x80 + c];
  }

  lemma EncodeDenotes4(code: nat)
    requires IsScalar(code) && 0xFFFF < code
    ensures Denotes(Utf8(code), code)
  {
    var a, b, c, d := code / 0x40000, code / 0x1000 % 0x40, code / 0x40 % 0x40, code % 0x40;
    assert code == a * 0x40000 + b * 0x1000 + c * 0x40 + d;
    assert Utf8(code) == [0xF0 + a, 0x80 + b, 0x80 + c, 0x80 + d];
  }

  lemma DecodeUnique(s: Text, code: nat)
    requires IsScalar(code) && Denotes(s, code)
    ensures s == Utf8(code)
  {
    if |s| == 2 {
      Digits(Bits(s[0], 0xC0), Bits(s[1], 0x80));
    } else if |s| == 3 {
      DecodeUnique3(s, code);
    } else if |s| == 4 {
      DecodeUnique4(s, code);
    }
  }

  lemma DecodeUnique3(s: Text, code: nat)
    requires |s| == 3 && Denotes(s, code)
    ensures s == Utf8(code)
  {
    var a, b, c := Bits(s[0], 0xE0), Bits(s[1], 0x80), Bits(s[2], 0x80);
    assert code == (a * 0x40 + b) * 0x40 + c;
    Digits(a * 0x40 + b, c);
    Digits(a, b);
    Halves(code);
  }

  lemma DecodeUnique4(s: Text, code: nat)
    requires |s| == 4 && Denotes(s, code)
    ensures s == Utf8(code)
  {
    var a, b, c, d := Bits(s[0], 0xF0), Bits(s[1], 0x80), Bits(s[2], 0x80), Bits(s[3], 0x80);
    assert code == ((a * 0x40 + b) * 0x40 + c) * 0x40 + d;
    Digits((a * 0x40 + b) * 0x40 + c, d);
    Digits(a * 0x40 + b, c);
    Digits(a, b);
    Halves(code);
  }

  lemma Halves(code: nat)
    ensures code / 0x1000 == code / 0x40 / 0x40 && code / 0x40000 == code / 0x40 / 0x40 / 0x40
  {
  }

  lemma Digits(high: nat, low: nat)
    requires low < 0x40
    ensures (high * 0x40 + low) / 0x40 == high && (high * 0x40 + low) % 0x40 == low
  {
  }

  /** The surrogates of section 2.1 of RFC 2781. */
  function SurrogatesOf(code: nat): (r: (nat, nat))
    requires 0x10000 <= code <= 0x10FFFF
  {
    (0xD800 + (code - 0x10000) / 0x400, 0xDC00 + (code - 0x10000) % 0x400)
  }

  /** Pairs and supplementary code points are in one-to-one correspondence. */
  lemma PairsOneToOne(high: nat, low: nat, code: nat)
    requires 0x10000 <= code <= 0x10FFFF
    ensures IsHighSurrogate(high) && IsLowSurrogate(low) && PairCode(high, low) == code <==> (high, low) == SurrogatesOf(code)
  {
    var rest := code - 0x10000;
    assert rest == rest / 0x400 * 0x400 + rest % 0x400;
    if IsHighSurrogate(high) && IsLowSurrogate(low) && PairCode(high, low) == code {
      assert rest == (high - 0xD800) * 0x400 + (low - 0xDC00);
    }
  }

  /** The code point an escape names. */
  function EscapedCode(c: Char): nat
    requires Accepted(c) && (c.Unit? || c.Pair?)
  {
    if c.Unit? then Hex4Value(c.hex) else PairCode(Hex4Value(c.high), Hex4Value(c.low))
  }

  /** What an accepted \u escape adds to the string is UTF-8 for exactly the code point it names. */
  lemma EscapeDecodes(c: Char, code: nat)
    requires Accepted(c) && (c.Unit? || c.Pair?)
    ensures Denotes(CharMeaning(c), code) <==> code == EscapedCode(c)
    ensures c.Pair? <==> 0x10000 <= EscapedCode(c) <= 0x10FFFF
  {
    EncodeDenotes(EscapedCode(c));
  }
}
