/**
 The parser as the source writes it: a position that advances over the text, with loops that
 append to what has been read. Each method agrees with its function in `JsonParsing`.
 */
module JsonParser {
  import opened JsonGrammar
  import opened JsonParsing
  import opened JsonSoundness
  import opened Words

  /** Failed stands for the source's JsonError. */
  datatype Outcome<T> = Value(value: T) | Failed

  ghost predicate Agrees<T(!new)>(o: Outcome<T>, pos: nat, r: Parsed<T>)
  {
    match r
    case Ok(v, q) => o == Value(v) && pos == q
    case Err => o.Failed?
  }

  /** Leading white space makes no difference to an array's items or an object's members. */
  lemma ItemsAfterWs(t: Text, p: nat, read: seq<Json>, finite: iset<Text>)
    requires p <= |t|
    ensures ParseItems(t, SkipWs(t, p), read, finite) == ParseItems(t, p, read, finite)
  {
    SkipWsIdempotent(t, p);
    assert ParseValue(t, SkipWs(t, p), finite) == ParseValue(t, p, finite);
  }

  lemma MembersAfterWs(t: Text, p: nat, read: seq<Member>, finite: iset<Text>)
    requires p <= |t|
    ensures ParseMembers(t, SkipWs(t, p), read, finite) == ParseMembers(t, p, read, finite)
  {
    SkipWsIdempotent(t, p);
    assert ParseMember(t, SkipWs(t, p), finite) == ParseMember(t, p, finite);
  }

  class Parser {
    const text: Text
    /** The literals whose double strtod finds finite. */
    const finite: iset<Text>
    var pos: nat

    constructor (text: Text, finite: iset<Text>)
      ensures this.text == text && this.finite == finite && pos == 0
    {
      this.text, this.finite, pos := text, finite, 0;
    }

    method Skip()
      requires pos <= |text|
      modifies this
      ensures pos == SkipWs(text, old(pos))
    {
      while pos < |text| && IsWs(text[pos])
        invariant pos <= |text| && SkipWs(text, pos) == SkipWs(text, old(pos))
      {
        pos := pos + 1;
      }
    }

    method Take(c: byte) returns (taken: bool)
      modifies this
      ensures taken == Next(text, old(pos), c) && pos == if taken then old(pos) + 1 else old(pos)
    {
      if pos < |text| && text[pos] == c {
        pos := pos + 1;
        return true;
      }
      return false;
    }

    method ExpectWord(w: Text, v: Json) returns (o: Outcome<Json>)
      requires pos <= |text|
      modifies this
      ensures Agrees(o, pos, Expect(text, old(pos), w, v))
    {
      if pos + |w| > |text| || text[pos..pos + |w|] != w {
        assert pos + |w| <= |text| ==> exists i | 0 <= i < |w| :: text[pos..pos + |w|][i] != w[i];
        return Failed;
      }
      SliceAt(text, pos, pos + |w|);
      pos := pos + |w|;
      return Value(v);
    }

    method ReadHex4() returns (o: Outcome<nat>)
      requires pos <= |text|
      modifies this
      ensures Agrees(o, pos, ParseHex4(text, old(pos))) && old(pos) <= pos <= |text|
    {
      if pos + 4 > |text| {
        return Failed;
      }
      ghost var h := text[pos..pos + 4];
      var code, i := 0, 0;
      while i < 4
        invariant 0 <= i <= 4 && pos == old(pos) + i
        invariant forall k | 0 <= k < i :: IsHex(h[k])
        invariant i == 1 ==> code == HexValue(h[0])
        invariant i == 2 ==> code == HexValue(h[0]) * 16 + HexValue(h[1])
        invariant i == 3 ==> code == (HexValue(h[0]) * 16 + HexValue(h[1])) * 16 + HexValue(h[2])
        invariant i == 4 ==> code == Hex4Value(h)
        invariant i == 0 ==> code == 0
      {
        var c := text[pos];
        assert c == h[i];
        pos := pos + 1;
        if !IsHex(c) {
          return Failed;
        }
        code := code * 16 + HexValue(c);
        i := i + 1;
      }
      return Value(code);
    }

    method ReadUnicode() returns (o: Outcome<nat>)
      requires pos <= |text|
      modifies this
      ensures Agrees(o, pos, ParseUnicode(text, old(pos)))
    {
      var first := ReadHex4();
      if first.Failed? || IsLowSurrogate(first.value) {
        return Failed;
      }
      if !IsHighSurrogate(first.value) {
        return first;
      }
      if pos + 2 > |text| || text[pos] != BACKSLASH || text[pos + 1] != LOWER_U {
        return Failed;
      }
      pos := pos + 2;
      var low := ReadHex4();
      if low.Failed? || !IsLowSurrogate(low.value) {
        return Failed;
      }
      return Value(PairCode(first.value, low.value));
    }

    method ReadString() returns (o: Outcome<Text>)
      requires pos <= |text|
      modifies this
      ensures Agrees(o, pos, ParseString(text, old(pos)))
    {
      var open := Take(QUOTE);
      if !open {
        return Failed;
      }
      var out: Text := [];
      while pos < |text|
        invariant pos <= |text|
        invariant ParseChars(text, pos, out) == ParseString(text, old(pos))
      {
        var c := text[pos];
        if c == QUOTE {
          pos := pos + 1;
          return Value(out);
        }
        if c < 0x20 {
          return Failed;
        }
        if c != BACKSLASH {
          pos := pos + 1;
          out := out + [c];
        } else {
          if pos + 1 >= |text| {
            return Failed;
          }
          var e := text[pos + 1];
          if IsSimpleEscape(e) {
            pos := pos + 2;
            out := out + [SimpleEscape(e)];
          } else if e == LOWER_U {
            pos := pos + 2;
            var u := ReadUnicode();
            if u.Failed? {
              return Failed;
            }
            out := out + Utf8(u.value);
          } else {
            return Failed;
          }
        }
      }
      return Failed;
    }

    method SkipNumerals()
      requires pos <= |text|
      modifies this
      ensures pos == SkipDigits(text, old(pos))
    {
      while pos < |text| && IsDigit(text[pos])
        invariant pos <= |text| && SkipDigits(text, pos) == SkipDigits(text, old(pos))
      {
        pos := pos + 1;
      }
    }

    /** The optional fraction and exponent; `ok` is false where the source throws. */
    method SkipFractionAndExponent() returns (ok: bool)
      requires pos <= |text|
      modifies this
      ensures var fraction := ParseFraction(text, old(pos));
              ok == (fraction.Ok? && ParseExponent(text, fraction.pos).Ok?)
      ensures ok ==> pos == ParseExponent(text, ParseFraction(text, old(pos)).pos).pos
    {
      var dot := Take(DOT);
      if dot {
        if pos >= |text| || !IsDigit(text[pos]) {
          return false;
        }
        SkipNumerals();
      }
      if pos < |text| && IsExponentMark(text[pos]) {
        pos := pos + 1;
        if pos < |text| && (text[pos] == PLUS || text[pos] == MINUS) {
          pos := pos + 1;
        }
        if pos >= |text| || !IsDigit(text[pos]) {
          return false;
        }
        SkipNumerals();
      }
      return true;
    }

    method ReadNumber() returns (o: Outcome<Json>)
      requires pos <= |text|
      modifies this
      ensures Agrees(o, pos, ParseNumber(text, old(pos), finite))
    {
      var start := pos;
      var negative := Take(MINUS);
      var first := pos;
      var zero := Take(ZERO);
      if !zero {
        if pos >= |text| || text[pos] < 0x31 || text[pos] > 0x39 {
          return Failed;
        }
        pos := pos + 1;
        SkipNumerals();
      }
      assert ParseInteger(text, first) == Ok((), pos);
      var integer := pos;
      var ok := SkipFractionAndExponent();
      if !ok {
        return Failed;
      }
      assert NumberEnd(text, start) == Ok(integer, pos);
      var digits, part := text[first..integer], text[start..pos];
      if pos == integer {
        if negative {
          if DigitsValue(digits) <= I64_MIN_ABS {
            return Value(Int64(-(DigitsValue(digits) as int)));
          }
        } else if DigitsValue(digits) < U64 {
          return Value(UInt64(DigitsValue(digits)));
        }
      }
      if part in finite {
        return Value(Double(part));
      }
      return Failed;
    }

    method ReadValue() returns (o: Outcome<Json>)
      requires pos <= |text|
      modifies this
      ensures Agrees(o, pos, ParseValue(text, old(pos), finite))
      decreases |text| - pos, 1
    {
      Skip();
      if pos >= |text| {
        return Failed;
      }
      var c := text[pos];
      if c == 0x6E {
        o := ExpectWord(NULL, Null);
      } else if c == 0x74 {
        o := ExpectWord(TRUE, Bool(true));
      } else if c == 0x66 {
        o := ExpectWord(FALSE, Bool(false));
      } else if c == QUOTE {
        var s := ReadString();
        o := if s.Failed? then Failed else Value(String(s.value));
      } else if c == LBRACKET {
        o := ReadArray();
      } else if c == LBRACE {
        o := ReadObject();
      } else {
        o := ReadNumber();
      }
    }

    method ReadArray() returns (o: Outcome<Json>)
      requires pos < |text| && text[pos] == LBRACKET
      modifies this
      ensures Agrees(o, pos, ParseArray(text, old(pos), finite))
      decreases |text| - pos, 0
    {
      hide ParseValue, SkipWs;
      ghost var open := pos;
      var _ := Take(LBRACKET);
      var out: seq<Json> := [];
      Skip();
      var closed := Take(RBRACKET);
      if closed {
        return Value(Array(out));
      }
      ItemsAfterWs(text, open + 1, out, finite);
      while true
        invariant open < pos <= |text|
        invariant ParseItems(text, pos, out, finite) == ParseArray(text, open, finite)
        decreases |text| - pos
      {
        var v := ReadValue();
        if v.Failed? {
          return Failed;
        }
        Skip();
        closed := Take(RBRACKET);
        if closed {
          return Value(Array(out + [v.value]));
        }
        var more := Take(COMMA);
        if !more {
          return Failed;
        }
        out := out + [v.value];
      }
    }

    method ReadMember() returns (o: Outcome<Member>)
      requires pos <= |text|
      modifies this
      ensures Agrees(o, pos, ParseMember(text, old(pos), finite))
      decreases |text| - pos, 2
    {
      Skip();
      var key := ReadString();
      if key.Failed? {
        return Failed;
      }
      Skip();
      var colon := Take(COLON);
      if !colon {
        return Failed;
      }
      var v := ReadValue();
      return if v.Failed? then Failed else Value(Member(key.value, v.value));
    }

    method ReadObject() returns (o: Outcome<Json>)
      requires pos < |text| && text[pos] == LBRACE
      modifies this
      ensures Agrees(o, pos, ParseObject(text, old(pos), finite))
      decreases |text| - pos, 0
    {
      hide ParseMember, SkipWs, Insert, HasKey;
      ghost var open := pos;
      var _ := Take(LBRACE);
      var out: seq<Member> := [];
      Skip();
      var closed := Take(RBRACE);
      if closed {
        return Value(Object(out));
      }
      MembersAfterWs(text, open + 1, out, finite);
      while true
        invariant open < pos <= |text|
        invariant ParseMembers(text, pos, out, finite) == ParseObject(text, open, finite)
        decreases |text| - pos
      {
        var m := ReadMember();
        if m.Failed? || HasKey(out, m.value.key) {
          return Failed;
        }
        out := Insert(out, m.value);
        Skip();
        closed := Take(RBRACE);
        if closed {
          return Value(Object(out));
        }
        var more := Take(COMMA);
        if !more {
          return Failed;
        }
      }
    }

    /** The whole text: accepted exactly when it is a legal one, and then with its meaning. */
    method ReadText() returns (o: Outcome<Json>)
      requires pos == 0
      modifies this
      ensures o.Value? <==> exists d :: DocumentLegal(d, finite) && DocumentYield(d) == text
      ensures forall d :: DocumentLegal(d, finite) && DocumentYield(d) == text ==> o == Value(Meaning(d.tree, finite))
    {
      Skip();
      o := ReadValue();
      if o.Value? {
        Skip();
        if pos != |text| {
          o := Failed;
        }
      }
      assert Agrees(o, pos, Parse(text, finite));
      forall d | DocumentLegal(d, finite) && DocumentYield(d) == text
        ensures o == Value(Meaning(d.tree, finite))
      {
        ParseComplete(d, finite);
      }
      if o.Value? {
        ghost var d := ParseSound(text, finite);
      }
    }
  }
}
