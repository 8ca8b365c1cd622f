/**
 The parser as functions of a text and a position, branch for branch. Any of the source's
 exceptions is Err; `finite` answers for strtod whether a literal's double is finite.
 */
module JsonParsing {
  import opened JsonGrammar
  import opened Words

  datatype Parsed<T> = Ok(value: T, pos: nat) | Err

  function SkipWs(t: Text, p: nat): (q: nat)
    requires p <= |t|
    ensures p <= q <= |t|
    decreases |t| - p
  {
    if p < |t| && IsWs(t[p]) then SkipWs(t, p + 1) else p
  }

  function SkipDigits(t: Text, p: nat): (q: nat)
    requires p <= |t|
    ensures p <= q <= |t|
    decreases |t| - p
  {
    if p < |t| && IsDigit(t[p]) then SkipDigits(t, p + 1) else p
  }

  /** `take(c)` would succeed. */
  predicate Next(t: Text, p: nat, c: byte) { p < |t| && t[p] == c }

  /** The text has `w` at `p`. */
  predicate At(t: Text, p: nat, w: Text) { p + |w| <= |t| && forall i | 0 <= i < |w| :: t[p + i] == w[i] }

  function Expect(t: Text, p: nat, w: Text, v: Json): Parsed<Json>
  {
    if At(t, p, w) then Ok(v, p + |w|) else Err
  }

  function ParseHex4(t: Text, p: nat): (r: Parsed<nat>)
    ensures r.Ok? ==> r.pos == p + 4 <= |t|
  {
    if p + 4 <= |t| && IsHex4(t[p..p + 4]) then Ok(Hex4Value(t[p..p + 4]), p + 4) else Err
  }

  /** What follows `\u`: the code point and where the escape ends. */
  function ParseUnicode(t: Text, p: nat): (r: Parsed<nat>)
    ensures r.Ok? ==> p < r.pos <= |t| && r.value <= 0x10FFFF
  {
    var first := ParseHex4(t, p);
    if first.Err? then Err
    else if IsHighSurrogate(first.value) then
      if !Next(t, first.pos, BACKSLASH) || !Next(t, first.pos + 1, LOWER_U) then Err
      else
        var second := ParseHex4(t, first.pos + 2);
        if second.Err? || !IsLowSurrogate(second.value) then Err
        else Ok(PairCode(first.value, second.value), second.pos)
    else if IsLowSurrogate(first.value) then Err
    else first
  }

  /** The loop of parseString, with `read` decoded so far. */
  function ParseChars(t: Text, p: nat, read: Text): (r: Parsed<Text>)
    requires p <= |t|
    ensures r.Ok? ==> p < r.pos <= |t|
    decreases |t| - p
  {
    if p == |t| then Err
    else if t[p] == QUOTE then Ok(read, p + 1)
    else if t[p] < 0x20 then Err
    else if t[p] != BACKSLASH then ParseChars(t, p + 1, read + [t[p]])
    else if p + 1 == |t| then Err
    else if IsSimpleEscape(t[p + 1]) then ParseChars(t, p + 2, read + [SimpleEscape(t[p + 1])])
    else if t[p + 1] == LOWER_U then
      var u := ParseUnicode(t, p + 2);
      if u.Err? then Err else ParseChars(t, u.pos, read + Utf8(u.value))
    else Err
  }

  function ParseString(t: Text, p: nat): (r: Parsed<Text>)
    requires p <= |t|
    ensures r.Ok? ==> p < r.pos <= |t|
  {
    if Next(t, p, QUOTE) then ParseChars(t, p + 1, []) else Err
  }

  /** The end of the integer digits starting at `p`. */
  function ParseInteger(t: Text, p: nat): (r: Parsed<()>)
    requires p <= |t|
    ensures r.Ok? ==> p < r.pos <= |t|
  {
    if Next(t, p, ZERO) then Ok((), p + 1)
    else if p < |t| && IsDigit(t[p]) then Ok((), SkipDigits(t, p + 1))
    else Err
  }

  function ParseFraction(t: Text, p: nat): (r: Parsed<()>)
    requires p <= |t|
    ensures r.Ok? ==> p <= r.pos <= |t|
  {
    if !Next(t, p, DOT) then Ok((), p)
    else if p + 1 < |t| && IsDigit(t[p + 1]) then Ok((), SkipDigits(t, p + 1))
    else Err
  }

  function ParseExponent(t: Text, p: nat): (r: Parsed<()>)
    requires p <= |t|
    ensures r.Ok? ==> p <= r.pos <= |t|
  {
    if p == |t| || !IsExponentMark(t[p]) then Ok((), p)
    else
      var q := if Next(t, p + 1, PLUS) || Next(t, p + 1, MINUS) then p + 2 else p + 1;
      if q < |t| && IsDigit(t[q]) then Ok((), SkipDigits(t, q)) else Err
  }

  lemma {:induction false} SkipDigitsAll(t: Text, p: nat)
    requires p <= |t|
    ensures AllDigits(t[p..SkipDigits(t, p)])
    decreases |t| - p
  {
    if p < |t| && IsDigit(t[p]) {
      SkipDigitsAll(t, p + 1);
      assert t[p..SkipDigits(t, p)] == [t[p]] + t[p + 1..SkipDigits(t, p + 1)];
    }
  }

  lemma IntegerDigits(t: Text, p: nat)
    requires p <= |t| && ParseInteger(t, p).Ok?
    ensures AllDigits(t[p..ParseInteger(t, p).pos])
  {
    if !Next(t, p, ZERO) {
      SkipDigitsAll(t, p + 1);
      assert t[p..SkipDigits(t, p + 1)] == [t[p]] + t[p + 1..SkipDigits(t, p + 1)];
    }
  }

  function IntegerStart(t: Text, p: nat): nat { if Next(t, p, MINUS) then p + 1 else p }

  /** Where a number's integer digits end, and where it ends. */
  function NumberEnd(t: Text, p: nat): (r: Parsed<nat>)
    requires p <= |t|
    ensures r.Ok? ==> IntegerStart(t, p) < r.value <= r.pos <= |t| && AllDigits(t[IntegerStart(t, p)..r.value])
  {
    var integer := ParseInteger(t, IntegerStart(t, p));
    if integer.Err? then Err else
    var fraction := ParseFraction(t, integer.pos);
    if fraction.Err? then Err else
    var exponent := ParseExponent(t, fraction.pos);
    if exponent.Err? then Err else
    IntegerDigits(t, IntegerStart(t, p));
    Ok(integer.pos, exponent.pos)
  }

  /** std::from_chars on an integer; out of range, or not one, strtod is tried on the whole. */
  function Converted(negative: bool, digits: Text, integral: bool, part: Text, finite: iset<Text>, pos: nat): Parsed<Json>
    requires AllDigits(digits)
  {
    if integral && negative && DigitsValue(digits) <= I64_MIN_ABS then Ok(Int64(-(DigitsValue(digits) as int)), pos)
    else if integral && !negative && DigitsValue(digits) < U64 then Ok(UInt64(DigitsValue(digits)), pos)
    else if part in finite then Ok(Double(part), pos)
    else Err
  }

  function ParseNumber(t: Text, p: nat, finite: iset<Text>): (r: Parsed<Json>)
    requires p <= |t|
    ensures r.Ok? ==> p < r.pos <= |t|
  {
    var end := NumberEnd(t, p);
    if end.Err? then Err
    else
      Converted(Next(t, p, MINUS), t[IntegerStart(t, p)..end.value], end.value == end.pos, t[p..end.pos], finite, end.pos)
  }

  function ParseValue(t: Text, p: nat, finite: iset<Text>): (r: Parsed<Json>)
    requires p <= |t|
    ensures r.Ok? ==> p < r.pos <= |t|
    decreases |t| - p, 2
  {
    ParseToken(t, SkipWs(t, p), finite)
  }

  /** The switch on the first byte of a value. */
  function ParseToken(t: Text, p: nat, finite: iset<Text>): (r: Parsed<Json>)
    requires p <= |t|
    ensures r.Ok? ==> p < r.pos <= |t|
    decreases |t| - p, 1
  {
    if p == |t| then Err
    else if t[p] == 0x6E then Expect(t, p, NULL, Null)
    else if t[p] == 0x74 then Expect(t, p, TRUE, Bool(true))
    else if t[p] == 0x66 then Expect(t, p, FALSE, Bool(false))
    else if t[p] == QUOTE then
      var s := ParseString(t, p);
      if s.Err? then Err else Ok(String(s.value), s.pos)
    else if t[p] == LBRACKET then ParseArray(t, p, finite)
    else if t[p] == LBRACE then ParseObject(t, p, finite)
    else ParseNumber(t, p, finite)
  }

  function ParseArray(t: Text, p: nat, finite: iset<Text>): (r: Parsed<Json>)
    requires p < |t|
    ensures r.Ok? ==> p < r.pos <= |t|
    decreases |t| - p, 0
  {
    var q := SkipWs(t, p + 1);
    if Next(t, q, RBRACKET) then Ok(Array([]), q + 1) else ParseItems(t, p + 1, [], finite)
  }

  /** The loop of parseArray, with `read` parsed so far. */
  function ParseItems(t: Text, p: nat, read: seq<Json>, finite: iset<Text>): (r: Parsed<Json>)
    requires p <= |t|
    ensures r.Ok? ==> p < r.pos <= |t|
    decreases |t| - p, 3
  {
    var v := ParseValue(t, p, finite);
    if v.Err? then Err else
    var q := SkipWs(t, v.pos);
    if Next(t, q, RBRACKET) then Ok(Array(read + [v.value]), q + 1)
    else if Next(t, q, COMMA) then ParseItems(t, q + 1, read + [v.value], finite)
    else Err
  }

  function ParseObject(t: Text, p: nat, finite: iset<Text>): (r: Parsed<Json>)
    requires p < |t|
    ensures r.Ok? ==> p < r.pos <= |t|
    decreases |t| - p, 0
  {
    var q := SkipWs(t, p + 1);
    if Next(t, q, RBRACE) then Ok(Object([]), q + 1) else ParseMembers(t, p + 1, [], finite)
  }

  /** One `key : value` of an object. */
  function ParseMember(t: Text, p: nat, finite: iset<Text>): (r: Parsed<Member>)
    requires p <= |t|
    ensures r.Ok? ==> p < r.pos <= |t|
    decreases |t| - p, 3
  {
    var key := ParseString(t, SkipWs(t, p));
    if key.Err? then Err else
    var colon := SkipWs(t, key.pos);
    if !Next(t, colon, COLON) then Err else
    var v := ParseValue(t, colon + 1, finite);
    if v.Err? then Err else Ok(Member(key.value, v.value), v.pos)
  }

  /** The loop of parseObject, with `read` in the map so far. */
  function ParseMembers(t: Text, p: nat, read: seq<Member>, finite: iset<Text>): (r: Parsed<Json>)
    requires p <= |t|
    ensures r.Ok? ==> p < r.pos <= |t|
    decreases |t| - p, 4
  {
    var m := ParseMember(t, p, finite);
    if m.Err? || HasKey(read, m.value.key) then Err else
    var q := SkipWs(t, m.pos);
    if Next(t, q, RBRACE) then Ok(Object(Insert(read, m.value)), q + 1)
    else if Next(t, q, COMMA) then ParseMembers(t, q + 1, Insert(read, m.value), finite)
    else Err
  }

  /** The whole text, with nothing but white space after the value. */
  function Parse(t: Text, finite: iset<Text>): Parsed<Json>
  {
    var v := ParseValue(t, SkipWs(t, 0), finite);
    if v.Err? then Err else
    var end := SkipWs(t, v.pos);
    if end == |t| then Ok(v.value, end) else Err
  }
}
