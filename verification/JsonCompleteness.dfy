/** Every legal derivation is accepted, to its last byte, with the value it denotes. */
module JsonCompleteness {
  import opened JsonGrammar
  import opened JsonParsing
  import opened Sequences

  // Matching text

  lemma AtSplit(t: Text, p: nat, a: Text, b: Text)
    ensures At(t, p, a + b) <==> At(t, p, a) && At(t, p + |a|, b)
  {
    if At(t, p, a + b) {
      forall i | 0 <= i < |a| ensures t[p + i] == a[i] { assert (a + b)[i] == a[i]; }
      forall i | 0 <= i < |b| ensures t[p + |a| + i] == b[i] { assert (a + b)[|a| + i] == b[i]; }
    }
  }

  lemma AtSlice(t: Text, p: nat, w: Text)
    requires At(t, p, w)
    ensures t[p..p + |w|] == w
  {
  }

  /** Nothing at `q` could continue a number. */
  predicate Stops(t: Text, q: nat)
  {
    q >= |t| || !(IsDigit(t[q]) || t[q] == DOT || IsExponentMark(t[q]))
  }

  predicate NoDigit(t: Text, q: nat) { q >= |t| || !IsDigit(t[q]) }

  lemma {:induction false} SkipWsOver(t: Text, p: nat, ws: Text)
    requires At(t, p, ws) && AllWs(ws) && (p + |ws| == |t| || !IsWs(t[p + |ws|]))
    ensures SkipWs(t, p) == p + |ws|
    decreases |ws|
  {
    if ws != [] {
      assert t[p] == ws[0];
      AtSplit(t, p, [ws[0]], ws[1..]);
      assert ws == [ws[0]] + ws[1..];
      SkipWsOver(t, p + 1, ws[1..]);
    }
  }

  lemma {:induction false} SkipDigitsOver(t: Text, p: nat, ds: Text)
    requires At(t, p, ds) && AllDigits(ds) && NoDigit(t, p + |ds|)
    ensures SkipDigits(t, p) == p + |ds|
    decreases |ds|
  {
    if ds != [] {
      assert t[p] == ds[0];
      AtSplit(t, p, [ds[0]], ds[1..]);
      assert ds == [ds[0]] + ds[1..];
      SkipDigitsOver(t, p + 1, ds[1..]);
    }
  }

  // Strings

  lemma UnicodeStep(t: Text, p: nat, c: Char)
    requires Accepted(c) && (c.Unit? || c.Pair?) && At(t, p, CharYield(c))
    ensures ParseUnicode(t, p + 2).Ok? && ParseUnicode(t, p + 2).pos == p + |CharYield(c)|
    ensures Utf8(ParseUnicode(t, p + 2).value) == CharMeaning(c)
  {
    var escape := [BACKSLASH, LOWER_U];
    if c.Unit? {
      AtSplit(t, p, escape, c.hex);
      AtSlice(t, p + 2, c.hex);
    } else {
      AtSplit(t, p, escape + c.high + escape, c.low);
      AtSplit(t, p, escape + c.high, escape);
      AtSplit(t, p, escape, c.high);
      AtSlice(t, p + 2, c.high);
      AtSlice(t, p + 8, c.low);
      assert t[p + 6] == escape[0] && t[p + 7] == escape[1];
    }
  }

  lemma CharStep(t: Text, p: nat, c: Char, read: Text)
    requires p <= |t| && Accepted(c) && At(t, p, CharYield(c))
    ensures ParseChars(t, p, read) == ParseChars(t, p + |CharYield(c)|, read + CharMeaning(c))
  {
    assert t[p] == CharYield(c)[0];
    if !c.Plain? {
      assert t[p + 1] == CharYield(c)[1];
      if !c.Escape? { UnicodeStep(t, p, c); }
    }
  }

  lemma CharsEnd(t: Text, p: nat, read: Text)
    requires Next(t, p, QUOTE)
    ensures ParseChars(t, p, read) == Ok(read + [], p + 1)
  {
    assert read + [] == read;
  }

  lemma {:induction false} CompleteChars(t: Text, p: nat, cs: seq<Char>, read: Text)
    requires p <= |t| && CharsAccepted(cs) && At(t, p, CharsYield(cs)) && Next(t, p + |CharsYield(cs)|, QUOTE)
    ensures ParseChars(t, p, read) == Ok(read + CharsMeaning(cs), p + |CharsYield(cs)| + 1)
    decreases |cs|
  {
    hide At, ParseChars, CharYield, CharMeaning;
    if cs == [] {
      CharsEnd(t, p, read);
    } else {
      var c, rest := cs[0], cs[1..];
      AtSplit(t, p, CharYield(c), CharsYield(rest));
      CharStep(t, p, c, read);
      AtEnds(t, p, CharYield(c));
      CompleteChars(t, p + |CharYield(c)|, rest, read + CharMeaning(c));
      Associates(read, CharMeaning(c), CharsMeaning(rest));
    }
  }

  lemma AtEnds(t: Text, p: nat, w: Text)
    requires At(t, p, w)
    ensures p + |w| <= |t|
  {
  }

  lemma StringPieces(t: Text, p: nat, inner: Text)
    requires At(t, p, [QUOTE] + inner + [QUOTE])
    ensures Next(t, p, QUOTE) && At(t, p + 1, inner) && Next(t, p + 1 + |inner|, QUOTE)
  {
    AtSplit(t, p, [QUOTE] + inner, [QUOTE]);
    AtSplit(t, p, [QUOTE], inner);
    assert t[p + 1 + |inner|] == [QUOTE][0] && t[p] == [QUOTE][0];
  }

  lemma CompleteString(t: Text, p: nat, cs: seq<Char>)
    requires p <= |t| && CharsAccepted(cs) && At(t, p, StringYield(cs))
    ensures ParseString(t, p) == Ok(CharsMeaning(cs), p + |StringYield(cs)|)
  {
    StringPieces(t, p, CharsYield(cs));
    CompleteChars(t, p + 1, cs, []);
    assert [] + CharsMeaning(cs) == CharsMeaning(cs);
  }

  // Numbers

  lemma CompleteInteger(t: Text, p: nat, n: Numeral)
    requires NumeralInGrammar(n) && At(t, p, n.digits) && NoDigit(t, p + |n.digits|)
    ensures ParseInteger(t, p) == Ok((), p + |n.digits|)
  {
    assert t[p] == n.digits[0];
    if n.digits[0] != ZERO {
      AtSplit(t, p, [n.digits[0]], n.digits[1..]);
      assert n.digits == [n.digits[0]] + n.digits[1..];
      SkipDigitsOver(t, p + 1, n.digits[1..]);
    }
  }

  lemma CompleteFraction(t: Text, p: nat, f: Text)
    requires AllDigits(f) && At(t, p, FractionYield(f)) && NoDigit(t, p + |FractionYield(f)|)
    requires f == [] ==> !Next(t, p, DOT)
    ensures ParseFraction(t, p) == Ok((), p + |FractionYield(f)|)
  {
    if f != [] {
      AtSplit(t, p, [DOT], f);
      assert t[p] == [DOT][0] && t[p + 1] == f[0];
      SkipDigitsOver(t, p + 1, f);
    }
  }

  lemma CompleteExponent(t: Text, p: nat, n: Numeral)
    requires NumeralInGrammar(n) && At(t, p, ExponentYield(n.exponent)) && Stops(t, p + |ExponentYield(n.exponent)|)
    ensures ParseExponent(t, p) == Ok((), p + |ExponentYield(n.exponent)|)
  {
    var e := n.exponent;
    if e.Exponent? {
      AtSplit(t, p, [e.mark] + e.sign, e.digits);
      AtSplit(t, p, [e.mark], e.sign);
      var q := p + 1 + |e.sign|;
      assert t[p] == [e.mark][0] && t[q] == e.digits[0];
      if e.sign != [] { assert t[p + 1] == e.sign[0]; }
      SkipDigitsOver(t, q, e.digits);
    }
  }

  lemma ExponentStart(t: Text, p: nat, n: Numeral)
    requires NumeralInGrammar(n) && At(t, p, ExponentYield(n.exponent)) && Stops(t, p + |ExponentYield(n.exponent)|)
    ensures NoDigit(t, p) && !Next(t, p, DOT)
  {
    if n.exponent.Exponent? { assert t[p] == ExponentYield(n.exponent)[0]; }
  }

  lemma FractionStart(t: Text, p: nat, f: Text)
    requires At(t, p, FractionYield(f)) && NoDigit(t, p + |FractionYield(f)|)
    ensures NoDigit(t, p)
  {
    if f != [] { assert t[p] == FractionYield(f)[0]; }
  }

  function SignYield(n: Numeral): Text { if n.minus then [MINUS] else [] }

  lemma NumeralPieces(t: Text, p: nat, n: Numeral)
    requires NumeralInGrammar(n) && At(t, p, NumeralYield(n))
    ensures var start := p + |SignYield(n)|;
            && At(t, p, SignYield(n)) && At(t, start, n.digits)
            && At(t, start + |n.digits|, FractionYield(n.fraction))
            && At(t, start + |n.digits| + |FractionYield(n.fraction)|, ExponentYield(n.exponent))
            && Next(t, p, MINUS) == n.minus
  {
    var sign := SignYield(n);
    var f, e := FractionYield(n.fraction), ExponentYield(n.exponent);
    AtSplit(t, p, sign + n.digits + f, e);
    AtSplit(t, p, sign + n.digits, f);
    AtSplit(t, p, sign, n.digits);
    if n.minus { assert t[p] == sign[0]; } else { assert t[p] == n.digits[0]; }
  }

  lemma NumeralFromPieces(t: Text, p: nat, n: Numeral)
    requires var start := p + |SignYield(n)|;
             && At(t, p, SignYield(n)) && At(t, start, n.digits)
             && At(t, start + |n.digits|, FractionYield(n.fraction))
             && At(t, start + |n.digits| + |FractionYield(n.fraction)|, ExponentYield(n.exponent))
    ensures At(t, p, NumeralYield(n))
  {
    hide At, FractionYield, ExponentYield;
    var sign := SignYield(n);
    AtSplit(t, p, sign, n.digits);
    AtSplit(t, p, sign + n.digits, FractionYield(n.fraction));
    AtSplit(t, p, sign + n.digits + FractionYield(n.fraction), ExponentYield(n.exponent));
  }

  lemma CompleteNumberEnd(t: Text, p: nat, n: Numeral)
    requires NumeralInGrammar(n) && At(t, p, NumeralYield(n)) && Stops(t, p + |NumeralYield(n)|)
    ensures NumberEnd(t, p) == Ok(p + |SignYield(n)| + |n.digits|, p + |NumeralYield(n)|)
  {
    NumeralPieces(t, p, n);
    var start := p + |SignYield(n)|;
    var integer := start + |n.digits|;
    var fraction := integer + |FractionYield(n.fraction)|;
    ExponentStart(t, fraction, n);
    CompleteExponent(t, fraction, n);
    CompleteFraction(t, integer, n.fraction);
    FractionStart(t, integer, n.fraction);
    CompleteInteger(t, start, n);
  }

  lemma ConvertedNumeral(n: Numeral, finite: iset<Text>, pos: nat)
    requires NumeralInGrammar(n) && (NumeralMeaning(n).Double? ==> NumeralYield(n) in finite)
    ensures Converted(n.minus, n.digits, IsIntegral(n), NumeralYield(n), finite, pos) == Ok(NumeralMeaning(n), pos)
  {
  }

  lemma NumberGlue(t: Text, p: nat, n: Numeral, end: Parsed<nat>, finite: iset<Text>)
    requires p <= |t| && AllDigits(n.digits) && end == NumberEnd(t, p) && end.Ok? && Next(t, p, MINUS) == n.minus
    requires t[IntegerStart(t, p)..end.value] == n.digits && t[p..end.pos] == NumeralYield(n)
    ensures ParseNumber(t, p, finite) ==
            Converted(n.minus, n.digits, end.value == end.pos, NumeralYield(n), finite, end.pos)
  {
  }

  lemma IntegralLength(n: Numeral)
    ensures |SignYield(n)| + |n.digits| == |NumeralYield(n)| <==> IsIntegral(n)
  {
  }

  /** A number is read to its end and its text converted. */
  lemma NumberConverted(t: Text, p: nat, n: Numeral, finite: iset<Text>)
    requires p <= |t| && NumeralInGrammar(n) && At(t, p, NumeralYield(n)) && Stops(t, p + |NumeralYield(n)|)
    ensures ParseNumber(t, p, finite) ==
            Converted(n.minus, n.digits, IsIntegral(n), NumeralYield(n), finite, p + |NumeralYield(n)|)
  {
    hide At, NumberEnd, Stops, DigitsValue, NumeralYield, Converted;
    var integer, end := p + |SignYield(n)| + |n.digits|, p + |NumeralYield(n)|;
    CompleteNumberEnd(t, p, n);
    NumeralPieces(t, p, n);
    AtSlice(t, p + |SignYield(n)|, n.digits);
    AtSlice(t, p, NumeralYield(n));
    IntegralLength(n);
    NumberGlue(t, p, n, Ok(integer, end), finite);
  }

  lemma CompleteNumber(t: Text, p: nat, n: Numeral, finite: iset<Text>)
    requires p <= |t| && NumeralInGrammar(n) && (NumeralMeaning(n).Double? ==> NumeralYield(n) in finite)
    requires At(t, p, NumeralYield(n)) && Stops(t, p + |NumeralYield(n)|)
    ensures ParseNumber(t, p, finite) == Ok(NumeralMeaning(n), p + |NumeralYield(n)|)
  {
    hide At, ParseNumber, Stops, DigitsValue, NumeralYield;
    NumberConverted(t, p, n, finite);
    ConvertedNumeral(n, finite, p + |NumeralYield(n)|);
  }

  // Values

  /** The byte a value starts with is not white space or a closing bracket. */
  lemma YieldStart(tree: Tree, finite: iset<Text>)
    requires Legal(tree, finite)
    ensures Yield(tree) != [] && !IsWs(Yield(tree)[0]) && Yield(tree)[0] != RBRACKET
    ensures tree.NumberTree? ==> Yield(tree)[0] == MINUS || IsDigit(Yield(tree)[0])
  {
  }

  predicate IsLeaf(tree: Tree)
  {
    !tree.ArrayTree? && !tree.EmptyArrayTree? && !tree.ObjectTree? && !tree.EmptyObjectTree?
  }

  lemma CompleteLeaf(t: Text, p: nat, tree: Tree, finite: iset<Text>)
    requires p <= |t| && Legal(tree, finite) && At(t, p, Yield(tree)) && Stops(t, p + |Yield(tree)|) && IsLeaf(tree)
    ensures ParseToken(t, p, finite) == Ok(Meaning(tree, finite), p + |Yield(tree)|)
  {
    YieldStart(tree, finite);
    assert t[p] == Yield(tree)[0];
    if tree.StringTree? {
      CompleteString(t, p, tree.chars);
    } else if tree.NumberTree? {
      CompleteNumber(t, p, tree.numeral, finite);
    }
  }

  lemma EmptyPieces(t: Text, p: nat, open: byte, ws: Text, close: byte)
    requires At(t, p, [open] + ws + [close]) && AllWs(ws) && !IsWs(close)
    ensures Next(t, p, open) && SkipWs(t, p + 1) == p + 1 + |ws| && Next(t, p + 1 + |ws|, close)
  {
    AtSplit(t, p, [open] + ws, [close]);
    AtSplit(t, p, [open], ws);
    assert t[p + 1 + |ws|] == [close][0] && t[p] == [open][0];
    SkipWsOver(t, p + 1, ws);
  }

  lemma {:induction false} CompleteToken(t: Text, p: nat, tree: Tree, finite: iset<Text>)
    requires p <= |t| && Legal(tree, finite) && At(t, p, Yield(tree)) && Stops(t, p + |Yield(tree)|)
    ensures ParseToken(t, p, finite) == Ok(Meaning(tree, finite), p + |Yield(tree)|)
    decreases tree, 1
  {
    match tree
    case EmptyArrayTree(ws) => EmptyPieces(t, p, LBRACKET, ws, RBRACKET);
    case EmptyObjectTree(ws) => EmptyPieces(t, p, LBRACE, ws, RBRACE);
    case ArrayTree(items) => CompleteArray(t, p, tree, finite);
    case ObjectTree(entries) => CompleteObject(t, p, tree, finite);
    case _ => CompleteLeaf(t, p, tree, finite);
  }

  /** A value with white space before it. */
  lemma {:induction false} CompleteValue(t: Text, p: nat, ws: Text, tree: Tree, finite: iset<Text>)
    requires p <= |t| && At(t, p, ws) && AllWs(ws) && Legal(tree, finite)
    requires At(t, p + |ws|, Yield(tree)) && Stops(t, p + |ws| + |Yield(tree)|)
    ensures SkipWs(t, p) == p + |ws|
    ensures ParseValue(t, p, finite) == Ok(Meaning(tree, finite), p + |ws| + |Yield(tree)|)
    decreases tree, 2
  {
    YieldStart(tree, finite);
    assert t[p + |ws|] == Yield(tree)[0];
    hide At, Yield, Legal, Meaning, SkipWs, ParseToken;
    SkipWsOver(t, p, ws);
    CompleteToken(t, p + |ws|, tree, finite);
  }

  // Arrays

  /** What may follow a value inside an array or object. */
  lemma AfterValue(t: Text, q: nat, after: Text, c: byte)
    requires At(t, q, after) && AllWs(after) && Next(t, q + |after|, c) && (c == COMMA || c == RBRACKET || c == RBRACE)
    ensures Stops(t, q) && SkipWs(t, q) == q + |after|
  {
    SkipWsOver(t, q, after);
    if after != [] { assert t[q] == after[0]; }
  }

  lemma PaddedPieces(t: Text, p: nat, before: Text, tree: Tree, after: Text, tail: Text)
    requires At(t, p, PaddedYield(before, tree, after) + tail) && tail != []
    ensures At(t, p, before) && At(t, p + |before|, Yield(tree)) && At(t, p + |before| + |Yield(tree)|, after)
    ensures var q := p + |PaddedYield(before, tree, after)|;
            q == p + |before| + |Yield(tree)| + |after| && At(t, q, tail) && Next(t, q, tail[0])
  {
    AtSplit(t, p, PaddedYield(before, tree, after), tail);
    AtSplit(t, p, before + Yield(tree), after);
    AtSplit(t, p, before, Yield(tree));
    assert t[p + |PaddedYield(before, tree, after)|] == tail[0];
  }

  /** One value of an array or object, up to the byte after it. */
  lemma {:induction false} CompletePadded(t: Text, p: nat, before: Text, tree: Tree, after: Text, tail: Text, finite: iset<Text>)
    returns (v: Parsed<Json>)
    requires p <= |t| && AllWs(before) && AllWs(after) && Legal(tree, finite)
    requires At(t, p, PaddedYield(before, tree, after) + tail)
    requires tail != [] && (tail[0] == COMMA || tail[0] == RBRACKET || tail[0] == RBRACE)
    ensures v == ParseValue(t, p, finite) && v.Ok? && v.value == Meaning(tree, finite)
    ensures var q := p + |PaddedYield(before, tree, after)|;
            SkipWs(t, v.pos) == q && Next(t, q, tail[0]) && At(t, q, tail)
    decreases tree, 3
  {
    PaddedPieces(t, p, before, tree, after, tail);
    AfterValue(t, p + |before| + |Yield(tree)|, after, tail[0]);
    CompleteValue(t, p, before, tree, finite);
    v := Ok(Meaning(tree, finite), p + |before| + |Yield(tree)|);
  }

  function ItemsTail(items: seq<Item>): Text
    requires items != []
  {
    if |items| == 1 then [RBRACKET] else [COMMA] + ItemsYield(items[1..])
  }

  lemma ItemsGlue(t: Text, p: nat, read: seq<Json>, v: Parsed<Json>, finite: iset<Text>)
    requires p <= |t| && v == ParseValue(t, p, finite) && v.Ok?
    ensures var q := SkipWs(t, v.pos);
            && (Next(t, q, RBRACKET) ==> ParseItems(t, p, read, finite) == Ok(Array(read + [v.value]), q + 1))
            && (Next(t, q, COMMA) ==> ParseItems(t, p, read, finite) == ParseItems(t, q + 1, read + [v.value], finite))
  {
  }

  /** The first item read, and what is then left to read. */
  lemma {:induction false} FirstItem(t: Text, p: nat, items: seq<Item>, read: seq<Json>, finite: iset<Text>)
    returns (v: Json, q: nat)
    requires p <= |t| && items != [] && ItemsLegal(items, finite) && At(t, p, ItemsYield(items))
    ensures v == Meaning(items[0].tree, finite)
    ensures q == p + |PaddedYield(items[0].before, items[0].tree, items[0].after)| < |t| && At(t, q, ItemsTail(items))
    ensures |items| == 1 ==> ParseItems(t, p, read, finite) == Ok(Array(read + [v]), q + 1)
    ensures |items| > 1 ==> ParseItems(t, p, read, finite) == ParseItems(t, q + 1, read + [v], finite)
    decreases items, 0
  {
    var x := items[0];
    ItemsShape(items, finite);
    hide *;
    var parsed := CompletePadded(t, p, x.before, x.tree, x.after, ItemsTail(items), finite);
    ItemsGlue(t, p, read, parsed, finite);
    NextThere(t, p + |PaddedYield(x.before, x.tree, x.after)|, ItemsTail(items)[0]);
    v, q := parsed.value, p + |PaddedYield(x.before, x.tree, x.after)|;
  }

  lemma NextThere(t: Text, q: nat, c: byte)
    requires Next(t, q, c)
    ensures q < |t|
  {
  }

  lemma {:induction false} CompleteItems(t: Text, p: nat, items: seq<Item>, read: seq<Json>, finite: iset<Text>)
    requires p <= |t| && items != [] && ItemsLegal(items, finite) && At(t, p, ItemsYield(items))
    ensures ParseItems(t, p, read, finite) == Ok(Array(read + ItemsMeaning(items, finite)), p + |ItemsYield(items)|)
    decreases items, 1
  {
    hide *;
    var v, q := FirstItem(t, p, items, read, finite);
    var rest := items[1..];
    if |items| == 1 {
      OneItem(items, finite);
    } else {
      MoreItems(items, finite);
      AtSplit(t, q, [COMMA], ItemsYield(rest));
      CompleteItems(t, q + 1, rest, read + [v], finite);
      Associates(read, [v], ItemsMeaning(rest, finite));
    }
  }

  lemma OneItem(items: seq<Item>, finite: iset<Text>)
    requires |items| == 1 && ItemsLegal(items, finite)
    ensures ItemsMeaning(items, finite) == [Meaning(items[0].tree, finite)]
    ensures |ItemsYield(items)| == |PaddedYield(items[0].before, items[0].tree, items[0].after)| + 1
  {
    hide Legal, Yield, Meaning, PaddedYield;
  }

  lemma MoreItems(items: seq<Item>, finite: iset<Text>)
    requires |items| > 1 && ItemsLegal(items, finite)
    ensures ItemsLegal(items[1..], finite) && ItemsTail(items) == [COMMA] + ItemsYield(items[1..])
    ensures ItemsMeaning(items, finite) == [Meaning(items[0].tree, finite)] + ItemsMeaning(items[1..], finite)
    ensures |ItemsYield(items)| ==
            |PaddedYield(items[0].before, items[0].tree, items[0].after)| + 1 + |ItemsYield(items[1..])|
  {
    hide Legal, Yield, Meaning, PaddedYield;
  }

  lemma ItemsShape(items: seq<Item>, finite: iset<Text>)
    requires items != [] && ItemsLegal(items, finite)
    ensures var x, tail := items[0], ItemsTail(items);
            && AllWs(x.before) && AllWs(x.after) && Legal(x.tree, finite)
            && ItemsYield(items) == PaddedYield(x.before, x.tree, x.after) + tail
            && tail != [] && tail[0] == if |items| == 1 then RBRACKET else COMMA
  {
    hide Legal, Yield, Meaning;
  }

  lemma ArrayOpens(t: Text, p: nat, items: seq<Item>, finite: iset<Text>)
    requires p <= |t| && items != [] && ItemsLegal(items, finite) && At(t, p, ItemsYield(items))
    ensures !Next(t, SkipWs(t, p), RBRACKET)
  {
    var x := items[0];
    PaddedPieces(t, p, x.before, x.tree, x.after, ItemsTail(items));
    YieldStart(x.tree, finite);
    assert t[p + |x.before|] == Yield(x.tree)[0];
    SkipWsOver(t, p, x.before);
  }

  lemma {:induction false} CompleteArray(t: Text, p: nat, tree: Tree, finite: iset<Text>)
    requires p <= |t| && tree.ArrayTree? && Legal(tree, finite) && At(t, p, Yield(tree))
    ensures ParseToken(t, p, finite) == Ok(Meaning(tree, finite), p + |Yield(tree)|)
    decreases tree, 0
  {
    var items := tree.items;
    AtSplit(t, p, [LBRACKET], ItemsYield(items));
    assert t[p] == [LBRACKET][0];
    ArrayOpens(t, p + 1, items, finite);
    CompleteItems(t, p + 1, items, [], finite);
    assert [] + ItemsMeaning(items, finite) == ItemsMeaning(items, finite);
  }

  // Objects

  lemma CompleteKey(t: Text, p: nat, e: Entry) returns (key: Parsed<Text>)
    requires p <= |t| && AllWs(e.before) && AllWs(e.afterKey) && CharsAccepted(e.key) && At(t, p, KeyYield(e))
    ensures Next(t, SkipWs(t, p), QUOTE)
    ensures key == ParseString(t, SkipWs(t, p)) && key.Ok? && key.value == CharsMeaning(e.key)
    ensures SkipWs(t, key.pos) == p + |KeyYield(e)| - 1 && Next(t, p + |KeyYield(e)| - 1, COLON)
  {
    var name := StringYield(e.key);
    AtSplit(t, p, e.before + name + e.afterKey, [COLON]);
    AtSplit(t, p, e.before + name, e.afterKey);
    AtSplit(t, p, e.before, name);
    assert t[p + |e.before|] == name[0] && t[p + |KeyYield(e)| - 1] == [COLON][0];
    SkipWsOver(t, p, e.before);
    CompleteString(t, p + |e.before|, e.key);
    SkipWsOver(t, p + |e.before| + |name|, e.afterKey);
    key := Ok(CharsMeaning(e.key), p + |e.before| + |name|);
  }

  predicate EntryLegal(e: Entry, finite: iset<Text>)
  {
    && AllWs(e.before) && AllWs(e.afterKey) && AllWs(e.beforeValue) && AllWs(e.after)
    && CharsAccepted(e.key) && Legal(e.tree, finite)
  }

  function EntryMeaning(e: Entry, finite: iset<Text>): Member
    requires EntryLegal(e, finite)
  {
    Member(CharsMeaning(e.key), Meaning(e.tree, finite))
  }

  lemma MemberGlue(t: Text, p: nat, key: Parsed<Text>, colon: nat, v: Parsed<Json>, finite: iset<Text>)
    requires p <= |t| && key == ParseString(t, SkipWs(t, p)) && key.Ok?
    requires colon == SkipWs(t, key.pos) && Next(t, colon, COLON)
    requires v == ParseValue(t, colon + 1, finite) && v.Ok?
    ensures ParseMember(t, p, finite) == Ok(Member(key.value, v.value), v.pos)
  {
  }

  /** One entry, up to the byte after it. */
  lemma {:induction false} CompleteMember(t: Text, p: nat, e: Entry, tail: Text, finite: iset<Text>) returns (m: Parsed<Member>)
    requires p <= |t| && EntryLegal(e, finite)
    requires At(t, p, KeyYield(e) + (PaddedYield(e.beforeValue, e.tree, e.after) + tail))
    requires tail != [] && (tail[0] == COMMA || tail[0] == RBRACE)
    ensures m == ParseMember(t, p, finite) && m.Ok? && m.value == EntryMeaning(e, finite)
    ensures var q := p + |KeyYield(e)| + |PaddedYield(e.beforeValue, e.tree, e.after)|;
            SkipWs(t, m.pos) == q && Next(t, q, tail[0]) && At(t, q, tail)
    decreases e.tree, 4
  {
    hide At, ParseToken, ParseChars, Meaning, Yield, Legal, SkipWs, KeyYield, CharsMeaning;
    var value := PaddedYield(e.beforeValue, e.tree, e.after);
    AtSplit(t, p, KeyYield(e), value + tail);
    var key := CompleteKey(t, p, e);
    var v := CompletePadded(t, p + |KeyYield(e)|, e.beforeValue, e.tree, e.after, tail, finite);
    MemberGlue(t, p, key, p + |KeyYield(e)| - 1, v, finite);
    m := Ok(Member(key.value, v.value), v.pos);
  }

  predicate NoKeysOf(members: seq<Member>, entries: seq<Entry>)
  {
    entries != [] ==>
      && (CharsAccepted(entries[0].key) ==> !HasKey(members, CharsMeaning(entries[0].key)))
      && NoKeysOf(members, entries[1..])
  }

  lemma {:induction false} InsertKeys(members: seq<Member>, m: Member, key: Text)
    ensures HasKey(Insert(members, m), key) <==> HasKey(members, key) || m.key == key
    decreases |members|
  {
    var result := Insert(members, m);
    if members == [] || KeyLess(m.key, members[0].key) {
      assert result == [m] + members;
      if m.key == key { assert result[0].key == key; }
      if HasKey(members, key) {
        var i :| 0 <= i < |members| && members[i].key == key;
        assert result[i + 1].key == key;
      }
    } else {
      InsertKeys(members[1..], m, key);
      ConsKeys(members[0], members[1..], key);
      assert members == [members[0]] + members[1..];
      ConsKeys(members[0], Insert(members[1..], m), key);
    }
  }

  lemma ConsKeys(first: Member, rest: seq<Member>, key: Text)
    ensures HasKey([first] + rest, key) <==> first.key == key || HasKey(rest, key)
  {
    var all := [first] + rest;
    if first.key == key { assert all[0].key == key; }
    if HasKey(rest, key) {
      var i :| 0 <= i < |rest| && rest[i].key == key;
      assert all[i + 1].key == key;
    }
  }

  function EntriesTail(entries: seq<Entry>): Text
    requires entries != []
  {
    if |entries| == 1 then [RBRACE] else [COMMA] + EntriesYield(entries[1..])
  }

  lemma {:induction false} KeysLeft(read: seq<Member>, m: Member, rest: seq<Entry>)
    requires NoKeysOf(read, rest) && KeyAbsent(m.key, rest)
    ensures NoKeysOf(Insert(read, m), rest)
    decreases |rest|
  {
    if rest != [] {
      KeysLeft(read, m, rest[1..]);
      if CharsAccepted(rest[0].key) { InsertKeys(read, m, CharsMeaning(rest[0].key)); }
    }
  }

  lemma MembersGlue(t: Text, p: nat, read: seq<Member>, m: Parsed<Member>, finite: iset<Text>)
    requires p <= |t| && m == ParseMember(t, p, finite) && m.Ok? && !HasKey(read, m.value.key)
    ensures var q := SkipWs(t, m.pos);
            && (Next(t, q, RBRACE) ==> ParseMembers(t, p, read, finite) == Ok(Object(Insert(read, m.value)), q + 1))
            && (Next(t, q, COMMA) ==>
                  ParseMembers(t, p, read, finite) == ParseMembers(t, q + 1, Insert(read, m.value), finite))
  {
  }

  lemma {:induction false} CompleteMembers(t: Text, p: nat, entries: seq<Entry>, read: seq<Member>, finite: iset<Text>)
    requires p <= |t| && entries != [] && EntriesLegal(entries, finite) && KeysDistinct(entries)
    requires NoKeysOf(read, entries) && At(t, p, EntriesYield(entries))
    ensures ParseMembers(t, p, read, finite) == Ok(Object(EntriesInto(read, entries, finite)), p + |EntriesYield(entries)|)
    decreases entries, 0
  {
    hide At, ParseMember, Meaning, Yield, Legal, SkipWs, KeyYield, CharsMeaning;
    var e, tail := entries[0], EntriesTail(entries);
    var m := CompleteMember(t, p, e, tail, finite);
    MembersGlue(t, p, read, m, finite);
    if |entries| > 1 {
      var q := p + |KeyYield(e)| + |PaddedYield(e.beforeValue, e.tree, e.after)|;
      AtSplit(t, q, [COMMA], EntriesYield(entries[1..]));
      KeysLeft(read, m.value, entries[1..]);
      CompleteMembers(t, q + 1, entries[1..], Insert(read, m.value), finite);
    }
  }

  lemma {:induction false} CompleteObject(t: Text, p: nat, tree: Tree, finite: iset<Text>)
    requires p <= |t| && tree.ObjectTree? && Legal(tree, finite) && At(t, p, Yield(tree))
    ensures ParseToken(t, p, finite) == Ok(Meaning(tree, finite), p + |Yield(tree)|)
    decreases tree, 0
  {
    var entries := tree.entries;
    ObjectShape(tree, finite);
    hide *;
    AtSplit(t, p, [LBRACE], EntriesYield(entries));
    ObjectOpens(t, p + 1, entries, finite);
    ObjectBegins(t, p, finite);
    NoKeysYet(entries);
    CompleteMembers(t, p + 1, entries, [], finite);
  }

  lemma ObjectShape(tree: Tree, finite: iset<Text>)
    requires tree.ObjectTree? && Legal(tree, finite)
    ensures var entries := tree.entries;
            && entries != [] && EntriesLegal(entries, finite) && KeysDistinct(entries)
            && Yield(tree) == [LBRACE] + EntriesYield(entries)
            && Meaning(tree, finite) == Object(EntriesInto([], entries, finite))
  {
  }

  lemma ObjectBegins(t: Text, p: nat, finite: iset<Text>)
    requires p < |t| && At(t, p, [LBRACE]) && !Next(t, SkipWs(t, p + 1), RBRACE)
    ensures ParseToken(t, p, finite) == ParseMembers(t, p + 1, [], finite)
  {
    hide ParseMembers, SkipWs, ParseString, ParseNumber;
    assert t[p] == [LBRACE][0];
  }

  lemma {:induction false} NoKeysYet(entries: seq<Entry>)
    ensures NoKeysOf([], entries)
    decreases |entries|
  {
    if entries != [] { NoKeysYet(entries[1..]); }
  }

  lemma ObjectOpens(t: Text, p: nat, entries: seq<Entry>, finite: iset<Text>)
    requires p <= |t| && entries != [] && EntriesLegal(entries, finite) && At(t, p, EntriesYield(entries))
    ensures !Next(t, SkipWs(t, p), RBRACE)
  {
    var e := entries[0];
    AtSplit(t, p, KeyYield(e), PaddedYield(e.beforeValue, e.tree, e.after) + EntriesTail(entries));
    var _ := CompleteKey(t, p, e);
  }
}
