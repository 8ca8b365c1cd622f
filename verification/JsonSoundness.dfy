/** Whatever the parser accepts is derivable in the grammar, from exactly the bytes it consumed. */
module JsonSoundness {
  import opened JsonGrammar
  import opened JsonParsing
  import opened JsonCompleteness

  lemma {:induction false} SkippedWs(t: Text, p: nat)
    requires p <= |t|
    ensures AllWs(t[p..SkipWs(t, p)])
    ensures SkipWs(t, p) == |t| || !IsWs(t[SkipWs(t, p)])
    decreases |t| - p
  {
    if p < |t| && IsWs(t[p]) {
      SkippedWs(t, p + 1);
      assert t[p..SkipWs(t, p)] == [t[p]] + t[p + 1..SkipWs(t, p + 1)];
    }
  }

  lemma SliceAt(t: Text, p: nat, q: nat)
    requires p <= q <= |t|
    ensures At(t, p, t[p..q])
  {
  }

  // Strings

  lemma DeriveUnicode(t: Text, p: nat) returns (c: Char)
    requires Next(t, p, BACKSLASH) && Next(t, p + 1, LOWER_U) && ParseUnicode(t, p + 2).Ok?
    ensures Accepted(c) && At(t, p, CharYield(c))
  {
    var escape, high := [BACKSLASH, LOWER_U], t[p + 2..p + 6];
    assert At(t, p, escape) && At(t, p + 2, high);
    AtSplit(t, p, escape, high);
    if IsHighSurrogate(Hex4Value(high)) {
      var low := t[p + 8..p + 12];
      c := Pair(high, low);
      assert At(t, p + 6, escape) && At(t, p + 8, low);
      AtSplit(t, p, escape + high, escape);
      AtSplit(t, p, escape + high + escape, low);
    } else {
      c := Unit(high);
    }
  }

  lemma DeriveChar(t: Text, p: nat, read: Text) returns (c: Char)
    requires p < |t| && ParseChars(t, p, read).Ok? && t[p] != QUOTE
    ensures Accepted(c) && At(t, p, CharYield(c))
  {
    if t[p] != BACKSLASH {
      c := Plain(t[p]);
    } else if IsSimpleEscape(t[p + 1]) {
      c := Escape(t[p + 1]);
    } else {
      c := DeriveUnicode(t, p);
    }
  }

  lemma {:induction false} DeriveChars(t: Text, p: nat, read: Text) returns (cs: seq<Char>)
    requires p <= |t| && ParseChars(t, p, read).Ok?
    ensures CharsAccepted(cs) && At(t, p, CharsYield(cs)) && Next(t, p + |CharsYield(cs)|, QUOTE)
    decreases |t| - p
  {
    if t[p] == QUOTE {
      cs := [];
    } else {
      var c := DeriveChar(t, p, read);
      CharStep(t, p, c, read);
      var rest := DeriveChars(t, p + |CharYield(c)|, read + CharMeaning(c));
      cs := [c] + rest;
      AtSplit(t, p, CharYield(c), CharsYield(rest));
    }
  }

  lemma DeriveString(t: Text, p: nat) returns (cs: seq<Char>)
    requires p <= |t| && ParseString(t, p).Ok?
    ensures CharsAccepted(cs) && At(t, p, StringYield(cs))
    ensures ParseString(t, p) == Ok(CharsMeaning(cs), p + |StringYield(cs)|)
  {
    cs := DeriveChars(t, p + 1, []);
    assert At(t, p, [QUOTE]) && At(t, p + 1 + |CharsYield(cs)|, [QUOTE]);
    AtSplit(t, p, [QUOTE], CharsYield(cs));
    AtSplit(t, p, [QUOTE] + CharsYield(cs), [QUOTE]);
    CompleteString(t, p, cs);
  }

  // Numbers

  lemma DeriveInteger(t: Text, p: nat) returns (digits: Text)
    requires p <= |t| && ParseInteger(t, p).Ok?
    ensures At(t, p, digits) && ParseInteger(t, p).pos == p + |digits|
    ensures NumeralInGrammar(Numeral(false, digits, [], NoExponent))
  {
    digits := t[p..ParseInteger(t, p).pos];
    IntegerDigits(t, p);
  }

  lemma DeriveFraction(t: Text, p: nat) returns (f: Text)
    requires p <= |t| && ParseFraction(t, p).Ok?
    ensures AllDigits(f) && At(t, p, FractionYield(f)) && ParseFraction(t, p).pos == p + |FractionYield(f)|
  {
    if Next(t, p, DOT) {
      f := t[p + 1..ParseFraction(t, p).pos];
      SkipDigitsAll(t, p + 1);
      assert At(t, p, [DOT]) && At(t, p + 1, f);
      AtSplit(t, p, [DOT], f);
    } else {
      f := [];
    }
  }

  lemma DeriveExponent(t: Text, p: nat) returns (e: Exponent)
    requires p <= |t| && ParseExponent(t, p).Ok?
    ensures NumeralInGrammar(Numeral(false, [ZERO], [], e))
    ensures At(t, p, ExponentYield(e)) && ParseExponent(t, p).pos == p + |ExponentYield(e)|
  {
    if p == |t| || !IsExponentMark(t[p]) {
      e := NoExponent;
    } else {
      var q := if Next(t, p + 1, PLUS) || Next(t, p + 1, MINUS) then p + 2 else p + 1;
      var sign := if q == p + 1 then [] else [t[p + 1]];
      var digits := t[q..SkipDigits(t, q)];
      e := Exponent(t[p], sign, digits);
      SkipDigitsAll(t, q);
      assert At(t, p, [t[p]]) && At(t, p + 1, sign) && At(t, q, digits);
      AtSplit(t, p, [t[p]], sign);
      AtSplit(t, p, [t[p]] + sign, digits);
    }
  }

  lemma DeriveNumeral(t: Text, p: nat) returns (n: Numeral)
    requires p <= |t| && NumberEnd(t, p).Ok?
    ensures NumeralInGrammar(n) && At(t, p, NumeralYield(n)) && NumberEnd(t, p).pos == p + |NumeralYield(n)|
  {
    assert Next(t, p, MINUS) ==> At(t, p, [MINUS]);
    hide At, ParseInteger, ParseFraction, ParseExponent;
    var start := IntegerStart(t, p);
    var digits := DeriveInteger(t, start);
    var f := DeriveFraction(t, start + |digits|);
    var e := DeriveExponent(t, start + |digits| + |FractionYield(f)|);
    n := Numeral(Next(t, p, MINUS), digits, f, e);
    SliceAt(t, p, start);
    assert SignYield(n) == t[p..start];
    NumeralFromPieces(t, p, n);
  }

  lemma ConvertedFinite(n: Numeral, finite: iset<Text>, pos: nat)
    requires NumeralInGrammar(n)
    requires Converted(n.minus, n.digits, IsIntegral(n), NumeralYield(n), finite, pos).Ok?
    ensures Legal(NumberTree(n), finite)
  {
  }

  lemma DeriveNumber(t: Text, p: nat, finite: iset<Text>) returns (n: Numeral)
    requires p <= |t| && ParseNumber(t, p, finite).Ok? && Stops(t, ParseNumber(t, p, finite).pos)
    ensures Legal(NumberTree(n), finite) && At(t, p, NumeralYield(n))
    ensures ParseNumber(t, p, finite).pos == p + |NumeralYield(n)|
  {
    hide At, NumberEnd, Stops, NumeralInGrammar, DigitsValue, NumeralYield;
    n := DeriveNumeral(t, p);
    NumberConverted(t, p, n, finite);
    ConvertedFinite(n, finite, p + |NumeralYield(n)|);
  }

  // Values

  lemma {:induction false} DeriveToken(t: Text, p: nat, finite: iset<Text>) returns (tree: Tree)
    requires p <= |t| && ParseToken(t, p, finite).Ok? && Stops(t, ParseToken(t, p, finite).pos)
    ensures Legal(tree, finite) && At(t, p, Yield(tree))
    ensures ParseToken(t, p, finite) == Ok(Meaning(tree, finite), p + |Yield(tree)|)
    decreases |t| - p, 1
  {
    if t[p] == LBRACKET {
      tree := DeriveArray(t, p, finite);
    } else if t[p] == LBRACE {
      tree := DeriveObject(t, p, finite);
    } else {
      tree := DeriveLeaf(t, p, finite);
    }
    CompleteToken(t, p, tree, finite);
  }

  lemma DeriveLeaf(t: Text, p: nat, finite: iset<Text>) returns (tree: Tree)
    requires p < |t| && t[p] != LBRACKET && t[p] != LBRACE
    requires ParseToken(t, p, finite).Ok? && Stops(t, ParseToken(t, p, finite).pos)
    ensures Legal(tree, finite) && At(t, p, Yield(tree)) && ParseToken(t, p, finite).pos == p + |Yield(tree)|
  {
    hide At;
    if t[p] == 0x6E {
      tree := NullTree;
    } else if t[p] == 0x74 {
      tree := TrueTree;
    } else if t[p] == 0x66 {
      tree := FalseTree;
    } else if t[p] == QUOTE {
      var cs := DeriveString(t, p);
      tree := StringTree(cs);
    } else {
      var n := DeriveNumber(t, p, finite);
      tree := NumberTree(n);
    }
  }

  /** A value inside an array or object, with the white space about it. */
  lemma {:induction false} DerivePadded(t: Text, p: nat, finite: iset<Text>, c: byte)
    returns (before: Text, tree: Tree, after: Text)
    requires p <= |t| && ParseValue(t, p, finite).Ok? && (c == COMMA || c == RBRACKET || c == RBRACE)
    requires Next(t, SkipWs(t, ParseValue(t, p, finite).pos), c)
    ensures AllWs(before) && Legal(tree, finite) && AllWs(after)
    ensures At(t, p, PaddedYield(before, tree, after))
    ensures SkipWs(t, ParseValue(t, p, finite).pos) == p + |PaddedYield(before, tree, after)|
    decreases |t| - p, 2
  {
    hide ParseToken, Legal, Meaning;
    var start, end := SkipWs(t, p), ParseValue(t, p, finite).pos;
    before, after := t[p..start], t[end..SkipWs(t, end)];
    SkippedWs(t, p);
    SkippedWs(t, end);
    StopsBefore(t, end, c);
    tree := DeriveToken(t, start, finite);
    SliceAt(t, p, start);
    SliceAt(t, end, SkipWs(t, end));
    AtSplit(t, p, before, Yield(tree));
    AtSplit(t, p, before + Yield(tree), after);
  }

  lemma StopsBefore(t: Text, end: nat, c: byte)
    requires end <= |t| && Next(t, SkipWs(t, end), c) && (c == COMMA || c == RBRACKET || c == RBRACE)
    ensures Stops(t, end)
  {
  }

  lemma {:induction false} DeriveArray(t: Text, p: nat, finite: iset<Text>) returns (tree: Tree)
    requires p < |t| && t[p] == LBRACKET && ParseArray(t, p, finite).Ok?
    ensures Legal(tree, finite) && At(t, p, Yield(tree)) && ParseArray(t, p, finite).pos == p + |Yield(tree)|
    decreases |t| - p, 0
  {
    var q := SkipWs(t, p + 1);
    assert At(t, p, [LBRACKET]);
    if Next(t, q, RBRACKET) {
      tree := DeriveEmpty(t, p);
    } else {
      var items := DeriveItems(t, p + 1, [], finite);
      AtSplit(t, p, [LBRACKET], ItemsYield(items));
      tree := ArrayTree(items);
    }
  }

  /** An empty array, or the empty object likewise. */
  lemma DeriveEmpty(t: Text, p: nat) returns (tree: Tree)
    requires p < |t| && (t[p] == LBRACKET || t[p] == LBRACE)
    requires Next(t, SkipWs(t, p + 1), if t[p] == LBRACKET then RBRACKET else RBRACE)
    ensures tree == (if t[p] == LBRACKET then EmptyArrayTree(t[p + 1..SkipWs(t, p + 1)])
                     else EmptyObjectTree(t[p + 1..SkipWs(t, p + 1)]))
    ensures AllWs(tree.ws) && At(t, p, Yield(tree)) && SkipWs(t, p + 1) + 1 == p + |Yield(tree)|
  {
    var q := SkipWs(t, p + 1);
    var ws, close := t[p + 1..q], t[q];
    tree := if t[p] == LBRACKET then EmptyArrayTree(ws) else EmptyObjectTree(ws);
    SkippedWs(t, p + 1);
    assert At(t, p, [t[p]]) && At(t, p + 1, ws) && At(t, q, [close]);
    AtSplit(t, p, [t[p]], ws);
    AtSplit(t, p, [t[p]] + ws, [close]);
  }

  lemma {:induction false} DeriveItems(t: Text, p: nat, read: seq<Json>, finite: iset<Text>) returns (items: seq<Item>)
    requires p <= |t| && ParseItems(t, p, read, finite).Ok?
    ensures items != [] && ItemsLegal(items, finite) && At(t, p, ItemsYield(items))
    ensures ParseItems(t, p, read, finite).pos == p + |ItemsYield(items)|
    decreases |t| - p, 3
  {
    hide At, ParseToken, Legal, Yield, SkipWs;
    var v := ParseValue(t, p, finite);
    var q := SkipWs(t, v.pos);
    ItemsGlue(t, p, read, v, finite);
    var c := if Next(t, q, RBRACKET) then RBRACKET else COMMA;
    var before, tree, after := DerivePadded(t, p, finite, c);
    var item := Item(before, tree, after);
    if c == RBRACKET {
      items := [item];
      OneByte(t, q, RBRACKET);
      AtSplit(t, p, PaddedYield(before, tree, after), [RBRACKET]);
    } else {
      var rest := DeriveItems(t, q + 1, read + [v.value], finite);
      items := [item] + rest;
      assert items[1..] == rest;
      OneByte(t, q, COMMA);
      AtSplit(t, q, [COMMA], ItemsYield(rest));
      AtSplit(t, p, PaddedYield(before, tree, after), [COMMA] + ItemsYield(rest));
    }
  }

  lemma OneByte(t: Text, p: nat, c: byte)
    requires Next(t, p, c)
    ensures At(t, p, [c])
  {
  }

  // Objects

  lemma {:induction false} DeriveObject(t: Text, p: nat, finite: iset<Text>) returns (tree: Tree)
    requires p < |t| && t[p] == LBRACE && ParseObject(t, p, finite).Ok?
    ensures Legal(tree, finite) && At(t, p, Yield(tree)) && ParseObject(t, p, finite).pos == p + |Yield(tree)|
    decreases |t| - p, 0
  {
    var q := SkipWs(t, p + 1);
    assert At(t, p, [LBRACE]);
    if Next(t, q, RBRACE) {
      tree := DeriveEmpty(t, p);
    } else {
      var entries := DeriveMembers(t, p + 1, [], finite);
      AtSplit(t, p, [LBRACE], EntriesYield(entries));
      tree := ObjectTree(entries);
    }
  }

  /** A key and its colon, as the head of an entry whose value is still to come. */
  lemma DeriveKey(t: Text, p: nat) returns (e: Entry)
    requires p <= |t| && ParseString(t, SkipWs(t, p)).Ok?
    requires Next(t, SkipWs(t, ParseString(t, SkipWs(t, p)).pos), COLON)
    ensures AllWs(e.before) && AllWs(e.afterKey) && CharsAccepted(e.key) && At(t, p, KeyYield(e))
    ensures ParseString(t, SkipWs(t, p)).value == CharsMeaning(e.key)
    ensures SkipWs(t, ParseString(t, SkipWs(t, p)).pos) + 1 == p + |KeyYield(e)|
  {
    hide ParseChars, CharsMeaning, CharsYield;
    var start := SkipWs(t, p);
    var cs := DeriveString(t, start);
    var end := ParseString(t, start).pos;
    var colon := SkipWs(t, end);
    var before, afterKey := t[p..start], t[end..colon];
    SkippedWs(t, p);
    SkippedWs(t, end);
    SliceAt(t, p, start);
    SliceAt(t, end, colon);
    OneByte(t, colon, COLON);
    AtSplit(t, p, before, StringYield(cs));
    AtSplit(t, p, before + StringYield(cs), afterKey);
    AtSplit(t, p, before + StringYield(cs) + afterKey, [COLON]);
    e := Entry(before, cs, afterKey, [], NullTree, []);
  }

  lemma {:induction false} DeriveMember(t: Text, p: nat, finite: iset<Text>, c: byte) returns (e: Entry)
    requires p <= |t| && ParseMember(t, p, finite).Ok? && (c == COMMA || c == RBRACE)
    requires Next(t, SkipWs(t, ParseMember(t, p, finite).pos), c)
    ensures EntryLegal(e, finite) && At(t, p, KeyYield(e) + PaddedYield(e.beforeValue, e.tree, e.after))
    ensures ParseMember(t, p, finite).value.key == CharsMeaning(e.key)
    ensures SkipWs(t, ParseMember(t, p, finite).pos) ==
            p + |KeyYield(e)| + |PaddedYield(e.beforeValue, e.tree, e.after)|
    decreases |t| - p, 3
  {
    hide At, ParseChars, CharsMeaning, CharsYield, ParseToken, Legal, Yield;
    var head := DeriveKey(t, p);
    var before, tree, after := DerivePadded(t, p + |KeyYield(head)|, finite, c);
    e := head.(beforeValue := before, tree := tree, after := after);
    assert KeyYield(e) == KeyYield(head);
    AtSplit(t, p, KeyYield(e), PaddedYield(before, tree, after));
  }

  lemma {:induction false} KeysLeftBack(read: seq<Member>, m: Member, rest: seq<Entry>)
    requires NoKeysOf(Insert(read, m), rest)
    ensures NoKeysOf(read, rest) && KeyAbsent(m.key, rest)
    decreases |rest|
  {
    if rest != [] {
      KeysLeftBack(read, m, rest[1..]);
      if CharsAccepted(rest[0].key) { InsertKeys(read, m, CharsMeaning(rest[0].key)); }
    }
  }

  lemma {:induction false} DeriveMembers(t: Text, p: nat, read: seq<Member>, finite: iset<Text>) returns (entries: seq<Entry>)
    requires p <= |t| && ParseMembers(t, p, read, finite).Ok?
    ensures entries != [] && EntriesLegal(entries, finite) && KeysDistinct(entries) && NoKeysOf(read, entries)
    ensures At(t, p, EntriesYield(entries)) && ParseMembers(t, p, read, finite).pos == p + |EntriesYield(entries)|
    decreases |t| - p, 4
  {
    hide At, ParseMember, Legal, Yield, SkipWs, KeyYield, CharsMeaning;
    var m := ParseMember(t, p, finite);
    var q := SkipWs(t, m.pos);
    MembersGlue(t, p, read, m, finite);
    var c := if Next(t, q, RBRACE) then RBRACE else COMMA;
    var e := DeriveMember(t, p, finite, c);
    var value := PaddedYield(e.beforeValue, e.tree, e.after);
    OneByte(t, q, c);
    AtSplit(t, p, KeyYield(e), value);
    if c == RBRACE {
      entries := [e];
      AtSplit(t, p + |KeyYield(e)|, value, [RBRACE]);
      AtSplit(t, p, KeyYield(e), value + [RBRACE]);
    } else {
      var rest := DeriveMembers(t, q + 1, Insert(read, m.value), finite);
      entries := [e] + rest;
      assert entries[1..] == rest;
      KeysLeftBack(read, m.value, rest);
      AtSplit(t, q, [COMMA], EntriesYield(rest));
      AtSplit(t, p + |KeyYield(e)|, value, [COMMA] + EntriesYield(rest));
      AtSplit(t, p, KeyYield(e), value + ([COMMA] + EntriesYield(rest)));
    }
  }

  // Texts

  /** The parser accepts only texts of the grammar, and gives back what they denote. */
  lemma ParseSound(t: Text, finite: iset<Text>) returns (d: Document)
    requires Parse(t, finite).Ok?
    ensures DocumentLegal(d, finite) && DocumentYield(d) == t
    ensures Parse(t, finite).value == Meaning(d.tree, finite)
  {
    hide ParseToken, Legal, Meaning, Yield;
    var p := SkipWs(t, 0);
    SkippedWs(t, 0);
    SkippedWs(t, p);
    var end := ParseValue(t, p, finite).pos;
    SkippedWs(t, end);
    assert Stops(t, end);
    assert SkipWs(t, p) == p;
    var tree := DeriveToken(t, p, finite);
    d := Document(t[..p], tree, t[end..]);
    AtSlice(t, p, Yield(tree));
    assert t[0..p] == t[..p] && t[end..SkipWs(t, end)] == t[end..];
    assert t == t[..p] + t[p..end] + t[end..];
  }

  lemma AtFirst(t: Text, p: nat, w: Text)
    requires At(t, p, w) && w != []
    ensures Next(t, p, w[0])
  {
  }

  lemma DocumentAt(d: Document)
    ensures var t, p := DocumentYield(d), |d.before|;
            At(t, 0, d.before) && At(t, p, Yield(d.tree)) && At(t, p + |Yield(d.tree)|, d.after)
  {
    var t := DocumentYield(d);
    assert At(t, 0, t);
    hide Yield, At;
    AtSplit(t, 0, d.before + Yield(d.tree), d.after);
    AtSplit(t, 0, d.before, Yield(d.tree));
  }

  lemma DocumentPieces(d: Document, finite: iset<Text>)
    requires DocumentLegal(d, finite)
    ensures var t, p := DocumentYield(d), |d.before|;
            var end := p + |Yield(d.tree)|;
            && At(t, p, Yield(d.tree)) && Stops(t, end)
            && SkipWs(t, 0) == p && SkipWs(t, p) == p && SkipWs(t, end) == |t|
  {
    hide Yield, Legal, At, SkipWs;
    var t, p := DocumentYield(d), |d.before|;
    var end := p + |Yield(d.tree)|;
    DocumentAt(d);
    YieldStart(d.tree, finite);
    AtFirst(t, p, Yield(d.tree));
    if d.after != [] { AtFirst(t, end, d.after); }
    SkipWsOver(t, 0, d.before);
    SkipWsOver(t, end, d.after);
    SkipWsIdempotent(t, 0);
  }

  lemma {:induction false} SkipWsIdempotent(t: Text, p: nat)
    requires p <= |t|
    ensures SkipWs(t, SkipWs(t, p)) == SkipWs(t, p)
  {
    SkippedWs(t, p);
  }

  /** Every legal text is accepted, with what it denotes. */
  lemma ParseComplete(d: Document, finite: iset<Text>)
    requires DocumentLegal(d, finite)
    ensures Parse(DocumentYield(d), finite) == Ok(Meaning(d.tree, finite), |DocumentYield(d)|)
  {
    hide ParseToken, Meaning, At, SkipWs, Yield;
    DocumentPieces(d, finite);
    CompleteToken(DocumentYield(d), |d.before|, d.tree, finite);
  }

  /** The parser accepts a text exactly when it is a legal one. */
  lemma AcceptsExactlyLegal(t: Text, finite: iset<Text>, v: Json)
    ensures Parse(t, finite) == Ok(v, |t|) <==>
            exists d :: DocumentLegal(d, finite) && DocumentYield(d) == t && Meaning(d.tree, finite) == v
  {
    if Parse(t, finite) == Ok(v, |t|) {
      var d := ParseSound(t, finite);
    }
    if d :| DocumentLegal(d, finite) && DocumentYield(d) == t && Meaning(d.tree, finite) == v {
      ParseComplete(d, finite);
    }
  }
}
