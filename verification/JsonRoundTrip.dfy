/**
 Printing and parsing undo each other. The canonical text of a value is the yield of a legal
 tree that means the value, so completeness of the parser carries it back.
 */
module JsonRoundTrip {
  import opened JsonGrammar
  import opened JsonParsing
  import opened JsonPrinting
  import opened JsonSoundness
  import opened Sequences
  import opened Words

  /** What a value comes back as: only a non-negative Int64 changes, into a UInt64. */
  function Normalise(v: Json): Json
    decreases v, 0
  {
    match v
    case Int64(i) => if i >= 0 then UInt64(i) else v
    case Array(items) => Array(NormaliseItems(items))
    case Object(members) => Object(NormaliseMembers(members))
    case _ => v
  }

  function NormaliseItems(items: seq<Json>): seq<Json>
    decreases items, 0
  {
    if items == [] then [] else [Normalise(items[0])] + NormaliseItems(items[1..])
  }

  function NormaliseMembers(members: seq<Member>): seq<Member>
    decreases members, 0
  {
    if members == [] then []
    else [Member(members[0].key, Normalise(members[0].value))] + NormaliseMembers(members[1..])
  }

  // The tree of a printed value

  function CharOf(c: byte): Char
  {
    if ShortEscape(c) != [] then Escape(ShortEscape(c)[0])
    else if c < 0x20 then Unit([ZERO, ZERO, LowerHex(c / 16), LowerHex(c % 16)])
    else Plain(c)
  }

  function CharsOf(s: Text): seq<Char>
  {
    if s == [] then [] else [CharOf(s[0])] + CharsOf(s[1..])
  }

  function Integer(minus: bool, n: nat): Tree { NumberTree(Numeral(minus, Decimal(n), [], NoExponent)) }

  function TreeOf(v: Json): Tree
    requires WellFormed(v, false)
    decreases v, 0
  {
    match v
    case Null => NullTree
    case Bool(b) => if b then TrueTree else FalseTree
    case Int64(i) => if i < 0 then Integer(true, -i) else Integer(false, i)
    case UInt64(u) => Integer(false, u)
    case String(s) => StringTree(CharsOf(s))
    case Array(items) => if items == [] then EmptyArrayTree([]) else ArrayTree(ItemsOf(items))
    case Object(members) => if members == [] then EmptyObjectTree([]) else ObjectTree(EntriesOf(members))
  }

  function ItemsOf(items: seq<Json>): seq<Item>
    requires ItemsWellFormed(items, false)
    decreases items, 0
  {
    if items == [] then [] else [Item([], TreeOf(items[0]), [])] + ItemsOf(items[1..])
  }

  function EntriesOf(members: seq<Member>): seq<Entry>
    requires MembersWellFormed(members, false)
    decreases members, 0
  {
    if members == [] then []
    else [Entry([], CharsOf(members[0].key), [], [], TreeOf(members[0].value), [])] + EntriesOf(members[1..])
  }

  // Strings and numbers

  lemma CharOfByte(c: byte)
    ensures Accepted(CharOf(c)) && CharYield(CharOf(c)) == EscapedByte(c) && CharMeaning(CharOf(c)) == [c]
  {
  }

  lemma {:induction false} CharsOfText(s: Text)
    ensures CharsAccepted(CharsOf(s)) && CharsYield(CharsOf(s)) == Escaped(s) && CharsMeaning(CharsOf(s)) == s
  {
    if s != [] {
      CharOfByte(s[0]);
      CharsOfText(s[1..]);
      assert CharsOf(s)[1..] == CharsOf(s[1..]);
    }
  }

  /** std::to_string gives the digits of the number, without leading zeros. */
  lemma {:induction false} DecimalDigits(n: nat)
    ensures Decimal(n) != [] && AllDigits(Decimal(n)) && DigitsValue(Decimal(n)) == n
    ensures Decimal(n)[0] == ZERO ==> n == 0 && |Decimal(n)| == 1
  {
    if n >= 10 {
      DecimalDigits(n / 10);
      assert Decimal(n)[..|Decimal(n)| - 1] == Decimal(n / 10);
    }
  }

  lemma IntegerTree(minus: bool, n: nat, finite: iset<Text>)
    requires if minus then n <= I64_MIN_ABS else n < U64
    ensures Legal(Integer(minus, n), finite)
    ensures Meaning(Integer(minus, n), finite) == if minus then Int64(-(n as int)) else UInt64(n)
    ensures Yield(Integer(minus, n)) == (if minus then [MINUS] else []) + Decimal(n)
  {
    DecimalDigits(n);
  }

  // Keys

  lemma {:induction false} KeyLessStrict(a: Text, b: Text)
    ensures KeyLess(a, b) ==> a != b && !KeyLess(b, a)
  {
    if a != [] && b != [] && a[0] == b[0] {
      KeyLessStrict(a[1..], b[1..]);
    }
  }

  predicate AllBelow(members: seq<Member>, key: Text)
  {
    members != [] ==> KeyLess(members[0].key, key) && AllBelow(members[1..], key)
  }

  lemma {:induction false} InsertLast(members: seq<Member>, m: Member)
    requires AllBelow(members, m.key)
    ensures Insert(members, m) == members + [m]
  {
    if members != [] {
      KeyLessStrict(members[0].key, m.key);
      InsertLast(members[1..], m);
    }
  }

  lemma {:induction false} BelowExtended(members: seq<Member>, m: Member, key: Text)
    requires AllBelow(members, key) && KeyLess(m.key, key)
    ensures AllBelow(members + [m], key)
  {
    if members != [] {
      BelowExtended(members[1..], m, key);
      assert (members + [m])[1..] == members[1..] + [m];
    }
  }

  /** Every key of `read` is below every key still to come. */
  predicate Precede(read: seq<Member>, members: seq<Member>)
  {
    members != [] ==> AllBelow(read, members[0].key) && Precede(read, members[1..])
  }

  lemma {:induction false} PrecedeExtended(read: seq<Member>, m: Member, members: seq<Member>)
    requires Precede(read, members) && AllAbove(m.key, members)
    ensures Precede(read + [m], members)
  {
    if members != [] {
      BelowExtended(read, m, members[0].key);
      PrecedeExtended(read, m, members[1..]);
    }
  }

  lemma {:induction false} PrecedeNone(members: seq<Member>)
    ensures Precede([], members)
  {
    if members != [] {
      PrecedeNone(members[1..]);
    }
  }

  lemma {:induction false} AboveAbsent(key: Text, members: seq<Member>)
    requires MembersWellFormed(members, false) && AllAbove(key, members)
    ensures KeyAbsent(key, EntriesOf(members))
  {
    if members != [] {
      CharsOfText(members[0].key);
      KeyLessStrict(key, members[0].key);
      AboveAbsent(key, members[1..]);
      assert EntriesOf(members)[1..] == EntriesOf(members[1..]);
    }
  }

  lemma {:induction false} AscendingDistinct(members: seq<Member>)
    requires MembersWellFormed(members, false) && Ascending(members)
    ensures KeysDistinct(EntriesOf(members))
  {
    if members != [] {
      CharsOfText(members[0].key);
      AboveAbsent(members[0].key, members[1..]);
      AscendingDistinct(members[1..]);
      assert EntriesOf(members)[1..] == EntriesOf(members[1..]);
    }
  }

  // The tree yields the printed text and means the value

  /** The tree of a value is legal, yields its printed text and means it, normalised. */
  ghost predicate Represents(v: Json, finite: iset<Text>)
    requires WellFormed(v, false)
  {
    Legal(TreeOf(v), finite) && Yield(TreeOf(v)) == Print(v) && Meaning(TreeOf(v), finite) == Normalise(v)
  }

  lemma {:induction false} TreeOfValue(v: Json, finite: iset<Text>)
    requires WellFormed(v, false)
    ensures Represents(v, finite)
    decreases v, 0
  {
    hide Represents, WellFormed;
    if v.Array? {
      ArrayOfValues(v, finite);
    } else if v.Object? {
      ObjectOfMembers(v, finite);
    } else {
      LeafOfValue(v, finite);
    }
  }

  lemma LeafOfValue(v: Json, finite: iset<Text>)
    requires WellFormed(v, false) && !v.Array? && !v.Object?
    ensures Represents(v, finite)
  {
    hide Decimal, Escaped, IsIntegral, DigitsValue, AllDigits;
    match v
    case Null =>
    case Bool(_) =>
    case Int64(i) => IntegerTree(i < 0, if i < 0 then -i else i, finite);
    case UInt64(u) => IntegerTree(false, u, finite);
    case String(s) => CharsOfText(s);
  }

  lemma {:induction false} ArrayOfValues(v: Json, finite: iset<Text>)
    requires WellFormed(v, false) && v.Array?
    ensures Represents(v, finite)
    decreases v.items, 1
  {
    hide ItemsYield, PrintItems, ItemsLegal, NormaliseItems, ItemsMeaning, ItemsWellFormed;
    if v.items != [] {
      ItemsOfValues(v.items, true, finite);
    } else {
      NoItems(finite);
    }
  }

  lemma {:induction false} ObjectOfMembers(v: Json, finite: iset<Text>)
    requires WellFormed(v, false) && v.Object?
    ensures Represents(v, finite)
    decreases v.members, 1
  {
    hide EntriesYield, PrintMembers, EntriesLegal, NormaliseMembers, EntriesInto, MembersWellFormed, KeysDistinct;
    hide Precede, Ascending;
    var members := v.members;
    if members != [] {
      EntriesOfMembers(members, true, finite);
      PrecedeNone(members);
      EntriesInOrder([], members, finite);
      AscendingDistinct(members);
      assert EntriesInto([], EntriesOf(members), finite) == NormaliseMembers(members);
    } else {
      NoMembers(finite);
    }
  }

  lemma NoItems(finite: iset<Text>)
    ensures Represents(Array([]), finite)
  {
  }

  lemma NoMembers(finite: iset<Text>)
    ensures Represents(Object([]), finite)
  {
  }

  lemma Unpadded(t: Tree)
    ensures PaddedYield([], t, []) == Yield(t)
  {
    hide Yield;
  }

  lemma {:induction false} ItemsOfValues(items: seq<Json>, first: bool, finite: iset<Text>)
    requires ItemsWellFormed(items, false)
    ensures ItemsLegal(ItemsOf(items), finite) && ItemsMeaning(ItemsOf(items), finite) == NormaliseItems(items)
    ensures items != [] ==> PrintItems(items, first) == Comma(first) + ItemsYield(ItemsOf(items))
    decreases items, 0
  {
    hide TreeOf, Yield, Print, Legal, Meaning, Normalise, WellFormed;
    if items != [] {
      TreeOfValue(items[0], finite);
      ItemsOfValues(items[1..], false, finite);
      assert ItemsOf(items)[1..] == ItemsOf(items[1..]);
      Unpadded(TreeOf(items[0]));
      Associates(Comma(first), Print(items[0]), PrintItems(items[1..], false));
    }
  }

  lemma BareKey(e: Entry)
    requires e.before == [] && e.afterKey == []
    ensures KeyYield(e) == StringYield(e.key) + [COLON]
  {
    hide StringYield;
  }

  lemma MemberText(comma: Text, key: Text, value: Text, rest: Text)
    ensures comma + key + [COLON] + value + rest == comma + (key + [COLON] + (value + rest))
  {
  }

  lemma {:induction false} EntriesOfMembers(members: seq<Member>, first: bool, finite: iset<Text>)
    requires MembersWellFormed(members, false)
    ensures EntriesLegal(EntriesOf(members), finite)
    ensures members != [] ==> PrintMembers(members, first) == Comma(first) + EntriesYield(EntriesOf(members))
    decreases members, 0
  {
    hide TreeOf, Yield, Print, Legal, Meaning, Normalise, WellFormed, CharsOf, CharsYield, CharsAccepted, Escaped;
    hide PaddedYield, KeyYield;
    if members != [] {
      var m, rest := members[0], PrintMembers(members[1..], false);
      CharsOfText(m.key);
      TreeOfValue(m.value, finite);
      EntriesOfMembers(members[1..], false, finite);
      assert EntriesOf(members)[1..] == EntriesOf(members[1..]);
      Unpadded(TreeOf(m.value));
      BareKey(EntriesOf(members)[0]);
      MemberText(Comma(first), Quoted(m.key), Print(m.value), rest);
    }
  }

  lemma {:induction false} EntriesInOrder(read: seq<Member>, members: seq<Member>, finite: iset<Text>)
    requires MembersWellFormed(members, false) && Ascending(members) && Precede(read, members)
    requires EntriesLegal(EntriesOf(members), finite)
    ensures EntriesInto(read, EntriesOf(members), finite) == read + NormaliseMembers(members)
    decreases members, 0
  {
    hide TreeOf, Legal, Meaning, Normalise, WellFormed, CharsOf, Insert, CharsAccepted, CharsMeaning;
    if members != [] {
      var m := Member(members[0].key, Normalise(members[0].value));
      CharsOfText(m.key);
      TreeOfValue(members[0].value, finite);
      InsertLast(read, m);
      PrecedeExtended(read, m, members[1..]);
      assert EntriesOf(members)[1..] == EntriesOf(members[1..]);
      EntriesInOrder(read + [m], members[1..], finite);
    }
  }

  // The theorems

  /** Parsing a printed value gives it back, normalised, and uses the whole text. */
  lemma RoundTrip(v: Json, finite: iset<Text>)
    requires WellFormed(v, false)
    ensures Parse(Print(v), finite) == Ok(Normalise(v), |Print(v)|)
  {
    TreeOfValue(v, finite);
    var d := Document([], TreeOf(v), []);
    assert DocumentYield(d) == Print(v);
    ParseComplete(d, finite);
  }

  /** Two values print alike exactly when they differ at most in signedness of non-negative integers. */
  lemma PrintInjective(v: Json, w: Json)
    requires WellFormed(v, false) && WellFormed(w, false)
    ensures Print(v) == Print(w) <==> Normalise(v) == Normalise(w)
  {
    var finite: iset<Text> := iset{};
    RoundTrip(v, finite);
    RoundTrip(w, finite);
    NormalisedPrint(v);
    NormalisedPrint(w);
  }

  lemma {:induction false} NormalisedPrint(v: Json)
    requires WellFormed(v, false)
    ensures WellFormed(Normalise(v), false) && Print(Normalise(v)) == Print(v) && Normalise(Normalise(v)) == Normalise(v)
    decreases v, 0
  {
    match v
    case Array(items) => NormalisedItems(items, true);
    case Object(members) => NormalisedMembers(members, true);
    case _ =>
  }

  lemma {:induction false} NormalisedItems(items: seq<Json>, first: bool)
    requires ItemsWellFormed(items, false)
    ensures ItemsWellFormed(NormaliseItems(items), false)
    ensures PrintItems(NormaliseItems(items), first) == PrintItems(items, first)
    ensures NormaliseItems(NormaliseItems(items)) == NormaliseItems(items)
    decreases items, 0
  {
    if items != [] {
      NormalisedPrint(items[0]);
      NormalisedItems(items[1..], false);
      assert NormaliseItems(items)[1..] == NormaliseItems(items[1..]);
    }
  }

  lemma {:induction false} NormalisedMembers(members: seq<Member>, first: bool)
    requires MembersWellFormed(members, false)
    ensures MembersWellFormed(NormaliseMembers(members), false)
    ensures PrintMembers(NormaliseMembers(members), first) == PrintMembers(members, first)
    ensures NormaliseMembers(NormaliseMembers(members)) == NormaliseMembers(members)
    ensures Ascending(members) ==> Ascending(NormaliseMembers(members))
    ensures forall key :: AllAbove(key, members) ==> AllAbove(key, NormaliseMembers(members))
    decreases members, 0
  {
    if members != [] {
      NormalisedPrint(members[0].value);
      NormalisedMembers(members[1..], false);
      assert NormaliseMembers(members)[1..] == NormaliseMembers(members[1..]);
    }
  }
}
