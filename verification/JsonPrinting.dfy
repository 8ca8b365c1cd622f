/**
 The printer: a value as its canonical text, and the printer class that appends it to a buffer.
 Doubles are outside it.
 */
module JsonPrinting {
  import opened JsonGrammar
  import opened Sequences
  import opened Words

  // Which values there are to print

  predicate AllAbove(key: Text, members: seq<Member>)
  {
    members != [] ==> KeyLess(key, members[0].key) && AllAbove(key, members[1..])
  }

  /** Keys as std::map holds them. */
  predicate Ascending(members: seq<Member>)
  {
    members != [] ==> AllAbove(members[0].key, members[1..]) && Ascending(members[1..])
  }

  /** A value the source's variant can hold; `doubles` says whether a double may occur in it. */
  predicate WellFormed(v: Json, doubles: bool)
    decreases v, 0
  {
    match v
    case Int64(i) => -(I64_MIN_ABS as int) <= i < I64_MIN_ABS
    case UInt64(u) => u < U64
    case Double(_) => doubles
    case Array(items) => ItemsWellFormed(items, doubles)
    case Object(members) => MembersWellFormed(members, doubles) && Ascending(members)
    case _ => true
  }

  predicate ItemsWellFormed(items: seq<Json>, doubles: bool)
    decreases items, 0
  {
    items != [] ==> WellFormed(items[0], doubles) && ItemsWellFormed(items[1..], doubles)
  }

  predicate MembersWellFormed(members: seq<Member>, doubles: bool)
    decreases members, 0
  {
    members != [] ==> WellFormed(members[0].value, doubles) && MembersWellFormed(members[1..], doubles)
  }

  // The text of a value

  function LowerHex(d: nat): byte
    requires d < 16
  {
    if d < 10 then 0x30 + d else 0x61 + (d - 10)
  }

  /** The letter of a short escape, for the seven bytes that have one. */
  function ShortEscape(c: byte): (r: Text)
    ensures |r| <= 1
  {
    if c == QUOTE then [QUOTE] else if c == BACKSLASH then [BACKSLASH]
    else if c == 0x08 then [0x62] else if c == 0x0C then [0x66] else if c == 0x0A then [0x6E]
    else if c == 0x0D then [0x72] else if c == 0x09 then [0x74] else []
  }

  function EscapedByte(c: byte): Text
  {
    if ShortEscape(c) != [] then [BACKSLASH] + ShortEscape(c)
    else if c < 0x20 then [BACKSLASH, LOWER_U, ZERO, ZERO, LowerHex(c / 16), LowerHex(c % 16)]
    else [c]
  }

  function Escaped(s: Text): Text
  {
    if s == [] then [] else EscapedByte(s[0]) + Escaped(s[1..])
  }

  function Quoted(s: Text): Text { [QUOTE] + Escaped(s) + [QUOTE] }

  /** std::to_string. */
  function Decimal(n: nat): Text
  {
    if n < 10 then [0x30 + n] else Decimal(n / 10) + [0x30 + n % 10]
  }

  function Signed(i: int): Text { if i < 0 then [MINUS] + Decimal(-i) else Decimal(i) }

  function Print(v: Json): Text
    requires WellFormed(v, false)
    decreases v, 0
  {
    match v
    case Null => NULL
    case Bool(b) => if b then TRUE else FALSE
    case Int64(i) => Signed(i)
    case UInt64(u) => Decimal(u)
    case String(s) => Quoted(s)
    case Array(items) => [LBRACKET] + PrintItems(items, true)
    case Object(members) => [LBRACE] + PrintMembers(members, true)
  }

  function Comma(first: bool): Text { if first then [] else [COMMA] }

  /** What is left to append of an array once its bracket and any earlier items are out. */
  function PrintItems(items: seq<Json>, first: bool): Text
    requires ItemsWellFormed(items, false)
    decreases items, 0
  {
    if items == [] then [RBRACKET]
    else Comma(first) + Print(items[0]) + PrintItems(items[1..], false)
  }

  function PrintMember(m: Member, first: bool): Text
    requires WellFormed(m.value, false)
    decreases m, 1
  {
    Comma(first) + Quoted(m.key) + [COLON] + Print(m.value)
  }

  function PrintMembers(members: seq<Member>, first: bool): Text
    requires MembersWellFormed(members, false)
    decreases members, 0
  {
    if members == [] then [RBRACE] else PrintMember(members[0], first) + PrintMembers(members[1..], false)
  }

  /** The buffer the source appends to. */
  class Printer {
    var out: Text

    constructor ()
      ensures out == []
    {
      out := [];
    }

    method AppendByte(c: byte)
      modifies this
      ensures out == old(out) + EscapedByte(c)
    {
      var short := ShortEscape(c);
      if short != [] {
        out := out + [BACKSLASH] + short;
      } else if c < 0x20 {
        out := out + [BACKSLASH, LOWER_U, ZERO, ZERO];
        out := out + [LowerHex(c / 16)];
        out := out + [LowerHex(c % 16)];
      } else {
        out := out + [c];
      }
    }

    method AppendEscaped(s: Text)
      modifies this
      ensures out == old(out) + Quoted(s)
    {
      hide EscapedByte;
      out := out + [QUOTE];
      ghost var whole := out + Escaped(s);
      assert s[0..] == s;
      for i := 0 to |s|
        invariant out + Escaped(s[i..]) == whole == old(out) + [QUOTE] + Escaped(s)
      {
        Associates(out, EscapedByte(s[i]), Escaped(s[i + 1..]));
        assert s[i..][1..] == s[i + 1..];
        AppendByte(s[i]);
      }
      assert s[|s|..] == [];
      assert out == whole == old(out) + [QUOTE] + Escaped(s);
      out := out + [QUOTE];
      assert out == old(out) + ([QUOTE] + Escaped(s) + [QUOTE]);
    }

    method DumpValue(v: Json)
      requires WellFormed(v, false)
      modifies this
      ensures out == old(out) + Print(v)
      decreases v, 1
    {
      match v
      case Null => out := out + NULL;
      case Bool(b) => out := out + if b then TRUE else FALSE;
      case Int64(i) => out := out + Signed(i);
      case UInt64(u) => out := out + Decimal(u);
      case String(s) => AppendEscaped(s);
      case Array(items) => DumpItems(items);
      case Object(members) => DumpMembers(members);
    }

    method AppendComma(first: bool)
      modifies this
      ensures out == old(out) + Comma(first)
    {
      if !first {
        out := out + [COMMA];
      }
    }

    method DumpItems(items: seq<Json>)
      requires ItemsWellFormed(items, false)
      modifies this
      ensures out == old(out) + ([LBRACKET] + PrintItems(items, true))
      decreases items, 0
    {
      hide Print, WellFormed, Comma;
      Associates(out, [LBRACKET], PrintItems(items, true));
      out := out + [LBRACKET];
      ghost var whole := out + PrintItems(items, true);
      var first := true;
      for i := 0 to |items|
        invariant first == (i == 0)
        invariant ItemsWellFormed(items[i..], false) && out + PrintItems(items[i..], first) == whole
      {
        assert items[i..][1..] == items[i + 1..];
        Associates(out, Comma(first) + Print(items[i]), PrintItems(items[i + 1..], false));
        Associates(out, Comma(first), Print(items[i]));
        AppendComma(first);
        first := false;
        DumpValue(items[i]);
      }
      assert items[|items|..] == [];
      out := out + [RBRACKET];
    }

    method DumpMember(m: Member, first: bool)
      requires WellFormed(m.value, false)
      modifies this
      ensures out == old(out) + PrintMember(m, first)
      decreases m, 2
    {
      hide Print, WellFormed, Comma, Quoted;
      AppendComma(first);
      AppendEscaped(m.key);
      out := out + [COLON];
      DumpValue(m.value);
    }

    method DumpMembers(members: seq<Member>)
      requires MembersWellFormed(members, false)
      modifies this
      ensures out == old(out) + ([LBRACE] + PrintMembers(members, true))
      decreases members, 0
    {
      hide PrintMember, WellFormed;
      Associates(out, [LBRACE], PrintMembers(members, true));
      out := out + [LBRACE];
      ghost var whole := out + PrintMembers(members, true);
      var first := true;
      for i := 0 to |members|
        invariant first == (i == 0)
        invariant MembersWellFormed(members[i..], false) && out + PrintMembers(members[i..], first) == whole
      {
        assert members[i..][1..] == members[i + 1..];
        Associates(out, PrintMember(members[i], first), PrintMembers(members[i + 1..], false));
        DumpMember(members[i], first);
        first := false;
      }
      assert members[|members|..] == [];
      out := out + [RBRACE];
    }
  }
}
