/**
 Cursor paging: cursors and the keys they name, the query a call carries, and the slice of a
 sorted list it selects.
 */
module Paging {
  import opened JsonGrammar
  import opened JsonPrinting
  import opened JsonValues
  import opened Options

  const PAGE_LIMIT_MAX: nat := 1000

  // Cursors

  function PageCursor(key: Text): Text
  {
    if key == [] then [] else [LowerHex(key[0] / 16), LowerHex(key[0] % 16)] + PageCursor(key[1..])
  }

  /** The value of a digit the server writes; none for any other byte. */
  function Nibble(c: byte): (d: Option<nat>)
    ensures d.Some? ==> d.value < 16
  {
    if 0x30 <= c <= 0x39 then Some(c - 0x30) else if 0x61 <= c <= 0x66 then Some(c - 0x61 + 10) else None
  }

  function PageCursorKey(cursor: Text): Option<Text>
  {
    if cursor == [] then Some([])
    else if |cursor| == 1 then None
    else
      var high, low, rest := Nibble(cursor[0]), Nibble(cursor[1]), PageCursorKey(cursor[2..]);
      if high.None? || low.None? || rest.None? then None else Some([high.value * 16 + low.value] + rest.value)
  }

  lemma NibbleExact(c: byte, d: nat)
    requires d < 16
    ensures Nibble(c) == Some(d) <==> c == LowerHex(d)
  {
  }

  /** A cursor is accepted exactly when it is one issued for the key it then names. */
  lemma {:induction false} CursorRoundTrip(cursor: Text, key: Text)
    ensures PageCursorKey(cursor) == Some(key) <==> cursor == PageCursor(key)
    decreases |key|
  {
    if key == [] {
    } else if |cursor| >= 2 {
      CursorRoundTrip(cursor[2..], key[1..]);
      var d, e := key[0] / 16, key[0] % 16;
      NibbleExact(cursor[0], d);
      NibbleExact(cursor[1], e);
      assert cursor == [cursor[0], cursor[1]] + cursor[2..] && key == [key[0]] + key[1..];
      if PageCursorKey(cursor) == Some(key) {
        CursorHead(cursor, key);
      }
    }
  }

  lemma CursorHead(cursor: Text, key: Text)
    requires |cursor| >= 2 && key != [] && PageCursorKey(cursor) == Some(key)
    ensures Nibble(cursor[0]) == Some(key[0] / 16) && Nibble(cursor[1]) == Some(key[0] % 16)
    ensures PageCursorKey(cursor[2..]) == Some(key[1..])
  {
    var high, low := Nibble(cursor[0]), Nibble(cursor[1]);
    assert key[0] == high.value * 16 + low.value;
  }

  method EncodeCursor(key: Text) returns (out: Text)
    ensures out == PageCursor(key)
  {
    out := [];
    for i := 0 to |key|
      invariant out + PageCursor(key[i..]) == PageCursor(key)
    {
      assert key[i..][0] == key[i] && key[i..][1..] == key[i + 1..];
      out := out + [LowerHex(key[i] / 16)];
      out := out + [LowerHex(key[i] % 16)];
    }
  }

  method DecodeCursor(cursor: Text) returns (r: Option<Text>)
    ensures r == PageCursorKey(cursor)
  {
    if |cursor| % 2 == 1 {
      OddRefused(cursor);
      return None;
    }
    var key: Text, i := [], 0;
    assert cursor[0..] == cursor;
    PrependNone(PageCursorKey(cursor));
    while i < |cursor|
      invariant 0 <= i <= |cursor| && i % 2 == 0
      invariant PageCursorKey(cursor) == Prepend(key, PageCursorKey(cursor[i..]))
      decreases |cursor| - i
    {
      var high, low := Nibble(cursor[i]), Nibble(cursor[i + 1]);
      assert cursor[i..][0] == cursor[i] && cursor[i..][1] == cursor[i + 1] && cursor[i..][2..] == cursor[i + 2..];
      if high.None? || low.None? {
        return None;
      }
      PrependOne(key, high.value * 16 + low.value, PageCursorKey(cursor[i + 2..]));
      key := key + [high.value * 16 + low.value];
      i := i + 2;
    }
    assert cursor[i..] == [] && key + [] == key;
    return Some(key);
  }

  function Prepend(key: Text, rest: Option<Text>): Option<Text> { if rest.Some? then Some(key + rest.value) else None }

  lemma PrependNone(rest: Option<Text>)
    ensures Prepend([], rest) == rest
  {
    if rest.Some? {
      assert [] + rest.value == rest.value;
    }
  }

  lemma PrependOne(key: Text, b: byte, rest: Option<Text>)
    ensures Prepend(key, Prepend([b], rest)) == Prepend(key + [b], rest)
  {
    if rest.Some? {
      assert key + ([b] + rest.value) == key + [b] + rest.value;
    }
  }

  lemma {:induction false} OddRefused(cursor: Text)
    requires |cursor| % 2 == 1
    ensures PageCursorKey(cursor) == None
  {
    if |cursor| > 1 {
      OddRefused(cursor[2..]);
    }
  }

  // Queries

  datatype Query = Query(limit: Option<nat>, after: Option<Text>)

  datatype Reading = Page(query: Query) | BadLimit | BadCursor

  /** Parameters that are absent or empty are not given. */
  function ReadPageQuery(limit: Option<Text>, cursor: Option<Text>): Reading
  {
    var given := limit.Some? && limit.value != [];
    if given && !(AllDigits(limit.value) && 1 <= DigitsValue(limit.value) <= PAGE_LIMIT_MAX) then BadLimit
    else if cursor.None? || cursor.value == [] then
      Page(Query(if given then Some(DigitsValue(limit.value)) else None, None))
    else if PageCursorKey(cursor.value).None? then BadCursor
    else Page(Query(if given then Some(DigitsValue(limit.value)) else None, PageCursorKey(cursor.value)))
  }

  /** A cursor is refused exactly when the server would issue it for no key. */
  lemma CursorRefused(limit: Option<Text>, cursor: Text)
    requires !ReadPageQuery(limit, None).BadLimit?
    ensures ReadPageQuery(limit, Some(cursor)).BadCursor? <==> forall key :: cursor != PageCursor(key)
  {
    if PageCursorKey(cursor).Some? {
      CursorRoundTrip(cursor, PageCursorKey(cursor).value);
    } else {
      forall key
        ensures cursor != PageCursor(key)
      {
        CursorRoundTrip(cursor, key);
      }
    }
  }

  /** A limit given is read exactly when it is digits for a number from 1 to 1000; an absent or empty one asks for all. */
  lemma LimitExact(text: Text)
    ensures ReadPageQuery(None, None) == ReadPageQuery(Some([]), None) == Page(Query(None, None))
    ensures text != [] ==>
              ReadPageQuery(Some(text), None) ==
              if AllDigits(text) && 1 <= DigitsValue(text) <= 1000 then Page(Query(Some(DigitsValue(text)), None)) else BadLimit
  {
  }

  // Slices

  /** Keys ascending and unique. */
  ghost predicate Sorted(list: seq<Text>)
  {
    forall i, j | 0 <= i < j < |list| :: KeyLess(list[i], list[j])
  }

  /** std::upper_bound: how many entries are not after the key. */
  function UpperBound(list: seq<Text>, key: Text): (n: nat)
    ensures n <= |list|
  {
    if list == [] || KeyLess(key, list[0]) then 0 else 1 + UpperBound(list[1..], key)
  }

  /** Where a page starts. */
  function Begin(list: seq<Text>, after: Option<Text>): (n: nat)
    ensures n <= |list|
  {
    if after.Some? then UpperBound(list, after.value) else 0
  }

  datatype Range = Range(begin: nat, end: nat, next: Option<Text>)

  function PageRange(list: seq<Text>, query: Query): (r: Range)
    requires query.limit.Some? ==> query.limit.value >= 1
    ensures r.begin <= r.end <= |list|
  {
    var begin := Begin(list, query.after);
    if query.limit.Some? && |list| - begin > query.limit.value then
      Range(begin, begin + query.limit.value, Some(PageCursor(list[begin + query.limit.value - 1])))
    else Range(begin, |list|, None)
  }

  lemma {:induction false} UpperBoundExact(list: seq<Text>, key: Text, i: nat)
    requires Sorted(list) && i < |list|
    ensures KeyLess(key, list[i]) <==> i >= UpperBound(list, key)
  {
    if KeyLess(key, list[0]) {
      if i > 0 {
        KeyLessTransitive(key, list[0], list[i]);
      }
    } else if i > 0 {
      assert list[1..][i - 1] == list[i];
      assert Sorted(list[1..]) by {
        assert forall k | 0 <= k < |list| - 1 :: list[1..][k] == list[k + 1];
      }
      UpperBoundExact(list[1..], key, i - 1);
    }
  }
}
