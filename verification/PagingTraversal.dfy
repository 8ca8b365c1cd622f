/**
 Following cursors to the end, over a list that may differ at every call.
 */
module PagingTraversal {
  import opened Options
  import opened JsonGrammar
  import opened JsonPrinting
  import opened JsonRoundTrip
  import opened JsonValues
  import opened Paging

  /** What the next call reads from a cursor the server issued: an empty one is no cursor. */
  function Reread(cursor: Text): Option<Text> { if cursor == [] then None else PageCursorKey(cursor) }

  /** The pages read, and whether the last of them said there are no more. */
  datatype Traversal = Traversal(pages: seq<seq<Text>>, finished: bool)

  function PageOf(list: seq<Text>, limit: Option<nat>, after: Option<Text>): seq<Text>
    requires limit.Some? ==> limit.value >= 1
  {
    var range := PageRange(list, Query(limit, after));
    list[range.begin..range.end]
  }

  /** One call per list, each with the cursor of the one before, until a page without a cursor. */
  function Follow(lists: seq<seq<Text>>, limit: Option<nat>, after: Option<Text>): (t: Traversal)
    requires limit.Some? ==> limit.value >= 1
    ensures |t.pages| <= |lists|
  {
    if lists == [] then Traversal([], false)
    else
      var page := PageOf(lists[0], limit, after);
      var next := PageRange(lists[0], Query(limit, after)).next;
      if next.None? then Traversal([page], true)
      else
        var rest := Follow(lists[1..], limit, Reread(next.value));
        Traversal([page] + rest.pages, rest.finished)
  }

  function Keys(pages: seq<seq<Text>>): seq<Text>
  {
    if pages == [] then [] else pages[0] + Keys(pages[1..])
  }

  ghost predicate AllSorted(lists: seq<seq<Text>>) { forall i | 0 <= i < |lists| :: Sorted(lists[i]) }

  predicate Follows(after: Option<Text>, key: Text) { after.None? || KeyLess(after.value, key) }

  /** The page ends at the empty key with more to come, so that its cursor is empty. */
  predicate EmptyCursor(list: seq<Text>, limit: Option<nat>, after: Option<Text>)
  {
    limit == Some(1) && after.None? && |list| > 1 && list[0] == []
  }

  lemma RereadKey(key: Text)
    ensures Reread(PageCursor(key)) == if key == [] then None else Some(key)
  {
    CursorRoundTrip(PageCursor(key), key);
  }

  lemma PageShape(list: seq<Text>, limit: Option<nat>, after: Option<Text>) returns (begin: nat, end: nat)
    requires limit.Some? ==> limit.value >= 1
    ensures begin == Begin(list, after) <= end <= |list| && PageOf(list, limit, after) == list[begin..end]
    ensures var next := PageRange(list, Query(limit, after)).next;
            if limit.None? || |list| - begin <= limit.value then next.None? && end == |list|
            else next == Some(PageCursor(list[end - 1])) && end == begin + limit.value
  {
    hide Begin, PageCursor;
    var range := PageRange(list, Query(limit, after));
    begin, end := range.begin, range.end;
  }

  /** A call with the cursor it was given asks for what comes after that page. */
  lemma QueryRoundTrip(limit: nat, key: Text)
    requires 1 <= limit <= PAGE_LIMIT_MAX
    ensures ReadPageQuery(Some(Decimal(limit)), Some(PageCursor(key))) == Page(Query(Some(limit), Reread(PageCursor(key))))
    ensures Reread(PageCursor(key)) == if key == [] then None else Some(key)
  {
    DecimalDigits(limit);
    RereadKey(key);
    CursorRoundTrip(PageCursor(key), key);
  }

  /** A page holds, in order, the keys after the cursor up to its last; a cursor names that last key. */
  lemma PageExact(list: seq<Text>, limit: Option<nat>, after: Option<Text>)
    requires Sorted(list) && (limit.Some? ==> limit.value >= 1)
    ensures var page, next := PageOf(list, limit, after), PageRange(list, Query(limit, after)).next;
            && Sorted(page)
            && (forall key | key in page :: key in list && Follows(after, key))
            && (next.Some? ==> page != [] && limit.Some? && |page| == limit.value && next.value == PageCursor(page[|page| - 1]))
            && (forall key | key in list && Follows(after, key) && key !in page ::
                  next.Some? && KeyLess(page[|page| - 1], key))
  {
    hide PageRange, PageOf, PageCursor, Begin, Follows;
    var begin, end := PageShape(list, limit, after);
    SliceSorted(list, begin, end);
    SliceFollows(list, after, begin, end);
    SliceRest(list, after, begin, end);
  }

  lemma SliceSorted(list: seq<Text>, begin: nat, end: nat)
    requires Sorted(list) && begin <= end <= |list|
    ensures Sorted(list[begin..end])
  {
    hide KeyLess;
  }

  lemma FollowsFrom(list: seq<Text>, after: Option<Text>, i: nat)
    requires Sorted(list) && i < |list|
    ensures Follows(after, list[i]) <==> i >= Begin(list, after)
  {
    if after.Some? {
      UpperBoundExact(list, after.value, i);
    }
  }

  lemma SliceFollows(list: seq<Text>, after: Option<Text>, begin: nat, end: nat)
    requires Sorted(list) && begin == Begin(list, after) <= end <= |list|
    ensures forall key | key in list[begin..end] :: key in list && Follows(after, key)
  {
    hide Begin, Follows, Sorted;
    forall key | key in list[begin..end]
      ensures key in list && Follows(after, key)
    {
      var i :| 0 <= i < end - begin && list[begin..end][i] == key;
      FollowsFrom(list, after, begin + i);
    }
  }

  lemma SliceRest(list: seq<Text>, after: Option<Text>, begin: nat, end: nat)
    requires Sorted(list) && begin == Begin(list, after) <= end <= |list|
    ensures forall key | key in list && Follows(after, key) && key !in list[begin..end] ::
              end < |list| && (end > 0 ==> KeyLess(list[end - 1], key))
  {
    hide Begin, Follows, KeyLess;
    assert forall i | begin <= i < end :: list[i] == list[begin..end][i - begin];
    forall key | key in list && Follows(after, key) && key !in list[begin..end]
      ensures end < |list| && (end > 0 ==> KeyLess(list[end - 1], key))
    {
      var i :| 0 <= i < |list| && list[i] == key;
      FollowsFrom(list, after, i);
      assert i >= end;
    }
  }

  /** Where the next call starts from: the last key of the page. */
  lemma NextStart(list: seq<Text>, limit: Option<nat>, after: Option<Text>)
    requires Sorted(list) && (limit.Some? ==> limit.value >= 1) && !EmptyCursor(list, limit, after)
    requires PageRange(list, Query(limit, after)).next.Some?
    ensures var page := PageOf(list, limit, after);
            page != [] && Reread(PageRange(list, Query(limit, after)).next.value) == Some(page[|page| - 1])
  {
    PageExact(list, limit, after);
    var page := PageOf(list, limit, after);
    var last := page[|page| - 1];
    RereadKey(last);
    if limit.value >= 2 {
      assert KeyLess(page[|page| - 2], last);
    } else if after.Some? {
      assert last in page && Follows(after, last);
    } else {
      assert page == list[0..1];
    }
  }

  lemma {:induction false} SortedConcat(a: seq<Text>, b: seq<Text>)
    requires Sorted(a) && Sorted(b) && a != [] && forall key | key in b :: KeyLess(a[|a| - 1], key)
    ensures Sorted(a + b)
  {
    var s := a + b;
    forall i, j | 0 <= i < j < |s|
      ensures KeyLess(s[i], s[j])
    {
      if i < |a| <= j {
        assert s[j] in b;
        if i < |a| - 1 {
          KeyLessTransitive(a[i], a[|a| - 1], s[j]);
        }
      }
    }
  }

  /**
   The keys read are in strictly ascending order after the start and each was in the list it was
   read from; once finished, every key that was in all of them has been read.
   */
  ghost predicate ReadsRight(lists: seq<seq<Text>>, after: Option<Text>, t: Traversal)
  {
    && |t.pages| <= |lists|
    && Sorted(Keys(t.pages))
    && (forall key | key in Keys(t.pages) :: Follows(after, key))
    && (forall i, key | 0 <= i < |t.pages| && key in t.pages[i] :: key in lists[i])
    && (t.finished ==> forall key | Follows(after, key) && InAll(key, lists[..|t.pages|]) :: key in Keys(t.pages))
  }

  predicate InAll(key: Text, lists: seq<seq<Text>>) { forall i | 0 <= i < |lists| :: key in lists[i] }

  /** Whatever the lists at each call, the traversal reads right unless its first cursor is empty. */
  lemma {:induction false} TraversalExact(lists: seq<seq<Text>>, limit: Option<nat>, after: Option<Text>)
    requires AllSorted(lists) && (limit.Some? ==> limit.value >= 1)
    requires lists != [] ==> !EmptyCursor(lists[0], limit, after)
    ensures ReadsRight(lists, after, Follow(lists, limit, after))
    decreases |lists|
  {
    hide ReadsRight, PageRange, PageOf;
    if lists == [] {
      NothingRead(after);
    } else {
      var list, rest := lists[0], lists[1..];
      assert Sorted(list);
      var page, next := PageOf(list, limit, after), PageRange(list, Query(limit, after)).next;
      if next.Some? {
        assert AllSorted(rest);
        NextStart(list, limit, after);
        TraversalExact(rest, limit, Some(page[|page| - 1]));
        TraversalStep(lists, limit, after, Follow(rest, limit, Some(page[|page| - 1])));
      } else {
        LastPage(lists, limit, after);
      }
    }
  }

  lemma NothingRead(after: Option<Text>)
    ensures ReadsRight([], after, Traversal([], false))
  {
  }

  lemma LastPage(lists: seq<seq<Text>>, limit: Option<nat>, after: Option<Text>)
    requires lists != [] && Sorted(lists[0]) && (limit.Some? ==> limit.value >= 1)
    requires PageRange(lists[0], Query(limit, after)).next.None?
    ensures ReadsRight(lists, after, Traversal([PageOf(lists[0], limit, after)], true))
  {
    PageExact(lists[0], limit, after);
    hide PageOf, PageRange;
    var page := PageOf(lists[0], limit, after);
    assert Keys([page]) == page + [] == page;
    forall key | Follows(after, key) && InAll(key, lists[..1])
      ensures key in page
    {
      assert key in lists[..1][0];
    }
  }

  lemma TraversalStep(lists: seq<seq<Text>>, limit: Option<nat>, after: Option<Text>, rest: Traversal)
    requires lists != [] && Sorted(lists[0]) && (limit.Some? ==> limit.value >= 1)
    requires PageRange(lists[0], Query(limit, after)).next.Some? && PageOf(lists[0], limit, after) != []
    requires var page := PageOf(lists[0], limit, after); ReadsRight(lists[1..], Some(page[|page| - 1]), rest)
    ensures ReadsRight(lists, after, Traversal([PageOf(lists[0], limit, after)] + rest.pages, rest.finished))
  {
    PageExact(lists[0], limit, after);
    hide PageOf, PageRange;
    var page, keys := PageOf(lists[0], limit, after), Keys(rest.pages);
    var last, pages := page[|page| - 1], [page] + rest.pages;
    assert pages[1..] == rest.pages && Keys(pages) == page + keys;
    SortedConcat(page, keys);
    forall key | key in keys
      ensures Follows(after, key)
    {
      assert last in page && Follows(after, last);
      if after.Some? {
        KeyLessTransitive(after.value, last, key);
      }
    }
    forall i, key | 0 <= i < |pages| && key in pages[i]
      ensures key in lists[i]
    {
      if i > 0 {
        assert key in rest.pages[i - 1] && lists[1..][i - 1] == lists[i];
      }
    }
    if rest.finished {
      forall key | Follows(after, key) && InAll(key, lists[..|pages|])
        ensures key in page + keys
      {
        InAllParts(key, lists, |rest.pages|);
      }
    }
  }

  lemma InAllParts(key: Text, lists: seq<seq<Text>>, n: nat)
    requires n < |lists| && InAll(key, lists[..n + 1])
    ensures key in lists[0] && InAll(key, lists[1..][..n])
  {
    assert lists[..n + 1][0] == lists[0];
    forall i | 0 <= i < n
      ensures key in lists[1..][..n][i]
    {
      assert lists[1..][..n][i] == lists[..n + 1][i + 1];
    }
  }

  /** After an empty cursor the next call starts over. */
  lemma StartsOver(lists: seq<seq<Text>>, limit: Option<nat>, after: Option<Text>)
    requires lists != [] && EmptyCursor(lists[0], limit, after)
    ensures PageOf(lists[0], limit, after) == [[]] && PageRange(lists[0], Query(limit, after)).next.Some?
    ensures var rest := Follow(lists[1..], limit, None);
            Follow(lists, limit, after) == Traversal([[[]]] + rest.pages, rest.finished)
  {
    assert PageOf(lists[0], limit, after) == [lists[0][0]];
    RereadKey([]);
  }

  lemma KeyTwice(rest: seq<seq<Text>>)
    requires rest != [] && rest[0] != [] && rest[0][0] == []
    ensures !Sorted(Keys([[[]]] + rest))
  {
    MorePages([[]], rest);
    var keys := Keys([[[]]] + rest);
    assert keys[0] == [] && keys[1] == rest[0][0];
    assert !KeyLess(keys[0], keys[1]);
  }

  lemma FirstOfAll(rest: seq<seq<Text>>, list: seq<Text>)
    requires rest != [] && Sorted(Keys(rest)) && rest[0] == list[..if |list| == 0 then 0 else 1]
    requires if list == [] then |rest| == 1 else list[0] != []
    ensures forall key | key in Keys(rest) :: key != []
  {
    if list == [] {
      OnePage(rest[0]);
    } else {
      var keys := Keys(rest);
      assert keys[0] == list[0];
      forall i | 0 < i < |keys|
        ensures keys[i] != []
      {
        assert KeyLess(keys[0], keys[i]);
      }
    }
  }

  /** Starting over does no harm when the empty key is gone. */
  lemma StartedOver(lists: seq<seq<Text>>, rest: Traversal)
    requires AllSorted(lists) && ReadsRight(lists, None, rest) && rest == Follow(lists, Some(1), None)
    requires lists != [] && lists[0] != [] ==> lists[0][0] != []
    ensures ReadsRight(lists, Some([]), rest)
  {
    if lists != [] {
      var list := lists[0];
      var begin, end := PageShape(list, Some(1), None);
      assert rest.pages[0] == list[..if |list| == 0 then 0 else 1];
      FirstOfAll(rest.pages, list);
      hide Follow, Sorted;
    }
  }

  /** It reads right exactly unless the first two lists, the first with more to come, both start with the empty key. */
  lemma TraversalExactly(lists: seq<seq<Text>>, limit: Option<nat>, after: Option<Text>)
    requires AllSorted(lists) && (limit.Some? ==> limit.value >= 1)
    ensures ReadsRight(lists, after, Follow(lists, limit, after)) <==>
            !(|lists| > 1 && EmptyCursor(lists[0], limit, after) && lists[1] != [] && lists[1][0] == [])
  {
    hide ReadsRight, Follow, PageOf, PageRange;
    if lists != [] && EmptyCursor(lists[0], limit, after) {
      StartsOver(lists, limit, after);
      var rest := Follow(lists[1..], limit, None);
      assert AllSorted(lists[1..]);
      if |lists| > 1 && lists[1] != [] && lists[1][0] == [] {
        FirstPage(lists[1..]);
        KeyTwice(rest.pages);
        NotSortedNotRight(lists, after, Follow(lists, limit, after));
      } else {
        TraversalExact(lists[1..], limit, None);
        StartedOver(lists[1..], rest);
        assert PageOf(lists[0], limit, after)[0] == [];
        TraversalStep(lists, limit, after, rest);
      }
    } else {
      TraversalExact(lists, limit, after);
    }
  }

  lemma FirstPage(lists: seq<seq<Text>>)
    requires lists != [] && lists[0] != []
    ensures var t := Follow(lists, Some(1), None); t.pages != [] && t.pages[0] == [lists[0][0]]
  {
    assert PageOf(lists[0], Some(1), None) == [lists[0][0]];
  }

  lemma NotSortedNotRight(lists: seq<seq<Text>>, after: Option<Text>, t: Traversal)
    requires !Sorted(Keys(t.pages))
    ensures !ReadsRight(lists, after, t)
  {
  }

  // A list that does not change

  function Copies(list: seq<Text>, calls: nat): seq<seq<Text>> { seq(calls, _ => list) }

  /** ceil(n / limit), and one page when there is nothing to read. */
  function PagesFor(n: nat, limit: Option<nat>): nat
    requires limit.Some? ==> limit.value >= 1
  {
    if limit.None? || n <= limit.value then 1 else 1 + PagesFor(n - limit.value, limit)
  }

  /** The least number of pages of that size that hold n entries. */
  lemma {:induction false} PagesForIsCeiling(n: nat, limit: nat)
    requires limit >= 1 && n >= 1
    ensures var pages := PagesFor(n, Some(limit)); (pages - 1) * limit < n <= pages * limit
    decreases n
  {
    if n > limit {
      PagesForIsCeiling(n - limit, limit);
      var pages := PagesFor(n - limit, Some(limit));
      assert pages * limit == (pages - 1) * limit + limit && (pages + 1) * limit == pages * limit + limit;
    }
  }

  /** From a place in the list, the calls that are needed read the rest of it and then finish. */
  lemma {:induction false} SteadyFrom(list: seq<Text>, limit: Option<nat>, begin: nat, after: Option<Text>, calls: nat)
    requires Sorted(list) && (limit.Some? ==> limit.value >= 1) && !EmptyCursor(list, limit, after)
    requires begin == Begin(list, after)
    requires calls >= PagesFor(|list| - begin, limit)
    ensures var t := Follow(Copies(list, calls), limit, after);
            t.finished && Keys(t.pages) == list[begin..] && |t.pages| == PagesFor(|list| - begin, limit)
    decreases |list| - begin
  {
    hide PageRange, PageOf, UpperBound, Sorted, PageCursor, PageCursorKey, Follow, Keys, Reread;
    var lists, page := Copies(list, calls), PageOf(list, limit, after);
    assert lists[0] == list;
    var _, end := PageShape(list, limit, after);
    if PageRange(list, Query(limit, after)).next.None? {
      FollowLast(lists, limit, after);
      OnePage(page);
    } else {
      NextStart(list, limit, after);
      FollowMore(lists, limit, after, list[end - 1]);
      BoundAfter(list, end - 1);
      assert lists[1..] == Copies(list, calls - 1);
      SteadyFrom(list, limit, end, Some(list[end - 1]), calls - 1);
      MorePages(page, Follow(lists[1..], limit, Some(list[end - 1])).pages);
      assert list[begin..] == list[begin..end] + list[end..];
    }
  }

  lemma FollowLast(lists: seq<seq<Text>>, limit: Option<nat>, after: Option<Text>)
    requires lists != [] && (limit.Some? ==> limit.value >= 1) && PageRange(lists[0], Query(limit, after)).next.None?
    ensures Follow(lists, limit, after) == Traversal([PageOf(lists[0], limit, after)], true)
  {
  }

  lemma FollowMore(lists: seq<seq<Text>>, limit: Option<nat>, after: Option<Text>, last: Text)
    requires lists != [] && (limit.Some? ==> limit.value >= 1) && PageRange(lists[0], Query(limit, after)).next.Some?
    requires Reread(PageRange(lists[0], Query(limit, after)).next.value) == Some(last)
    ensures var rest := Follow(lists[1..], limit, Some(last));
            Follow(lists, limit, after) == Traversal([PageOf(lists[0], limit, after)] + rest.pages, rest.finished)
  {
  }

  lemma OnePage(page: seq<Text>)
    ensures Keys([page]) == page
  {
    assert Keys([page]) == page + [];
  }

  lemma MorePages(page: seq<Text>, rest: seq<seq<Text>>)
    ensures Keys([page] + rest) == page + Keys(rest)
  {
    assert ([page] + rest)[1..] == rest;
  }

  lemma BoundAfter(list: seq<Text>, i: nat)
    requires Sorted(list) && i < |list|
    ensures UpperBound(list, list[i]) == i + 1
  {
    KeyLessStrict(list[i], list[i]);
    UpperBoundExact(list, list[i], i);
    if i + 1 < |list| {
      UpperBoundExact(list, list[i], i + 1);
    }
  }

  /** The whole list, in as many pages as it takes. */
  lemma SteadyTraversal(list: seq<Text>, limit: Option<nat>, calls: nat)
    requires Sorted(list) && (limit.Some? ==> limit.value >= 1) && !EmptyCursor(list, limit, None)
    requires calls >= PagesFor(|list|, limit)
    ensures var t := Follow(Copies(list, calls), limit, None);
            t.finished && Keys(t.pages) == list && |t.pages| == PagesFor(|list|, limit)
  {
    SteadyFrom(list, limit, 0, None, calls);
    assert list[0..] == list;
  }

  /** With the empty key first and one entry to a page, every call reads that page and none is the last. */
  lemma {:induction false} EmptyKeyRepeats(list: seq<Text>, calls: nat)
    requires |list| > 1 && list[0] == []
    ensures var t := Follow(Copies(list, calls), Some(1), None);
            !t.finished && |t.pages| == calls && forall i | 0 <= i < calls :: t.pages[i] == [[]]
  {
    if calls > 0 {
      var lists := Copies(list, calls);
      assert lists[0] == list && lists[1..] == Copies(list, calls - 1);
      assert PageOf(list, Some(1), None) == [list[0]];
      RereadKey([]);
      EmptyKeyRepeats(list, calls - 1);
    }
  }

  /** So an unchanging list is read to its end exactly when no page with more to come ends at the empty key. */
  lemma SteadyExactly(list: seq<Text>, limit: Option<nat>, calls: nat)
    requires Sorted(list) && (limit.Some? ==> limit.value >= 1) && calls >= PagesFor(|list|, limit)
    ensures Follow(Copies(list, calls), limit, None).finished <==> !EmptyCursor(list, limit, None)
  {
    if EmptyCursor(list, limit, None) {
      EmptyKeyRepeats(list, calls);
    } else {
      SteadyTraversal(list, limit, calls);
    }
  }
}
