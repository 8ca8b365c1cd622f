/**
 What the counts mean: members once each under an acyclic parent relation, and codes that add up
 in any catalogue.
 */
module AvailabilityLaws {
  import opened Arithmetic
  import opened Options
  import opened Availability

  // Files and sets

  /** A file's code: all extents reachable, some, none, or not decided; no extents is complete. */
  lemma FileCode(facts: Option<Facts>)
    requires facts.Some? ==> facts.value.unavailable + facts.value.unknown <= facts.value.extents
    ensures AvailabilityOf(facts) == Complete <==> facts.Some? && facts.value.unavailable == facts.value.unknown == 0
    ensures AvailabilityOf(facts) == Unavailable <==> facts.Some? && facts.value.unavailable == facts.value.extents > 0
    ensures AvailabilityOf(facts) == Partial <==> facts.Some? && 0 < facts.value.unavailable < facts.value.extents
    ensures AvailabilityOf(facts) == Unknown <==> facts.None? || (facts.value.unavailable == 0 && facts.value.unknown > 0)
  {
  }

  /** The best a viewer can get: complete, partial, unknown, unavailable, in that order. */
  predicate Better(a: Code, b: Code)
  {
    match b
    case Complete => false
    case Partial => a == Complete
    case Unknown => a == Complete || a == Partial
    case Unavailable => a != Unavailable
  }

  lemma RankIsBetter(a: Code, b: Code)
    ensures Rank(a) > Rank(b) <==> Better(a, b)
  {
  }

  /** An item takes a code some file of it has, and no file has a better one. */
  lemma {:induction false} BestIsBest(survey: Option<Survey>, media: seq<string>)
    requires media != []
    ensures exists i | 0 <= i < |media| :: AvailabilityOf(FactsOfMedia(survey, media[i])) == Best(survey, media)
    ensures forall i | 0 <= i < |media| :: !Better(AvailabilityOf(FactsOfMedia(survey, media[i])), Best(survey, media))
  {
    forall a, b ensures Rank(a) > Rank(b) <==> Better(a, b) { RankIsBetter(a, b); }
    var n := |media| - 1;
    var rest, last := media[..n], AvailabilityOf(FactsOfMedia(survey, media[n]));
    if rest != [] {
      BestIsBest(survey, rest);
      var i :| 0 <= i < |rest| && AvailabilityOf(FactsOfMedia(survey, rest[i])) == Best(survey, rest);
      assert rest[i] == media[i];
    }
    assert AvailabilityOf(FactsOfMedia(survey, media[n])) == last;
  }

  /** A set's code: all complete, all unavailable, some unknown and none short, otherwise partial; unknown when empty. */
  lemma SetCode(e: Entry)
    requires e.members == e.complete + e.partial + e.unavailable + e.unknown
    ensures OfSet(e) == Complete <==> e.members > 0 && e.partial == e.unavailable == e.unknown == 0
    ensures OfSet(e) == Unavailable <==> e.members > 0 && e.complete == e.partial == e.unknown == 0
    ensures OfSet(e) == Unknown <==> e.members == 0 || (e.unknown > 0 && e.partial == e.unavailable == 0)
    ensures OfSet(e) == Partial <==> e.partial > 0 || (e.unavailable > 0 && e.complete + e.unknown > 0)
  {
  }

  /** Every member has one code, in any catalogue, cyclic ones included. */
  lemma {:induction false} CodesAddUp(c: Catalogue, survey: Option<Survey>, ids: seq<string>, x: string)
    requires forall i | 0 <= i < |ids| :: ids[i] in c.items
    ensures Members(c, ids, x) ==
            Tally(c, survey, ids, x, Complete) + Tally(c, survey, ids, x, Partial) +
            Tally(c, survey, ids, x, Unavailable) + Tally(c, survey, ids, x, Unknown)
  {
    if ids != [] {
      CodesAddUp(c, survey, ids[..|ids| - 1], x);
    }
  }

  lemma TableAddsUp(c: Catalogue, survey: Option<Survey>, x: string)
    requires WellFormed(c) && x in c.items
    ensures var e := TableOf(c, survey)[x];
            && e.members == e.complete + e.partial + e.unavailable + e.unknown
            && (e.members > 0 ==> e.status == OfSet(e))
            && (e.members == 0 ==> e.status == if HasFiles(c, x) then Own(c, survey, x) else Unknown)
  {
    TableHas(c, survey, x);
    CodesAddUp(c, survey, c.ids, x);
    hide TableOf, Members, Tally, Own, HasFiles;
  }

  lemma TableHas(c: Catalogue, survey: Option<Survey>, x: string)
    requires WellFormed(c) && x in c.items
    ensures TableOf(c, survey)[x] == EntryOf(c, survey, x)
  {
    hide EntryOf;
  }

  // Ancestors

  /** The item n steps up the parent chain, if there is one. */
  function Up(c: Catalogue, id: string, n: nat): (up: Option<string>)
    requires id in c.items
    ensures up.Some? ==> up.value in c.items
    decreases n
  {
    if n == 0 then Some(id)
    else if Above(c, id).None? then None
    else Up(c, Above(c, id).value, n - 1)
  }

  ghost predicate Ancestor(c: Catalogue, id: string, x: string)
    requires id in c.items
  {
    exists n: nat :: n >= 1 && Up(c, id, n) == Some(x)
  }

  ghost predicate Acyclic(c: Catalogue) { forall id | id in c.items :: !Ancestor(c, id, id) }

  lemma {:induction false} UpUp(c: Catalogue, id: string, m: nat, n: nat)
    requires id in c.items && Up(c, id, m).Some?
    ensures Up(c, id, m + n) == Up(c, Up(c, id, m).value, n)
    decreases m
  {
    if m > 0 {
      UpUp(c, Above(c, id).value, m - 1, n);
    }
  }

  lemma {:induction false} ChainIsUp(c: Catalogue, id: string, depth: nat, k: nat)
    requires id in c.items && k < |Chain(c, id, depth)|
    ensures Up(c, id, k + 1) == Some(Chain(c, id, depth)[k])
    decreases depth
  {
    if k > 0 {
      ChainIsUp(c, Above(c, id).value, depth - 1, k - 1);
    }
  }

  /** The chain is cut short only by its bound. */
  lemma {:induction false} ChainEnds(c: Catalogue, id: string, depth: nat)
    requires id in c.items
    ensures |Chain(c, id, depth)| <= depth
    ensures |Chain(c, id, depth)| < depth ==> Up(c, id, |Chain(c, id, depth)| + 1).None?
    decreases depth
  {
    if depth > 0 && Above(c, id).Some? {
      ChainEnds(c, Above(c, id).value, depth - 1);
    }
  }

  lemma StepsDiffer(c: Catalogue, id: string, m: nat, n: nat)
    requires Acyclic(c) && id in c.items && m < n && Up(c, id, m).Some? && Up(c, id, n).Some?
    ensures Up(c, id, m) != Up(c, id, n)
  {
    var x := Up(c, id, m).value;
    UpUp(c, id, m, n - m);
    assert !Ancestor(c, x, x);
    assert Up(c, x, n - m) != Some(x);
  }

  /** The item and its chain have no repeats. */
  lemma ChainDistinct(c: Catalogue, id: string, depth: nat)
    requires Acyclic(c) && id in c.items
    ensures Distinct([id] + Chain(c, id, depth))
  {
    var path := [id] + Chain(c, id, depth);
    forall i, j | 0 <= i < j < |path|
      ensures path[i] != path[j]
    {
      ChainIsUp(c, id, depth, j - 1);
      if i > 0 {
        ChainIsUp(c, id, depth, i - 1);
      }
      StepsDiffer(c, id, i, j);
    }
  }

  function Elements(xs: seq<string>): set<string> { set x | x in xs }

  lemma {:induction false} DistinctElements(xs: seq<string>)
    requires Distinct(xs)
    ensures |Elements(xs)| == |xs|
  {
    if xs != [] {
      var n := |xs| - 1;
      DistinctElements(xs[..n]);
      assert xs == xs[..n] + [xs[n]];
      assert Elements(xs) == Elements(xs[..n]) + {xs[n]};
    }
  }

  /** Without cycles the depth bound never cuts a chain: there are not that many items. */
  lemma ChainNeverCut(c: Catalogue, id: string)
    requires WellFormed(c) && Acyclic(c) && id in c.items
    ensures |Chain(c, id, |c.ids|)| < |c.ids|
    ensures Up(c, id, |Chain(c, id, |c.ids|)| + 1).None?
  {
    var path := [id] + Chain(c, id, |c.ids|);
    ChainDistinct(c, id, |c.ids|);
    DistinctElements(path);
    DistinctElements(c.ids);
    assert Elements(path) <= Elements(c.ids) by {
      forall x | x in Elements(path)
        ensures x in Elements(c.ids)
      {
        assert x in c.items && x in c.ids;
      }
    }
    SubsetCount(Elements(path), Elements(c.ids));
    ChainEnds(c, id, |c.ids|);
  }

  lemma {:induction false} UpStops(c: Catalogue, id: string, m: nat, n: nat)
    requires id in c.items && m <= n && Up(c, id, m).None?
    ensures Up(c, id, n).None?
    decreases n
  {
    if m > 0 && Above(c, id).Some? {
      UpStops(c, Above(c, id).value, m - 1, n - 1);
    }
  }

  lemma {:induction false} TimesDistinct(xs: seq<string>, x: string)
    requires Distinct(xs)
    ensures Times(xs, x) == if x in xs then 1 else 0
  {
    if xs != [] {
      var n := |xs| - 1;
      assert xs == xs[..n] + [xs[n]];
      TimesDistinct(xs[..n], x);
      assert x in xs[..n] ==> x != xs[n];
      assert multiset(xs)[x] == multiset(xs[..n])[x] + multiset([xs[n]])[x];
    }
  }

  lemma Repeats(c: Catalogue, id: string, i: nat, j: nat, k: nat)
    requires id in c.items && Up(c, id, i).Some? && Up(c, id, i) == Up(c, id, j)
    ensures Up(c, id, i + k) == Up(c, id, j + k)
  {
    UpUp(c, id, i, k);
    UpUp(c, id, j, k);
  }

  /** The chain ends within the depth bound. */
  ghost predicate Ends(c: Catalogue, id: string)
    requires id in c.items
  {
    Up(c, id, |c.ids|).None?
  }

  /** The chain comes back to the item, and only after every other item of the catalogue. */
  ghost predicate OnceRound(c: Catalogue, id: string)
    requires id in c.items
  {
    Up(c, id, |c.ids|) == Some(id) && forall k: nat | 0 < k < |c.ids| :: Up(c, id, k) != Some(id)
  }

  ghost predicate CountsOnce(c: Catalogue, id: string)
    requires id in c.items
  {
    Ends(c, id) || OnceRound(c, id)
  }

  lemma ChainLength(c: Catalogue, id: string)
    requires id in c.items
    ensures |Chain(c, id, |c.ids|)| == |c.ids| || Ends(c, id)
    ensures Ends(c, id) ==> Up(c, id, |Chain(c, id, |c.ids|)| + 1).None?
  {
    var n := |Chain(c, id, |c.ids|)|;
    ChainEnds(c, id, |c.ids|);
    if n < |c.ids| {
      UpStops(c, id, n + 1, |c.ids|);
    } else if Ends(c, id) {
      UpStops(c, id, n, n + 1);
    }
  }

  lemma EndsDiffer(c: Catalogue, id: string, i: nat, j: nat, n: nat)
    requires id in c.items && i < j <= n && Up(c, id, i).Some? && Up(c, id, n).Some? && Up(c, id, n + 1).None?
    ensures Up(c, id, i) != Up(c, id, j)
  {
    if Up(c, id, i) == Up(c, id, j) {
      Repeats(c, id, i, j, n + 1 - j);
      UpStops(c, id, i + (n + 1 - j), n);
    }
  }

  lemma OnceRoundDiffer(c: Catalogue, id: string, i: nat, j: nat)
    requires id in c.items && OnceRound(c, id) && 0 < i < j <= |c.ids| && Up(c, id, i).Some?
    ensures Up(c, id, i) != Up(c, id, j)
  {
    if Up(c, id, i) == Up(c, id, j) {
      Repeats(c, id, i, j, |c.ids| - j);
    }
  }

  /** A chain that ends, or goes once round, meets no item twice. */
  lemma OnceDistinct(c: Catalogue, id: string)
    requires id in c.items && CountsOnce(c, id)
    ensures Distinct(Chain(c, id, |c.ids|))
  {
    forall i, j | 0 <= i < j < |Chain(c, id, |c.ids|)|
      ensures Chain(c, id, |c.ids|)[i] != Chain(c, id, |c.ids|)[j]
    {
      OnceDiffer(c, id, i, j);
    }
  }

  lemma OnceDiffer(c: Catalogue, id: string, i: nat, j: nat)
    requires id in c.items && CountsOnce(c, id) && i < j < |Chain(c, id, |c.ids|)|
    ensures Chain(c, id, |c.ids|)[i] != Chain(c, id, |c.ids|)[j]
  {
    hide Chain, Up, Ends, OnceRound;
    var n := |Chain(c, id, |c.ids|)|;
    ChainLength(c, id);
    ChainEnds(c, id, |c.ids|);
    ChainIsUp(c, id, |c.ids|, i);
    ChainIsUp(c, id, |c.ids|, j);
    ChainIsUp(c, id, |c.ids|, n - 1);
    if Ends(c, id) {
      EndsDiffer(c, id, i + 1, j + 1, n);
    } else {
      OnceRoundDiffer(c, id, i + 1, j + 1);
    }
  }

  lemma DistinctFits(c: Catalogue, xs: seq<string>)
    requires WellFormed(c) && Distinct(xs) && forall i | 0 <= i < |xs| :: xs[i] in c.items
    ensures |xs| <= |c.ids|
    ensures |xs| == |c.ids| ==> forall x | x in c.items :: x in xs
  {
    DistinctElements(xs);
    DistinctElements(c.ids);
    assert Elements(xs) <= Elements(c.ids);
    SubsetCount(Elements(xs), Elements(c.ids));
    if |xs| == |c.ids| {
      forall x | x in c.items
        ensures x in xs
      {
        if x !in xs {
          SubsetCount(Elements(xs), Elements(c.ids) - {x});
        }
      }
    }
  }

  /** And one that meets no item twice ends or goes once round. */
  lemma DistinctOnce(c: Catalogue, id: string)
    requires WellFormed(c) && id in c.items && Distinct(Chain(c, id, |c.ids|))
    ensures CountsOnce(c, id)
  {
    hide Chain, Up, Ends, Distinct, WellFormed;
    ChainLength(c, id);
    if !Ends(c, id) {
      var k := ComesBack(c, id);
      forall j: nat | 0 < j < |c.ids|
        ensures Up(c, id, j) != Some(id)
      {
        NoEarlyReturn(c, id, j);
      }
    }
  }

  lemma ComesBack(c: Catalogue, id: string) returns (k: nat)
    requires WellFormed(c) && id in c.items && Distinct(Chain(c, id, |c.ids|)) && |Chain(c, id, |c.ids|)| == |c.ids|
    ensures 0 < k <= |c.ids| && Up(c, id, k) == Some(id)
  {
    hide Chain, Up, Distinct, WellFormed;
    DistinctFits(c, Chain(c, id, |c.ids|));
    var i :| 0 <= i < |c.ids| && Chain(c, id, |c.ids|)[i] == id;
    ChainIsUp(c, id, |c.ids|, i);
    k := i + 1;
  }

  lemma NoEarlyReturn(c: Catalogue, id: string, k: nat)
    requires id in c.items && Distinct(Chain(c, id, |c.ids|)) && 0 < k < |Chain(c, id, |c.ids|)|
    ensures Up(c, id, k) != Some(id)
  {
    ItselfFirst(c, id);
    hide Chain, Up;
    ChainIsUp(c, id, |c.ids|, 0);
    ChainIsUp(c, id, |c.ids|, k);
    if Up(c, id, k) == Some(id) {
      Repeats(c, id, 0, k, 1);
    }
  }

  lemma ItselfFirst(c: Catalogue, id: string)
    requires id in c.items
    ensures Up(c, id, 0) == Some(id)
  {
  }

  lemma NotDistinct(xs: seq<string>) returns (i: nat, j: nat)
    requires !Distinct(xs)
    ensures i < j < |xs| && xs[i] == xs[j]
  {
    i, j :| 0 <= i < j < |xs| && xs[i] == xs[j];
  }

  /** Every ancestor is met within the depth bound, cycles or not. */
  lemma {:induction false} AncestorMet(c: Catalogue, id: string, n: nat)
    requires WellFormed(c) && id in c.items && n >= 1 && Up(c, id, n).Some?
    ensures Up(c, id, n).value in Chain(c, id, |c.ids|)
    decreases n
  {
    if n <= |c.ids| {
      ReachesStep(c, id, |c.ids|, n);
      ChainIsUp(c, id, |c.ids|, n - 1);
    } else {
      var chain := Chain(c, id, n);
      ReachesStep(c, id, n, n);
      ChainEnds(c, id, n);
      if Distinct(chain) {
        DistinctFits(c, chain);
      }
      var i, j := NotDistinct(chain);
      ChainIsUp(c, id, n, i);
      ChainIsUp(c, id, n, j);
      Repeats(c, id, i + 1, j + 1, n - j - 1);
      AncestorMet(c, id, n - (j - i));
    }
  }

  lemma ReachesStep(c: Catalogue, id: string, depth: nat, n: nat)
    requires id in c.items && n <= depth && Up(c, id, n).Some?
    ensures |Chain(c, id, depth)| >= n
  {
    ChainEnds(c, id, depth);
    if |Chain(c, id, depth)| < n {
      UpStops(c, id, |Chain(c, id, depth)| + 1, n);
    }
  }

  /** The chain holds the ancestors, all of them and nothing else. */
  lemma ChainIsAncestors(c: Catalogue, id: string, x: string)
    requires WellFormed(c) && id in c.items
    ensures x in Chain(c, id, |c.ids|) <==> Ancestor(c, id, x)
  {
    var chain := Chain(c, id, |c.ids|);
    if x in chain {
      var k :| 0 <= k < |chain| && chain[k] == x;
      ChainIsUp(c, id, |c.ids|, k);
    }
    if Ancestor(c, id, x) {
      var n: nat :| n >= 1 && Up(c, id, n) == Some(x);
      AncestorMet(c, id, n);
    }
  }

  function Once(b: bool): nat { if b then 1 else 0 }

  lemma TimesIn(xs: seq<string>, x: string)
    ensures Times(xs, x) >= Once(x in xs)
  {
  }

  /** An item counts at least once in each of its ancestors and in nothing else along the chain. */
  lemma AncestorsAtLeastOnce(c: Catalogue, id: string, x: string)
    requires WellFormed(c) && id in c.items
    ensures Times(Chain(c, id, |c.ids|), x) >= Once(Ancestor(c, id, x))
  {
    ChainIsAncestors(c, id, x);
    TimesIn(Chain(c, id, |c.ids|), x);
  }

  /** It counts just once in each, whatever cycles there are elsewhere, when its own chain ends or goes once round. */
  lemma AncestorsOnce(c: Catalogue, id: string, x: string)
    requires WellFormed(c) && id in c.items && CountsOnce(c, id)
    ensures Times(Chain(c, id, |c.ids|), x) == Once(Ancestor(c, id, x))
  {
    hide Chain, Ancestor, CountsOnce, Times, Up;
    OnceDistinct(c, id);
    TimesDistinct(Chain(c, id, |c.ids|), x);
    ChainIsAncestors(c, id, x);
  }

  lemma MetTwice(xs: seq<string>, i: nat, j: nat)
    requires i < j < |xs| && xs[i] == xs[j]
    ensures Times(xs, xs[i]) >= 2
  {
    assert xs == xs[..j] + [xs[j]] + xs[j + 1..];
    assert multiset(xs) == multiset(xs[..j]) + multiset([xs[j]]) + multiset(xs[j + 1..]);
    assert xs[..j][i] in multiset(xs[..j]);
  }

  /** And exactly then. */
  lemma AncestorsOnceExactly(c: Catalogue, id: string)
    requires WellFormed(c) && id in c.items
    ensures (forall x :: Times(Chain(c, id, |c.ids|), x) == Once(Ancestor(c, id, x))) <==> CountsOnce(c, id)
  {
    hide Chain, Ancestor, CountsOnce, Times, Up;
    if CountsOnce(c, id) {
      forall x
        ensures Times(Chain(c, id, |c.ids|), x) == Once(Ancestor(c, id, x))
      {
        AncestorsOnce(c, id, x);
      }
    } else {
      var x := CountedTwice(c, id);
    }
  }

  lemma CountedTwice(c: Catalogue, id: string) returns (x: string)
    requires WellFormed(c) && id in c.items && !CountsOnce(c, id)
    ensures x in c.items && Times(Chain(c, id, |c.ids|), x) >= 2
  {
    var chain := Chain(c, id, |c.ids|);
    if Distinct(chain) {
      DistinctOnce(c, id);
    }
    hide CountsOnce;
    var i, j := NotDistinct(chain);
    MetTwice(chain, i, j);
    x := chain[i];
  }

  /** An item that is its own parent, beside another item, counts in itself twice. */
  lemma OwnParentTwice(a: string, b: string) returns (c: Catalogue)
    requires a != b
    ensures WellFormed(c) && a in c.items && !CountsOnce(c, a) && Times(Chain(c, a, |c.ids|), a) == 2
  {
    var item := Item(["media"], Some(a), [], []);
    c := Catalogue([a, b], map[a := item, b := Item([], None, [], [])]);
    assert c.ids[0] == a && c.ids[1] == b;
    assert Above(c, a) == Some(a);
    assert Chain(c, a, 0) == [] && Chain(c, a, 1) == [a] + [] && Chain(c, a, 2) == [a] + [a];
    assert Up(c, a, 1) == Some(a) && Up(c, a, 2) == Some(a);
  }

  /** Without cycles every chain ends. */
  lemma AcyclicEnds(c: Catalogue, id: string)
    requires WellFormed(c) && Acyclic(c) && id in c.items
    ensures Ends(c, id)
  {
    ChainNeverCut(c, id);
    UpStops(c, id, |Chain(c, id, |c.ids|)| + 1, |c.ids|);
  }

  /** How often an item is a member of a set: as a descendant, as an author's work, as part of a series. */
  ghost function Share(c: Catalogue, id: string, x: string): nat
    requires id in c.items
  {
    Once(Ancestor(c, id, x)) + Times(c.items[id].authors, x) + Times(c.items[id].series, x)
  }

  ghost function Shares(c: Catalogue, ids: seq<string>, x: string): nat
    requires forall i | 0 <= i < |ids| :: ids[i] in c.items
  {
    if ids == [] then 0
    else
      var last := ids[|ids| - 1];
      Shares(c, ids[..|ids| - 1], x) + if HasFiles(c, last) then Share(c, last, x) else 0
  }

  /** The part of the shares from items with a code. */
  ghost function CodeShares(c: Catalogue, survey: Option<Survey>, ids: seq<string>, x: string, code: Code): nat
    requires forall i | 0 <= i < |ids| :: ids[i] in c.items
  {
    if ids == [] then 0
    else
      var last := ids[|ids| - 1];
      CodeShares(c, survey, ids[..|ids| - 1], x, code) +
      if HasFiles(c, last) && Own(c, survey, last) == code then Share(c, last, x) else 0
  }

  lemma {:induction false} KnownTimes(c: Catalogue, ids: seq<string>, x: string)
    requires x in c.items
    ensures Times(Known(c, ids), x) == Times(ids, x)
  {
    if ids != [] {
      var n := |ids| - 1;
      KnownTimes(c, ids[..n], x);
      assert ids == ids[..n] + [ids[n]];
    }
  }

  lemma SetsTimes(c: Catalogue, id: string, x: string)
    requires WellFormed(c) && x in c.items && id in c.items
    ensures Times(Sets(c, id), x) ==
            Times(Chain(c, id, |c.ids|), x) + Times(c.items[id].authors, x) + Times(c.items[id].series, x)
    ensures Times(Sets(c, id), x) >= Share(c, id, x)
    ensures CountsOnce(c, id) ==> Times(Sets(c, id), x) == Share(c, id, x)
  {
    KnownTimes(c, c.items[id].authors, x);
    KnownTimes(c, c.items[id].series, x);
    AncestorsAtLeastOnce(c, id, x);
    hide Chain, Known, Ancestor, CountsOnce;
    if CountsOnce(c, id) {
      AncestorsOnce(c, id, x);
    }
  }

  /** Every item with files counts once in each of its ancestors. */
  ghost predicate AllCountOnce(c: Catalogue, ids: seq<string>)
    requires forall i | 0 <= i < |ids| :: ids[i] in c.items
  {
    forall i | 0 <= i < |ids| :: HasFiles(c, ids[i]) ==> CountsOnce(c, ids[i])
  }

  /** Then a set has a member for each descendant with files and each mention by one, no more and no fewer. */
  lemma {:induction false} MembersExact(c: Catalogue, ids: seq<string>, x: string)
    requires WellFormed(c) && x in c.items && forall i | 0 <= i < |ids| :: ids[i] in c.items
    ensures Members(c, ids, x) >= Shares(c, ids, x)
    ensures AllCountOnce(c, ids) ==> Members(c, ids, x) == Shares(c, ids, x)
    decreases |ids|
  {
    hide CountsOnce, WellFormed, Ancestor, Sets, Times, Share;
    if ids != [] {
      MembersExact(c, ids[..|ids| - 1], x);
      SetsTimes(c, ids[|ids| - 1], x);
    }
  }

  /** And each code counts just the descendants and mentions that have it. */
  lemma {:induction false} TallyExact(c: Catalogue, survey: Option<Survey>, ids: seq<string>, x: string, code: Code)
    requires WellFormed(c) && x in c.items && forall i | 0 <= i < |ids| :: ids[i] in c.items
    ensures AllCountOnce(c, ids) ==> Tally(c, survey, ids, x, code) == CodeShares(c, survey, ids, x, code)
    decreases |ids|
  {
    hide CountsOnce, WellFormed, Ancestor, Sets, Times, Share, Own;
    if ids != [] {
      TallyExact(c, survey, ids[..|ids| - 1], x, code);
      SetsTimes(c, ids[|ids| - 1], x);
    }
  }

  /** An item that counts twice somewhere makes some set's members too many. */
  lemma {:induction false} MembersTooMany(c: Catalogue, ids: seq<string>, i: nat, x: string)
    requires WellFormed(c) && x in c.items && forall k | 0 <= k < |ids| :: ids[k] in c.items
    requires i < |ids| && HasFiles(c, ids[i]) && Times(Chain(c, ids[i], |c.ids|), x) >= 2
    ensures Members(c, ids, x) > Shares(c, ids, x)
    decreases |ids|
  {
    hide CountsOnce, WellFormed, Ancestor, Sets, Times, Chain;
    var n := |ids| - 1;
    SetsTimes(c, ids[n], x);
    if i < n {
      MembersTooMany(c, ids[..n], i, x);
    } else {
      MembersExact(c, ids[..n], x);
    }
  }

  /** All sets have just their members exactly when the chain of every item with files ends or goes once round. */
  lemma MembersExactly(c: Catalogue)
    requires WellFormed(c)
    ensures (forall x | x in c.items :: Members(c, c.ids, x) == Shares(c, c.ids, x)) <==> AllCountOnce(c, c.ids)
  {
    hide CountsOnce, Members, Shares, Chain, Times;
    if AllCountOnce(c, c.ids) {
      forall x | x in c.items
        ensures Members(c, c.ids, x) == Shares(c, c.ids, x)
      {
        MembersExact(c, c.ids, x);
      }
    } else {
      var i :| 0 <= i < |c.ids| && HasFiles(c, c.ids[i]) && !CountsOnce(c, c.ids[i]);
      var x := CountedTwice(c, c.ids[i]);
      MembersTooMany(c, c.ids, i, x);
    }
  }
}
