/**
 Building the table as the source does, one pass over the items, and the cache of the last one
 built.
 */
module AvailabilityTable {
  import opened Options
  import opened Availability

  method BestOf(survey: Option<Survey>, media: seq<string>) returns (best: Code)
    ensures best == Best(survey, media)
  {
    best := Unavailable;
    for i := 0 to |media|
      invariant best == Best(survey, media[..i])
    {
      var one := AvailabilityOf(FactsOfMedia(survey, media[i]));
      assert media[..i + 1][..i] == media[..i];
      if Rank(one) > Rank(best) {
        best := one;
      }
    }
    assert media[..|media|] == media;
  }

  /** A table with every member counted in the sets given. */
  ghost predicate CountedIn(before: map<string, Entry>, after: map<string, Entry>, sets: seq<string>, code: Code)
  {
    && after.Keys == before.Keys
    && forall x | x in before :: after[x] == Often(before[x], code, Times(sets, x))
  }

  /** An entry with a member of that code counted n times. */
  function Often(e: Entry, code: Code, n: nat): Entry
  {
    var e := e.(members := e.members + n);
    match code
    case Complete => e.(complete := e.complete + n)
    case Partial => e.(partial := e.partial + n)
    case Unavailable => e.(unavailable := e.unavailable + n)
    case Unknown => e.(unknown := e.unknown + n)
  }

  lemma CountedStep(before: map<string, Entry>, table: map<string, Entry>, sets: seq<string>, x: string, code: Code)
    requires CountedIn(before, table, sets, code) && x in table
    ensures CountedIn(before, table[x := Counted(table[x], code)], sets + [x], code)
  {
  }

  lemma CountedTogether(a: map<string, Entry>, b: map<string, Entry>, c: map<string, Entry>, s: seq<string>, t: seq<string>, code: Code)
    requires CountedIn(a, b, s, code) && CountedIn(b, c, t, code)
    ensures CountedIn(a, c, s + t, code)
  {
  }

  lemma CountedKeys(before: map<string, Entry>, table: map<string, Entry>, sets: seq<string>, code: Code)
    requires CountedIn(before, table, sets, code)
    ensures table.Keys == before.Keys
  {
  }

  lemma NoneCounted(before: map<string, Entry>, code: Code)
    ensures CountedIn(before, before, [], code)
  {
  }

  method CountChain(c: Catalogue, id: string, code: Code, before: map<string, Entry>) returns (table: map<string, Entry>)
    requires id in c.items && before.Keys == c.items.Keys
    ensures CountedIn(before, table, Chain(c, id, |c.ids|), code)
  {
    hide CountedIn, Counted;
    table := before;
    var at, depth := id, 0;
    ghost var done: seq<string> := [];
    NoneCounted(before, code);
    while depth < |c.ids| && c.items[at].parent.Some?
      invariant depth <= |c.ids| && at in c.items
      invariant done + Chain(c, at, |c.ids| - depth) == Chain(c, id, |c.ids|)
      invariant CountedIn(before, table, done, code)
      decreases |c.ids| - depth
    {
      var parent := c.items[at].parent.value;
      if parent !in c.items {
        break;
      }
      CountedKeys(before, table, done, code);
      CountedStep(before, table, done, parent, code);
      assert done + ([parent] + Chain(c, parent, |c.ids| - depth - 1)) == done + [parent] + Chain(c, parent, |c.ids| - depth - 1);
      table := table[parent := Counted(table[parent], code)];
      done := done + [parent];
      at, depth := parent, depth + 1;
    }
    assert Chain(c, at, |c.ids| - depth) == [] && done + [] == done;
  }

  method CountKnown(c: Catalogue, ids: seq<string>, code: Code, before: map<string, Entry>) returns (table: map<string, Entry>)
    requires before.Keys == c.items.Keys
    ensures CountedIn(before, table, Known(c, ids), code) && table.Keys == before.Keys
  {
    hide CountedIn, Counted;
    table := before;
    NoneCounted(before, code);
    for i := 0 to |ids|
      invariant CountedIn(before, table, Known(c, ids[..i]), code)
    {
      assert ids[..i + 1][..i] == ids[..i];
      CountedKeys(before, table, Known(c, ids[..i]), code);
      if ids[i] in c.items {
        CountedStep(before, table, Known(c, ids[..i]), ids[i], code);
        table := table[ids[i] := Counted(table[ids[i]], code)];
      }
    }
    assert ids[..|ids|] == ids;
    CountedKeys(before, table, Known(c, ids), code);
  }

  method CountItem(c: Catalogue, id: string, code: Code, before: map<string, Entry>) returns (table: map<string, Entry>)
    requires id in c.items && before.Keys == c.items.Keys
    ensures CountedIn(before, table, Sets(c, id), code)
  {
    hide CountedIn, Chain, Known;
    var chained := CountChain(c, id, code, before);
    CountedKeys(before, chained, Chain(c, id, |c.ids|), code);
    var authored := CountKnown(c, c.items[id].authors, code, chained);
    table := CountKnown(c, c.items[id].series, code, authored);
    CountedTogether(before, chained, authored, Chain(c, id, |c.ids|), Known(c, c.items[id].authors), code);
    CountedTogether(before, authored, table, Chain(c, id, |c.ids|) + Known(c, c.items[id].authors),
                    Known(c, c.items[id].series), code);
  }

  /** The table once the first n items are counted. */
  ghost predicate Holds(c: Catalogue, survey: Option<Survey>, table: map<string, Entry>, n: nat)
    requires n <= |c.ids| && forall i | 0 <= i < |c.ids| :: c.ids[i] in c.items
  {
    table.Keys == c.items.Keys && forall x | x in c.items :: table[x] == CountsOf(c, survey, c.ids[..n], x)
  }

  lemma CountsNext(c: Catalogue, survey: Option<Survey>, n: nat, x: string)
    requires n < |c.ids| && x in c.items && forall i | 0 <= i < |c.ids| :: c.ids[i] in c.items
    ensures var id, before := c.ids[n], CountsOf(c, survey, c.ids[..n], x);
            CountsOf(c, survey, c.ids[..n + 1], x) ==
            if HasFiles(c, id) then Often(before, Own(c, survey, id), Times(Sets(c, id), x)) else before
  {
    hide Sets, Times, Best;
    assert c.ids[..n + 1][..n] == c.ids[..n];
  }

  lemma HoldsNext(c: Catalogue, survey: Option<Survey>, table: map<string, Entry>, n: nat, after: map<string, Entry>)
    requires n < |c.ids| && forall i | 0 <= i < |c.ids| :: c.ids[i] in c.items
    requires Holds(c, survey, table, n)
    requires if HasFiles(c, c.ids[n]) then CountedIn(table, after, Sets(c, c.ids[n]), Own(c, survey, c.ids[n])) else after == table
    ensures Holds(c, survey, after, n + 1)
  {
    hide Sets, Own, Times, CountsOf, Often;
    forall x | x in c.items
      ensures after[x] == CountsOf(c, survey, c.ids[..n + 1], x)
    {
      CountsNext(c, survey, n, x);
    }
  }

  /** Every item's code, and every set's counts and code. */
  method ItemAvailability(c: Catalogue, survey: Option<Survey>) returns (table: map<string, Entry>)
    requires WellFormed(c)
    ensures table == TableOf(c, survey)
  {
    hide CountedIn, CountsOf, TableOf, Sets, Own;
    table := OwnCodes(c, survey);
    for i := 0 to |c.ids|
      invariant Holds(c, survey, table, i)
    {
      var id := c.ids[i];
      ghost var before := table;
      if c.items[id].media != [] {
        OwnKept(c, survey, table, i, id);
        table := CountItem(c, id, table[id].status, table);
      }
      HoldsNext(c, survey, before, i, table);
    }
    assert c.ids[..|c.ids|] == c.ids;
    table := JudgeSets(c, survey, table);
  }

  lemma OwnKept(c: Catalogue, survey: Option<Survey>, table: map<string, Entry>, n: nat, id: string)
    requires n <= |c.ids| && forall i | 0 <= i < |c.ids| :: c.ids[i] in c.items
    requires Holds(c, survey, table, n) && HasFiles(c, id)
    ensures id in table && table[id].status == Own(c, survey, id)
  {
  }

  method OwnCodes(c: Catalogue, survey: Option<Survey>) returns (table: map<string, Entry>)
    requires WellFormed(c)
    ensures Holds(c, survey, table, 0)
  {
    table := map[];
    for i := 0 to |c.ids|
      invariant forall x :: x in table <==> x in c.ids[..i]
      invariant forall x | x in table :: x in c.items && table[x] == CountsOf(c, survey, [], x)
    {
      var id := c.ids[i];
      assert c.ids[..i + 1] == c.ids[..i] + [id];
      var entry := NO_ENTRY;
      if c.items[id].media != [] {
        var best := BestOf(survey, c.items[id].media);
        entry := entry.(status := best);
      }
      table := table[id := entry];
    }
    assert c.ids[..|c.ids|] == c.ids && c.ids[..0] == [];
  }

  method JudgeSets(c: Catalogue, survey: Option<Survey>, counted: map<string, Entry>) returns (table: map<string, Entry>)
    requires WellFormed(c) && counted.Keys == c.items.Keys
    requires forall x | x in c.items :: counted[x] == CountsOf(c, survey, c.ids, x)
    ensures table == TableOf(c, survey)
  {
    hide CountsOf, OfSet;
    table := counted;
    for i := 0 to |c.ids|
      invariant table.Keys == c.items.Keys
      invariant forall k | 0 <= k < i :: table[c.ids[k]] == EntryOf(c, survey, c.ids[k])
      invariant forall k | i <= k < |c.ids| :: table[c.ids[k]] == counted[c.ids[k]]
    {
      var id := c.ids[i];
      if table[id].members > 0 {
        table := table[id := table[id].(status := OfSet(table[id]))];
      }
      assert table[id] == EntryOf(c, survey, id);
    }
    AllJudged(c, survey, table);
  }

  lemma AllJudged(c: Catalogue, survey: Option<Survey>, table: map<string, Entry>)
    requires WellFormed(c) && table.Keys == c.items.Keys
    requires forall k | 0 <= k < |c.ids| :: table[c.ids[k]] == EntryOf(c, survey, c.ids[k])
    ensures table == TableOf(c, survey)
  {
    hide EntryOf;
    forall x | x in c.items
      ensures table[x] == EntryOf(c, survey, x)
    {
      var k :| 0 <= k < |c.ids| && c.ids[k] == x;
    }
  }

  // The cache

  /** Snapshots are shared and never change; the cache compares them by identity. */
  class CatalogueView {
    const catalogue: Catalogue

    constructor (catalogue: Catalogue)
      ensures this.catalogue == catalogue
    {
      this.catalogue := catalogue;
    }
  }

  class SurveyView {
    const survey: Survey

    constructor (survey: Survey)
      ensures this.survey == survey
    {
      this.survey := survey;
    }
  }

  function Surveyed(view: SurveyView?): Option<Survey> { if view == null then None else Some(view.survey) }

  class ItemAvailabilityCache {
    var catalogue: CatalogueView?
    var survey: SurveyView?
    var table: Option<map<string, Entry>>

    /** Whatever is kept is the table of the two snapshots kept with it. */
    ghost predicate Valid()
      reads this
    {
      table.Some? ==>
        catalogue != null && WellFormed(catalogue.catalogue) && table.value == TableOf(catalogue.catalogue, Surveyed(survey))
    }

    constructor ()
      ensures Valid()
    {
      catalogue, survey, table := null, null, None;
    }

    method Table(c: CatalogueView, s: SurveyView?) returns (r: map<string, Entry>)
      requires Valid() && WellFormed(c.catalogue)
      modifies this
      ensures Valid() && r == TableOf(c.catalogue, Surveyed(s))
      ensures catalogue == c && survey == s && table == Some(r)
      ensures old(table.Some? && catalogue == c && survey == s) ==> table == old(table)
    {
      if table.None? || catalogue != c || survey != s {
        var built := ItemAvailability(c.catalogue, Surveyed(s));
        table := Some(built);
        catalogue := c;
        survey := s;
      }
      return table.value;
    }
  }
}
