/**
 How much of each catalogue item the cluster holds: a code for every file, the best of them for
 an item, and counts of members for the sets above it.
 */
module Availability {
  import opened Options

  datatype Code = Complete | Partial | Unavailable | Unknown

  /** A surveyed path's extent counts. */
  datatype Facts = Facts(extents: nat, unavailable: nat, unknown: nat)

  datatype Survey = Survey(byHash: map<string, string>, paths: map<string, Facts>)

  datatype Item = Item(media: seq<string>, parent: Option<string>, authors: seq<string>, series: seq<string>)

  /** The catalogue's std::map: its ids in order, and the item of each. */
  datatype Catalogue = Catalogue(ids: seq<string>, items: map<string, Item>)

  predicate Distinct(ids: seq<string>) { forall i, j | 0 <= i < j < |ids| :: ids[i] != ids[j] }

  ghost predicate WellFormed(c: Catalogue) { Distinct(c.ids) && forall id :: id in c.ids <==> id in c.items }

  function FactsOfMedia(survey: Option<Survey>, media: string): Option<Facts>
  {
    if survey.None? || media !in survey.value.byHash then None else
    var path := survey.value.byHash[media];
    if path in survey.value.paths then Some(survey.value.paths[path]) else None
  }

  function AvailabilityOf(facts: Option<Facts>): Code
  {
    if facts.None? then Unknown
    else if facts.value.unavailable > 0 then
      if facts.value.unavailable == facts.value.extents then Unavailable else Partial
    else if facts.value.unknown > 0 then Unknown
    else Complete
  }

  function Rank(code: Code): nat
  {
    match code case Complete => 3 case Partial => 2 case Unknown => 1 case Unavailable => 0
  }

  /** The best code among the files. */
  function Best(survey: Option<Survey>, media: seq<string>): Code
  {
    if media == [] then Unavailable
    else
      var before, last := Best(survey, media[..|media| - 1]), AvailabilityOf(FactsOfMedia(survey, media[|media| - 1]));
      if Rank(last) > Rank(before) then last else before
  }

  predicate HasFiles(c: Catalogue, id: string) { id in c.items && c.items[id].media != [] }

  /** An item's own code, if it has files. */
  function Own(c: Catalogue, survey: Option<Survey>, id: string): Code
    requires id in c.items
  {
    Best(survey, c.items[id].media)
  }

  /** The item above, when the catalogue has it. */
  function Above(c: Catalogue, id: string): Option<string>
    requires id in c.items
  {
    var parent := c.items[id].parent;
    if parent.Some? && parent.value in c.items then parent else None
  }

  /** The parent chain, abandoned after `depth` steps. */
  function Chain(c: Catalogue, id: string, depth: nat): (chain: seq<string>)
    requires id in c.items
    ensures forall i | 0 <= i < |chain| :: chain[i] in c.items
    decreases depth
  {
    if depth == 0 || Above(c, id).None? then []
    else [Above(c, id).value] + Chain(c, Above(c, id).value, depth - 1)
  }

  function Known(c: Catalogue, ids: seq<string>): (known: seq<string>)
    ensures forall i | 0 <= i < |known| :: known[i] in c.items
  {
    if ids == [] then []
    else
      var last := ids[|ids| - 1];
      if last in c.items then Known(c, ids[..|ids| - 1]) + [last] else Known(c, ids[..|ids| - 1])
  }

  /** The sets an item counts in, as often as it does. */
  function Sets(c: Catalogue, id: string): (sets: seq<string>)
    requires id in c.items
    ensures forall i | 0 <= i < |sets| :: sets[i] in c.items
  {
    Chain(c, id, |c.ids|) + Known(c, c.items[id].authors) + Known(c, c.items[id].series)
  }

  // Counts

  datatype Entry = Entry(status: Code, members: nat, complete: nat, partial: nat, unavailable: nat, unknown: nat)

  const NO_ENTRY := Entry(Unknown, 0, 0, 0, 0, 0)

  function Counted(e: Entry, member: Code): Entry
  {
    var e := e.(members := e.members + 1);
    match member
    case Complete => e.(complete := e.complete + 1)
    case Partial => e.(partial := e.partial + 1)
    case Unavailable => e.(unavailable := e.unavailable + 1)
    case Unknown => e.(unknown := e.unknown + 1)
  }

  function OfSet(e: Entry): Code
  {
    if e.members == 0 then Unknown
    else if e.complete == e.members then Complete
    else if e.unavailable == e.members then Unavailable
    else if e.unknown > 0 && e.partial == 0 && e.unavailable == 0 then Unknown
    else Partial
  }

  function Times(xs: seq<string>, x: string): nat { multiset(xs)[x] }

  /** How often the items are members of a set with a code. */
  function Tally(c: Catalogue, survey: Option<Survey>, ids: seq<string>, x: string, code: Code): nat
    requires forall i | 0 <= i < |ids| :: ids[i] in c.items
  {
    if ids == [] then 0
    else
      var last := ids[|ids| - 1];
      Tally(c, survey, ids[..|ids| - 1], x, code) +
      if HasFiles(c, last) && Own(c, survey, last) == code then Times(Sets(c, last), x) else 0
  }

  /** How often the items are members of a set. */
  function Members(c: Catalogue, ids: seq<string>, x: string): nat
    requires forall i | 0 <= i < |ids| :: ids[i] in c.items
  {
    if ids == [] then 0
    else
      var last := ids[|ids| - 1];
      Members(c, ids[..|ids| - 1], x) + if HasFiles(c, last) then Times(Sets(c, last), x) else 0
  }

  /** A set's counts over the items so far, beside the code it has of its own. */
  function CountsOf(c: Catalogue, survey: Option<Survey>, ids: seq<string>, x: string): Entry
    requires x in c.items && forall i | 0 <= i < |ids| :: ids[i] in c.items
  {
    Entry(if HasFiles(c, x) then Own(c, survey, x) else Unknown,
          Members(c, ids, x),
          Tally(c, survey, ids, x, Complete),
          Tally(c, survey, ids, x, Partial),
          Tally(c, survey, ids, x, Unavailable),
          Tally(c, survey, ids, x, Unknown))
  }

  ghost function EntryOf(c: Catalogue, survey: Option<Survey>, x: string): Entry
    requires WellFormed(c) && x in c.items
  {
    var e := CountsOf(c, survey, c.ids, x);
    if e.members > 0 then e.(status := OfSet(e)) else e
  }

  ghost function TableOf(c: Catalogue, survey: Option<Survey>): map<string, Entry>
    requires WellFormed(c)
  {
    map x | x in c.items :: EntryOf(c, survey, x)
  }
}
