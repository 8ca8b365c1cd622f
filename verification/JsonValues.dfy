/**
 What comes out of the parser is a value the source's variant can hold: integers in range and
 every object's keys distinct and in order. So texts without doubles have a canonical form.
 */
module JsonValues {
  import opened JsonGrammar
  import opened JsonParsing
  import opened JsonPrinting
  import opened JsonCompleteness
  import opened JsonSoundness
  import opened JsonRoundTrip

  // The key order

  lemma {:induction false} KeyLessTotal(a: Text, b: Text)
    requires a != b
    ensures KeyLess(a, b) || KeyLess(b, a)
    decreases |a|
  {
    if a != [] && b != [] && a[0] == b[0] {
      assert a[1..] != b[1..] by {
        assert a == [a[0]] + a[1..] && b == [b[0]] + b[1..];
      }
      KeyLessTotal(a[1..], b[1..]);
    }
  }

  lemma {:induction false} KeyLessTransitive(a: Text, b: Text, c: Text)
    requires KeyLess(a, b) && KeyLess(b, c)
    ensures KeyLess(a, c)
    decreases |a|
  {
    if a != [] && a[0] == b[0] == c[0] {
      KeyLessTransitive(a[1..], b[1..], c[1..]);
    }
  }

  lemma {:induction false} AboveLower(low: Text, key: Text, members: seq<Member>)
    requires KeyLess(low, key) && AllAbove(key, members)
    ensures AllAbove(low, members)
  {
    if members != [] {
      KeyLessTransitive(low, key, members[0].key);
      AboveLower(low, key, members[1..]);
    }
  }

  lemma {:induction false} InsertAbove(key: Text, members: seq<Member>, m: Member)
    requires AllAbove(key, members) && KeyLess(key, m.key)
    ensures AllAbove(key, Insert(members, m))
  {
    if members != [] && !KeyLess(m.key, members[0].key) {
      InsertAbove(key, members[1..], m);
      assert Insert(members, m)[1..] == Insert(members[1..], m);
    } else {
      assert Insert(members, m)[1..] == members;
    }
  }

  /** std::map stays ordered. */
  lemma {:induction false} InsertAscending(members: seq<Member>, m: Member)
    requires Ascending(members) && !HasKey(members, m.key)
    ensures Ascending(Insert(members, m))
  {
    if members == [] {
    } else if KeyLess(m.key, members[0].key) {
      AboveLower(m.key, members[0].key, members[1..]);
      assert Insert(members, m)[1..] == members;
    } else {
      assert members[0].key != m.key;
      KeyLessTotal(members[0].key, m.key);
      InsertAbove(members[0].key, members[1..], m);
      assert !HasKey(members[1..], m.key) by {
        assert members == [members[0]] + members[1..];
        ConsKeys(members[0], members[1..], m.key);
      }
      InsertAscending(members[1..], m);
      assert Insert(members, m)[1..] == Insert(members[1..], m);
    }
  }

  lemma {:induction false} InsertWellFormed(members: seq<Member>, m: Member)
    requires MembersWellFormed(members, true) && WellFormed(m.value, true)
    ensures MembersWellFormed(Insert(members, m), true)
  {
    hide WellFormed;
    if members == [] || KeyLess(m.key, members[0].key) {
      assert Insert(members, m)[1..] == members;
    } else {
      InsertWellFormed(members[1..], m);
      assert Insert(members, m)[1..] == Insert(members[1..], m);
    }
  }

  // Meanings

  lemma {:induction false} MeaningWellFormed(t: Tree, finite: iset<Text>)
    requires Legal(t, finite)
    ensures WellFormed(Meaning(t, finite), true)
    decreases t, 0
  {
    match t
    case ArrayTree(items) => ItemsMeanWellFormed(items, finite);
    case ObjectTree(entries) =>
      NoKeysYet(entries);
      EntriesMeanWellFormed([], entries, finite);
    case _ =>
  }

  lemma {:induction false} ItemsMeanWellFormed(items: seq<Item>, finite: iset<Text>)
    requires ItemsLegal(items, finite)
    ensures ItemsWellFormed(ItemsMeaning(items, finite), true)
    decreases items, 0
  {
    hide Legal, Meaning, WellFormed;
    if items != [] {
      MeaningWellFormed(items[0].tree, finite);
      ItemsMeanWellFormed(items[1..], finite);
      assert ItemsMeaning(items, finite)[1..] == ItemsMeaning(items[1..], finite);
    }
  }

  lemma {:induction false} EntriesMeanWellFormed(read: seq<Member>, entries: seq<Entry>, finite: iset<Text>)
    requires EntriesLegal(entries, finite) && KeysDistinct(entries) && NoKeysOf(read, entries)
    requires MembersWellFormed(read, true) && Ascending(read)
    ensures var members := EntriesInto(read, entries, finite); MembersWellFormed(members, true) && Ascending(members)
    decreases entries, 0
  {
    hide Legal, Meaning, WellFormed, MembersWellFormed, Ascending, CharsAccepted, CharsMeaning, HasKey, Insert;
    if entries != [] {
      MeaningWellFormed(entries[0].tree, finite);
      var m := Member(CharsMeaning(entries[0].key), Meaning(entries[0].tree, finite));
      InsertWellFormed(read, m);
      InsertAscending(read, m);
      KeysLeft(read, m, entries[1..]);
      EntriesMeanWellFormed(Insert(read, m), entries[1..], finite);
    }
  }

  // The theorems

  lemma ParsedWellFormed(t: Text, finite: iset<Text>)
    requires Parse(t, finite).Ok?
    ensures WellFormed(Parse(t, finite).value, true)
  {
    hide Parse, Meaning, WellFormed, DocumentYield, Legal;
    var d := ParseSound(t, finite);
    assert Legal(d.tree, finite);
    MeaningWellFormed(d.tree, finite);
  }

  /** Printing what was parsed gives a text with the same value, and one that printing it again keeps. */
  lemma CanonicalForm(t: Text, finite: iset<Text>)
    requires Parse(t, finite).Ok? && WellFormed(Parse(t, finite).value, false)
    ensures var canonical := Print(Parse(t, finite).value);
            var again := Parse(canonical, finite);
            && again == Ok(Normalise(Parse(t, finite).value), |canonical|)
            && WellFormed(again.value, false) && Print(again.value) == canonical
  {
    hide Parse, WellFormed, Print, Normalise;
    RoundTrip(Parse(t, finite).value, finite);
    NormalisedPrint(Parse(t, finite).value);
  }
}
