/** The preparation the `__main__` block and `generate_guestlist_pdf` perform: rows are
    read into guests, sorted case-insensitively by (last name, first name),
    grouped by key, and turned into the content list. */
module GuestList {
  import opened Text
  import opened Collation
  import opened GuestRecords
  import opened Grouping
  import opened Render

  /** The key the `__main__` block sorts the guests by: upper-cased (last, first). */
  function FoldedKey(g: Guest): NamePair {
    (UpperStr(g.lastName), UpperStr(g.firstName))
  }

  /** The folded key ignores case: upper-casing the names first changes
      no key, and no key holds an ASCII lower-case letter. */
  lemma FoldedKeyIgnoresCase(g: Guest)
    ensures FoldedKey(Guest(UpperStr(g.firstName), UpperStr(g.lastName), g.table)) == FoldedKey(g)
    ensures forall k :: 0 <= k < |g.lastName| ==> !('a' <= FoldedKey(g).0[k] <= 'z')
    ensures forall k :: 0 <= k < |g.firstName| ==> !('a' <= FoldedKey(g).1[k] <= 'z')
  {
    UpperStrIdempotent(g.lastName);
    UpperStrIdempotent(g.firstName);
  }

  /** The content list `generate_guestlist_pdf` builds for `guests`: the
      buckets of `group_by_alphabet`, each rendered by the content loop. */
  method GenerateContent(guests: seq<Guest>) returns (content: seq<Block>)
    ensures exists groups :: IsGrouping(guests, groups) && content == Content(groups)
    ensures StrictlyAscending(HeadingLetters(content))
    ensures forall c :: c in HeadingLetters(content) <==> exists g :: g in guests && Key(g) == c
    ensures multiset(EntryTexts(content)) == multiset(MapSeq(guests, GuestLine))
  {
    var groups := GroupByAlphabet(guests);
    content := BuildContent(groups);
    ContentHeadings(groups);
    ContentEntries(groups);
    MapSeqPermutation(Flatten(groups), guests, GuestLine);
    forall c ensures c in HeadingLetters(content) <==> exists g :: g in guests && Key(g) == c {
      LettersAreKeys(guests, groups, c);
    }
  }

  /** From rows to content list: every row gives exactly one guest line,
      and the buckets are those of the case-insensitively sorted guests. */
  method PrepareGuestList(rows: seq<Row>) returns (content: seq<Block>)
    ensures exists groups :: IsGrouping(SortByKey(MapSeq(rows, ToGuest), FoldedKey), groups)
                             && content == Content(groups)
    ensures multiset(EntryTexts(content)) == multiset(MapSeq(MapSeq(rows, ToGuest), GuestLine))
    ensures |EntryTexts(content)| == |rows|
  {
    var guests := ReadGuests(rows);
    assert guests == MapSeq(rows, ToGuest);
    var sorted := SortByKey(guests, FoldedKey);
    content := GenerateContent(sorted);
    MapSeqPermutation(sorted, guests, GuestLine);
    assert |EntryTexts(content)| == |multiset(EntryTexts(content))|;
  }

  /** Whatever order the guests come in, the headings and, bucket by
      bucket, the (last name, first name) order of the lines are the
      same. */
  lemma OuterOrderKeys(a: seq<Guest>, b: seq<Guest>, ga: seq<Group>, gb: seq<Group>)
    requires multiset(a) == multiset(b)
    requires IsGrouping(a, ga) && IsGrouping(b, gb)
    ensures Letters(ga) == Letters(gb)
    ensures forall i :: 0 <= i < |ga| ==>
              MapSeq(SortByKey(ga[i].guests, NameKey), NameKey)
              == MapSeq(SortByKey(gb[i].guests, NameKey), NameKey)
  {
    GroupingDetermined(a, b, ga, gb);
    forall i | 0 <= i < |ga|
      ensures MapSeq(SortByKey(ga[i].guests, NameKey), NameKey)
              == MapSeq(SortByKey(gb[i].guests, NameKey), NameKey)
    {
      SortedKeysDetermined(ga[i].guests, gb[i].guests, NameKey);
    }
  }

  /** Content lists built bucket for bucket from the same blocks agree. */
  lemma {:induction false} ContentCongruent(ga: seq<Group>, gb: seq<Group>)
    requires |ga| == |gb|
    requires forall i :: 0 <= i < |ga| ==> GroupBlocks(ga[i]) == GroupBlocks(gb[i])
    ensures Content(ga) == Content(gb)
  {
    if ga != [] {
      ContentCongruent(ga[..|ga| - 1], gb[..|gb| - 1]);
    }
  }

  /** Sorting a bucket of guests with distinct (last name, first name)
      pairs gives one result whatever order the bucket was in. */
  lemma SortedBucketDetermined(a: seq<Guest>, x: seq<Guest>, y: seq<Guest>)
    requires forall g, h :: g in a && h in a && NameKey(g) == NameKey(h) ==> g == h
    requires multiset(x) == multiset(y)
    requires forall g :: g in x ==> g in a
    ensures SortByKey(x, NameKey) == SortByKey(y, NameKey)
  {
    forall g, h | g in x && h in x && NameKey(g) == NameKey(h) ensures g == h {
    }
    SortedDistinctKeysDetermined(x, y, NameKey);
  }

  /** When no two guests share a (last name, first name) pair, the sort in
      the `__main__` block has no effect on the content list: any order of the same
      guests gives the same one. */
  lemma OuterOrderIrrelevant(a: seq<Guest>, b: seq<Guest>, ga: seq<Group>, gb: seq<Group>)
    requires multiset(a) == multiset(b)
    requires forall g, h :: g in a && h in a && NameKey(g) == NameKey(h) ==> g == h
    requires IsGrouping(a, ga) && IsGrouping(b, gb)
    ensures Content(ga) == Content(gb)
  {
    GroupingDetermined(a, b, ga, gb);
    forall i | 0 <= i < |ga| ensures GroupBlocks(ga[i]) == GroupBlocks(gb[i]) {
      assert Letters(ga)[i] == Letters(gb)[i];
      forall g | g in ga[i].guests ensures g in a {
        assert g in multiset(Bucket(a, ga[i].letter));
        BucketCount(a, ga[i].letter, g);
      }
      SortedBucketDetermined(a, ga[i].guests, gb[i].guests);
    }
    ContentCongruent(ga, gb);
  }

  /** The two sort keys disagree on case: the `__main__` block puts "dawson" before
      "Devries", the content loop puts "Devries" first, and both are filed
      under 'D'. */
  lemma CaseOrdersDisagree()
    ensures var dawson, devries := Guest("", "dawson", "1"), Guest("", "Devries", "2");
      && Key(dawson) == Key(devries) == 'D'
      && PairLt(FoldedKey(dawson), FoldedKey(devries))
      && PairLt(NameKey(devries), NameKey(dawson))
  {
    var u, v := UpperStr("dawson"), UpperStr("Devries");
    assert u[0] == 'D' == v[0] && u[1] == 'A' && v[1] == 'E';
    assert u[..1] == v[..1];
    StrLtAt(u, v, 1);
    StrLtAt("Devries", "dawson", 0);
  }
}
