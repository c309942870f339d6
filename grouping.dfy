/** `group_by_alphabet`: guests filed into buckets by the upper-cased first
    letter of their last name ('#' for an empty last name), returned in
    ascending key order. */
module Grouping {
  import opened Text
  import opened GuestRecords
  import opened Sequences

  /** One entry of the returned dictionary: a key and its bucket. */
  datatype Group = Group(letter: char, guests: seq<Guest>)

  /** The bucket key of a guest: never a lower-case letter, '#' exactly
      for an empty last name or one starting with '#', and an upper-case
      letter exactly when the last name starts with an ASCII letter. */
  function Key(g: Guest): (c: char)
    ensures !('a' <= c <= 'z')
    ensures c == '#' <==> g.lastName == [] || g.lastName[0] == '#'
    ensures 'A' <= c <= 'Z' <==>
      g.lastName != [] && ('a' <= g.lastName[0] <= 'z' || 'A' <= g.lastName[0] <= 'Z')
  {
    if g.lastName != [] then Upper(g.lastName[0]) else '#'
  }

  /** The '#' bucket holds the guests with an empty last name, and those
      whose last name itself starts with '#'; a last name that starts with
      an ASCII letter is filed under that letter in upper case, and any
      other first character under itself. */
  lemma KeyCases(g: Guest)
    ensures Key(g) == '#' <==> g.lastName == [] || g.lastName[0] == '#'
    ensures g.lastName != [] ==> Key(g) == Upper(g.lastName[0])
    ensures g.lastName != [] && !('a' <= g.lastName[0] <= 'z') ==> Key(g) == g.lastName[0]
    ensures g.lastName != [] && 'A' <= g.lastName[0] <= 'Z' ==> Key(g) == g.lastName[0]
    ensures g.lastName != [] && 'a' <= g.lastName[0] <= 'z' ==>
              Key(g) as int == g.lastName[0] as int - 32
  {
  }

  /** The guests of `gs` whose key is `k`, in the order of `gs`: only
      guests of that key, and no more than `gs` has. */
  function Bucket(gs: seq<Guest>, k: char): (b: seq<Guest>)
    ensures forall i :: 0 <= i < |b| ==> Key(b[i]) == k
    ensures |b| <= |gs|
  {
    if gs == [] then []
    else Bucket(gs[..|gs| - 1], k) + (if Key(gs[|gs| - 1]) == k then [gs[|gs| - 1]] else [])
  }

  /** Filing one more guest extends its own bucket and no other. */
  lemma BucketSnoc(gs: seq<Guest>, g: Guest, k: char)
    ensures Key(g) == k ==> Bucket(gs + [g], k) == Bucket(gs, k) + [g]
    ensures Key(g) != k ==> Bucket(gs + [g], k) == Bucket(gs, k)
  {
    assert (gs + [g])[..|gs|] == gs;
  }

  /** A bucket holds each guest of its key as often as the input does, and
      no guest of another key. */
  lemma {:induction false} BucketCount(gs: seq<Guest>, k: char, x: Guest)
    ensures multiset(Bucket(gs, k))[x] == if Key(x) == k then multiset(gs)[x] else 0
  {
    if gs != [] {
      var init, g := gs[..|gs| - 1], gs[|gs| - 1];
      assert gs == init + [g];
      BucketCount(init, k, x);
    }
  }

  /** Filing keeps the input order: the bucket of a concatenation is the
      concatenation of the buckets. */
  lemma {:induction false} BucketConcat(a: seq<Guest>, b: seq<Guest>, k: char)
    ensures Bucket(a + b, k) == Bucket(a, k) + Bucket(b, k)
  {
    if b != [] {
      var init, g := b[..|b| - 1], b[|b| - 1];
      assert (a + b)[..|a + b| - 1] == a + init;
      assert (a + b)[|a + b| - 1] == g;
      BucketConcat(a, init, k);
      var tail := if Key(g) == k then [g] else [];
      assert Bucket(b, k) == Bucket(init, k) + tail;
      assert Bucket(a + b, k) == (Bucket(a, k) + Bucket(init, k)) + tail;
      assert (Bucket(a, k) + Bucket(init, k)) + tail == Bucket(a, k) + (Bucket(init, k) + tail);
    } else {
      assert a + b == a;
    }
  }

  /** No guest of key `k`, no bucket. */
  lemma {:induction false} BucketEmpty(gs: seq<Guest>, k: char)
    requires forall i :: 0 <= i < |gs| ==> Key(gs[i]) != k
    ensures Bucket(gs, k) == []
  {
    if gs != [] {
      BucketEmpty(gs[..|gs| - 1], k);
    }
  }

  function Letters(groups: seq<Group>): (ls: seq<char>)
    ensures |ls| == |groups|
    ensures forall i :: 0 <= i < |groups| ==> ls[i] == groups[i].letter
  {
    seq(|groups|, i requires 0 <= i < |groups| => groups[i].letter)
  }

  /** The keys of buckets with one more bucket at the end. */
  lemma LettersSnoc(groups: seq<Group>)
    requires groups != []
    ensures Letters(groups) == Letters(groups[..|groups| - 1]) + [groups[|groups| - 1].letter]
  {
  }

  predicate StrictlyAscending(ls: seq<char>) {
    forall i, j :: 0 <= i < j < |ls| ==> ls[i] < ls[j]
  }

  predicate DistinctLetters(groups: seq<Group>) {
    forall i, j :: 0 <= i < j < |groups| ==> groups[i].letter != groups[j].letter
  }

  /** The insertion step of sorting the dictionary items by key. */
  function InsertGroup(s: seq<Group>, x: Group): (r: seq<Group>)
    ensures multiset(r) == multiset(s) + multiset{x}
  {
    if s == [] then [x]
    else if s[|s| - 1].letter < x.letter then s + [x]
    else
      assert s == s[..|s| - 1] + [s[|s| - 1]];
      InsertGroup(s[..|s| - 1], x) + [s[|s| - 1]]
  }

  /** Inserting an item with a new key into key-ascending items keeps them
      strictly ascending. */
  lemma {:induction false} InsertGroupAscending(s: seq<Group>, x: Group)
    requires StrictlyAscending(Letters(s))
    requires forall y :: y in s ==> y.letter != x.letter
    ensures StrictlyAscending(Letters(InsertGroup(s, x)))
  {
    if s != [] {
      var init, y := s[..|s| - 1], s[|s| - 1];
      if y.letter < x.letter {
        assert Letters(s + [x]) == Letters(s) + [x.letter];
      } else {
        LettersSnoc(s);
        InsertGroupAscending(init, x);
        var r' := InsertGroup(init, x);
        KeysBelowLast(s, x, r');
        AppendAscending(r', y);
      }
    }
  }

  /** Every key of `init` plus `x` is below the last key of `s == init +
      [y]` when `x`'s key is. */
  lemma KeysBelowLast(s: seq<Group>, x: Group, r': seq<Group>)
    requires s != [] && StrictlyAscending(Letters(s))
    requires x.letter < s[|s| - 1].letter
    requires multiset(r') == multiset(s[..|s| - 1]) + multiset{x}
    ensures forall z :: z in r' ==> z.letter < s[|s| - 1].letter
  {
    var init := s[..|s| - 1];
    forall z | z in r' ensures z.letter < s[|s| - 1].letter {
      assert z in multiset(r');
      if z != x {
        assert z in multiset(init);
        var j :| 0 <= j < |init| && init[j] == z;
        assert Letters(s)[j] == z.letter;
      }
    }
  }

  /** Appending an item whose key exceeds every key keeps the keys
      strictly ascending. */
  lemma AppendAscending(r: seq<Group>, y: Group)
    requires StrictlyAscending(Letters(r))
    requires forall z :: z in r ==> z.letter < y.letter
    ensures StrictlyAscending(Letters(r + [y]))
  {
    var ls := Letters(r + [y]);
    assert ls == Letters(r) + [y.letter];
    forall i, j | 0 <= i < j < |ls| ensures ls[i] < ls[j] {
      if j == |r| {
        assert ls[i] == r[i].letter && r[i] in r;
      }
    }
  }

  /** `sorted(items)`: the dictionary items in key order. */
  function SortGroups(s: seq<Group>): (r: seq<Group>)
    ensures multiset(r) == multiset(s)
    ensures DistinctLetters(s) ==> StrictlyAscending(Letters(r))
  {
    if s == [] then []
    else
      var init, x := s[..|s| - 1], s[|s| - 1];
      assert s == init + [x];
      var r' := SortGroups(init);
      if DistinctLetters(s) then
        KeyNotAmong(s, r');
        InsertGroupAscending(r', x);
        InsertGroup(r', x)
      else
        InsertGroup(r', x)
  }

  /** With distinct keys, the key of the last item is not among the keys of
      any rearrangement of the others. */
  lemma KeyNotAmong(s: seq<Group>, r': seq<Group>)
    requires s != [] && DistinctLetters(s)
    requires multiset(r') == multiset(s[..|s| - 1])
    ensures forall y :: y in r' ==> y.letter != s[|s| - 1].letter
  {
    var init := s[..|s| - 1];
    forall y | y in r' ensures y.letter != s[|s| - 1].letter {
      assert y in multiset(init);
      var j :| 0 <= j < |init| && init[j] == y;
      assert s[j] == y;
    }
  }

  /** What `group_by_alphabet` returns for `guests`: keys in strictly
      ascending order, exactly the keys of the guests, each with the guests
      of that key in input order. */
  ghost predicate IsGrouping(guests: seq<Guest>, groups: seq<Group>) {
    && StrictlyAscending(Letters(groups))
    && (forall g :: g in guests ==> Key(g) in Letters(groups))
    && (forall i :: 0 <= i < |groups| ==>
          groups[i].guests == Bucket(guests, groups[i].letter) && groups[i].guests != [])
  }

  /** The state of the dictionary once the guests `filed` have been
      filed: a non-empty bucket per key seen, holding that key's guests in
      order, and the keys in the order they were first seen. */
  ghost predicate Filed(filed: seq<Guest>, buckets: map<char, seq<Guest>>, order: seq<char>) {
    && (forall k :: k in buckets <==> k in order)
    && (forall i, j :: 0 <= i < j < |order| ==> order[i] != order[j])
    && (forall k :: k in buckets ==> buckets[k] == Bucket(filed, k) && buckets[k] != [])
    && (forall i :: 0 <= i < |filed| ==> Key(filed[i]) in buckets)
  }

  /** Appending one guest to its bucket, creating the bucket on first use
      as `defaultdict(list)` does, files one more guest. */
  lemma FileOne(filed: seq<Guest>, guest: Guest, buckets: map<char, seq<Guest>>, order: seq<char>,
                bucket: seq<Guest>, order': seq<char>)
    requires Filed(filed, buckets, order)
    requires bucket == if Key(guest) in buckets then buckets[Key(guest)] else []
    requires order' == if Key(guest) in buckets then order else order + [Key(guest)]
    ensures Filed(filed + [guest], buckets[Key(guest) := bucket + [guest]], order')
  {
    var letter := Key(guest);
    if letter !in buckets {
      BucketEmpty(filed, letter);
    }
    FiledBuckets(filed, guest, buckets, bucket);
    FiledKeys(filed, guest, buckets, bucket);
  }

  /** Every bucket, the new guest's included, is the bucket of the guests
      filed so far. */
  lemma FiledBuckets(filed: seq<Guest>, guest: Guest, buckets: map<char, seq<Guest>>, bucket: seq<Guest>)
    requires forall k :: k in buckets ==> buckets[k] == Bucket(filed, k) && buckets[k] != []
    requires bucket == Bucket(filed, Key(guest))
    ensures var buckets' := buckets[Key(guest) := bucket + [guest]];
      forall k :: k in buckets' ==> buckets'[k] == Bucket(filed + [guest], k) && buckets'[k] != []
  {
    forall k | k in buckets[Key(guest) := bucket + [guest]] {
      BucketSnoc(filed, guest, k);
    }
  }

  /** The key of every guest filed so far has a bucket. */
  lemma FiledKeys(filed: seq<Guest>, guest: Guest, buckets: map<char, seq<Guest>>, bucket: seq<Guest>)
    requires forall i :: 0 <= i < |filed| ==> Key(filed[i]) in buckets
    ensures var filed', buckets' := filed + [guest], buckets[Key(guest) := bucket + [guest]];
      forall i :: 0 <= i < |filed'| ==> Key(filed'[i]) in buckets'
  {
    var filed' := filed + [guest];
    forall i | 0 <= i < |filed'| ensures Key(filed'[i]) in buckets[Key(guest) := bucket + [guest]] {
      if i < |filed| {
        assert filed'[i] == filed[i];
      }
    }
  }

  /** `group_by_alphabet`. The dictionary is kept as a map from key to
      bucket plus the order in which the keys were first seen (the order a
      Python dictionary iterates in); sorting its items then gives the
      result. */
  method GroupByAlphabet(guests: seq<Guest>) returns (groups: seq<Group>)
    ensures IsGrouping(guests, groups)
    ensures multiset(Flatten(groups)) == multiset(guests)
  {
    var buckets: map<char, seq<Guest>> := map[];
    var order: seq<char> := [];
    for n := 0 to |guests|
      invariant Filed(guests[..n], buckets, order)
    {
      var guest := guests[n];
      var letter := Key(guest);
      var bucket := if letter in buckets then buckets[letter] else [];
      var order' := if letter in buckets then order else order + [letter];
      FileOne(guests[..n], guest, buckets, order, bucket, order');
      PrefixSnoc(guests, n);
      buckets, order := buckets[letter := bucket + [guest]], order';
    }
    WholePrefix(guests);
    var items := Items(buckets, order);
    FiledItems(guests, buckets, order);
    groups := SortGroups(items);
    SortedItemsGroup(guests, items);
    GroupingConservesGuests(guests, groups);
  }

  /** `groups.items()`: each key with its bucket, in first-seen order. */
  function Items(buckets: map<char, seq<Guest>>, order: seq<char>): (items: seq<Group>)
    requires forall k :: k in order ==> k in buckets
    ensures |items| == |order|
    ensures forall j :: 0 <= j < |order| ==> items[j] == Group(order[j], buckets[order[j]])
  {
    seq(|order|, j requires 0 <= j < |order| => Group(order[j], buckets[order[j]]))
  }

  /** Once every guest is filed, the items have distinct keys, cover the
      key of every guest, and hold each key's bucket. */
  lemma FiledItems(guests: seq<Guest>, buckets: map<char, seq<Guest>>, order: seq<char>)
    requires Filed(guests, buckets, order)
    ensures var items := Items(buckets, order);
      && DistinctLetters(items)
      && (forall g :: g in guests ==> Key(g) in Letters(items))
      && (forall j :: 0 <= j < |items| ==>
            items[j].guests == Bucket(guests, items[j].letter) && items[j].guests != [])
  {
    var items := Items(buckets, order);
    forall g | g in guests ensures Key(g) in Letters(items) {
      var i :| 0 <= i < |guests| && guests[i] == g;
      var j :| 0 <= j < |order| && order[j] == Key(g);
      assert Letters(items)[j] == Key(g);
    }
  }

  /** Sorting the dictionary items, whose keys are distinct and whose
      buckets are those of the guests, gives the grouping. */
  lemma SortedItemsGroup(guests: seq<Guest>, items: seq<Group>)
    requires DistinctLetters(items)
    requires forall g :: g in guests ==> Key(g) in Letters(items)
    requires forall j :: 0 <= j < |items| ==>
               items[j].guests == Bucket(guests, items[j].letter) && items[j].guests != []
    ensures IsGrouping(guests, SortGroups(items))
  {
    var groups := SortGroups(items);
    forall i | 0 <= i < |groups|
      ensures groups[i].guests == Bucket(guests, groups[i].letter) && groups[i].guests != []
    {
      assert groups[i] in multiset(items);
    }
    forall g | g in guests ensures Key(g) in Letters(groups) {
      var j :| 0 <= j < |items| && items[j].letter == Key(g);
      assert items[j] in multiset(groups);
      var i :| 0 <= i < |groups| && groups[i] == items[j];
      assert Letters(groups)[i] == Key(g);
    }
  }

  /** All buckets, one after another. */
  function Flatten(groups: seq<Group>): seq<Guest> {
    if groups == [] then [] else Flatten(groups[..|groups| - 1]) + groups[|groups| - 1].guests
  }

  /** How often a guest occurs among buckets of distinct keys. */
  lemma {:induction false} FlattenCount(guests: seq<Guest>, groups: seq<Group>, x: Guest)
    requires DistinctLetters(groups)
    requires forall i :: 0 <= i < |groups| ==> groups[i].guests == Bucket(guests, groups[i].letter)
    ensures multiset(Flatten(groups))[x] ==
              if Key(x) in Letters(groups) then multiset(guests)[x] else 0
  {
    if groups != [] {
      var init, last := groups[..|groups| - 1], groups[|groups| - 1];
      assert Letters(groups) == Letters(init) + [last.letter];
      FlattenCount(guests, init, x);
      BucketCount(guests, last.letter, x);
      if Key(x) == last.letter {
        assert Key(x) !in Letters(init);
      }
    }
  }

  /** Grouping conserves guests: the buckets together hold exactly the
      input guests, each as often as the input does. */
  lemma GroupingConservesGuests(guests: seq<Guest>, groups: seq<Group>)
    requires IsGrouping(guests, groups)
    ensures multiset(Flatten(groups)) == multiset(guests)
  {
    forall x ensures multiset(Flatten(groups))[x] == multiset(guests)[x] {
      FlattenCount(guests, groups, x);
    }
  }

  /** When every non-empty last name starts with an ASCII letter, the '#'
      bucket, if there is one, comes first. */
  lemma HashGroupFirst(guests: seq<Guest>, groups: seq<Group>)
    requires IsGrouping(guests, groups)
    requires forall g :: g in guests && g.lastName != [] ==>
               'A' <= g.lastName[0] <= 'Z' || 'a' <= g.lastName[0] <= 'z'
    requires exists g :: g in guests && g.lastName == []
    ensures groups != [] && groups[0].letter == '#'
  {
    var g :| g in guests && g.lastName == [];
    assert '#' in Letters(groups);
    var h :| 0 <= h < |groups| && groups[h].letter == '#';
    if h > 0 {
      var first := groups[0];
      assert first.guests != [];
      var x := first.guests[0];
      BucketCount(guests, first.letter, x);
      assert false;
    }
  }

  /** Two strictly ascending key sequences with the same keys are equal. */
  lemma {:induction false} AscendingDetermined(s: seq<char>, t: seq<char>)
    requires StrictlyAscending(s) && StrictlyAscending(t)
    requires forall c :: c in s <==> c in t
    ensures s == t
  {
    if s != [] {
      assert s[0] in t;
    }
    if t != [] {
      assert t[0] in s;
    }
    if s != [] && t != [] {
      assert s[0] == t[0];
      forall c ensures c in s[1..] <==> c in t[1..] {
        if c in s[1..] {
          assert c in s && c != s[0];
        }
        if c in t[1..] {
          assert c in t && c != t[0];
        }
      }
      AscendingDetermined(s[1..], t[1..]);
      assert s == [s[0]] + s[1..] && t == [t[0]] + t[1..];
    }
  }

  /** A grouping's keys are exactly the keys of its guests. */
  lemma LettersAreKeys(guests: seq<Guest>, groups: seq<Group>, c: char)
    requires IsGrouping(guests, groups)
    ensures c in Letters(groups) <==> exists g :: g in guests && Key(g) == c
  {
    if c in Letters(groups) {
      var i :| 0 <= i < |groups| && groups[i].letter == c;
      var x := groups[i].guests[0];
      assert x in multiset(Bucket(guests, c));
      BucketCount(guests, c, x);
    }
  }

  /** The grouping depends on the guests only up to their order: groupings
      of two orderings of the same guests have the same keys, and each
      bucket holds the same guests. */
  lemma GroupingDetermined(a: seq<Guest>, b: seq<Guest>, ga: seq<Group>, gb: seq<Group>)
    requires multiset(a) == multiset(b)
    requires IsGrouping(a, ga) && IsGrouping(b, gb)
    ensures Letters(ga) == Letters(gb)
    ensures forall i :: 0 <= i < |ga| ==> multiset(ga[i].guests) == multiset(gb[i].guests)
  {
    forall c ensures c in Letters(ga) <==> c in Letters(gb) {
      LettersAreKeys(a, ga, c);
      LettersAreKeys(b, gb, c);
      assert forall g :: g in a <==> g in b by {
        forall g ensures g in a <==> g in b {
          assert g in a <==> g in multiset(a);
        }
      }
    }
    AscendingDetermined(Letters(ga), Letters(gb));
    forall i | 0 <= i < |ga| ensures multiset(ga[i].guests) == multiset(gb[i].guests) {
      assert Letters(ga)[i] == Letters(gb)[i];
      forall x ensures multiset(ga[i].guests)[x] == multiset(gb[i].guests)[x] {
        BucketCount(a, ga[i].letter, x);
        BucketCount(b, gb[i].letter, x);
      }
    }
  }
}
