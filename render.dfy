/** The content list `generate_guestlist_pdf` hands to the layout engine:
    per bucket a letter heading, the bucket's guests sorted by
    (last name, first name), one marked-up line each, and a spacer. The
    paragraphs are kept as their text and their style; page geometry,
    fonts and the PDF itself belong to the layout engine. */
module Render {
  import opened Text
  import opened Collation
  import opened Sequences
  import opened GuestRecords
  import opened Grouping

  /** One flowable of the content list. */
  datatype Block =
    | Heading(letter: char)                // Paragraph(letter, styles['Letter'])
    | Entry(text: string)                  // Paragraph(line, styles['GuestName'])
    | Spacer(width: int, height: int)      // Spacer(1, 32)

  /** The key the buckets are sorted by: case-sensitive (last, first). */
  function NameKey(g: Guest): NamePair {
    (g.lastName, g.firstName)
  }

  /** Under this key the last name decides, and the first name only breaks
      ties between equal last names. */
  lemma NameKeyOrder(g: Guest, h: Guest)
    ensures PairLe(NameKey(g), NameKey(h)) ==> StrLe(g.lastName, h.lastName)
    ensures StrLt(g.lastName, h.lastName) ==> PairLt(NameKey(g), NameKey(h))
    ensures g.lastName == h.lastName ==>
              (PairLe(NameKey(g), NameKey(h)) <==> StrLe(g.firstName, h.firstName))
  {
  }

  const BoldOpen := "<b>"
  const BoldClose := "</b>"
  const TableOpen := " <font color='#888888'>"
  const TableClose := "</font>"

  /** The marked-up text of one guest line: the first name and a space
      when there is a first name, the last name in bold, then the table in
      grey. Either way the line is the optional first-name prefix followed
      by one and the same tail. */
  function GuestLine(g: Guest): (line: string)
    ensures line == NamePrefix(g.firstName) + (BoldOpen + g.lastName + BoldClose + TableOpen + g.table + TableClose)
  {
    var displayName :=
      if g.firstName != [] then g.firstName + " " + BoldOpen + g.lastName + BoldClose
      else BoldOpen + g.lastName + BoldClose;
    DisplayNameShape(g.firstName, g.lastName, g.table);
    displayName + TableOpen + g.table + TableClose
  }

  /** Fields that hold no markup character. */
  predicate NoMarkup(g: Guest) {
    '<' !in g.firstName && '<' !in g.lastName && '<' !in g.table
  }

  /** Reads "<b>" last "</b> <font color='#888888'>" table "</font>". */
  function ParseTail(s: string): Option<(string, string)> {
    if !StartsWith(s, BoldOpen) then None
    else
      var s1 := s[|BoldOpen|..];
      var q := IndexOf(s1, '<');
      var s2 := s1[q..];
      if !StartsWith(s2, BoldClose + TableOpen) then None
      else
        var s3 := s2[|BoldClose + TableOpen|..];
        var r := IndexOf(s3, '<');
        if s3[r..] != TableClose then None
        else Some((s1[..q], s3[..r]))
  }

  /** The text before the first '<' and the text from it on. */
  function SplitAtMarkup(line: string): (parts: (string, string))
    ensures parts.0 + parts.1 == line && '<' !in parts.0
  {
    var p := IndexOf(line, '<');
    (line[..p], line[p..])
  }

  /** Reads the text in front of the bold last name: nothing, or a first
      name followed by a space. */
  function ParseFirstName(s: string): Option<string> {
    if s == [] then Some("")
    else if |s| >= 2 && s[|s| - 1] == ' ' then Some(s[..|s| - 1])
    else None
  }

  /** Reads a guest line back. */
  function ParseGuestLine(line: string): Option<Guest> {
    var (before, after) := SplitAtMarkup(line);
    match (ParseFirstName(before), ParseTail(after))
    case (Some(first), Some((last, table))) => Some(Guest(first, last, table))
    case _ => None
  }

  datatype Option<T> = None | Some(value: T)

  lemma {:induction false} ParseTailRoundTrip(last: string, table: string)
    requires '<' !in last && '<' !in table
    ensures ParseTail(BoldOpen + last + BoldClose + TableOpen + table + TableClose) == Some((last, table))
  {
    var mid, end := BoldClose + TableOpen, table + TableClose;
    var rest := mid + end;
    Regroup(BoldOpen, last, BoldClose, TableOpen, table, TableClose);
    AfterPrefix(BoldOpen, last + rest);
    ScanTo(last, rest);
    AfterPrefix(mid, end);
    ScanTo(table, TableClose);
  }

  lemma Regroup(a: string, b: string, c: string, d: string, e: string, f: string)
    ensures a + b + c + d + e + f == a + (b + ((c + d) + (e + f)))
  {
  }

  lemma PrefixRegroup(p: string, a: string, b: string, c: string, d: string, e: string, f: string)
    ensures p + a + b + c + d + e + f == p + (a + b + c + d + e + f)
  {
  }

  lemma AfterPrefix(prefix: string, rest: string)
    ensures StartsWith(prefix + rest, prefix)
    ensures (prefix + rest)[|prefix|..] == rest
  {
    assert (prefix + rest)[..|prefix|] == prefix;
  }

  /** The first '<' of `a + b` is the head of `b` when `a` has none. */
  lemma ScanTo(a: string, b: string)
    requires '<' !in a && b != [] && b[0] == '<'
    ensures IndexOf(a + b, '<') == |a|
    ensures (a + b)[..|a|] == a && (a + b)[|a|..] == b
  {
    IndexOfAfter(a, b, '<');
  }

  /** The first name and its space, in front of the bold last name. */
  function NamePrefix(first: string): string {
    if first != [] then first + " " else ""
  }

  lemma PlainNamePrefix(first: string)
    requires '<' !in first
    ensures '<' !in NamePrefix(first)
  {
    if first != [] {
      assert NamePrefix(first) == first + [' '];
    }
  }

  lemma SplitAfterPrefix(prefix: string, tail: string)
    requires '<' !in prefix && tail != [] && tail[0] == '<'
    ensures SplitAtMarkup(prefix + tail) == (prefix, tail)
  {
    IndexOfAfter(prefix, tail, '<');
    assert IndexOf(tail, '<') == 0;
    assert (prefix + tail)[..|prefix|] == prefix;
  }

  lemma FirstNameRoundTrip(first: string)
    ensures ParseFirstName(NamePrefix(first)) == Some(first)
  {
    if first != [] {
      assert (first + " ")[..|first|] == first;
    }
  }

  /** Both forms of the display name, followed by the table, share the
      tail from the bold last name on. */
  lemma DisplayNameShape(first: string, last: string, table: string)
    ensures (if first != [] then first + " " + BoldOpen + last + BoldClose else BoldOpen + last + BoldClose)
              + TableOpen + table + TableClose
            == NamePrefix(first) + (BoldOpen + last + BoldClose + TableOpen + table + TableClose)
  {
    var tail := BoldOpen + last + BoldClose + TableOpen + table + TableClose;
    if first != [] {
      PrefixRegroup(first + " ", BoldOpen, last, BoldClose, TableOpen, table, TableClose);
    } else {
      assert [] + tail == tail;
    }
  }

  /** The line determines the guest: reading a line back gives the guest
      it was made from, as long as its fields hold no markup. */
  lemma GuestLineRoundTrip(g: Guest)
    requires NoMarkup(g)
    ensures ParseGuestLine(GuestLine(g)) == Some(g)
  {
    var tail := BoldOpen + g.lastName + BoldClose + TableOpen + g.table + TableClose;
    ParseTailRoundTrip(g.lastName, g.table);
    Regroup(BoldOpen, g.lastName, BoldClose, TableOpen, g.table, TableClose);
    assert tail[0] == '<';
    PlainNamePrefix(g.firstName);
    SplitAfterPrefix(NamePrefix(g.firstName), tail);
    FirstNameRoundTrip(g.firstName);
  }

  /** Distinct guests without markup get distinct lines. */
  lemma GuestLineInjective(g: Guest, h: Guest)
    requires NoMarkup(g) && NoMarkup(h) && GuestLine(g) == GuestLine(h)
    ensures g == h
  {
    GuestLineRoundTrip(g);
    GuestLineRoundTrip(h);
  }

  /** The guest line starts with the bold last name exactly when the first
      name is empty. */
  lemma GuestLineStart(g: Guest)
    requires '<' !in g.firstName
    ensures StartsWith(GuestLine(g), BoldOpen) <==> g.firstName == []
  {
    if g.firstName != [] {
      assert GuestLine(g)[0] == g.firstName[0];
    }
  }

  /** The guest lines of a run of guests, one entry each, in order. */
  function Entries(guests: seq<Guest>): (blocks: seq<Block>)
    ensures |blocks| == |guests|
  {
    if guests == [] then []
    else Entries(guests[..|guests| - 1]) + [Entry(GuestLine(guests[|guests| - 1]))]
  }

  /** One more guest, one more entry. */
  lemma EntriesPrefix(guests: seq<Guest>, n: nat)
    requires n < |guests|
    ensures Entries(guests[..n + 1]) == Entries(guests[..n]) + [Entry(GuestLine(guests[n]))]
  {
    assert guests[..n + 1][..n] == guests[..n];
  }

  /** The blocks of one bucket: its heading, one entry per guest, and the
      spacer. */
  function GroupBlocks(group: Group): (blocks: seq<Block>)
    ensures |blocks| == |group.guests| + 2
    ensures blocks[0] == Heading(group.letter)
    ensures blocks[|blocks| - 1] == Spacer(1, 32)
  {
    var sorted := SortByKey(group.guests, NameKey);
    assert |sorted| == |multiset(sorted)| == |multiset(group.guests)| == |group.guests|;
    [Heading(group.letter)] + Entries(sorted) + [Spacer(1, 32)]
  }

  /** The blocks of all buckets, in order: two blocks per bucket besides
      one per guest. */
  function Content(groups: seq<Group>): (blocks: seq<Block>)
    ensures |blocks| == 2 * |groups| + |Flatten(groups)|
  {
    if groups == [] then [] else Content(groups[..|groups| - 1]) + GroupBlocks(groups[|groups| - 1])
  }

  /** One pass of the content loop: the heading, the bucket's guests in
      (last name, first name) order, and the spacer. */
  method AppendGroup(content: seq<Block>, group: Group) returns (extended: seq<Block>)
    ensures extended == content + GroupBlocks(group)
  {
    var sortedGuests := SortByKey(group.guests, NameKey);
    var head := content + [Heading(group.letter)];
    extended := head;
    for j := 0 to |sortedGuests|
      invariant extended == head + Entries(sortedGuests[..j])
    {
      var entry := Entry(GuestLine(sortedGuests[j]));
      EntriesPrefix(sortedGuests, j);
      AppendAssoc(head, Entries(sortedGuests[..j]), [entry]);
      extended := extended + [entry];
    }
    WholePrefix(sortedGuests);
    AppendAssoc(content, [Heading(group.letter)] + Entries(sortedGuests), [Spacer(1, 32)]);
    AppendAssoc(content, [Heading(group.letter)], Entries(sortedGuests));
    extended := extended + [Spacer(1, 32)];
  }

  /** The content loop of `generate_guestlist_pdf` over buckets already
      grouped. */
  method BuildContent(groups: seq<Group>) returns (content: seq<Block>)
    ensures content == Content(groups)
  {
    content := [];
    for i := 0 to |groups|
      invariant content == Content(groups[..i])
    {
      content := AppendGroup(content, groups[i]);
      assert groups[..i + 1][..i] == groups[..i];
    }
    assert groups[..|groups|] == groups;
  }

  /** The guest lines of a content list, in order. */
  function EntryTexts(blocks: seq<Block>): seq<string> {
    if blocks == [] then []
    else EntryTexts(blocks[..|blocks| - 1])
         + (if blocks[|blocks| - 1].Entry? then [blocks[|blocks| - 1].text] else [])
  }

  /** The letter headings of a content list, in order. */
  function HeadingLetters(blocks: seq<Block>): seq<char> {
    if blocks == [] then []
    else HeadingLetters(blocks[..|blocks| - 1])
         + (if blocks[|blocks| - 1].Heading? then [blocks[|blocks| - 1].letter] else [])
  }

  lemma {:induction false} EntryTextsConcat(a: seq<Block>, b: seq<Block>)
    ensures EntryTexts(a + b) == EntryTexts(a) + EntryTexts(b)
    ensures HeadingLetters(a + b) == HeadingLetters(a) + HeadingLetters(b)
  {
    if b == [] {
      assert a + b == a;
    } else {
      var init := b[..|b| - 1];
      assert (a + b)[..|a + b| - 1] == a + init;
      assert (a + b)[|a + b| - 1] == b[|b| - 1];
      EntryTextsConcat(a, init);
    }
  }

  /** The entries of a run of guests are their guest lines, in order, and
      hold no heading. */
  lemma {:induction false} EntriesAreLines(guests: seq<Guest>)
    ensures EntryTexts(Entries(guests)) == MapSeq(guests, GuestLine)
    ensures HeadingLetters(Entries(guests)) == []
  {
    if guests != [] {
      var init := guests[..|guests| - 1];
      EntriesAreLines(init);
      EntryTextsConcat(Entries(init), [Entry(GuestLine(guests[|guests| - 1]))]);
      assert EntryTexts([Entry(GuestLine(guests[|guests| - 1]))]) == [GuestLine(guests[|guests| - 1])] by {
        assert [Entry(GuestLine(guests[|guests| - 1]))][..0] == [];
      }
      assert HeadingLetters([Entry(GuestLine(guests[|guests| - 1]))]) == [] by {
        assert [Entry(GuestLine(guests[|guests| - 1]))][..0] == [];
      }
    }
  }

  /** A bucket's blocks open with its heading, close with the spacer, and
      hold one entry per guest in between. */
  lemma GroupBlocksFrame(group: Group)
    ensures var blocks := GroupBlocks(group);
      && |blocks| == |group.guests| + 2
      && blocks[0] == Heading(group.letter)
      && blocks[|blocks| - 1] == Spacer(1, 32)
      && HeadingLetters(blocks) == [group.letter]
  {
    var sorted := SortByKey(group.guests, NameKey);
    var head, tail := [Heading(group.letter)], [Spacer(1, 32)];
    assert |sorted| == |multiset(sorted)| == |multiset(group.guests)| == |group.guests|;
    EntriesAreLines(sorted);
    EntryTextsConcat(head, Entries(sorted));
    EntryTextsConcat(head + Entries(sorted), tail);
    assert HeadingLetters(head) == [group.letter] by {
      assert head[..0] == [];
    }
    assert HeadingLetters(tail) == [] by {
      assert tail[..0] == [];
    }
  }

  /** A bucket's entries are the lines of its guests in (last name, first
      name) order. */
  lemma GroupBlocksEntries(group: Group)
    ensures EntryTexts(GroupBlocks(group)) == MapSeq(SortByKey(group.guests, NameKey), GuestLine)
  {
    var entries := Entries(SortByKey(group.guests, NameKey));
    var head, tail := [Heading(group.letter)], [Spacer(1, 32)];
    EntryTextsConcat(head, entries);
    EntryTextsConcat(head + entries, tail);
    assert EntryTexts(head) == [] by {
      assert head[..0] == [];
    }
    assert EntryTexts(tail) == [] by {
      assert tail[..0] == [];
    }
    assert EntryTexts(GroupBlocks(group)) == EntryTexts(entries);
    EntriesAreLines(SortByKey(group.guests, NameKey));
  }

  /** The headings of the content list are the bucket keys, in bucket
      order. */
  lemma {:induction false} ContentHeadings(groups: seq<Group>)
    ensures HeadingLetters(Content(groups)) == Letters(groups)
  {
    if groups != [] {
      var init, last := groups[..|groups| - 1], groups[|groups| - 1];
      var before, blocks := Content(init), GroupBlocks(last);
      assert Content(groups) == before + blocks;
      ContentHeadings(init);
      EntryTextsConcat(before, blocks);
      GroupBlocksFrame(last);
      LettersSnoc(groups);
    }
  }

  /** The content list holds one line per guest of the buckets, each as
      often as the buckets hold that guest. */
  lemma {:induction false} ContentEntries(groups: seq<Group>)
    ensures multiset(EntryTexts(Content(groups))) == multiset(MapSeq(Flatten(groups), GuestLine))
  {
    if groups != [] {
      var init, last := groups[..|groups| - 1], groups[|groups| - 1];
      ContentEntries(init);
      EntryTextsConcat(Content(init), GroupBlocks(last));
      GroupBlocksEntries(last);
      MapSeqPermutation(SortByKey(last.guests, NameKey), last.guests, GuestLine);
      MapSeqConcat(Flatten(init), last.guests, GuestLine);
    }
  }
}
