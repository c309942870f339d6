/** `read_guests`: one guest record per CSV row, with the full name split
    into a first and a last name and the table number looked up under one
    of its column aliases. A row is the mapping `csv.DictReader` yields,
    from column header to cell text. */
module GuestRecords {
  import opened Text
  import opened Collation
  import opened Sequences

  datatype Guest = Guest(firstName: string, lastName: string, table: string)

  /** One CSV row: header -> cell. */
  type Row = map<string, string>

  /** Column headers tried, in order, for the full name. */
  const NameAliases: seq<string> := ["Name", "name"]

  /** Column headers tried, in order, for the table number. */
  const TableAliases: seq<string> := ["Table No.", "Table", "table"]

  /** `row.get(column, default)`. */
  function Get(row: Row, column: string, default: string): (cell: string)
    ensures column in row ==> cell == row[column]
    ensures column !in row ==> cell == default
  {
    if column in row then row[column] else default
  }

  /** Reference reading of an alias chain: the cell of the first alias the
      row has, or the empty string when it has none of them. */
  function FirstPresent(row: Row, aliases: seq<string>): string {
    if aliases == [] then ""
    else if aliases[0] in row then row[aliases[0]]
    else FirstPresent(row, aliases[1..])
  }

  /** The stripped full name, `Name` taking precedence over `name`. */
  function FullName(row: Row): (name: string)
    ensures Trimmed(name)
  {
    Strip(Get(row, "Name", Get(row, "name", "")))
  }

  /** The stripped table cell: `Table No.`, else `Table`, else `table`. */
  function TableCell(row: Row): (cell: string)
    ensures Trimmed(cell)
  {
    Strip(Get(row, "Table No.", Get(row, "Table", Get(row, "table", ""))))
  }

  /** The nested `row.get` calls read the first alias present, in the
      order of the alias lists; a row with none of them gives "". */
  lemma ColumnLookup(row: Row)
    ensures FullName(row) == Strip(FirstPresent(row, NameAliases))
    ensures TableCell(row) == Strip(FirstPresent(row, TableAliases))
    ensures (forall a :: a in NameAliases ==> a !in row) ==> FullName(row) == ""
    ensures (forall a :: a in TableAliases ==> a !in row) ==> TableCell(row) == ""
  {
    assert FirstPresent(row, []) == "";
    assert FirstPresent(row, ["name"]) == Get(row, "name", "") by {
      assert ["name"][1..] == [];
    }
    assert NameAliases[0] == "Name" && NameAliases[1..] == ["name"];
    assert FirstPresent(row, ["table"]) == Get(row, "table", "") by {
      assert ["table"][1..] == [];
    }
    assert FirstPresent(row, ["Table", "table"]) == Get(row, "Table", Get(row, "table", "")) by {
      assert ["Table", "table"][1..] == ["table"];
    }
    assert TableAliases[0] == "Table No." && TableAliases[1..] == ["Table", "table"];
    TrimmedIsFixed("");
  }

  /** The first/last split of an already stripped full name: at the last
      space when there is one, otherwise the whole name is the last name.
      The last name never holds a space, the parts never outgrow the name,
      and a stripped name splits into stripped parts. */
  function SplitName(fullName: string): (parts: (string, string))
    ensures ' ' !in parts.1
    ensures |parts.0| + |parts.1| <= |fullName|
    ensures Trimmed(fullName) ==> Trimmed(parts.0) && Trimmed(parts.1)
  {
    if fullName != [] then
      if ' ' in fullName then
        var lastSpace := RFind(fullName, ' ');
        NoSpaceAfter(fullName, lastSpace, lastSpace + 1);
        (Strip(fullName[..lastSpace]), Strip(fullName[lastSpace + 1..]))
      else
        ("", fullName)
    else
      ("", "")
  }

  /** A stripped name with a space splits into two non-empty, stripped
      parts separated by whitespace that holds the last space: the last
      name is the text after the last space, and holds no space. */
  lemma SplitAtLastSpace(fullName: string)
    requires Trimmed(fullName) && ' ' in fullName
    ensures var (first, last) := SplitName(fullName);
      && first != [] && last != []
      && Trimmed(first) && Trimmed(last)
      && ' ' !in last
      && |first| + |last| < |fullName|
      && fullName == first + fullName[|first|..|fullName| - |last|] + last
      && AllSpace(fullName[|first|..|fullName| - |last|])
      && ' ' in fullName[|first|..|fullName| - |last|]
  {
    var p := RFind(fullName, ' ');
    LastSpaceInside(fullName);
    SplitAtSpace(fullName, p);
  }

  /** Splitting a stripped name at a space after which no space follows. */
  lemma SplitAtSpace(s: string, p: int)
    requires Trimmed(s) && 0 < p < |s| - 1 && s[p] == ' '
    requires forall k :: p < k < |s| ==> s[k] != ' '
    ensures var first, last := Strip(s[..p]), Strip(s[p + 1..]);
      && first != [] && last != []
      && ' ' !in last
      && |first| + |last| < |s|
      && s == first + s[|first|..|s| - |last|] + last
      && AllSpace(s[|first|..|s| - |last|])
      && ' ' in s[|first|..|s| - |last|]
  {
    StrippedBefore(s, p);
    StrippedAfter(s, p + 1);
    var first, last := Strip(s[..p]), Strip(s[p + 1..]);
    var i, j := |first|, |s| - |last|;
    NoSpaceAfter(s, p, j);
    GapIsSpace(s, i, p, j);
    ThreeSlices(s, i, j);
  }

  /** In a stripped name, the last space is neither the first nor the last
      character. */
  lemma LastSpaceInside(fullName: string)
    requires Trimmed(fullName) && ' ' in fullName
    ensures var p := RFind(fullName, ' ');
      && 0 < p < |fullName| - 1
      && SplitName(fullName) == (Strip(fullName[..p]), Strip(fullName[p + 1..]))
  {
  }

  /** Stripping a prefix that starts with a non-space keeps its start and
      drops only whitespace before `p`. */
  lemma StrippedBefore(s: string, p: int)
    requires 0 < p <= |s| && !IsSpace(s[0])
    ensures var first := Strip(s[..p]);
      && 0 < |first| <= p && first == s[..|first|] && AllSpace(s[|first|..p])
  {
    var before := s[..p];
    assert before[0] == s[0];
    StripKeepsStart(before);
    var i := |Strip(before)|;
    PrefixOfPrefix(s, p, i);
    SuffixOfPrefix(s, p, i);
  }

  /** Stripping a suffix that ends with a non-space keeps its end and drops
      only whitespace after `q`. */
  lemma StrippedAfter(s: string, q: int)
    requires 0 <= q < |s| && !IsSpace(s[|s| - 1])
    ensures var last := Strip(s[q..]);
      && 0 < |last| <= |s| - q && last == s[|s| - |last|..] && AllSpace(s[q..|s| - |last|])
  {
    var after := s[q..];
    assert after[|after| - 1] == s[|s| - 1];
    StripKeepsEnd(after);
    ReSlice(s, q, Strip(after));
  }

  lemma ReSlice(s: string, q: int, last: string)
    requires 0 <= q <= |s| && |last| <= |s| - q
    requires last == s[q..][|s| - q - |last|..] && AllSpace(s[q..][..|s| - q - |last|])
    ensures last == s[|s| - |last|..] && AllSpace(s[q..|s| - |last|])
  {
    var m := |s| - q - |last|;
    SuffixOfSuffix(s, q, m);
    SliceOfSuffix(s, q, m);
  }

  /** Nothing after the last space is a space. */
  lemma NoSpaceAfter(s: string, p: int, j: int)
    requires 0 <= p < j <= |s| && forall k :: p < k < |s| ==> s[k] != ' '
    ensures ' ' !in s[j..]
  {
    forall k | 0 <= k < |s| - j ensures s[j..][k] != ' ' {
      assert s[j..][k] == s[j + k];
    }
  }

  /** Whitespace, a space, whitespace: a gap of whitespace holding a
      space. */
  lemma GapIsSpace(s: string, i: int, p: int, j: int)
    requires 0 <= i <= p < j <= |s| && s[p] == ' '
    requires AllSpace(s[i..p]) && AllSpace(s[p + 1..j])
    ensures AllSpace(s[i..j]) && ' ' in s[i..j]
  {
    assert s[i..j] == s[i..p] + [s[p]] + s[p + 1..j];
    AllSpaceConcat(s[i..p], [s[p]], s[p + 1..j]);
    assert s[i..j][p - i] == ' ';
  }

  /** A name without a space is a last name only; the empty name gives two
      empty parts. */
  lemma SplitWithoutSpace(fullName: string)
    requires ' ' !in fullName
    ensures SplitName(fullName) == ("", fullName)
  {
  }

  /** Joining a stripped first name and a stripped, space-free last name
      with a space and splitting again gives the two parts back. */
  lemma {:induction false} JoinThenSplit(first: string, last: string)
    requires Trimmed(first) && Trimmed(last) && ' ' !in last
    ensures SplitName(first + " " + last) == (first, last)
  {
    var fullName := first + " " + last;
    assert fullName[|first|] == ' ';
    var p := RFind(fullName, ' ');
    assert p == |first|;
    assert fullName[..p] == first && fullName[p + 1..] == last;
    TrimmedIsFixed(first);
    TrimmedIsFixed(last);
  }

  /** A name with several words: everything before the last space is the
      first name. */
  lemma SplitExampleFullName()
    ensures SplitName("Jane Mary Smith") == ("Jane Mary", "Smith")
  {
    var first, last := "Jane Mary", "Smith";
    assert first + " " + last == "Jane Mary Smith";
    JoinThenSplit(first, last);
  }

  /** A single-word name is a last name only. */
  lemma SplitExampleSingleName()
    ensures SplitName("Cher") == ("", "Cher")
  {
    var single := "Cher";
    assert ' ' !in single;
    SplitWithoutSpace(single);
  }

  /** The record built from one row: every field stripped, a last name
      without spaces, and names no longer than the stripped name cell. */
  function ToGuest(row: Row): (g: Guest)
    ensures Trimmed(g.firstName) && Trimmed(g.lastName) && Trimmed(g.table)
    ensures ' ' !in g.lastName
    ensures |g.firstName| + |g.lastName| <= |FullName(row)|
    ensures g.table == TableCell(row)
  {
    var (first, last) := SplitName(FullName(row));
    Guest(first, last, TableCell(row))
  }

  /** What a row's record holds: the table cell of the first table alias,
      a last name that is empty exactly when the name cell is blank, and a
      first name that is non-empty exactly when the stripped name has a
      space; the name is the first name, whitespace, the last name. */
  lemma ToGuestFields(row: Row)
    ensures var g := ToGuest(row);
      var name := Strip(FirstPresent(row, NameAliases));
      && g.table == Strip(FirstPresent(row, TableAliases))
      && (g.lastName == [] <==> name == [])
      && (g.firstName != [] <==> ' ' in name)
      && ' ' !in g.lastName
      && (' ' !in name ==> g.lastName == name)
      && (' ' in name ==> && |g.firstName| + |g.lastName| < |name|
                          && name == g.firstName + name[|g.firstName|..|name| - |g.lastName|] + g.lastName)
  {
    ColumnLookup(row);
    var name := FullName(row);
    if ' ' in name {
      SplitAtLastSpace(name);
    }
  }

  /** `read_guests`: one record per row, in row order, none dropped. */
  method ReadGuests(rows: seq<Row>) returns (guests: seq<Guest>)
    ensures guests == MapSeq(rows, ToGuest)
  {
    guests := [];
    for n := 0 to |rows|
      invariant guests == MapSeq(rows[..n], ToGuest)
    {
      MapSeqPrefix(rows, n, ToGuest);
      guests := guests + [ToGuest(rows[n])];
    }
    WholePrefix(rows);
  }
}
