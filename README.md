# Wedding guest list: guest-list preparation in Dafny

A model of what `generate_guestlist_pdf.py` does to a seating CSV before it hands
anything to the ReportLab layout engine:

- `read_guests` turns each CSV row into a guest record. It reads the name from the
  `Name` or `name` column and strips it. It splits the name at the last space into
  a first and a last name. It reads the table from `Table No.`, `Table` or `table`
  and strips it.
- `group_by_alphabet` files each guest under the upper-cased first letter of the
  last name, or under `#` when the last name is empty. It returns the buckets in
  ascending key order.
- The content loop of `generate_guestlist_pdf` emits, per bucket, a letter heading,
  then one marked-up line per guest, then a `Spacer(1, 32)`. The guests are sorted
  case-sensitively by (last name, first name). Each line reads
  `first <b>last</b> <font color='#888888'>table</font>`, without the `first `
  prefix when the first name is empty.
- The `__main__` block sorts the guests case-insensitively (upper-cased last name, then upper-cased
  first name) before grouping.

Modules, one file each:

| file | module | models |
|---|---|---|
| `text.dfy` | `Text` | `str.strip()`, `str.rfind`, `' ' in s`, `str.upper()` |
| `sequences.dfy` | `Sequences` | small facts about slicing and concatenation used by the proofs |
| `collation.dfy` | `Collation` | Python string and pair ordering; `sorted(..., key=...)` as a stable sort |
| `guests.dfy` | `GuestRecords` | `read_guests`: column aliases, the name split, one record per row |
| `grouping.dfy` | `Grouping` | `group_by_alphabet`: the `defaultdict` filing loop, then the sorted items |
| `render.dfy` | `Render` | the guest line formatter and the content loop |
| `guestlist.dfy` | `GuestList` | the outer sort in the `__main__` block and the whole preparation pipeline |

A CSV row is a `map<string, string>` from header to cell. A guest is the datatype
`Guest(firstName, lastName, table)`. The returned dictionary is a sequence of
`Group(letter, guests)`. The content list is a sequence of `Block` values:
`Heading(letter)`, `Entry(text)` and `Spacer(width, height)`. These stand for the
letter paragraph, the guest paragraph and the spacer.

The loops of the source are methods proved against specification functions:

- `ReadGuests` against `ToGuest`.
- `GroupByAlphabet` against `IsGrouping`, which is stated with `Bucket`.
- `BuildContent` against `Content`.

The main results are these:

- The name split is exact. Joining a stripped first name and a stripped, space-free
  last name with a space, then splitting, gives both back.
- Grouping conserves every guest and keeps the input order inside each bucket.
- The keys, and each bucket's guests up to order, do not depend on the input order.
- The guest line can be read back for fields without `<`, so it is injective on them.
- The content list holds exactly one line per row, under the headings of the
  bucket keys.
- The outer case-insensitive sort cannot change the content list when no two guests
  share a (last name, first name) pair. Whatever the outer sort did, the headings
  and the order of names within each bucket stay the same. `CaseOrdersDisagree`
  shows the two orders really differ ("dawson" and "Devries").

Behaviours of the code worth knowing:

- The program has no font-size shrink loop. The sizes are fixed at
  `generate_guestlist_pdf.py:75` and `:83`.
- Only the `Name`/`name` column is read. The first and last names are split out of it.
- The `#` bucket also receives last names that start with `#`.

## Model

| member | source | states |
|---|---|---|
| Text.Strip | generate_guestlist_pdf.py:15 | the stripped text has no whitespace, as `str.isspace` defines it, at either end; it is no longer than the input and holds only characters of the input |
| Text.StripSlice | generate_guestlist_pdf.py:15 | the stripped text is a contiguous slice of the input, and only whitespace is removed on either side |
| Text.StripIdempotent | generate_guestlist_pdf.py:20-21 | stripping an already stripped name changes nothing |
| Text.TrimmedIsFixed | generate_guestlist_pdf.py:20-21 | a string without whitespace at its ends is its own strip |
| Text.StripKeepsStart | generate_guestlist_pdf.py:20 | stripping text that starts with non-whitespace removes only a whitespace tail and leaves a non-empty prefix |
| Text.StripKeepsEnd | generate_guestlist_pdf.py:21 | stripping text that ends with non-whitespace removes only a whitespace head and leaves a non-empty suffix |
| Text.RFind | generate_guestlist_pdf.py:19 | the result is -1 exactly when the character is absent; otherwise it indexes that character, and no later index holds it |
| Text.Upper | generate_guestlist_pdf.py:41 | the result is an ASCII upper-case letter exactly when the input is an ASCII letter, and is never an ASCII lower-case letter; a lower-case letter moves to its upper-case counterpart and every other character is unchanged |
| Text.UpperIdempotent | generate_guestlist_pdf.py:41 | upper-casing an upper-cased character changes nothing |
| Text.UpperStr | generate_guestlist_pdf.py:121 | upper-casing keeps the length and maps each character through `Upper` |
| Text.UpperStrIdempotent | generate_guestlist_pdf.py:121 | upper-casing an upper-cased string changes nothing, and an upper-cased string holds no ASCII lower-case letter |
| GuestRecords.FullName | generate_guestlist_pdf.py:15 | the full name has no whitespace at either end (which column it comes from is stated by `ColumnLookup`) |
| GuestRecords.TableCell | generate_guestlist_pdf.py:29 | the table cell has no whitespace at either end (which column it comes from is stated by `ColumnLookup`) |
| GuestRecords.ColumnLookup | generate_guestlist_pdf.py:15-29 | the name is the stripped cell of the first of `Name`, `name` that is present, and the table the stripped cell of the first of `Table No.`, `Table`, `table`; with no alias present, each is "" |
| GuestRecords.SplitName | generate_guestlist_pdf.py:17-27 | the last name never holds a space; the two parts together are no longer than the full name; a stripped full name gives stripped parts |
| GuestRecords.SplitAtLastSpace | generate_guestlist_pdf.py:17-21 | a stripped name with a space splits into a non-empty, stripped first and last name; the last name is the text after the last space and holds no space; only whitespace, including that space, lies between them |
| GuestRecords.SplitWithoutSpace | generate_guestlist_pdf.py:22-27 | a name without a space gives an empty first name and the whole name as the last name; the empty name gives two empty parts |
| GuestRecords.JoinThenSplit | generate_guestlist_pdf.py:17-21 | joining a stripped first name and a stripped, space-free last name with a space, then splitting, gives the two parts back |
| GuestRecords.SplitAtSpace | generate_guestlist_pdf.py:17-21 | splitting a stripped name at a space with no space after it gives a non-empty first and last name; the last name holds no space; only whitespace, including that space, lies between them |
| GuestRecords.SplitExampleFullName | generate_guestlist_pdf.py:17-21 | "Jane Mary Smith" splits into "Jane Mary" and "Smith" |
| GuestRecords.SplitExampleSingleName | generate_guestlist_pdf.py:17-24 | "Cher" splits into "" and "Cher" |
| GuestRecords.ToGuest | generate_guestlist_pdf.py:15-35 | every field of the record is stripped; the last name holds no space; the two names together are no longer than the stripped name cell; the table is the looked-up table cell |
| GuestRecords.ToGuestFields | generate_guestlist_pdf.py:13-35 | a row's record holds the looked-up stripped table; its last name is empty exactly when the name is blank; its first name is non-empty exactly when the name has a space; its last name never holds a space |
| GuestRecords.ReadGuests | generate_guestlist_pdf.py:9-36 | one record per row, in row order, none dropped, each being that row's `ToGuest` |
| Grouping.Key | generate_guestlist_pdf.py:41 | the key is never an ASCII lower-case letter; it is `#` exactly when the last name is empty or starts with `#`, and an upper-case letter exactly when the last name starts with an ASCII letter |
| Grouping.KeyCases | generate_guestlist_pdf.py:41 | the key is `#` exactly when the last name is empty or starts with `#`; a non-empty last name is filed under its first character passed through `Upper`, so an ASCII letter lands under its upper-case form and any other ASCII character, such as `1` or `(`, under itself |
| Grouping.Bucket | generate_guestlist_pdf.py:39-42 | a bucket holds only guests of its key, and no more guests than the input |
| Grouping.BucketCount | generate_guestlist_pdf.py:39-42 | a bucket holds every guest of its key as often as the input does, and no guest of another key |
| Grouping.BucketConcat | generate_guestlist_pdf.py:42 | appending keeps input order: the bucket of a concatenation is the concatenation of the buckets |
| Grouping.FiledItems | generate_guestlist_pdf.py:39-43 | after the loop, the dictionary's items have distinct keys, cover every guest's key, and each holds the non-empty bucket of its key |
| Grouping.FileOne | generate_guestlist_pdf.py:40-42 | appending a guest to its bucket, creating the bucket on first use, keeps the dictionary a bucketing of the guests seen so far |
| Grouping.FiledBuckets | generate_guestlist_pdf.py:42 | after appending a guest to its bucket, every bucket is still the non-empty bucket of the guests seen so far |
| Grouping.FiledKeys | generate_guestlist_pdf.py:42 | after appending a guest to its bucket, every guest seen so far has a bucket |
| Grouping.GroupByAlphabet | generate_guestlist_pdf.py:38-43 | the keys come back strictly ascending; they are the keys of the guests; each bucket is non-empty and holds its key's guests in input order; the buckets together are a permutation of the input |
| Grouping.InsertGroup | generate_guestlist_pdf.py:43 | inserting an item into the sorted items adds exactly that item |
| Grouping.InsertGroupAscending | generate_guestlist_pdf.py:43 | inserting an item with a new key into strictly ascending items keeps them strictly ascending |
| Grouping.SortGroups | generate_guestlist_pdf.py:43 | sorting the items keeps them all, and orders distinct keys strictly ascending |
| Grouping.SortedItemsGroup | generate_guestlist_pdf.py:43 | sorting the dictionary's items gives the grouping of the guests |
| Grouping.FlattenCount | generate_guestlist_pdf.py:39-42 | buckets with distinct keys hold each guest as often as the input does when its key is among them, and not at all otherwise |
| Grouping.GroupingConservesGuests | generate_guestlist_pdf.py:39-42 | the buckets together hold exactly the input guests, each as often as the input does |
| Grouping.HashGroupFirst | generate_guestlist_pdf.py:43 | when every non-empty last name starts with an ASCII letter and some last name is empty, the `#` bucket comes first |
| Grouping.AscendingDetermined | generate_guestlist_pdf.py:43 | two strictly ascending key sequences with the same keys are equal |
| Grouping.LettersAreKeys | generate_guestlist_pdf.py:41-43 | a key is returned exactly when some guest has that key |
| Grouping.GroupingDetermined | generate_guestlist_pdf.py:38-43 | two orderings of the same guests give the same keys, and each bucket holds the same guests |
| Collation.StrLe | generate_guestlist_pdf.py:94 | a prefix compares at or below the longer string, so every string is at or below itself; a non-empty string at or below another starts with a character no greater than the other's first |
| Collation.PairLe | generate_guestlist_pdf.py:94 | every pair is at or below itself, and pairs in order have their first components in order |
| Collation.StrLtAt | generate_guestlist_pdf.py:94 | the first position where two strings differ decides their order |
| Collation.StrLeTotal | generate_guestlist_pdf.py:94 | Python string comparison is total |
| Collation.StrLeAntisymmetric | generate_guestlist_pdf.py:94 | strings that compare both ways are equal |
| Collation.StrLeTransitive | generate_guestlist_pdf.py:94 | string comparison is transitive |
| Collation.PairLeTotal | generate_guestlist_pdf.py:94 | the comparison of (last, first) pairs is total |
| Collation.PairLeAntisymmetric | generate_guestlist_pdf.py:94 | pairs that compare both ways are equal |
| Collation.PairLeTransitive | generate_guestlist_pdf.py:94 | pair comparison is transitive |
| Collation.Insert | generate_guestlist_pdf.py:94 | the insertion step adds exactly the inserted element |
| Collation.InsertSorted | generate_guestlist_pdf.py:94 | inserting into a key-sorted sequence keeps it key-sorted |
| Collation.InsertWithKey | generate_guestlist_pdf.py:94 | an inserted element lands after the elements that share its key |
| Collation.SortByKey | generate_guestlist_pdf.py:94 | `sorted` returns a permutation of its input in non-decreasing key order |
| Collation.SortByKeyStable | generate_guestlist_pdf.py:94 | `sorted` is stable: the elements that share a key keep their input order |
| Collation.MapSeqPermutation | generate_guestlist_pdf.py:94 | mapping two permutations of one another gives permutations of one another |
| Collation.SortedPairsUnique | generate_guestlist_pdf.py:94 | two sorted key sequences with the same elements are equal |
| Collation.SortedKeysDetermined | generate_guestlist_pdf.py:94 | however its input is ordered, `sorted` yields the same sequence of keys |
| Collation.SortedDistinctKeysDetermined | generate_guestlist_pdf.py:94 | when no two elements share a key, `sorted` yields the same sequence however its input is ordered |
| Render.NameKeyOrder | generate_guestlist_pdf.py:94 | under the (last, first) key the last name decides: keys in order have last names in order, a smaller last name gives a smaller key, and between equal last names the first names decide |
| Render.GuestLine | generate_guestlist_pdf.py:100-106 | the line is the first name and a space (nothing when the first name is empty), then the bold last name and the grey table, which every line ends with in the same form |
| Render.DisplayNameShape | generate_guestlist_pdf.py:100-106 | both display-name forms, followed by the table, share the same tail from the bold last name on |
| Render.ParseTailRoundTrip | generate_guestlist_pdf.py:102-106 | the bold last name and grey table of a line read back as themselves when they hold no `<` |
| Render.GuestLineRoundTrip | generate_guestlist_pdf.py:100-106 | reading a guest line back gives the guest it was made from, when no field holds `<` |
| Render.GuestLineInjective | generate_guestlist_pdf.py:100-106 | two such guests with the same line are the same guest |
| Render.GuestLineStart | generate_guestlist_pdf.py:100-104 | the line opens with the bold last name exactly when the first name is empty |
| Render.FirstNameRoundTrip | generate_guestlist_pdf.py:100-104 | the text in front of the bold last name reads back as the first name, or "" |
| Render.SplitAfterPrefix | generate_guestlist_pdf.py:100-104 | a line splits at its first markup character into the first-name prefix and the marked-up rest |
| Render.Entries | generate_guestlist_pdf.py:94-106 | one entry per guest |
| Render.GroupBlocks | generate_guestlist_pdf.py:93-107 | a bucket gives two blocks more than it has guests, opening with its letter heading and closing with `Spacer(1, 32)` |
| Render.Content | generate_guestlist_pdf.py:90-107 | the content list holds two blocks per bucket plus one per guest in the buckets |
| Render.AppendGroup | generate_guestlist_pdf.py:93-107 | one pass of the loop appends the bucket's heading, its sorted guest lines and the spacer |
| Render.BuildContent | generate_guestlist_pdf.py:90-107 | the loop builds the content list of the buckets, in bucket order |
| Render.EntryTextsConcat | generate_guestlist_pdf.py:90-107 | the lines and headings of concatenated content are the concatenations of their lines and headings |
| Render.EntriesAreLines | generate_guestlist_pdf.py:94-106 | the entries of a run of guests are their guest lines, in order, with no heading |
| Render.GroupBlocksFrame | generate_guestlist_pdf.py:93-107 | a bucket's blocks open with its heading and close with `Spacer(1, 32)`; in between is one entry per guest and no other heading |
| Render.GroupBlocksEntries | generate_guestlist_pdf.py:94-106 | a bucket's entries are the lines of its guests in case-sensitive (last name, first name) order |
| Render.ContentHeadings | generate_guestlist_pdf.py:90-93 | the headings of the content list are the bucket keys, in order |
| Render.ContentEntries | generate_guestlist_pdf.py:90-107 | the content list holds one line per guest in the buckets, each as often as the buckets hold that guest |
| GuestList.FoldedKeyIgnoresCase | generate_guestlist_pdf.py:121 | upper-casing the names first leaves the outer sort key unchanged, and that key holds no ASCII lower-case letter |
| GuestList.GenerateContent | generate_guestlist_pdf.py:90-107 | the content list is that of `group_by_alphabet`'s buckets; its headings are strictly ascending and are exactly the guests' keys; its lines are a permutation of the guests' lines |
| GuestList.PrepareGuestList | generate_guestlist_pdf.py:120-122 | rows, read and sorted case-insensitively, give a content list with exactly one line per row |
| GuestList.OuterOrderKeys | generate_guestlist_pdf.py:121 | in any order of the same guests, the headings and, bucket by bucket, the case-sensitive order of names are the same |
| GuestList.ContentCongruent | generate_guestlist_pdf.py:90-107 | buckets that render to the same blocks give the same content list |
| GuestList.SortedBucketDetermined | generate_guestlist_pdf.py:94 | sorting a bucket whose guests have distinct (last, first) pairs gives one result whatever the bucket's order |
| GuestList.OuterOrderIrrelevant | generate_guestlist_pdf.py:121 | when no two guests share a (last, first) pair, the outer sort has no effect on the content list |
| GuestList.CaseOrdersDisagree | generate_guestlist_pdf.py:121 | the outer key puts "dawson" before "Devries", the bucket sort puts "Devries" first, and both are filed under `D` |

## Left out

- ReportLab document construction is not modelled (generate_guestlist_pdf.py:60-93, 107-109). This covers `BaseDocTemplate`, `Frame`, `PageTemplate`, the paragraph styles and `doc.build`. These are foreign calls whose layout and PDF encoding are not visible. The `Paragraph` and `Spacer` objects are kept as `Block` values carrying their text or size.
- Page geometry is not modelled (generate_guestlist_pdf.py:46-58). It is floating-point arithmetic on A1 and inch constants that only feeds the layout engine.
- Opening the file and `csv.DictReader` tokenisation are not modelled (generate_guestlist_pdf.py:11-12). Rows are taken as already-parsed header-to-cell maps.
- Short CSV rows are not modelled. When a row is shorter than the header, `csv.DictReader` gives `None` for the missing cells, and `.strip()` on `None` raises instead of yielding "". A missing column, which is the case the model covers, does yield "".
- The `argparse` handling, the `print` at line 110 and the `__main__` plumbing are not modelled. The sort at line 121 is, in `PrepareGuestList`.
- Text.Upper: only ASCII letters are upper-cased. Python's `str.upper` is Unicode-aware and can lengthen a string (`'ß'` becomes `"SS"`), so a non-ASCII key can differ from the source's.
- Text.Strip: the whitespace set is the one `str.isspace` accepts, written out. Unicode database updates are not tracked.
- Collation.SortByKey: `sorted` is modelled as a stable insertion sort, not Timsort. A stable sort's result is determined by its input and key, so only the number of comparisons differs.
- Render.GuestLineRoundTrip: the round trip is proved only for fields without `<`. A name or table holding markup is passed to ReportLab as markup, and the line no longer determines the guest.
