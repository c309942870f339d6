/** The few string builtins the guest-list preparation relies on:
    `str.strip()`, `str.rfind(' ')`, `' ' in s` and `str.upper()`. */
module Text {

  /** A character `str.isspace()` accepts, and so one that `str.strip()`
      with no argument removes: the ASCII controls TAB..CR and FS..US,
      the space, NEL, NO-BREAK SPACE and the Unicode space separators,
      line and paragraph separators. */
  predicate IsSpace(c: char) {
    || '\t' <= c <= '\r'
    || '\U{1C}' <= c <= ' '
    || c == '\U{85}' || c == '\U{A0}' || c == '\U{1680}'
    || '\U{2000}' <= c <= '\U{200A}'
    || c == '\U{2028}' || c == '\U{2029}' || c == '\U{202F}' || c == '\U{205F}'
    || c == '\U{3000}'
  }

  predicate AllSpace(s: string) {
    forall k :: 0 <= k < |s| ==> IsSpace(s[k])
  }

  /** No whitespace at either end: what `str.strip()` leaves. */
  predicate Trimmed(s: string) {
    s == [] || (!IsSpace(s[0]) && !IsSpace(s[|s| - 1]))
  }

  /** The number of whitespace characters `s` starts with. */
  function LeadingSpace(s: string): (n: nat)
    ensures n <= |s|
  {
    if s != [] && IsSpace(s[0]) then 1 + LeadingSpace(s[1..]) else 0
  }

  /** The number of whitespace characters `s` ends with. */
  function TrailingSpace(s: string): (n: nat)
    ensures n <= |s|
  {
    if s != [] && IsSpace(s[|s| - 1]) then 1 + TrailingSpace(s[..|s| - 1]) else 0
  }

  /** `LeadingSpace` counts exactly the whitespace run at the start. */
  lemma {:induction false} LeadingSpaceRun(s: string)
    ensures LeadingSpace(s) <= |s|
    ensures forall k :: 0 <= k < LeadingSpace(s) ==> IsSpace(s[k])
    ensures LeadingSpace(s) < |s| ==> !IsSpace(s[LeadingSpace(s)])
  {
    if s != [] && IsSpace(s[0]) {
      LeadingSpaceRun(s[1..]);
    }
  }

  /** `TrailingSpace` counts exactly the whitespace run at the end. */
  lemma {:induction false} TrailingSpaceRun(s: string)
    ensures TrailingSpace(s) <= |s|
    ensures forall k :: |s| - TrailingSpace(s) <= k < |s| ==> IsSpace(s[k])
    ensures TrailingSpace(s) < |s| ==> !IsSpace(s[|s| - TrailingSpace(s) - 1])
  {
    if s != [] && IsSpace(s[|s| - 1]) {
      TrailingSpaceRun(s[..|s| - 1]);
    }
  }

  /** `s.strip()`: `s` without its leading whitespace, then without its
      trailing whitespace. */
  function Strip(s: string): (r: string)
    ensures Trimmed(r)
    ensures |r| <= |s|
    ensures forall c :: c in r ==> c in s
  {
    LeadingSpaceRun(s);
    var t := s[LeadingSpace(s)..];
    TrailingSpaceRun(t);
    t[..|t| - TrailingSpace(t)]
  }

  /** What `strip` removes: the result is the slice of `s` that starts
      after its leading whitespace, and only whitespace surrounds it. */
  lemma StripSlice(s: string)
    ensures LeadingSpace(s) + |Strip(s)| <= |s|
    ensures Strip(s) == s[LeadingSpace(s)..LeadingSpace(s) + |Strip(s)|]
    ensures AllSpace(s[..LeadingSpace(s)])
    ensures AllSpace(s[LeadingSpace(s) + |Strip(s)|..])
  {
    StripBounds(s);
    StripSurround(s);
  }

  /** The stripped text is the slice that starts after the leading
      whitespace and leaves out the trailing whitespace. */
  lemma StripBounds(s: string)
    ensures LeadingSpace(s) + TrailingSpace(s[LeadingSpace(s)..]) <= |s|
    ensures |Strip(s)| == |s| - LeadingSpace(s) - TrailingSpace(s[LeadingSpace(s)..])
    ensures Strip(s) == s[LeadingSpace(s)..LeadingSpace(s) + |Strip(s)|]
  {
    var i := LeadingSpace(s);
    LeadingSpaceRun(s);
    var t := s[i..];
    TrailingSpaceRun(t);
    SliceOfSuffix(s, i, |t| - TrailingSpace(t));
  }

  /** Only whitespace lies before and after the stripped text. */
  lemma StripSurround(s: string)
    ensures AllSpace(s[..LeadingSpace(s)])
    ensures AllSpace(s[|s| - TrailingSpace(s[LeadingSpace(s)..])..])
  {
    LeadingSpaceRun(s);
    SpacePrefix(s, LeadingSpace(s));
    TrailingSurround(s, LeadingSpace(s));
  }

  lemma TrailingSurround(s: string, i: nat)
    requires i <= |s|
    ensures AllSpace(s[|s| - TrailingSpace(s[i..])..])
  {
    TrailingSpaceRun(s[i..]);
    SpaceSuffix(s, i, TrailingSpace(s[i..]));
  }

  /** Taking `m` characters of the suffix from `i` is the slice from `i`
      of length `m`. */
  lemma SliceOfSuffix(s: string, i: int, m: int)
    requires 0 <= i <= |s| && 0 <= m <= |s| - i
    ensures s[i..][..m] == s[i..i + m]
  {
  }

  lemma SuffixOfSuffix(s: string, i: int, k: int)
    requires 0 <= i <= |s| && 0 <= k <= |s| - i
    ensures s[i..][k..] == s[i + k..]
  {
  }

  lemma PrefixOfPrefix(s: string, p: int, i: int)
    requires 0 <= i <= p <= |s|
    ensures s[..p][..i] == s[..i]
  {
  }

  lemma SuffixOfPrefix(s: string, p: int, i: int)
    requires 0 <= i <= p <= |s|
    ensures s[..p][i..] == s[i..p]
  {
  }

  /** A whitespace run at the start is a whitespace prefix. */
  lemma SpacePrefix(s: string, i: int)
    requires 0 <= i <= |s|
    requires forall k :: 0 <= k < i ==> IsSpace(s[k])
    ensures AllSpace(s[..i])
  {
    forall k | 0 <= k < i ensures IsSpace(s[..i][k]) {
      assert s[..i][k] == s[k];
    }
  }

  /** A whitespace run at the end of the suffix from `i` is a whitespace
      suffix of `s`. */
  lemma SpaceSuffix(s: string, i: int, n: int)
    requires 0 <= i <= |s| && 0 <= n <= |s| - i
    requires forall k :: |s[i..]| - n <= k < |s[i..]| ==> IsSpace(s[i..][k])
    ensures AllSpace(s[|s| - n..])
  {
    var tail := s[|s| - n..];
    forall k | 0 <= k < n ensures IsSpace(tail[k]) {
      assert tail[k] == s[i..][|s| - i - n + k];
    }
  }

  /** Stripping a string that starts with non-whitespace removes only a
      whitespace tail, and leaves a non-empty prefix. */
  lemma StripKeepsStart(s: string)
    requires s != [] && !IsSpace(s[0])
    ensures 0 < |Strip(s)| <= |s|
    ensures Strip(s) == s[..|Strip(s)|]
    ensures AllSpace(s[|Strip(s)|..])
  {
    StripSlice(s);
    LeadingSpaceRun(s);
    assert LeadingSpace(s) == 0;
  }

  /** Stripping a string that ends with non-whitespace removes only a
      whitespace head, and leaves a non-empty suffix. */
  lemma StripKeepsEnd(s: string)
    requires s != [] && !IsSpace(s[|s| - 1])
    ensures 0 < |Strip(s)| <= |s|
    ensures Strip(s) == s[|s| - |Strip(s)|..]
    ensures AllSpace(s[..|s| - |Strip(s)|])
  {
    LeadingSpaceRun(s);
    var i := LeadingSpace(s);
    assert i < |s|;
    var t := s[i..];
    assert t[|t| - 1] == s[|s| - 1];
    TrailingSpaceRun(t);
    assert TrailingSpace(t) == 0;
    assert Strip(s) == t;
  }

  /** Stripping twice is stripping once. */
  lemma StripIdempotent(s: string)
    ensures Strip(Strip(s)) == Strip(s)
  {
    TrimmedIsFixed(Strip(s));
  }

  /** A string without whitespace at its ends is its own strip. */
  lemma TrimmedIsFixed(s: string)
    requires Trimmed(s)
    ensures Strip(s) == s
  {
    LeadingSpaceRun(s);
    TrailingSpaceRun(s);
    assert LeadingSpace(s) == 0;
    assert TrailingSpace(s) == 0;
    assert s[0..] == s;
  }

  /** A string is its three slices at `i` and `j`, one after another. */
  lemma ThreeSlices(s: string, i: int, j: int)
    requires 0 <= i <= j <= |s|
    ensures s == s[..i] + s[i..j] + s[j..]
  {
  }

  lemma AllSpaceConcat(a: string, b: string, c: string)
    requires AllSpace(a) && AllSpace(b) && AllSpace(c)
    ensures AllSpace(a + b + c)
  {
  }

  /** `s.rfind(c)`: the index of the last `c` in `s`, or -1. */
  function RFind(s: string, c: char): (r: int)
    ensures -1 <= r < |s|
    ensures r == -1 <==> c !in s
    ensures r >= 0 ==> s[r] == c
    ensures forall k :: r < k < |s| ==> s[k] != c
  {
    if s == [] then -1
    else if s[|s| - 1] == c then |s| - 1
    else RFind(s[..|s| - 1], c)
  }

  /** `s.find(c)`, except that a missing `c` gives `|s|` rather than -1. */
  function IndexOf(s: string, c: char): (i: nat)
    ensures i <= |s|
    ensures forall k :: 0 <= k < i ==> s[k] != c
    ensures i < |s| ==> s[i] == c
  {
    if s == [] || s[0] == c then 0 else 1 + IndexOf(s[1..], c)
  }

  /** Searching past a prefix without `c`. */
  lemma IndexOfAfter(a: string, b: string, c: char)
    requires c !in a
    ensures IndexOf(a + b, c) == |a| + IndexOf(b, c)
  {
    var i, j := IndexOf(a + b, c), IndexOf(b, c);
    assert forall k :: 0 <= k < |b| ==> (a + b)[|a| + k] == b[k];
  }

  predicate StartsWith(s: string, prefix: string) {
    |prefix| <= |s| && s[..|prefix|] == prefix
  }

  /** `str.upper()` on one character, ASCII letters only. */
  function Upper(c: char): (u: char)
    ensures ('A' <= u <= 'Z') <==> ('a' <= c <= 'z' || 'A' <= c <= 'Z')
    ensures !('a' <= u <= 'z')
    ensures 'a' <= c <= 'z' ==> u as int == c as int - 32
    ensures !('a' <= c <= 'z') ==> u == c
  {
    if 'a' <= c <= 'z' then (c as int - 32) as char else c
  }

  /** Upper-casing an upper-cased character changes nothing. */
  lemma UpperIdempotent(c: char)
    ensures Upper(Upper(c)) == Upper(c)
  {
  }

  /** `s.upper()`, character by character. */
  function UpperStr(s: string): (r: string)
    ensures |r| == |s|
    ensures forall k :: 0 <= k < |s| ==> r[k] == Upper(s[k])
  {
    if s == [] then [] else [Upper(s[0])] + UpperStr(s[1..])
  }
  /** Upper-casing an upper-cased string changes nothing, and leaves no
      ASCII lower-case letter. */
  lemma UpperStrIdempotent(s: string)
    ensures UpperStr(UpperStr(s)) == UpperStr(s)
    ensures forall k :: 0 <= k < |s| ==> !('a' <= UpperStr(s)[k] <= 'z')
  {
    var u := UpperStr(s);
    forall k | 0 <= k < |s| ensures UpperStr(u)[k] == u[k] {
      UpperIdempotent(s[k]);
    }
  }

}
