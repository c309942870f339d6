/** Python's ordering of strings (code point by code point) and of pairs of
    strings (first component, then second), and `sorted(xs, key=...)`, a
    stable sort by a key of that pair type. */
module Collation {
  import opened Sequences

  /** The key both sort calls use: a pair of strings. */
  type NamePair = (string, string)

  /** `a <= b` on Python strings: a prefix comes first (so every string is
      below itself), and otherwise the first characters are in order. */
  predicate StrLe(a: string, b: string): (r: bool)
    ensures |a| <= |b| && a == b[..|a|] ==> r
    ensures r && a != [] ==> b != [] && a[0] <= b[0]
  {
    a == [] || (b != [] && (a[0] < b[0] || (a[0] == b[0] && StrLe(a[1..], b[1..]))))
  }

  predicate StrLt(a: string, b: string) {
    StrLe(a, b) && a != b
  }

  /** `p <= q` on Python tuples of two strings: reflexive, and the first
      components are in order whenever the pairs are. */
  predicate PairLe(p: NamePair, q: NamePair): (r: bool)
    ensures p == q ==> r
    ensures r ==> StrLe(p.0, q.0)
  {
    StrLt(p.0, q.0) || (p.0 == q.0 && StrLe(p.1, q.1))
  }

  predicate PairLt(p: NamePair, q: NamePair) {
    PairLe(p, q) && p != q
  }

  lemma {:induction false} StrLeTotal(a: string, b: string)
    ensures StrLe(a, b) || StrLe(b, a)
  {
    if a != [] && b != [] && a[0] == b[0] {
      StrLeTotal(a[1..], b[1..]);
    }
  }

  /** The first position where two strings differ decides their order. */
  lemma {:induction false} StrLtAt(a: string, b: string, i: nat)
    requires i < |a| && i < |b| && a[..i] == b[..i] && a[i] < b[i]
    ensures StrLt(a, b)
  {
    if i > 0 {
      assert a[0] == a[..i][0] && b[0] == b[..i][0];
      assert a[1..][..i - 1] == a[..i][1..] && b[1..][..i - 1] == b[..i][1..];
      StrLtAt(a[1..], b[1..], i - 1);
    }
  }

  lemma {:induction false} StrLeAntisymmetric(a: string, b: string)
    requires StrLe(a, b) && StrLe(b, a)
    ensures a == b
  {
    if a != [] {
      StrLeAntisymmetric(a[1..], b[1..]);
      assert a == [a[0]] + a[1..];
      assert b == [b[0]] + b[1..];
    }
  }

  lemma {:induction false} StrLeTransitive(a: string, b: string, c: string)
    requires StrLe(a, b) && StrLe(b, c)
    ensures StrLe(a, c)
  {
    if a != [] && a[0] == b[0] && b[0] == c[0] {
      StrLeTransitive(a[1..], b[1..], c[1..]);
    }
  }

  lemma PairLeTotal(p: NamePair, q: NamePair)
    ensures PairLe(p, q) || PairLe(q, p)
  {
    StrLeTotal(p.0, q.0);
    StrLeTotal(p.1, q.1);
  }

  lemma PairLeAntisymmetric(p: NamePair, q: NamePair)
    requires PairLe(p, q) && PairLe(q, p)
    ensures p == q
  {
    if p.0 != q.0 {
      StrLeAntisymmetric(p.0, q.0);
    } else {
      StrLeAntisymmetric(p.1, q.1);
    }
  }

  lemma PairLeTransitive(p: NamePair, q: NamePair, r: NamePair)
    requires PairLe(p, q) && PairLe(q, r)
    ensures PairLe(p, r)
  {
    if p.0 == q.0 && q.0 == r.0 {
      StrLeTransitive(p.1, q.1, r.1);
    } else if p.0 != q.0 && q.0 != r.0 {
      StrLeTransitive(p.0, q.0, r.0);
      if p.0 == r.0 {
        StrLeAntisymmetric(p.0, q.0);
      }
    }
  }

  /** A sequence of keys in non-decreasing order. */
  ghost predicate SortedPairs(ks: seq<NamePair>) {
    forall i, j :: 0 <= i < j < |ks| ==> PairLe(ks[i], ks[j])
  }

  /** `f` applied to each element of `s`, in order. */
  function MapSeq<T, U>(s: seq<T>, f: T -> U): (r: seq<U>)
    ensures |r| == |s|
    ensures forall i :: 0 <= i < |s| ==> r[i] == f(s[i])
  {
    if s == [] then [] else MapSeq(s[..|s| - 1], f) + [f(s[|s| - 1])]
  }

  /** `s` in non-decreasing order of `key`. */
  ghost predicate SortedBy<T>(s: seq<T>, key: T -> NamePair) {
    SortedPairs(MapSeq(s, key))
  }

  /** The elements of `s` whose key is `k`, in the order of `s`. */
  function WithKey<T>(s: seq<T>, key: T -> NamePair, k: NamePair): (r: seq<T>)
    ensures forall x :: x in r ==> key(x) == k
  {
    if s == [] then []
    else WithKey(s[..|s| - 1], key, k) + (if key(s[|s| - 1]) == k then [s[|s| - 1]] else [])
  }

  /** Places `x` after every element of `s` from the end whose key exceeds
      `key(x)`: the step of a stable insertion sort. */
  function Insert<T>(s: seq<T>, x: T, key: T -> NamePair): (r: seq<T>)
    ensures multiset(r) == multiset(s) + multiset{x}
  {
    if s == [] then [x]
    else if PairLe(key(s[|s| - 1]), key(x)) then s + [x]
    else
      assert s == s[..|s| - 1] + [s[|s| - 1]];
      Insert(s[..|s| - 1], x, key) + [s[|s| - 1]]
  }

  lemma SortedPrefix<T>(s: seq<T>, n: nat, key: T -> NamePair)
    requires SortedBy(s, key) && n <= |s|
    ensures SortedBy(s[..n], key)
  {
    assert MapSeq(s[..n], key) == MapSeq(s, key)[..n];
  }

  /** Inserting into a sorted sequence keeps it sorted. */
  lemma {:induction false} InsertSorted<T>(s: seq<T>, x: T, key: T -> NamePair)
    requires SortedBy(s, key)
    ensures SortedBy(Insert(s, x, key), key)
    decreases |s|
  {
    if s == [] {
      assert MapSeq([x], key) == [key(x)];
    } else {
      var y := s[|s| - 1];
      var init := s[..|s| - 1];
      if PairLe(key(y), key(x)) {
        forall i | 0 <= i < |s| ensures PairLe(key(s[i]), key(x)) {
          if i < |init| {
            assert MapSeq(s, key)[i] == key(s[i]) && MapSeq(s, key)[|init|] == key(y);
            PairLeTransitive(key(s[i]), key(y), key(x));
          }
        }
        SortedAppend(s, x, key);
      } else {
        assert s == init + [y];
        SortedPrefix(s, |init|, key);
        InsertSorted(init, x, key);
        var r' := Insert(init, x, key);
        PairLeTotal(key(x), key(y));
        InsertedBelow(init, x, y, key, r');
        SortedAppend(r', y, key);
      }
    }
  }

  /** Inserting `x` adds it after the elements that share its key. */
  lemma {:induction false} InsertWithKey<T>(s: seq<T>, x: T, key: T -> NamePair, k: NamePair)
    ensures key(x) == k ==> WithKey(Insert(s, x, key), key, k) == WithKey(s, key, k) + [x]
    ensures key(x) != k ==> WithKey(Insert(s, x, key), key, k) == WithKey(s, key, k)
    decreases |s|
  {
    if s == [] {
      WithKeySnoc([], x, key, k);
    } else {
      var y := s[|s| - 1];
      var init := s[..|s| - 1];
      if PairLe(key(y), key(x)) {
        WithKeySnoc(s, x, key, k);
      } else {
        var r' := Insert(init, x, key);
        InsertWithKey(init, x, key, k);
        LastSplit(s);
        assert Insert(s, x, key) == r' + [y];
        if key(x) == k {
          assert key(y) != k by { PairLeTotal(key(x), key(x)); }
          PassedMatch(init, y, x, key, k, r');
        } else {
          PassedOther(init, y, key, k, r');
        }
      }
    }
  }

  /** The step of `InsertWithKey` where `x`, of key `k`, moves in front of
      `y`, of another key. */
  lemma PassedMatch<T>(init: seq<T>, y: T, x: T, key: T -> NamePair, k: NamePair, r': seq<T>)
    requires key(y) != k
    requires WithKey(r', key, k) == WithKey(init, key, k) + [x]
    ensures WithKey(r' + [y], key, k) == WithKey(init + [y], key, k) + [x]
  {
    WithKeySnoc(r', y, key, k);
    WithKeySnoc(init, y, key, k);
  }

  /** The step of `InsertWithKey` where `x`, of another key, moves in front
      of `y`. */
  lemma PassedOther<T>(init: seq<T>, y: T, key: T -> NamePair, k: NamePair, r': seq<T>)
    requires WithKey(r', key, k) == WithKey(init, key, k)
    ensures WithKey(r' + [y], key, k) == WithKey(init + [y], key, k)
  {
    WithKeySnoc(r', y, key, k);
    WithKeySnoc(init, y, key, k);
  }

  lemma WithKeySnoc<T>(s: seq<T>, y: T, key: T -> NamePair, k: NamePair)
    ensures key(y) == k ==> WithKey(s + [y], key, k) == WithKey(s, key, k) + [y]
    ensures key(y) != k ==> WithKey(s + [y], key, k) == WithKey(s, key, k)
  {
    assert (s + [y])[..|s|] == s;
  }

  /** Appending an element whose key is at least every key keeps order. */
  lemma SortedAppend<T>(s: seq<T>, y: T, key: T -> NamePair)
    requires SortedBy(s, key)
    requires forall i :: 0 <= i < |s| ==> PairLe(key(s[i]), key(y))
    ensures SortedBy(s + [y], key)
  {
    assert (s + [y])[..|s|] == s;
    assert MapSeq(s + [y], key) == MapSeq(s, key) + [key(y)];
  }

  /** Every element of `r' == Insert(init, x)` has key at most `key(y)`
      when `init + [y]` is sorted and `key(x) <= key(y)`. */
  lemma InsertedBelow<T>(init: seq<T>, x: T, y: T, key: T -> NamePair, r': seq<T>)
    requires SortedBy(init + [y], key)
    requires PairLe(key(x), key(y))
    requires multiset(r') == multiset(init) + multiset{x}
    ensures forall i :: 0 <= i < |r'| ==> PairLe(key(r'[i]), key(y))
  {
    var s := init + [y];
    forall i | 0 <= i < |r'|
      ensures PairLe(key(r'[i]), key(y))
    {
      var z := r'[i];
      assert z in multiset(r');
      if z != x {
        assert z in multiset(init);
        var j :| 0 <= j < |init| && init[j] == z;
        assert MapSeq(s, key)[j] == key(z) && MapSeq(s, key)[|init|] == key(y);
      }
    }
  }

  /** `sorted(s, key=key)`: a stable sort. The result holds the same
      elements, in non-decreasing key order. */
  function SortByKey<T>(s: seq<T>, key: T -> NamePair): (r: seq<T>)
    ensures multiset(r) == multiset(s)
    ensures SortedBy(r, key)
  {
    if s == [] then []
    else
      var init := s[..|s| - 1];
      var x := s[|s| - 1];
      assert s == init + [x];
      var r' := SortByKey(init, key);
      InsertSorted(r', x, key);
      Insert(r', x, key)
  }

  /** `sorted` is stable: the elements that share a key keep their order
      in `s`. */
  lemma {:induction false} SortByKeyStable<T>(s: seq<T>, key: T -> NamePair, k: NamePair)
    ensures WithKey(SortByKey(s, key), key, k) == WithKey(s, key, k)
    decreases |s|
  {
    if s != [] {
      var init := s[..|s| - 1];
      var x := s[|s| - 1];
      SortByKeyStable(init, key, k);
      InsertWithKey(SortByKey(init, key), x, key, k);
      LastSplit(s);
      WithKeySnoc(init, x, key, k);
    }
  }

  /** Mapping two sequences that hold the same elements gives sequences
      that hold the same images. */
  lemma {:induction false} MapSeqPermutation<T, U>(a: seq<T>, b: seq<T>, f: T -> U)
    requires multiset(a) == multiset(b)
    ensures multiset(MapSeq(a, f)) == multiset(MapSeq(b, f))
    decreases |a|
  {
    if a != [] {
      var x := a[|a| - 1];
      var a' := a[..|a| - 1];
      assert a == a' + [x];
      assert x in multiset(b);
      var j :| 0 <= j < |b| && b[j] == x;
      var b' := b[..j] + b[j + 1..];
      MapSeqRemove(b, j, f);
      assert multiset(a) == multiset(a') + multiset{x};
      MultisetCancel(multiset(a'), multiset(b'), x);
      MapSeqPermutation(a', b', f);
      MapSeqConcat(a', [x], f);
    }
  }

  /** Taking out the element at `j` takes its image out of the mapped
      sequence. */
  lemma MapSeqRemove<T, U>(b: seq<T>, j: nat, f: T -> U)
    requires j < |b|
    ensures multiset(b) == multiset(b[..j] + b[j + 1..]) + multiset{b[j]}
    ensures multiset(MapSeq(b, f)) == multiset(MapSeq(b[..j] + b[j + 1..], f)) + multiset{f(b[j])}
  {
    var l, y, r := b[..j], b[j], b[j + 1..];
    AroundIndex(b, j);
    MapSeqConcat(l, [y], f);
    MapSeqConcat(l + [y], r, f);
    MapSeqConcat(l, r, f);
    var ml, mr := MapSeq(l, f), MapSeq(r, f);
    assert MapSeq([y], f) == [f(y)];
    assert MapSeq(b, f) == ml + [f(y)] + mr;
    assert MapSeq(l + r, f) == ml + mr;
    MultisetMiddle(l, y, r);
    MultisetMiddle(ml, f(y), mr);
  }

  /** Mapping one more element of `s` extends the mapped prefix by its
      image. */
  lemma MapSeqPrefix<T, U>(s: seq<T>, n: nat, f: T -> U)
    requires n < |s|
    ensures MapSeq(s[..n + 1], f) == MapSeq(s[..n], f) + [f(s[n])]
  {
    assert s[..n + 1][..n] == s[..n];
  }

  lemma {:induction false} MapSeqConcat<T, U>(a: seq<T>, b: seq<T>, f: T -> U)
    ensures MapSeq(a + b, f) == MapSeq(a, f) + MapSeq(b, f)
  {
    assert forall i :: 0 <= i < |a + b| ==> MapSeq(a + b, f)[i] == (MapSeq(a, f) + MapSeq(b, f))[i];
  }

  lemma MultisetCancel<T>(m: multiset<T>, n: multiset<T>, x: T)
    requires m + multiset{x} == n + multiset{x}
    ensures m == n
  {
    forall z ensures m[z] == n[z] {
      assert (m + multiset{x})[z] == (n + multiset{x})[z];
    }
  }

  /** The head of a sorted key sequence is at most each of its keys. */
  lemma SortedHeadLeast(p: seq<NamePair>, v: NamePair)
    requires SortedPairs(p) && v in p
    ensures PairLe(p[0], v)
  {
    var i :| 0 <= i < |p| && p[i] == v;
    if i == 0 {
      PairLeTotal(v, v);
    }
  }

  /** Two sorted key sequences with the same elements are equal. */
  lemma {:induction false} SortedPairsUnique(p: seq<NamePair>, q: seq<NamePair>)
    requires SortedPairs(p) && SortedPairs(q)
    requires multiset(p) == multiset(q)
    ensures p == q
    decreases |p|
  {
    if p != [] {
      assert |q| == |multiset(q)| == |p|;
      assert p[0] in multiset(q) && q[0] in multiset(p);
      SortedHeadLeast(q, p[0]);
      SortedHeadLeast(p, q[0]);
      PairLeAntisymmetric(p[0], q[0]);
      assert p == [p[0]] + p[1..] && q == [q[0]] + q[1..];
      assert multiset(p) == multiset(p[1..]) + multiset{p[0]};
      assert multiset(q) == multiset(q[1..]) + multiset{q[0]};
      MultisetCancel(multiset(p[1..]), multiset(q[1..]), p[0]);
      SortedPairsUnique(p[1..], q[1..]);
    }
  }

  /** Sorting determines the key sequence: however its input was ordered,
      `sorted` yields the same sequence of keys. */
  lemma SortedKeysDetermined<T>(a: seq<T>, b: seq<T>, key: T -> NamePair)
    requires multiset(a) == multiset(b)
    ensures MapSeq(SortByKey(a, key), key) == MapSeq(SortByKey(b, key), key)
  {
    MapSeqPermutation(SortByKey(a, key), SortByKey(b, key), key);
    SortedPairsUnique(MapSeq(SortByKey(a, key), key), MapSeq(SortByKey(b, key), key));
  }

  /** When no two elements share a key, sorting determines the whole
      result, not only its keys. */
  lemma SortedDistinctKeysDetermined<T>(x: seq<T>, y: seq<T>, key: T -> NamePair)
    requires multiset(x) == multiset(y)
    requires forall g, h :: g in x && h in x && key(g) == key(h) ==> g == h
    ensures SortByKey(x, key) == SortByKey(y, key)
  {
    var sx, sy := SortByKey(x, key), SortByKey(y, key);
    SortedKeysDetermined(x, y, key);
    assert |sx| == |multiset(sx)| == |multiset(sy)| == |sy|;
    forall k | 0 <= k < |sx| ensures sx[k] == sy[k] {
      assert MapSeq(sx, key)[k] == MapSeq(sy, key)[k];
      assert sx[k] in multiset(x) && sy[k] in multiset(x);
    }
  }
}
