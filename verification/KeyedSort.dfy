/**
  * Stable ordering of messages by a 64-bit key. Both std::stable_sort on a buffer and insertion into
  * a std::multimap (which places an element after its equals) are instances of it.
  */
module KeyedSort {
  import opened Bytes

  datatype Keyed = Keyed(key: uint64, bytes: seq<byte>)

  ghost predicate Sorted(s: seq<Keyed>)
  {
    forall i, j | 0 <= i < j < |s| :: s[i].key <= s[j].key
  }

  /** First position whose key is greater than k. */
  function UpperBound(s: seq<Keyed>, k: uint64): (u: nat)
    ensures u <= |s|
    ensures forall i | 0 <= i < u :: s[i].key <= k
    ensures u < |s| ==> k < s[u].key
  {
    if s == [] || k < s[0].key then 0 else 1 + UpperBound(s[1..], k)
  }

  function Insert(s: seq<Keyed>, x: Keyed): (r: seq<Keyed>)
    ensures |r| == |s| + 1
  {
    var u := UpperBound(s, x.key);
    s[..u] + [x] + s[u..]
  }

  function StableSort(xs: seq<Keyed>): (r: seq<Keyed>)
    ensures |r| == |xs|
  {
    if xs == [] then [] else Insert(StableSort(xs[..|xs| - 1]), xs[|xs| - 1])
  }

  /** The elements of one key, in order. */
  function WithKey(s: seq<Keyed>, k: uint64): seq<Keyed>
  {
    if s == [] then []
    else WithKey(s[..|s| - 1], k) + if s[|s| - 1].key == k then [s[|s| - 1]] else []
  }

  lemma {:induction false} WithKeyConcat(s: seq<Keyed>, t: seq<Keyed>, k: uint64)
    ensures WithKey(s + t, k) == WithKey(s, k) + WithKey(t, k)
  {
    if t == [] {
      assert s + t == s;
    } else {
      assert (s + t)[..|s + t| - 1] == s + t[..|t| - 1];
      WithKeyConcat(s, t[..|t| - 1], k);
    }
  }

  lemma {:induction false} WithKeyNone(s: seq<Keyed>, k: uint64)
    requires forall i | 0 <= i < |s| :: s[i].key != k
    ensures WithKey(s, k) == []
  {
    if s != [] {
      WithKeyNone(s[..|s| - 1], k);
    }
  }

  /** A key with elements belongs to one of them, so it is at most the last key of a sorted sequence. */
  lemma {:induction false} WithKeyBounded(s: seq<Keyed>, k: uint64)
    requires Sorted(s) && WithKey(s, k) != []
    ensures s != [] && k <= s[|s| - 1].key
  {
    if s != [] && s[|s| - 1].key != k {
      WithKeyBounded(s[..|s| - 1], k);
    }
  }

  /** Same elements of every key, in the same order. */
  ghost predicate SameByKey(s: seq<Keyed>, t: seq<Keyed>)
  {
    forall k: uint64 :: WithKey(s, k) == WithKey(t, k)
  }

  lemma WithKeySnoc(s: seq<Keyed>, x: Keyed, k: uint64)
    ensures WithKey(s + [x], k) == WithKey(s, k) + if x.key == k then [x] else []
  {
    assert (s + [x])[..|s|] == s;
  }

  lemma WithKeyInsert(s: seq<Keyed>, x: Keyed, k: uint64)
    requires Sorted(s)
    ensures WithKey(Insert(s, x), k) == WithKey(s, k) + if x.key == k then [x] else []
  {
    var u := UpperBound(s, x.key);
    WithKeySplice(s[..u], x, s[u..], k);
    assert s == s[..u] + s[u..];
  }

  lemma WithKeySplice(lo: seq<Keyed>, x: Keyed, hi: seq<Keyed>, k: uint64)
    requires forall i | 0 <= i < |hi| :: x.key < hi[i].key
    ensures WithKey(lo + [x] + hi, k) == WithKey(lo + hi, k) + if x.key == k then [x] else []
  {
    WithKeyConcat(lo, hi, k);
    WithKeySnoc(lo, x, k);
    WithKeyConcat(lo + [x], hi, k);
    if k == x.key {
      WithKeyNone(hi, k);
    }
  }

  lemma InsertSorted(s: seq<Keyed>, x: Keyed)
    requires Sorted(s)
    ensures Sorted(Insert(s, x))
  {
  }

  lemma {:induction false} SortIsSorted(xs: seq<Keyed>)
    ensures Sorted(StableSort(xs))
  {
    if xs != [] {
      SortIsSorted(xs[..|xs| - 1]);
      InsertSorted(StableSort(xs[..|xs| - 1]), xs[|xs| - 1]);
    }
  }

  lemma InsertAdds(s: seq<Keyed>, x: Keyed)
    ensures multiset(Insert(s, x)) == multiset(s) + multiset{x}
  {
    var u := UpperBound(s, x.key);
    assert s == s[..u] + s[u..];
  }

  lemma {:induction false} SortIsPermutation(xs: seq<Keyed>)
    ensures multiset(StableSort(xs)) == multiset(xs)
  {
    if xs != [] {
      SortIsPermutation(xs[..|xs| - 1]);
      InsertAdds(StableSort(xs[..|xs| - 1]), xs[|xs| - 1]);
      assert xs == xs[..|xs| - 1] + [xs[|xs| - 1]];
    }
  }

  lemma {:induction false} SortKeepsKeyOrder(xs: seq<Keyed>, k: uint64)
    ensures WithKey(StableSort(xs), k) == WithKey(xs, k)
  {
    if xs != [] {
      SortKeepsKeyOrder(xs[..|xs| - 1], k);
      SortIsSorted(xs[..|xs| - 1]);
      WithKeyInsert(StableSort(xs[..|xs| - 1]), xs[|xs| - 1], k);
    }
  }

  /** The sort is sorted, a permutation, and keeps the order of equal keys. */
  lemma {:induction false} StableSortCorrect(xs: seq<Keyed>)
    ensures Sorted(StableSort(xs))
    ensures multiset(StableSort(xs)) == multiset(xs)
    ensures SameByKey(StableSort(xs), xs)
  {
    SortIsSorted(xs);
    SortIsPermutation(xs);
    forall k: uint64
      ensures WithKey(StableSort(xs), k) == WithKey(xs, k)
    {
      SortKeepsKeyOrder(xs, k);
    }
  }

  lemma LastIsSame(s: seq<Keyed>, t: seq<Keyed>)
    requires Sorted(s) && Sorted(t) && SameByKey(s, t)
    requires s != []
    ensures t != [] && s[|s| - 1] == t[|t| - 1]
    ensures SameByKey(s[..|s| - 1], t[..|t| - 1])
  {
    var x := s[|s| - 1];
    var a := WithKey(s[..|s| - 1], x.key);
    assert WithKey(t, x.key) == WithKey(s, x.key) == a + [x];
    WithKeyBounded(t, x.key);
    var y := t[|t| - 1];
    var b := WithKey(t[..|t| - 1], y.key);
    assert WithKey(s, y.key) == WithKey(t, y.key) == b + [y];
    WithKeyBounded(s, y.key);
    assert x.key == y.key;
    assert x == (a + [x])[|a|] && y == (b + [y])[|b|] && |a| == |b|;
    assert a == (a + [x])[..|a|] && b == (b + [y])[..|b|];
    var p, q := s[..|s| - 1], t[..|t| - 1];
    forall k: uint64
      ensures WithKey(p, k) == WithKey(q, k)
    {
      assert WithKey(s, k) == WithKey(t, k);
      if k != x.key {
        assert WithKey(s, k) == WithKey(p, k) && WithKey(t, k) == WithKey(q, k);
      }
    }
  }

  /** Any stable sorting routine returns this sequence: the properties above determine it. */
  lemma {:induction false} SortedStableUnique(s: seq<Keyed>, t: seq<Keyed>)
    requires Sorted(s) && Sorted(t) && SameByKey(s, t)
    ensures s == t
  {
    if s != [] {
      LastIsSame(s, t);
      SortedStableUnique(s[..|s| - 1], t[..|t| - 1]);
      assert s == s[..|s| - 1] + [s[|s| - 1]] && t == t[..|t| - 1] + [t[|t| - 1]];
    } else if t != [] {
      LastIsSame(t, s);
    }
  }

  lemma SortOfSorted(s: seq<Keyed>)
    requires Sorted(s)
    ensures StableSort(s) == s
  {
    StableSortCorrect(s);
    SortedStableUnique(StableSort(s), s);
  }

  lemma SortOfSort(xs: seq<Keyed>)
    ensures StableSort(StableSort(xs)) == StableSort(xs)
  {
    StableSortCorrect(xs);
    SortOfSorted(StableSort(xs));
  }

  lemma SortSnoc(xs: seq<Keyed>, x: Keyed)
    ensures StableSort(xs + [x]) == Insert(StableSort(xs), x)
  {
    assert (xs + [x])[..|xs|] == xs;
  }

  /** Sorting a sorted part again together with later arrivals changes nothing. */
  lemma {:induction false} SortOfSortedPrefix(xs: seq<Keyed>, ys: seq<Keyed>)
    ensures StableSort(StableSort(xs) + ys) == StableSort(xs + ys)
  {
    var s := StableSort(xs);
    if ys == [] {
      assert s + ys == s && xs + ys == xs;
      SortOfSort(xs);
    } else {
      var p, y := ys[..|ys| - 1], ys[|ys| - 1];
      assert s + ys == (s + p) + [y] && xs + ys == (xs + p) + [y];
      SortOfSortedPrefix(xs, p);
      SortSnoc(s + p, y);
      SortSnoc(xs + p, y);
    }
  }

  function CountAtMost(s: seq<Keyed>, k: uint64): nat
  {
    if s == [] then 0 else CountAtMost(s[..|s| - 1], k) + if s[|s| - 1].key <= k then 1 else 0
  }

  function CountBelow(s: seq<Keyed>, k: uint64): nat
  {
    if s == [] then 0 else CountBelow(s[..|s| - 1], k) + if s[|s| - 1].key < k then 1 else 0
  }

  /** Place of arrival i in the stable sort: earlier arrivals of the same key go before it. */
  function Rank(xs: seq<Keyed>, i: nat): nat
    requires i < |xs|
  {
    CountAtMost(xs[..i], xs[i].key) + CountBelow(xs[i + 1..], xs[i].key)
  }

  lemma {:induction false} CountAtMostSorted(s: seq<Keyed>, k: uint64)
    requires Sorted(s)
    ensures CountAtMost(s, k) == UpperBound(s, k)
  {
    if s != [] {
      var p, x := s[..|s| - 1], s[|s| - 1];
      assert s == p + [x];
      CountAtMostSorted(p, k);
      UpperBoundSnoc(p, x, k);
    }
  }

  lemma {:induction false} UpperBoundSnoc(p: seq<Keyed>, x: Keyed, k: uint64)
    requires Sorted(p + [x])
    ensures UpperBound(p + [x], k) == UpperBound(p, k) + if x.key <= k then 1 else 0
  {
    if p != [] {
      assert (p + [x])[1..] == p[1..] + [x];
      assert (p + [x])[0] == p[0] && (p + [x])[|p|] == x;
      if p[0].key <= k {
        UpperBoundSnoc(p[1..], x, k);
      }
    }
  }

  lemma {:induction false} CountAtMostConcat(s: seq<Keyed>, t: seq<Keyed>, k: uint64)
    ensures CountAtMost(s + t, k) == CountAtMost(s, k) + CountAtMost(t, k)
  {
    if t == [] {
      assert s + t == s;
    } else {
      assert (s + t)[..|s + t| - 1] == s + t[..|t| - 1];
      CountAtMostConcat(s, t[..|t| - 1], k);
    }
  }

  lemma CountAtMostSplice(lo: seq<Keyed>, x: Keyed, hi: seq<Keyed>, k: uint64)
    ensures CountAtMost(lo + [x] + hi, k) == CountAtMost(lo + hi, k) + if x.key <= k then 1 else 0
  {
    CountAtMostConcat(lo, hi, k);
    CountAtMostConcat(lo + [x], hi, k);
    assert (lo + [x])[..|lo|] == lo;
  }

  lemma {:induction false} CountAtMostOfSort(xs: seq<Keyed>, k: uint64)
    ensures CountAtMost(StableSort(xs), k) == CountAtMost(xs, k)
  {
    if xs != [] {
      var p, x := xs[..|xs| - 1], xs[|xs| - 1];
      CountAtMostOfSort(p, k);
      CountAtMostInsert(StableSort(p), x, k);
    }
  }

  lemma CountAtMostInsert(s: seq<Keyed>, x: Keyed, k: uint64)
    ensures CountAtMost(Insert(s, x), k) == CountAtMost(s, k) + if x.key <= k then 1 else 0
  {
    var u := UpperBound(s, x.key);
    CountAtMostSplice(s[..u], x, s[u..], k);
    assert s == s[..u] + s[u..];
  }

  lemma {:induction false} CountBelowSnoc(xs: seq<Keyed>, lo: nat, k: uint64)
    requires lo < |xs|
    ensures CountBelow(xs[lo..], k) == CountBelow(xs[lo..|xs| - 1], k) + if xs[|xs| - 1].key < k then 1 else 0
  {
    assert xs[lo..][..|xs[lo..]| - 1] == xs[lo..|xs| - 1];
  }

  /** One more arrival x moves the later part of the sorted sequence up by one place. */
  lemma RankSnoc(xs: seq<Keyed>, i: nat)
    requires i + 1 < |xs|
    ensures Rank(xs, i) == Rank(xs[..|xs| - 1], i) + if xs[|xs| - 1].key < xs[i].key then 1 else 0
  {
    var p := xs[..|xs| - 1];
    assert p[..i] == xs[..i] && p[i + 1..] == xs[i + 1..|xs| - 1];
    CountBelowSnoc(xs, i + 1, xs[i].key);
  }

  lemma SpliceMoves<T>(lo: seq<T>, x: T, hi: seq<T>, r: nat)
    requires r < |lo + hi|
    ensures (lo + [x] + hi)[if r < |lo| then r else r + 1] == (lo + hi)[r]
    ensures (lo + [x] + hi)[|lo|] == x
  {
  }

  lemma InsertMoves(s: seq<Keyed>, x: Keyed, r: nat)
    requires Sorted(s) && r < |s|
    ensures Insert(s, x)[if x.key < s[r].key then r + 1 else r] == s[r]
  {
    var u := UpperBound(s, x.key);
    assert s == s[..u] + s[u..];
    SpliceMoves(s[..u], x, s[u..], r);
    assert r < u <==> s[r].key <= x.key;
  }

  lemma InsertPlaces(s: seq<Keyed>, x: Keyed)
    ensures Insert(s, x)[UpperBound(s, x.key)] == x
  {
  }

  lemma RankOfLast(p: seq<Keyed>, x: Keyed)
    ensures Rank(p + [x], |p|) == UpperBound(StableSort(p), x.key)
  {
    var xs := p + [x];
    assert xs[..|p|] == p && xs[|p| + 1..] == [];
    CountAtMostOfSort(p, x.key);
    SortIsSorted(p);
    CountAtMostSorted(StableSort(p), x.key);
  }

  /** Rank is the place in the sorted sequence. */
  lemma {:induction false} RankIsPlace(xs: seq<Keyed>, i: nat)
    requires i < |xs|
    ensures Rank(xs, i) < |xs| && StableSort(xs)[Rank(xs, i)] == xs[i]
  {
    var p, x := xs[..|xs| - 1], xs[|xs| - 1];
    assert xs == p + [x];
    if i == |p| {
      RankOfLast(p, x);
      SortSnoc(p, x);
      InsertPlaces(StableSort(p), x);
    } else {
      var s, r := StableSort(p), Rank(p, i);
      RankIsPlace(p, i);
      SortIsSorted(p);
      SortSnoc(p, x);
      InsertMoves(s, x, r);
      RankSnoc(xs, i);
    }
  }
}
