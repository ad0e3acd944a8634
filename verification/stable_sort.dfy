/**
  A functional stable sort by descending key: the behaviour the lottery ranker
  obtains from `std::stable_sort` with a "greater score first" comparator.

  Stability is stated without reference to positions: for every key value `k`,
  the entries carrying key `k` appear in the output in exactly the order they
  had in the input (`WithKey`). Together with sortedness this determines the
  output uniquely (`StableSortUnique`), which is what lets independent
  implementations agree on the ranking even when scores tie.
 */
module StableSort {

  /** Keys never increase from left to right. */
  predicate SortedDesc<T>(s: seq<T>, key: T -> int) {
    forall i, j :: 0 <= i < j < |s| ==> key(s[i]) >= key(s[j])
  }

  /** No entry of `s` has a key below `v`. */
  predicate AllKeysAtLeast<T>(s: seq<T>, key: T -> int, v: int) {
    forall i :: 0 <= i < |s| ==> key(s[i]) >= v
  }

  /** The subsequence of the entries of `s` whose key is `k`, in order. */
  function WithKey<T>(s: seq<T>, key: T -> int, k: int): seq<T> {
    if s == [] then []
    else (if key(s[0]) == k then [s[0]] else []) + WithKey(s[1..], key, k)
  }

  /** `r` is a stable descending sort of `s`. */
  ghost predicate IsStableSortOf<T>(r: seq<T>, s: seq<T>, key: T -> int) {
    && SortedDesc(r, key)
    && forall k :: WithKey(r, key, k) == WithKey(s, key, k)
  }

  /** Number of leading entries of `s` whose key is at least `key(x)`:
      the position at which a stable insertion places `x`. */
  function InsertionPoint<T>(x: T, s: seq<T>, key: T -> int): (p: nat)
    ensures p <= |s|
    ensures forall i :: 0 <= i < p ==> key(s[i]) >= key(x)
    ensures p < |s| ==> key(s[p]) < key(x)
  {
    if s == [] || key(s[0]) < key(x) then 0
    else 1 + InsertionPoint(x, s[1..], key)
  }

  /** `x` goes after every entry exactly when no entry has a lower key. */
  lemma InsertionPointAtEndIff<T>(x: T, s: seq<T>, key: T -> int)
    ensures InsertionPoint(x, s, key) == |s| <==> AllKeysAtLeast(s, key, key(x))
  {
    var p := InsertionPoint(x, s, key);
    if p < |s| {
      assert key(s[p]) < key(x);
    }
  }

  /** The insertion point is the only position with every entry before it
      keyed at least `key(x)` and the entry at it (if any) keyed below. */
  lemma InsertionPointIs<T>(x: T, s: seq<T>, key: T -> int, p: nat)
    requires p <= |s|
    requires forall i :: 0 <= i < p ==> key(s[i]) >= key(x)
    requires p < |s| ==> key(s[p]) < key(x)
    ensures InsertionPoint(x, s, key) == p
  {
  }

  /** Inserts `x` into the sorted `s` after every entry whose key is at least
      `key(x)`, so that `x` follows the entries it ties with. */
  function Insert<T>(x: T, s: seq<T>, key: T -> int): (r: seq<T>)
    requires SortedDesc(s, key)
    ensures |r| == |s| + 1
    ensures multiset(r) == multiset(s) + multiset{x}
    ensures SortedDesc(r, key)
    ensures r[0] == x || (s != [] && r[0] == s[0])
  {
    if s == [] then [x]
    else if key(s[0]) >= key(x) then
      SortedTail(s, key);
      var rest := Insert(x, s[1..], key);
      KeepHead(s, x, rest, key);
      [s[0]] + rest
    else
      SortedPrepend(x, s, key);
      [x] + s
  }

  /** Putting the head of `s` back in front of `x` inserted into the tail
      gives a sorted sequence holding `s` and `x`. */
  lemma KeepHead<T>(s: seq<T>, x: T, rest: seq<T>, key: T -> int)
    requires SortedDesc(s, key) && s != [] && key(s[0]) >= key(x)
    requires SortedDesc(rest, key) && rest != []
    requires rest[0] == x || (|s| > 1 && rest[0] == s[1])
    requires multiset(rest) == multiset(s[1..]) + multiset{x}
    ensures SortedDesc([s[0]] + rest, key)
    ensures multiset([s[0]] + rest) == multiset(s) + multiset{x}
  {
    assert s == [s[0]] + s[1..];
    SortedPrepend(s[0], rest, key);
  }

  /** Prepending an entry whose key is at least the head's keeps a sequence sorted. */
  lemma SortedPrepend<T>(a: T, t: seq<T>, key: T -> int)
    requires SortedDesc(t, key)
    requires t != [] ==> key(a) >= key(t[0])
    ensures SortedDesc([a] + t, key)
  {
    var r := [a] + t;
    forall i, j | 0 <= i < j < |r|
      ensures key(r[i]) >= key(r[j])
    {
      if i == 0 {
        assert key(t[0]) >= key(t[j - 1]);
      } else {
        assert r[i] == t[i - 1] && r[j] == t[j - 1];
      }
    }
  }

  /** Stable insertion sort by descending key: each entry is inserted, in input
      order, after all entries already placed whose key is at least its own. */
  function SortDesc<T>(s: seq<T>, key: T -> int): (r: seq<T>)
    ensures |r| == |s|
    ensures multiset(r) == multiset(s)
    ensures SortedDesc(r, key)
  {
    if s == [] then []
    else
      assert s == s[..|s| - 1] + [s[|s| - 1]];
      Insert(s[|s| - 1], SortDesc(s[..|s| - 1], key), key)
  }

  /** Dropping the head of a concatenation drops the head of its first part. */
  lemma TailOfAppend<T>(a: seq<T>, b: seq<T>)
    requires a != []
    ensures (a + b)[1..] == a[1..] + b
  {
  }

  lemma ConcatAssoc<T>(a: seq<T>, b: seq<T>, c: seq<T>)
    ensures a + (b + c) == (a + b) + c
  {
  }

  lemma {:induction false} WithKeyAppend<T>(a: seq<T>, b: seq<T>, key: T -> int, k: int)
    ensures WithKey(a + b, key, k) == WithKey(a, key, k) + WithKey(b, key, k)
    decreases |a|
  {
    if a == [] {
      assert a + b == b;
    } else {
      var head := if key(a[0]) == k then [a[0]] else [];
      TailOfAppend(a, b);
      assert (a + b)[0] == a[0];
      WithKeyAppend(a[1..], b, key, k);
      ConcatAssoc(head, WithKey(a[1..], key, k), WithKey(b, key, k));
    }
  }

  /** A non-empty key-`k` subsequence has an entry of key `k`. */
  lemma {:induction false} WithKeyNonEmpty<T>(s: seq<T>, key: T -> int, k: int)
    requires WithKey(s, key, k) != []
    ensures exists i :: 0 <= i < |s| && key(s[i]) == k
    decreases |s|
  {
    if key(s[0]) != k {
      WithKeyNonEmpty(s[1..], key, k);
      var i :| 0 <= i < |s[1..]| && key(s[1..][i]) == k;
      assert s[i + 1] == s[1..][i];
    }
  }

  /** Inserting `x` appends it to the entries with key `key(x)` and leaves
      every other key's entries untouched. */
  lemma {:induction false} InsertStable<T>(x: T, s: seq<T>, key: T -> int, k: int)
    requires SortedDesc(s, key)
    ensures WithKey(Insert(x, s, key), key, k)
         == WithKey(s, key, k) + (if key(x) == k then [x] else [])
    decreases |s|
  {
    var extra := if key(x) == k then [x] else [];
    if s != [] && key(s[0]) >= key(x) {
      InsertPastHead(x, s, key);
      InsertStable(x, s[1..], key, k);
      HeadKeepsWithKey(s, Insert(x, s[1..], key), key, k, extra);
    } else {
      InsertInFront(x, s, key);
      FrontWithKey(x, s, key, k);
    }
  }

  /** An entry keyed above the head is inserted in front. */
  lemma InsertInFront<T>(x: T, s: seq<T>, key: T -> int)
    requires SortedDesc(s, key) && (s == [] || key(s[0]) < key(x))
    ensures Insert(x, s, key) == [x] + s
  {
  }

  /** Putting the head of `s` back in front of `rest`, whose key-`k` entries
      are those of the tail followed by `extra`, gives those of `s` followed
      by `extra`. */
  lemma HeadKeepsWithKey<T>(s: seq<T>, rest: seq<T>, key: T -> int, k: int, extra: seq<T>)
    requires s != []
    requires WithKey(rest, key, k) == WithKey(s[1..], key, k) + extra
    ensures WithKey([s[0]] + rest, key, k) == WithKey(s, key, k) + extra
  {
    ConsWithKey(s[0], s[1..], rest, key, k, extra);
    assert [s[0]] + s[1..] == s;
  }

  /** An entry keyed above every entry of a sorted `s`, put in front of it,
      comes after all of `s`'s entries of its key, since there are none. */
  lemma FrontWithKey<T>(x: T, s: seq<T>, key: T -> int, k: int)
    requires SortedDesc(s, key) && (s == [] || key(s[0]) < key(x))
    ensures WithKey([x] + s, key, k) == WithKey(s, key, k) + (if key(x) == k then [x] else [])
  {
    WithKeyCons(x, s, key, k);
    if key(x) == k {
      if s != [] {
        WithKeyBelow(s, key, k);
      }
      assert WithKey(s, key, k) + [x] == [x] + WithKey(s, key, k);
    } else {
      assert WithKey(s, key, k) + [] == [] + WithKey(s, key, k);
    }
  }

  /** The tail of a sorted sequence is sorted. */
  lemma SortedTail<T>(s: seq<T>, key: T -> int)
    requires SortedDesc(s, key) && s != []
    ensures SortedDesc(s[1..], key)
  {
    forall i, j | 0 <= i < j < |s| - 1
      ensures key(s[1..][i]) >= key(s[1..][j])
    {
      assert s[1..][i] == s[i + 1] && s[1..][j] == s[j + 1];
    }
  }

  /** An entry put in front of two sequences whose key-`k` entries differ by
      `extra` keeps that difference. */
  lemma ConsWithKey<T>(a: T, t: seq<T>, rest: seq<T>, key: T -> int, k: int, extra: seq<T>)
    requires WithKey(rest, key, k) == WithKey(t, key, k) + extra
    ensures WithKey([a] + rest, key, k) == WithKey([a] + t, key, k) + extra
  {
    WithKeyCons(a, rest, key, k);
    WithKeyCons(a, t, key, k);
    ConcatAssoc(if key(a) == k then [a] else [], WithKey(t, key, k), extra);
  }

  lemma WithKeyCons<T>(a: T, t: seq<T>, key: T -> int, k: int)
    ensures WithKey([a] + t, key, k) == (if key(a) == k then [a] else []) + WithKey(t, key, k)
  {
    assert ([a] + t)[1..] == t;
  }

  /** A sorted sequence whose first key is below `k` has no entry with key `k`. */
  lemma {:induction false} WithKeyBelow<T>(s: seq<T>, key: T -> int, k: int)
    requires SortedDesc(s, key)
    requires s != [] && key(s[0]) < k
    ensures WithKey(s, key, k) == []
    decreases |s|
  {
    if |s| > 1 {
      assert key(s[1]) <= key(s[0]);
      WithKeyBelow(s[1..], key, k);
    }
  }

  /** `SortDesc` is stable: the entries sharing a key keep their input order. */
  lemma {:induction false} SortDescIsStable<T>(s: seq<T>, key: T -> int)
    ensures IsStableSortOf(SortDesc(s, key), s, key)
    decreases |s|
  {
    forall k
      ensures WithKey(SortDesc(s, key), key, k) == WithKey(s, key, k)
    {
      SortDescStableAt(s, key, k);
    }
  }

  lemma {:induction false} SortDescStableAt<T>(s: seq<T>, key: T -> int, k: int)
    ensures WithKey(SortDesc(s, key), key, k) == WithKey(s, key, k)
    decreases |s|
  {
    if s != [] {
      var pre, last := s[..|s| - 1], s[|s| - 1];
      var tail := if key(last) == k then [last] else [];
      calc {
        WithKey(SortDesc(s, key), key, k);
        WithKey(Insert(last, SortDesc(pre, key), key), key, k);
        { InsertStable(last, SortDesc(pre, key), key, k); }
        WithKey(SortDesc(pre, key), key, k) + tail;
        { SortDescStableAt(pre, key, k); }
        WithKey(pre, key, k) + tail;
        { WithKeySingle(last, key, k); }
        WithKey(pre, key, k) + WithKey([last], key, k);
        { WithKeyAppend(pre, [last], key, k); assert s == pre + [last]; }
        WithKey(s, key, k);
      }
    }
  }

  lemma WithKeySingle<T>(x: T, key: T -> int, k: int)
    ensures WithKey([x], key, k) == if key(x) == k then [x] else []
  {
    assert [x][1..] == [];
  }

  /** A stable descending sort is unique: any two sequences that are both
      sorted and agree on the order of the entries of every key are equal. */
  lemma {:induction false} StableSortUnique<T>(r1: seq<T>, r2: seq<T>, s: seq<T>, key: T -> int)
    requires IsStableSortOf(r1, s, key)
    requires IsStableSortOf(r2, s, key)
    ensures r1 == r2
  {
    SameKeyClassesEqual(r1, r2, key);
  }

  lemma {:induction false} SameKeyClassesEqual<T>(r1: seq<T>, r2: seq<T>, key: T -> int)
    requires SortedDesc(r1, key) && SortedDesc(r2, key)
    requires forall k :: WithKey(r1, key, k) == WithKey(r2, key, k)
    ensures r1 == r2
    decreases |r1| + |r2|
  {
    if r1 == [] {
      if r2 != [] {
        // r2's head would have to appear in r1 as well
        WithKeyOfHead(r2, key);
        assert false;
      }
    } else if r2 == [] {
      WithKeyOfHead(r1, key);
      assert false;
    } else {
      var a, b := r1[0], r2[0];
      // the largest key of r1 also occurs in r2, so it is at most r2's largest key
      assert WithKey(r2, key, key(a)) != [] by {
        assert WithKey(r1, key, key(a)) != [];
      }
      WithKeyNonEmpty(r2, key, key(a));
      assert key(b) >= key(a);
      assert WithKey(r1, key, key(b)) != [] by {
        assert WithKey(r2, key, key(b)) != [];
      }
      WithKeyNonEmpty(r1, key, key(b));
      assert key(a) >= key(b);
      var m := key(a);
      assert WithKey(r1, key, m) == [a] + WithKey(r1[1..], key, m);
      assert WithKey(r2, key, m) == [b] + WithKey(r2[1..], key, m);
      assert WithKey(r1, key, m)[0] == a;
      assert WithKey(r2, key, m)[0] == b;
      assert a == b;
      forall k
        ensures WithKey(r1[1..], key, k) == WithKey(r2[1..], key, k)
      {
        assert WithKey(r1, key, k) == WithKey(r2, key, k);
        if k == m {
          assert WithKey(r1, key, k)[1..] == WithKey(r1[1..], key, k);
          assert WithKey(r2, key, k)[1..] == WithKey(r2[1..], key, k);
        } else {
          assert WithKey(r1, key, k) == WithKey(r1[1..], key, k);
          assert WithKey(r2, key, k) == WithKey(r2[1..], key, k);
        }
      }
      SameKeyClassesEqual(r1[1..], r2[1..], key);
      assert r1 == [a] + r1[1..];
      assert r2 == [b] + r2[1..];
    }
  }

  lemma WithKeyOfHead<T>(s: seq<T>, key: T -> int)
    requires s != []
    ensures WithKey(s, key, key(s[0])) != []
  {
  }

  /** Every sorted sequence is its own stable sort, so `SortDesc` leaves it as is. */
  lemma SortDescOfSorted<T>(s: seq<T>, key: T -> int)
    requires SortedDesc(s, key)
    ensures SortDesc(s, key) == s
  {
    SortDescIsStable(s, key);
    StableSortUnique(SortDesc(s, key), s, s, key);
  }

  /** Insertion into a sorted sequence splits it at the insertion point. */
  lemma {:induction false} InsertAtInsertionPoint<T>(x: T, s: seq<T>, key: T -> int)
    requires SortedDesc(s, key)
    ensures Insert(x, s, key) == s[..InsertionPoint(x, s, key)] + [x] + s[InsertionPoint(x, s, key)..]
    decreases |s|
  {
    if s != [] && key(s[0]) >= key(x) {
      var t := s[1..];
      var p := InsertionPoint(x, t, key);
      InsertAtInsertionPoint(x, t, key);
      InsertStep(x, s, key, p);
    }
  }

  /** Placing a new last entry at its insertion point in an already sorted
      sequence is the stable sort of the sequence with that entry appended. */
  lemma InsertionIsStableSort<T>(x: T, s: seq<T>, key: T -> int)
    requires SortedDesc(s, key)
    ensures var p := InsertionPoint(x, s, key);
      IsStableSortOf(s[..p] + [x] + s[p..], s + [x], key)
  {
    var cs := s + [x];
    InsertAtInsertionPoint(x, s, key);
    SortDescOfSorted(s, key);
    assert cs[..|cs| - 1] == s && cs[|cs| - 1] == x;
    assert SortDesc(cs, key) == Insert(x, s, key);
    SortDescIsStable(cs, key);
  }

  lemma InsertStep<T>(x: T, s: seq<T>, key: T -> int, p: nat)
    requires SortedDesc(s, key)
    requires s != [] && key(s[0]) >= key(x)
    requires p == InsertionPoint(x, s[1..], key)
    requires Insert(x, s[1..], key) == s[1..][..p] + [x] + s[1..][p..]
    ensures Insert(x, s, key) == s[..InsertionPoint(x, s, key)] + [x] + s[InsertionPoint(x, s, key)..]
  {
    SortedTail(s, key);
    InsertPastHead(x, s, key);
    ConsSplit(s, x, p);
  }

  /** An entry keyed no higher than the head is inserted into the tail. */
  lemma InsertPastHead<T>(x: T, s: seq<T>, key: T -> int)
    requires SortedDesc(s, key)
    requires s != [] && key(s[0]) >= key(x)
    ensures SortedDesc(s[1..], key)
    ensures InsertionPoint(x, s, key) == InsertionPoint(x, s[1..], key) + 1
    ensures Insert(x, s, key) == [s[0]] + Insert(x, s[1..], key)
  {
    SortedTail(s, key);
  }

  lemma ConsSplit<T>(s: seq<T>, x: T, p: nat)
    requires p < |s|
    ensures [s[0]] + (s[1..][..p] + [x] + s[1..][p..]) == s[..p + 1] + [x] + s[p + 1..]
  {
    assert s[..p + 1] == [s[0]] + s[1..][..p];
    assert s[p + 1..] == s[1..][p..];
  }

  /** The inserted entry ends up last exactly when no entry of `s` has a key
      below its own, and then `s` is left in front of it unchanged. */
  lemma InsertLastIff<T>(x: T, s: seq<T>, key: T -> int)
    requires SortedDesc(s, key)
    requires x !in s
    ensures Insert(x, s, key)[|s|] == x <==> AllKeysAtLeast(s, key, key(x))
    ensures Insert(x, s, key)[|s|] == x ==> Insert(x, s, key)[..|s|] == s
  {
    var p := InsertionPoint(x, s, key);
    InsertAtInsertionPoint(x, s, key);
    SplitAtLast(x, s, p);
    if p < |s| {
      assert key(s[p]) < key(x);
    }
  }

  /** Splitting `x` into `s` at `p` leaves `x` last exactly when `p` is the end. */
  lemma SplitAtLast<T>(x: T, s: seq<T>, p: nat)
    requires p <= |s|
    requires x !in s
    ensures (s[..p] + [x] + s[p..])[|s|] == x <==> p == |s|
    ensures p == |s| ==> (s[..p] + [x] + s[p..])[..|s|] == s
  {
    var r := s[..p] + [x] + s[p..];
    if p == |s| {
      assert r == s + [x];
    } else {
      assert r[|s|] == s[|s| - 1];
    }
  }

  /** A lower bound on keys holds of one sequence iff it holds of any
      permutation of it. */
  lemma LowerBoundOfPermutation<T>(a: seq<T>, b: seq<T>, key: T -> int, v: int)
    requires multiset(a) == multiset(b)
    requires AllKeysAtLeast(a, key, v)
    ensures AllKeysAtLeast(b, key, v)
  {
    forall j | 0 <= j < |b|
      ensures key(b[j]) >= v
    {
      assert b[j] in multiset(a);
      var i :| 0 <= i < |a| && a[i] == b[j];
    }
  }

  /** Stable sorting keeps the last entry of `s` (when it occurs only there)
      in last place exactly when no earlier entry has a lower key; the others
      are then sorted among themselves in front of it. */
  lemma LastStaysLastIff<T>(s: seq<T>, key: T -> int)
    requires s != []
    requires s[|s| - 1] !in s[..|s| - 1]
    ensures SortDesc(s, key)[|s| - 1] == s[|s| - 1] <==> AllKeysAtLeast(s[..|s| - 1], key, key(s[|s| - 1]))
    ensures SortDesc(s, key)[|s| - 1] == s[|s| - 1] ==> SortDesc(s, key)[..|s| - 1] == SortDesc(s[..|s| - 1], key)
    ensures s[|s| - 1] !in SortDesc(s[..|s| - 1], key)
  {
    var n := |s| - 1;
    var pre, x := s[..n], s[n];
    var sorted := SortDesc(pre, key);
    assert SortDesc(s, key) == Insert(x, sorted, key);
    assert x !in sorted by {
      assert x !in multiset(pre);
    }
    InsertLastIff(x, sorted, key);
    if AllKeysAtLeast(pre, key, key(x)) {
      LowerBoundOfPermutation(pre, sorted, key, key(x));
    }
    if AllKeysAtLeast(sorted, key, key(x)) {
      LowerBoundOfPermutation(sorted, pre, key, key(x));
    }
  }
}
