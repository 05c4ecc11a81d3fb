/** Python's `list.sort(key=k, reverse=True)`, which the scheduler applies to its score
    lists: a stable sort into non-increasing key order. Elements with equal keys keep
    their input order, so the first element of the result is the EARLIEST element whose
    key is maximal. */
module StableSort {

  ghost predicate SortedDesc<T>(s: seq<T>, key: T -> real) {
    forall i, j :: 0 <= i < j < |s| ==> key(s[i]) >= key(s[j])
  }

  /** `k` is the index of a maximal key, and every element before it has a strictly
      smaller key. */
  ghost predicate IsEarliestMax<T>(s: seq<T>, k: int, key: T -> real) {
    && 0 <= k < |s|
    && (forall j :: 0 <= j < |s| ==> key(s[j]) <= key(s[k]))
    && (forall j :: 0 <= j < k ==> key(s[j]) < key(s[k]))
  }

  /** Places `x` in front of the first element whose key does not exceed its own. */
  function InsertDesc<T>(x: T, s: seq<T>, key: T -> real): (r: seq<T>)
    ensures |r| == |s| + 1
    ensures multiset(r) == multiset(s) + multiset{x}
  {
    if s == [] || key(s[0]) <= key(x) then [x] + s
    else
      assert s == [s[0]] + s[1..];
      [s[0]] + InsertDesc(x, s[1..], key)
  }

  lemma {:induction false} InsertDescKeepsSorted<T>(x: T, s: seq<T>, key: T -> real)
    requires SortedDesc(s, key)
    ensures SortedDesc(InsertDesc(x, s, key), key)
  {
    if s != [] && key(s[0]) > key(x) {
      var rest := InsertDesc(x, s[1..], key);
      InsertDescKeepsSorted(x, s[1..], key);
      forall y | y in rest ensures key(y) <= key(s[0]) {
        assert y in multiset(rest);
        if y != x {
          assert y in multiset(s[1..]);
          var j :| 0 <= j < |s[1..]| && s[1..][j] == y;
          assert s[j + 1] == y;
        }
      }
      ConsKeepsSorted(s[0], rest, key);
    }
  }

  /** A head no smaller than any element of a sorted tail gives a sorted list. */
  lemma ConsKeepsSorted<T>(h: T, rest: seq<T>, key: T -> real)
    requires SortedDesc(rest, key)
    requires forall y :: y in rest ==> key(y) <= key(h)
    ensures SortedDesc([h] + rest, key)
  {
    var r := [h] + rest;
    forall i, j | 0 <= i < j < |r| ensures key(r[i]) >= key(r[j]) {
      if i == 0 { assert r[j] in rest; }
      else { assert r[i] == rest[i - 1] && r[j] == rest[j - 1]; }
    }
  }

  /** The sorted list is a permutation of the input in non-increasing key order. */
  function SortDesc<T>(s: seq<T>, key: T -> real): (r: seq<T>)
    ensures |r| == |s|
    ensures multiset(r) == multiset(s)
    ensures SortedDesc(r, key)
  {
    if s == [] then []
    else
      assert s == [s[0]] + s[1..];
      InsertDescKeepsSorted(s[0], SortDesc(s[1..], key), key);
      InsertDesc(s[0], SortDesc(s[1..], key), key)
  }

  lemma InsertDescHead<T>(x: T, s: seq<T>, key: T -> real)
    ensures InsertDesc(x, s, key)[0] == if s == [] || key(s[0]) <= key(x) then x else s[0]
  {
  }

  /** An earliest maximum of the tail stays one when the head of the list is smaller. */
  lemma ShiftEarliestMax<T>(s: seq<T>, k: int, key: T -> real)
    requires s != [] && IsEarliestMax(s[1..], k, key) && key(s[0]) < key(s[1..][k])
    ensures IsEarliestMax(s, k + 1, key)
  {
    assert forall j :: 0 < j < |s| ==> s[j] == s[1..][j - 1];
  }

  lemma HeadIsEarliestMax<T>(s: seq<T>, k: int, key: T -> real)
    requires s != [] && (s[1..] != [] ==> IsEarliestMax(s[1..], k, key) && key(s[1..][k]) <= key(s[0]))
    ensures IsEarliestMax(s, 0, key)
  {
    assert forall j :: 0 < j < |s| ==> s[j] == s[1..][j - 1];
  }

  /** Stability at the head: the first element of the sorted list is the earliest
      element with a maximal key. */
  lemma {:induction false} SortDescHeadIsEarliestMax<T>(s: seq<T>, key: T -> real)
    requires s != []
    ensures exists k :: IsEarliestMax(s, k, key) && SortDesc(s, key)[0] == s[k]
  {
    var t := s[1..];
    if t == [] {
      HeadIsEarliestMax(s, 0, key);
    } else {
      SortDescHeadIsEarliestMax(t, key);
      var k :| IsEarliestMax(t, k, key) && SortDesc(t, key)[0] == t[k];
      InsertDescHead(s[0], SortDesc(t, key), key);
      if key(t[k]) <= key(s[0]) {
        HeadIsEarliestMax(s, k, key);
        assert SortDesc(s, key)[0] == s[0];
      } else {
        ShiftEarliestMax(s, k, key);
        assert SortDesc(s, key)[0] == s[k + 1];
      }
    }
  }

  /** The elements whose key is `v`, in their order in `s`. */
  function KeyFilter<T>(s: seq<T>, key: T -> real, v: real): seq<T> {
    if s == [] then []
    else (if key(s[0]) == v then [s[0]] else []) + KeyFilter(s[1..], key, v)
  }

  lemma KeyFilterCons<T>(h: T, t: seq<T>, key: T -> real, v: real)
    ensures KeyFilter([h] + t, key, v) == (if key(h) == v then [h] else []) + KeyFilter(t, key, v)
  {
    assert ([h] + t)[1..] == t;
  }

  /** An element with a larger key than `x` in front of both sides keeps `x` first among
      the elements with `x`'s key. */
  lemma FilterPastLarger<T>(h: T, x: T, t: seq<T>, rest: seq<T>, key: T -> real, v: real)
    requires key(h) > key(x)
    requires KeyFilter(rest, key, v) == (if key(x) == v then [x] else []) + KeyFilter(t, key, v)
    ensures KeyFilter([h] + rest, key, v) == (if key(x) == v then [x] else []) + KeyFilter([h] + t, key, v)
  {
    KeyFilterCons(h, rest, key, v);
    KeyFilterCons(h, t, key, v);
    if key(x) == v {
      assert key(h) != v;
    }
  }

  /** Inserting `x` puts it in front of every element with the same key. */
  lemma {:induction false} InsertDescFilter<T>(x: T, s: seq<T>, key: T -> real, v: real)
    ensures KeyFilter(InsertDesc(x, s, key), key, v)
            == (if key(x) == v then [x] else []) + KeyFilter(s, key, v)
  {
    if s == [] || key(s[0]) <= key(x) {
      KeyFilterCons(x, s, key, v);
    } else {
      var h, t := s[0], s[1..];
      InsertDescFilter(x, t, key, v);
      assert s == [h] + t;
      FilterPastLarger(h, x, t, InsertDesc(x, t, key), key, v);
    }
  }

  /** Stability: for every key, the elements with that key appear in the sorted list in
      the same order as in the input. */
  lemma {:induction false} SortDescIsStable<T>(s: seq<T>, key: T -> real, v: real)
    ensures KeyFilter(SortDesc(s, key), key, v) == KeyFilter(s, key, v)
  {
    if s != [] {
      SortDescIsStable(s[1..], key, v);
      InsertDescFilter(s[0], SortDesc(s[1..], key), key, v);
    }
  }

  /** The filter of a prefix is a prefix of the filter. */
  lemma {:induction false} KeyFilterOfPrefix<T>(s: seq<T>, n: nat, key: T -> real, v: real)
    requires n <= |s|
    ensures KeyFilter(s[..n], key, v) <= KeyFilter(s, key, v)
  {
    if n > 0 {
      assert s[..n][1..] == s[1..][..n - 1];
      KeyFilterOfPrefix(s[1..], n - 1, key, v);
    }
  }

  /** The first entries of a stable sort take no element more often than the input
      holds it, and keep the input order among equal keys. */
  lemma SliceOfSortKeepsTies<T>(s: seq<T>, key: T -> real, limit: int)
    ensures multiset(PrefixSlice(SortDesc(s, key), limit)) <= multiset(s)
    ensures forall v :: KeyFilter(PrefixSlice(SortDesc(s, key), limit), key, v) <= KeyFilter(s, key, v)
  {
    var sorted := SortDesc(s, key);
    var r := PrefixSlice(sorted, limit);
    assert sorted == r + sorted[|r|..];
    forall v ensures KeyFilter(r, key, v) <= KeyFilter(s, key, v) {
      assert sorted[..|r|] == r;
      KeyFilterOfPrefix(sorted, |r|, key, v);
      SortDescIsStable(s, key, v);
    }
  }

  /** `lst[:limit]` for a Python integer `limit`: a non-negative limit keeps the first
      `limit` elements (all of them when there are fewer), and a negative one drops the
      last `-limit` elements (all of them when there are fewer). */
  function PrefixSlice<T>(s: seq<T>, limit: int): (r: seq<T>)
    ensures r <= s
    ensures 0 <= limit ==> |r| <= limit && (|r| == limit || r == s)
    ensures limit < 0 ==> |s| - |r| == -limit || (r == [] && |s| <= -limit)
  {
    s[..SliceLength(|s|, limit)]
  }

  /** The length of `lst[:limit]` for a list of length `n`: `limit` capped by `n` when
      non-negative, otherwise `n` less `-limit`, down to 0. */
  function SliceLength(n: nat, limit: int): (m: nat)
    ensures m <= n
    ensures 0 <= limit ==> m <= limit && (m == limit || m == n)
    ensures limit < 0 ==> n - m == -limit || (m == 0 && n <= -limit)
  {
    if limit >= 0 then (if limit < n then limit else n)
    else if n + limit > 0 then n + limit else 0
  }
}
