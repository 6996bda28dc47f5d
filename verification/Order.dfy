/** Three-way comparison functions, as the trees' `cmp` parameter demands them, and
    sequences of keys in ascending order. */
module Order {
  ghost predicate Comparator<K(!new)>(cmp: (K, K) -> int) {
    && (forall a, b :: cmp(a, b) < 0 <==> cmp(b, a) > 0)
    && (forall a, b, c :: cmp(a, b) <= 0 && cmp(b, c) <= 0 ==> cmp(a, c) <= 0)
  }

  /** Strictness is not lost along a chain. */
  lemma Chain<K(!new)>(cmp: (K, K) -> int, a: K, b: K, c: K)
    requires Comparator(cmp) && cmp(a, b) <= 0 && cmp(b, c) <= 0
    ensures cmp(a, c) <= 0 && cmp(c, a) >= 0
    ensures cmp(a, b) < 0 || cmp(b, c) < 0 ==> cmp(a, c) < 0 && cmp(c, a) > 0
  {
    if cmp(a, c) == 0 {
      assert cmp(c, a) <= 0;
      assert cmp(b, a) <= 0;
      assert cmp(c, b) <= 0;
    }
  }

  ghost predicate Ascending<K>(s: seq<K>, cmp: (K, K) -> int) {
    forall i, j :: 0 <= i < j < |s| ==> cmp(s[i], s[j]) < 0
  }

  /** `key` is above all of `before` and below all of `after`. */
  ghost predicate Fits<K>(cmp: (K, K) -> int, key: K, before: seq<K>, after: seq<K>) {
    (forall k :: k in before ==> cmp(key, k) > 0) &&
    (forall k :: k in after ==> cmp(key, k) < 0)
  }

  lemma AscendingAround<K>(cmp: (K, K) -> int, a: seq<K>, x: K, b: seq<K>)
    requires Ascending(a + [x] + b, cmp)
    ensures forall k :: k in a ==> cmp(k, x) < 0
    ensures forall k :: k in b ==> cmp(x, k) < 0
  {
    var s := a + [x] + b;
    assert s[|a|] == x;
    forall k | k in a
      ensures cmp(k, x) < 0
    {
      var i :| 0 <= i < |a| && a[i] == k;
      assert s[i] == k;
    }
    forall k | k in b
      ensures cmp(x, k) < 0
    {
      var i :| 0 <= i < |b| && b[i] == k;
      assert s[|a| + 1 + i] == k;
    }
  }

  /** One step of a search: everything on the far side of `x` compares like `x`. */
  lemma Narrow<K(!new)>(cmp: (K, K) -> int, key: K, before: seq<K>, x: K, after: seq<K>)
    requires Comparator(cmp) && Ascending(before + [x] + after, cmp)
    ensures cmp(key, x) < 0 ==> Fits(cmp, key, [], [x] + after)
    ensures cmp(key, x) > 0 ==> Fits(cmp, key, before + [x], [])
  {
    AscendingAround(cmp, before, x, after);
    hide Comparator, Ascending;
    if cmp(key, x) < 0 {
      forall k | k in after
        ensures cmp(key, k) < 0
      {
        Chain(cmp, key, x, k);
      }
    }
    if cmp(key, x) > 0 {
      forall k | k in before
        ensures cmp(key, k) > 0
      {
        Chain(cmp, k, x, key);
      }
    }
  }

  /** A key equal to `x` lies above all before `x` and below all after it. */
  lemma Matched<K(!new)>(cmp: (K, K) -> int, key: K, before: seq<K>, x: K, after: seq<K>)
    requires Comparator(cmp) && Ascending(before + [x] + after, cmp) && cmp(key, x) == 0
    ensures Fits(cmp, key, before, after)
  {
    AscendingAround(cmp, before, x, after);
    assert cmp(x, key) == 0;
    hide Comparator, Ascending;
    forall k | k in before
      ensures cmp(key, k) > 0
    {
      Chain(cmp, k, x, key);
    }
    forall k | k in after
      ensures cmp(key, k) < 0
    {
      Chain(cmp, key, x, k);
    }
  }

  lemma FitsJoin<K>(cmp: (K, K) -> int, key: K, before: seq<K>, after: seq<K>, before': seq<K>, after': seq<K>)
    requires Fits(cmp, key, before, after) && Fits(cmp, key, before', after')
    ensures Fits(cmp, key, before, after') && Fits(cmp, key, before', after)
  {
  }

  /** Putting a key where it fits keeps the order, and proves that it was not there. */
  lemma Placed<K(!new)>(cmp: (K, K) -> int, before: seq<K>, x: K, after: seq<K>)
    requires Comparator(cmp) && Fits(cmp, x, before, after) && Ascending(before + after, cmp)
    ensures Ascending(before + [x] + after, cmp)
    ensures forall k :: k in before + after ==> cmp(x, k) != 0
  {
    var s, s' := before + after, before + [x] + after;
    forall i, j | 0 <= i < j < |s'|
      ensures cmp(s'[i], s'[j]) < 0
    {
      if i != |before| && j != |before| {
        var i', j' := if i < |before| then i else i - 1, if j < |before| then j else j - 1;
        assert s'[i] == s[i'] && s'[j] == s[j'];
      } else if i == |before| {
        assert s'[j] in after;
      } else {
        assert s'[i] in before;
      }
    }
  }

  /** Taking one element out of an ascending sequence keeps it ascending. */
  lemma AscendingWithout<K>(s: seq<K>, i: nat, cmp: (K, K) -> int)
    requires i < |s| && Ascending(s, cmp)
    ensures Ascending(s[..i] + s[i + 1..], cmp)
  {
    var s' := s[..i] + s[i + 1..];
    forall j, k | 0 <= j < k < |s'|
      ensures cmp(s'[j], s'[k]) < 0
    {
      WithoutAt(s, i, j);
      WithoutAt(s, i, k);
    }
  }

  lemma WithoutAt<T>(s: seq<T>, i: nat, j: nat)
    requires i < |s| && j < |s| - 1
    ensures (s[..i] + s[i + 1..])[j] == s[if j < i then j else j + 1]
  {
  }

  lemma Regroup<T>(a: seq<T>, l: seq<T>, x: T, r: seq<T>, b: seq<T>)
    ensures a + (l + [x] + r) + b == (a + l) + [x] + (r + b)
    ensures [x] + (r + b) == [x] + r + b
  {
  }

  // ---------- one element put in or taken out ----------

  ghost predicate InsertedInto<E>(now: seq<E>, was: seq<E>, e: E) {
    exists i :: 0 <= i <= |was| && now == was[..i] + [e] + was[i..]
  }

  ghost predicate RemovedFrom<E>(now: seq<E>, was: seq<E>, e: E) {
    exists i :: 0 <= i < |was| && was[i] == e && now == was[..i] + was[i + 1..]
  }

  lemma InsertedMiddle<E>(now: seq<E>, was: seq<E>, a: seq<E>, e: E, b: seq<E>)
    requires was == a + b && now == a + [e] + b
    ensures InsertedInto(now, was, e)
  {
    assert was[..|a|] == a && was[|a|..] == b;
  }

  lemma RemovedMiddle<E>(now: seq<E>, was: seq<E>, a: seq<E>, e: E, b: seq<E>)
    requires was == a + [e] + b && now == a + b
    ensures RemovedFrom(now, was, e)
  {
    assert was[..|a|] == a && was[|a| + 1..] == b && was[|a|] == e;
  }
}
