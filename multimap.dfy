/** Multimaps as sequences of (key, value) entries.

    An ordered `std::multimap<K, V>` with natural-number keys is a sequence
    sorted by key, whose order is the container's iteration order: entries of
    equal key stay in insertion order, because `emplace` puts a new entry at
    the upper bound of its key's range. The functions here are the
    specification of the containers; the methods are the iterator loops that
    the indices run over them. */
module Multimap {

  /** Keys never decrease along the sequence. */
  predicate Sorted<V>(s: seq<(nat, V)>) {
    forall i, j :: 0 <= i < j < |s| ==> s[i].0 <= s[j].0
  }

  lemma SortedTail<V>(s: seq<(nat, V)>)
    requires Sorted(s) && |s| > 0
    ensures Sorted(s[1..])
  {
    forall i, j | 0 <= i < j < |s| - 1
      ensures s[1..][i].0 <= s[1..][j].0
    {
      assert s[1..][i] == s[i + 1] && s[1..][j] == s[j + 1];
    }
  }

  /** `lower_bound(k)`: the position of the first entry whose key is not less than k. */
  function LowerBound<V>(s: seq<(nat, V)>, k: nat): (r: nat)
    requires Sorted(s)
    ensures r <= |s|
    ensures forall i :: 0 <= i < r ==> s[i].0 < k
    ensures forall i :: r <= i < |s| ==> k <= s[i].0
  {
    if |s| == 0 || k <= s[0].0 then 0
    else
      SortedTail(s);
      var r' := LowerBound(s[1..], k);
      assert forall i :: 1 <= i < 1 + r' ==> s[i] == s[1..][i - 1];
      assert forall i :: 1 + r' <= i < |s| ==> s[i] == s[1..][i - 1];
      1 + r'
  }

  /** `upper_bound(k)`: the position of the first entry whose key is greater than k. */
  function UpperBound<V>(s: seq<(nat, V)>, k: nat): (r: nat)
    requires Sorted(s)
    ensures r <= |s|
    ensures forall i :: 0 <= i < r ==> s[i].0 <= k
    ensures forall i :: r <= i < |s| ==> k < s[i].0
  {
    if |s| == 0 || k < s[0].0 then 0
    else
      SortedTail(s);
      var r' := UpperBound(s[1..], k);
      assert forall i :: 1 <= i < 1 + r' ==> s[i] == s[1..][i - 1];
      assert forall i :: 1 + r' <= i < |s| ==> s[i] == s[1..][i - 1];
      1 + r'
  }

  /** For b <= e, lower_bound(b) never comes after upper_bound(e). */
  lemma {:induction false} BoundsOrdered<V>(s: seq<(nat, V)>, b: nat, e: nat)
    requires Sorted(s) && b <= e
    ensures LowerBound(s, b) <= UpperBound(s, e)
  {
    if |s| > 0 && s[0].0 < b {
      SortedTail(s);
      BoundsOrdered(s[1..], b, e);
    }
  }

  /** Putting an entry between the keys at most its own and the keys above it keeps the sequence sorted. */
  lemma InsertSorted<V>(s: seq<(nat, V)>, j: nat, k: nat, v: V)
    requires Sorted(s) && j <= |s|
    requires forall i :: 0 <= i < j ==> s[i].0 <= k
    requires forall i :: j <= i < |s| ==> k < s[i].0
    ensures Sorted(s[..j] + [(k, v)] + s[j..])
  {
    var r := s[..j] + [(k, v)] + s[j..];
    forall a | 0 <= a < |r|
      ensures r[a] == if a < j then s[a] else if a == j then (k, v) else s[a - 1]
    {
    }
    forall a, b | 0 <= a < b < |r|
      ensures r[a].0 <= r[b].0
    {
      if b < j {
        assert s[a].0 <= s[b].0;
      } else if b > j && a > j {
        assert s[a - 1].0 <= s[b - 1].0;
      }
    }
  }

  /** `emplace(k, v)`: the new entry goes after every entry whose key is at most k. */
  function Emplace<V>(s: seq<(nat, V)>, k: nat, v: V): (r: seq<(nat, V)>)
    requires Sorted(s)
    ensures Sorted(r)
    ensures |r| == |s| + 1
    ensures multiset(r) == multiset(s) + multiset{(k, v)}
    ensures WithKey(r, k) == WithKey(s, k) + [(k, v)]
  {
    var j := UpperBound(s, k);
    assert s == s[..j] + s[j..];
    InsertSorted(s, j, k, v);
    InsertWithKey(s, j, k, v);
    s[..j] + [(k, v)] + s[j..]
  }

  /** Inserting (k, v) before the keys above k puts it last among the entries of key k. */
  lemma InsertWithKey<V>(s: seq<(nat, V)>, j: nat, k: nat, v: V)
    requires j <= |s|
    requires forall i :: j <= i < |s| ==> k < s[i].0
    ensures WithKey(s[..j] + [(k, v)] + s[j..], k) == WithKey(s, k) + [(k, v)]
  {
    var above := s[j..];
    assert forall i :: 0 <= i < |above| ==> above[i].0 != k by {
      assert forall i :: 0 <= i < |above| ==> above[i] == s[j + i];
    }
    WithKeyAbsent(above, k);
    assert WithKey(s, k) == WithKey(s[..j], k) by {
      assert s == s[..j] + above;
      WithKeyConcat(s[..j], above, k);
    }
    WithKeyConcat(s[..j] + [(k, v)], above, k);
    WithKeySnoc(s[..j], (k, v), k);
  }

  /** Erasing the first entry equal to x: what an `equal_range` scan that
      stops at its first match removes. */
  function RemoveFirst<T(==)>(s: seq<T>, x: T): seq<T> {
    if |s| == 0 then s
    else if s[0] == x then s[1..]
    else [s[0]] + RemoveFirst(s[1..], x)
  }

  /** Removing x takes exactly one copy of x away when there is one, and
      changes nothing otherwise. */
  lemma {:induction false} RemoveFirstMultiset<T>(s: seq<T>, x: T)
    ensures x in s ==> multiset(RemoveFirst(s, x)) == multiset(s) - multiset{x}
    ensures x !in s ==> RemoveFirst(s, x) == s
  {
    if |s| > 0 {
      assert s == [s[0]] + s[1..];
      if s[0] != x {
        RemoveFirstMultiset(s[1..], x);
      }
    }
  }

  /** The first position holding x. */
  function IndexOf<T(==)>(s: seq<T>, x: T): (i: nat)
    requires x in s
    ensures i < |s| && s[i] == x
    ensures forall j :: 0 <= j < i ==> s[j] != x
  {
    if s[0] == x then 0
    else
      assert x in s[1..];
      1 + IndexOf(s[1..], x)
  }

  /** When i is the first position holding x, removing x erases position i. */
  lemma {:induction false} RemoveFirstAt<T>(s: seq<T>, x: T, i: nat)
    requires i < |s| && s[i] == x
    requires forall j :: 0 <= j < i ==> s[j] != x
    ensures RemoveFirst(s, x) == s[..i] + s[i + 1..]
  {
    if i > 0 {
      var t := s[1..];
      assert RemoveFirst(t, x) == s[1..i] + s[i + 1..] by {
        assert forall j :: 0 <= j < i - 1 ==> t[j] == s[j + 1];
        RemoveFirstAt(t, x, i - 1);
        assert t[..i - 1] == s[1..i] && t[i..] == s[i + 1..];
      }
      assert RemoveFirst(s, x) == [s[0]] + RemoveFirst(t, x) by {
        assert s[0] != x;
      }
      assert [s[0]] + (s[1..i] + s[i + 1..]) == s[..i] + s[i + 1..] by {
        assert [s[0]] + s[1..i] == s[..i];
      }
    }
  }

  /** Erasing one position keeps the entries sorted. */
  lemma DeleteSorted<V>(s: seq<(nat, V)>, i: nat)
    requires Sorted(s) && i < |s|
    ensures Sorted(s[..i] + s[i + 1..])
  {
    var r := s[..i] + s[i + 1..];
    assert forall a :: 0 <= a < |r| ==> r[a] == if a < i then s[a] else s[a + 1];
  }

  /** Erasing any entry keeps the entries sorted. */
  lemma RemoveFirstSorted<V>(s: seq<(nat, V)>, x: (nat, V))
    requires Sorted(s)
    ensures Sorted(RemoveFirst(s, x))
  {
    RemoveFirstMultiset(s, x);
    if x in s {
      var i := IndexOf(s, x);
      RemoveFirstAt(s, x, i);
      DeleteSorted(s, i);
    }
  }

  /** Emplacing an entry and then removing it restores the multiset of entries. */
  lemma EmplaceRemoveRestoresMultiset<V>(s: seq<(nat, V)>, k: nat, v: V)
    requires Sorted(s)
    ensures multiset(RemoveFirst(Emplace(s, k, v), (k, v))) == multiset(s)
  {
    var r := Emplace(s, k, v);
    assert (k, v) in multiset(r);
    RemoveFirstMultiset(r, (k, v));
  }

  /** Removing an entry that does not occur before the given position erases that position. */
  lemma {:induction false} RemoveInserted<T>(p: seq<T>, x: T, q: seq<T>)
    requires x !in p
    ensures RemoveFirst(p + [x] + q, x) == p + q
  {
    if |p| == 0 {
      assert p + [x] + q == [x] + q;
    } else {
      assert RemoveFirst(p + [x] + q, x) == [p[0]] + RemoveFirst(p[1..] + [x] + q, x) by {
        assert (p + [x] + q)[0] == p[0] != x;
        assert (p + [x] + q)[1..] == p[1..] + [x] + q;
      }
      RemoveInserted(p[1..], x, q);
      assert [p[0]] + (p[1..] + q) == p + q;
    }
  }

  /** When the entry was not already present, emplacing then removing it
      restores the sequence itself, not only its multiset. */
  lemma EmplaceRemoveRestoresExactly<V>(s: seq<(nat, V)>, k: nat, v: V)
    requires Sorted(s)
    requires (k, v) !in s
    ensures RemoveFirst(Emplace(s, k, v), (k, v)) == s
  {
    var j := UpperBound(s, k);
    assert Emplace(s, k, v) == s[..j] + [(k, v)] + s[j..];
    assert (k, v) !in s[..j];
    RemoveInserted(s[..j], (k, v), s[j..]);
    assert s[..j] + s[j..] == s;
  }

  /** With a duplicate already stored under the key, the rollback removes the
      older copy: the multiset comes back but the order within the key does not. */
  lemma EmplaceRemoveReordersDuplicates<V>(a: V, b: V)
    requires a != b
    ensures RemoveFirst(Emplace([(5, a), (5, b)], 5, a), (5, a)) == [(5, b), (5, a)]
    ensures [(5, b), (5, a)] != [(5, a), (5, b)]
  {
    var s: seq<(nat, V)> := [(5, a), (5, b)];
    assert UpperBound(s, 5) == 2 by {
      assert UpperBound(s[1..], 5) == 1 by {
        assert UpperBound(s[1..][1..], 5) == 0;
      }
    }
    assert [(5, b), (5, a)][0] != [(5, a), (5, b)][0];
  }

  /** The values of a sequence of entries, in order. */
  function Values<K, V>(s: seq<(K, V)>): seq<V> {
    seq(|s|, i requires 0 <= i < |s| => s[i].1)
  }

  /** The first n elements, or all of them when there are fewer. */
  function Take<T>(s: seq<T>, n: nat): (r: seq<T>)
    ensures |r| == if n <= |s| then n else |s|
    ensures forall i :: 0 <= i < |r| ==> r[i] == s[i]
  {
    if n <= |s| then s[..n] else s
  }

  /** The entries stored under key k, in storage order. */
  function WithKey<K(==), V>(s: seq<(K, V)>, k: K): seq<(K, V)> {
    if |s| == 0 then []
    else (if s[0].0 == k then [s[0]] else []) + WithKey(s[1..], k)
  }

  lemma {:induction false} WithKeyConcat<K, V>(a: seq<(K, V)>, b: seq<(K, V)>, k: K)
    ensures WithKey(a + b, k) == WithKey(a, k) + WithKey(b, k)
  {
    if |a| > 0 {
      assert (a + b)[1..] == a[1..] + b;
      WithKeyConcat(a[1..], b, k);
    } else {
      assert a + b == b;
    }
  }

  lemma {:induction false} WithKeyAbsent<K, V>(s: seq<(K, V)>, k: K)
    requires forall i :: 0 <= i < |s| ==> s[i].0 != k
    ensures WithKey(s, k) == []
  {
    if |s| > 0 {
      WithKeyAbsent(s[1..], k);
    }
  }

  /** The entries whose key lies in [b, e], in storage order. */
  function InRange<V>(s: seq<(nat, V)>, b: nat, e: nat): seq<(nat, V)> {
    if |s| == 0 then []
    else (if b <= s[0].0 <= e then [s[0]] else []) + InRange(s[1..], b, e)
  }

  /** Each value occurs under key k as often as the pair (k, v) is stored:
      a lookup returns exactly the hashes stored under its key, duplicates included. */
  lemma {:induction false} ValuesWithKeyCount<K, V>(s: seq<(K, V)>, k: K, v: V)
    ensures multiset(Values(WithKey(s, k)))[v] == multiset(s)[(k, v)]
  {
    if |s| > 0 {
      ValuesWithKeyCount(s[1..], k, v);
      var head: seq<(K, V)> := if s[0].0 == k then [s[0]] else [];
      var rest := WithKey(s[1..], k);
      assert Values(WithKey(s, k)) == Values(head) + Values(rest) by {
        ValuesConcat(head, rest);
      }
      assert multiset(s) == multiset([s[0]]) + multiset(s[1..]) by {
        assert s == [s[0]] + s[1..];
      }
      if s[0].0 == k {
        assert Values(head) == [s[0].1];
      } else {
        assert Values(head) == [];
      }
    }
  }

  lemma ValuesConcat<K, V>(a: seq<(K, V)>, b: seq<(K, V)>)
    ensures Values(a + b) == Values(a) + Values(b)
  {
  }

  /** In a sorted sequence, [lower_bound(b), upper_bound(e)) holds exactly
      the entries whose key lies in [b, e]. */
  lemma {:induction false} RangeIsSlice<V>(s: seq<(nat, V)>, b: nat, e: nat)
    requires Sorted(s) && b <= e
    ensures LowerBound(s, b) <= UpperBound(s, e)
    ensures s[LowerBound(s, b)..UpperBound(s, e)] == InRange(s, b, e)
  {
    BoundsOrdered(s, b, e);
    if |s| > 0 {
      SortedTail(s);
      RangeIsSlice(s[1..], b, e);
      var lo', hi' := LowerBound(s[1..], b), UpperBound(s[1..], e);
      if s[0].0 < b {
        assert s[LowerBound(s, b)..UpperBound(s, e)] == s[1..][lo'..hi'];
      } else if s[0].0 <= e {
        assert |s| == 1 || b <= s[1..][0].0;
        assert lo' == 0;
        assert s[..UpperBound(s, e)] == [s[0]] + s[1..][..hi'];
      } else {
        assert |s| == 1 || e < s[1..][0].0;
        assert hi' == 0;
      }
    }
  }

  /** The one-key range [k, k] is the key's own entries. */
  lemma {:induction false} PointRangeIsWithKey<V>(s: seq<(nat, V)>, k: nat)
    ensures InRange(s, k, k) == WithKey(s, k)
  {
    if |s| > 0 {
      PointRangeIsWithKey(s[1..], k);
    }
  }

  /** `equal_range(k)` of a sorted sequence holds exactly the entries under key k. */
  lemma EqualRangeIsWithKey<V>(s: seq<(nat, V)>, k: nat)
    requires Sorted(s)
    ensures LowerBound(s, k) <= UpperBound(s, k)
    ensures s[LowerBound(s, k)..UpperBound(s, k)] == WithKey(s, k)
  {
    RangeIsSlice(s, k, k);
    PointRangeIsWithKey(s, k);
  }

  lemma ValuesAppend<K, V>(s: seq<(K, V)>, x: (K, V))
    ensures Values(s + [x]) == Values(s) + [x.1]
  {
  }

  /** The `remove` loop of an ordered index: scan the equal range of k and
      erase the first entry whose value is v. */
  method EraseFromEqualRange<V(==)>(s: seq<(nat, V)>, k: nat, v: V) returns (found: bool, r: seq<(nat, V)>)
    requires Sorted(s)
    ensures found == ((k, v) in s)
    ensures r == RemoveFirst(s, (k, v))
  {
    var lo, hi := LowerBound(s, k), UpperBound(s, k);
    BoundsOrdered(s, k, k);
    var it := lo;
    while it < hi
      invariant lo <= it <= hi
      invariant forall j :: lo <= j < it ==> s[j].1 != v
    {
      if s[it].1 == v {
        RemoveFirstAt(s, (k, v), it);
        return true, s[..it] + s[it + 1..];
      }
      it := it + 1;
    }
    forall j | 0 <= j < |s|
      ensures s[j] != (k, v)
    {
      if s[j].0 == k {
        assert lo <= j < hi;
      }
    }
    RemoveFirstMultiset(s, (k, v));
    return false, s;
  }

  /** The `remove` loop of the unordered index: visit the entries under key k
      and erase the first whose value is v. */
  method EraseFirstWithKey<K(==), V(==)>(s: seq<(K, V)>, k: K, v: V) returns (found: bool, r: seq<(K, V)>)
    ensures found == ((k, v) in s)
    ensures r == RemoveFirst(s, (k, v))
  {
    var it := 0;
    while it < |s|
      invariant 0 <= it <= |s|
      invariant forall j :: 0 <= j < it ==> s[j] != (k, v)
    {
      if s[it].0 == k && s[it].1 == v {
        RemoveFirstAt(s, (k, v), it);
        return true, s[..it] + s[it + 1..];
      }
      it := it + 1;
    }
    RemoveFirstMultiset(s, (k, v));
    return false, s;
  }

  /** The `find` loop of a timestamp index: append the values of positions
      [lo, hi) to the caller's vector, stopping after `limit` of them. */
  method AppendRange<K, V>(s: seq<(K, V)>, lo: nat, hi: nat, limit: nat, out: seq<V>)
    returns (out': seq<V>, appended: nat)
    requires lo <= hi <= |s|
    ensures appended == if limit <= hi - lo then limit else hi - lo
    ensures out' == out + Take(Values(s[lo..hi]), limit)
  {
    var it := lo;
    appended := 0;
    out' := out;
    while it != hi && appended < limit
      invariant lo <= it <= hi
      invariant appended == it - lo <= limit
      invariant out' == out + Values(s[lo..it])
    {
      assert s[lo..it + 1] == s[lo..it] + [s[it]];
      ValuesAppend(s[lo..it], s[it]);
      appended := appended + 1;
      out' := out' + [s[it].1];
      it := it + 1;
    }
    assert Values(s[lo..it]) == Take(Values(s[lo..hi]), limit);
  }

  /** The `find` loop of the orphan index: append every value of positions [lo, hi). */
  method AppendAll<K, V>(s: seq<(K, V)>, lo: nat, hi: nat, out: seq<V>) returns (out': seq<V>, found: bool)
    requires lo <= hi <= |s|
    ensures found == (lo < hi)
    ensures out' == out + Values(s[lo..hi])
  {
    var it := lo;
    found := false;
    out' := out;
    while it != hi
      invariant lo <= it <= hi
      invariant found == (lo < it)
      invariant out' == out + Values(s[lo..it])
    {
      assert s[lo..it + 1] == s[lo..it] + [s[it]];
      ValuesAppend(s[lo..it], s[it]);
      found := true;
      out' := out' + [s[it].1];
      it := it + 1;
    }
  }

  /** The `find` loop of the unordered index: append the value of every entry
      stored under key k. */
  method AppendWithKey<K(==), V>(s: seq<(K, V)>, k: K, out: seq<V>) returns (out': seq<V>, found: bool)
    ensures found == (WithKey(s, k) != [])
    ensures out' == out + Values(WithKey(s, k))
  {
    var it := 0;
    found := false;
    out' := out;
    while it != |s|
      invariant 0 <= it <= |s|
      invariant found == (WithKey(s[..it], k) != [])
      invariant out' == out + Values(WithKey(s[..it], k))
    {
      WithKeyStep(s, k, it);
      if s[it].0 == k {
        found := true;
        out' := out' + [s[it].1];
      }
      it := it + 1;
    }
    assert s[..it] == s;
  }

  /** One more entry scanned: its value joins the key's values when its key matches. */
  lemma WithKeyStep<K, V>(s: seq<(K, V)>, k: K, it: nat)
    requires it < |s|
    ensures WithKey(s[..it + 1], k) != [] <==> WithKey(s[..it], k) != [] || s[it].0 == k
    ensures Values(WithKey(s[..it + 1], k)) == Values(WithKey(s[..it], k)) + (if s[it].0 == k then [s[it].1] else [])
  {
    assert WithKey(s[..it + 1], k) == WithKey(s[..it], k) + (if s[it].0 == k then [s[it]] else []) by {
      WithKeySnoc(s[..it], s[it], k);
      assert s[..it + 1] == s[..it] + [s[it]];
    }
    if s[it].0 == k {
      ValuesAppend(WithKey(s[..it], k), s[it]);
    } else {
      assert WithKey(s[..it + 1], k) == WithKey(s[..it], k);
    }
  }

  lemma {:induction false} WithKeySnoc<K, V>(s: seq<(K, V)>, x: (K, V), k: K)
    ensures WithKey(s + [x], k) == WithKey(s, k) + (if x.0 == k then [x] else [])
  {
    if |s| > 0 {
      assert (s + [x])[1..] == s[1..] + [x];
      WithKeySnoc(s[1..], x, k);
    } else {
      assert WithKey([x], k) == (if x.0 == k then [x] else []) + WithKey([], k);
    }
  }
}
