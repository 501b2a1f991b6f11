/**
 * The Kotlin collection operations the screens are built from, on sequences:
 * `sortedByDescending` / `sortedDescending` (a stable sort by a key, largest
 * key first) and `distinct` (keeps the first occurrence of each element).
 */
module Lists {

  /** Non-increasing by key: every earlier element has a key at least as large. */
  ghost predicate SortedDescBy<T>(s: seq<T>, key: T -> int) {
    forall i, j | 0 <= i < j < |s| :: key(s[i]) >= key(s[j])
  }

  predicate NoDuplicates<T(==)>(s: seq<T>) {
    forall i, j | 0 <= i < j < |s| :: s[i] != s[j]
  }

  /** The elements of s whose key is k, in their order in s. */
  function WithKey<T>(s: seq<T>, key: T -> int, k: int): seq<T> {
    if s == [] then []
    else if key(s[0]) == k then [s[0]] + WithKey(s[1..], key, k)
    else WithKey(s[1..], key, k)
  }

  /** Insert x before the first element whose key is not larger than x's. */
  function InsertByKeyDesc<T>(x: T, s: seq<T>, key: T -> int): (r: seq<T>)
    ensures multiset(r) == multiset(s) + multiset{x}
  {
    if s == [] then [x]
    else if key(s[0]) <= key(x) then [x] + s
    else
      assert s == [s[0]] + s[1..];
      [s[0]] + InsertByKeyDesc(x, s[1..], key)
  }

  /** Inserting into a sorted sequence keeps it sorted. */
  lemma {:induction false} InsertKeepsSorted<T>(x: T, s: seq<T>, key: T -> int)
    requires SortedDescBy(s, key)
    ensures SortedDescBy(InsertByKeyDesc(x, s, key), key)
  {
    if s != [] && key(s[0]) > key(x) {
      var rest := InsertByKeyDesc(x, s[1..], key);
      InsertKeepsSorted(x, s[1..], key);
      assert InsertByKeyDesc(x, s, key) == [s[0]] + rest;
      forall k | 0 <= k < |rest| ensures key(rest[k]) <= key(s[0]) {
        assert rest[k] in multiset(rest);
        if rest[k] != x {
          assert rest[k] in multiset(s[1..]);
          var j :| 0 <= j < |s[1..]| && s[1..][j] == rest[k];
          assert s[j + 1] == rest[k];
        }
      }
    }
  }

  /** A stable sort, largest key first: Kotlin's `sortedByDescending(key)`. */
  function SortByKeyDesc<T>(s: seq<T>, key: T -> int): (r: seq<T>)
    ensures multiset(r) == multiset(s)
    ensures SortedDescBy(r, key)
  {
    if s == [] then []
    else
      assert s == [s[0]] + s[1..];
      InsertKeepsSorted(s[0], SortByKeyDesc(s[1..], key), key);
      InsertByKeyDesc(s[0], SortByKeyDesc(s[1..], key), key)
  }

  lemma {:induction false} InsertKeepsKeyOrder<T>(x: T, s: seq<T>, key: T -> int, k: int)
    requires SortedDescBy(s, key)
    ensures WithKey(InsertByKeyDesc(x, s, key), key, k)
            == if key(x) == k then [x] + WithKey(s, key, k) else WithKey(s, key, k)
  {
    if s == [] {
    } else if key(s[0]) <= key(x) {
      assert ([x] + s)[1..] == s;
    } else {
      InsertKeepsKeyOrder(x, s[1..], key, k);
      var r := [s[0]] + InsertByKeyDesc(x, s[1..], key);
      assert r[1..] == InsertByKeyDesc(x, s[1..], key);
      if key(x) == k {
        assert key(s[0]) != k;
      }
    }
  }

  /** The sort is stable: elements with equal keys keep their relative order. */
  lemma {:induction false} SortIsStable<T>(s: seq<T>, key: T -> int, k: int)
    ensures WithKey(SortByKeyDesc(s, key), key, k) == WithKey(s, key, k)
  {
    if s != [] {
      SortIsStable(s[1..], key, k);
      InsertKeepsKeyOrder(s[0], SortByKeyDesc(s[1..], key), key, k);
    }
  }

  /** Kotlin's `distinct()`: the first occurrence of every element, in order. */
  function Distinct<T(==)>(s: seq<T>): (r: seq<T>)
    ensures NoDuplicates(r)
    ensures |r| <= |s|
  {
    if s == [] then []
    else
      var d := Distinct(s[..|s| - 1]);
      assert s == s[..|s| - 1] + [s[|s| - 1]];
      if s[|s| - 1] in d then d else d + [s[|s| - 1]]
  }

  /** A permutation of a sequence without duplicates has none either. */
  lemma NoDuplicatesPermutation<T>(s: seq<T>, t: seq<T>)
    requires NoDuplicates(s) && multiset(s) == multiset(t)
    ensures NoDuplicates(t)
  {
    forall x ensures multiset(s)[x] <= 1 {
      NoDuplicatesCount(s, x);
    }
    forall i, j | 0 <= i < j < |t| ensures t[i] != t[j] {
      assert t == t[..i] + [t[i]] + t[i + 1..j] + [t[j]] + t[j + 1..];
      assert multiset(t)[t[i]] <= 1;
    }
  }

  lemma {:induction false} NoDuplicatesCount<T>(s: seq<T>, x: T)
    requires NoDuplicates(s)
    ensures multiset(s)[x] <= 1
  {
    if s != [] {
      assert s == [s[0]] + s[1..];
      NoDuplicatesCount(s[1..], x);
      if s[0] == x {
        assert x !in s[1..];
      }
    }
  }

  /** The distinct elements of a prefix are a prefix of the distinct elements. */
  lemma {:induction false} DistinctOfPrefix<T>(s: seq<T>, m: nat)
    requires m <= |s|
    ensures var p := Distinct(s[..m]); |p| <= |Distinct(s)| && Distinct(s)[..|p|] == p
    decreases |s| - m
  {
    if m < |s| {
      var init := s[..|s| - 1];
      assert init[..m] == s[..m];
      DistinctOfPrefix(init, m);
    } else {
      assert s[..m] == s;
    }
  }

  /** An element is among the distinct elements exactly when it occurs in the sequence. */
  lemma {:induction false} DistinctMember<T>(s: seq<T>, x: T)
    ensures x in Distinct(s) <==> x in s
  {
    if s != [] {
      var init := s[..|s| - 1];
      DistinctMember(init, x);
      assert s == init + [s[|s| - 1]];
      assert x in s <==> x in init || x == s[|s| - 1];
    }
  }

  /** The position of an occurring element among the distinct elements. */
  lemma DistinctIndex<T>(s: seq<T>, x: T) returns (a: int)
    requires x in s
    ensures 0 <= a < |Distinct(s)| && Distinct(s)[a] == x
  {
    DistinctMember(s, x);
    a :| 0 <= a < |Distinct(s)| && Distinct(s)[a] == x;
  }

  /**
   * Distinct keeps first-occurrence order: if s[i] is the a-th distinct element,
   * every earlier distinct element already occurs in s[..i + 1].
   */
  lemma DistinctEarlierOccursEarlier<T>(s: seq<T>, i: int, a: int, b: int)
    requires 0 <= i < |s| && 0 <= b <= a < |Distinct(s)| && Distinct(s)[a] == s[i]
    ensures Distinct(s)[b] in s[..i + 1]
  {
    var d := Distinct(s);
    var prefix := Distinct(s[..i + 1]);
    DistinctOfPrefix(s, i + 1);
    assert (s[..i + 1])[i] == s[i];
    DistinctMember(s[..i + 1], s[i]);
    var a' :| 0 <= a' < |prefix| && prefix[a'] == s[i];
    assert d[a'] == d[..|prefix|][a'];
    assert a' == a;
    assert d[b] == d[..|prefix|][b];
    DistinctMember(s[..i + 1], d[b]);
  }
}
