/** The column order both engine files derive from the column key with
    `key.split("").map((char, index) => ({ char, index })).sort(...)`.
    dist/app.js compares by character and breaks ties by original index;
    src/app.ts compares by character only and relies on the sort being
    stable. `Array.prototype.sort` is modelled as an insertion sort, and
    `localeCompare` as comparison of character codes, which agrees with it
    on capital letters under the root and English collations (not in every
    locale). */
module KeyOrder {
  import opened Seqs
  import opened Transposition
  import opened Alphabet

  /** The comparator of dist/app.js: character first, then original index. */
  predicate Less(key: seq<char>, i: nat, j: nat)
    requires i < |key| && j < |key|
  {
    key[i] < key[j] || (key[i] == key[j] && i < j)
  }

  predicate Indexes(key: seq<char>, s: seq<nat>) {
    forall i | 0 <= i < |s| :: s[i] < |key|
  }

  /** Strictly ascending under `Less`. */
  predicate Sorted(key: seq<char>, s: seq<nat>)
    requires Indexes(key, s)
  {
    forall i, j | 0 <= i < j < |s| :: Less(key, s[i], s[j])
  }

  /** The column keys the event handlers pass: the prepared key with
      everything but capital letters removed, and not empty. */
  predicate ValidColumnKey(key: seq<char>) {
    |key| > 0 && forall i | 0 <= i < |key| :: IsLetter(key[i])
  }

  // ---------------------------------------------------------------------
  // dist/app.js: sort by (char, index)

  /** Inserts `x` before the first element it is `Less` than. */
  function Insert(key: seq<char>, x: nat, s: seq<nat>): (r: seq<nat>)
    requires x < |key| && Indexes(key, s)
    ensures |r| == |s| + 1 && Indexes(key, r)
    ensures forall y :: y in r <==> y == x || y in s
  {
    if |s| == 0 then [x]
    else if Less(key, x, s[0]) then [x] + s
    else [s[0]] + Insert(key, x, s[1..])
  }

  /** The indices `0 .. n - 1`, sorted. */
  function SortPrefix(key: seq<char>, n: nat): (r: seq<nat>)
    requires n <= |key|
    ensures |r| == n && Indexes(key, r)
    ensures forall y: nat :: y in r <==> y < n
  {
    if n == 0 then [] else Insert(key, n - 1, SortPrefix(key, n - 1))
  }

  /** The `keyOrder` of dist/app.js, as column indices. */
  function DistKeyOrder(key: seq<char>): (order: seq<nat>)
    ensures IsColumnOrder(order, |key|)
  {
    SortPrefixSorted(key, |key|);
    SortedDistinct(key, SortPrefix(key, |key|));
    SortPrefix(key, |key|)
  }

  lemma {:induction false} InsertSorted(key: seq<char>, x: nat, s: seq<nat>)
    requires x < |key| && Indexes(key, s) && Sorted(key, s) && x !in s
    ensures Sorted(key, Insert(key, x, s))
  {
    if |s| > 0 && !Less(key, x, s[0]) {
      var t := s[1..];
      assert x != s[0];
      assert Sorted(key, t);
      InsertSorted(key, x, t);
      var r := Insert(key, x, s);
      forall i, j | 0 <= i < j < |r|
        ensures Less(key, r[i], r[j])
      {
        if i == 0 {
          assert r[j] in Insert(key, x, t);
          if r[j] != x {
            var p :| 0 <= p < |t| && t[p] == r[j];
            assert s[p + 1] == r[j];
          }
        } else {
          assert r[i] == Insert(key, x, t)[i - 1] && r[j] == Insert(key, x, t)[j - 1];
        }
      }
    }
  }

  /** The first element of a sorted sequence is below every other one. */
  lemma SortedFirst(key: seq<char>, s: seq<nat>, y: nat)
    requires Indexes(key, s) && Sorted(key, s) && y in s
    ensures y == s[0] || Less(key, s[0], y)
  {
  }

  lemma LessAsymmetric(key: seq<char>, x: nat, y: nat)
    requires x < |key| && y < |key|
    ensures !(Less(key, x, y) && Less(key, y, x))
  {
  }

  /** A strictly ascending sequence has no repeats. */
  lemma SortedDistinct(key: seq<char>, s: seq<nat>)
    requires Indexes(key, s) && Sorted(key, s)
    ensures Distinct(s)
  {
  }

  lemma {:induction false} SortPrefixSorted(key: seq<char>, n: nat)
    requires n <= |key|
    ensures Sorted(key, SortPrefix(key, n))
  {
    if n > 0 {
      SortPrefixSorted(key, n - 1);
      InsertSorted(key, n - 1, SortPrefix(key, n - 1));
    }
  }

  /** The dist key order takes every column once, and in ascending order of
      (key character, original index). */
  lemma DistKeyOrderSpec(key: seq<char>)
    ensures IsColumnOrder(DistKeyOrder(key), |key|)
    ensures Sorted(key, DistKeyOrder(key))
    ensures forall i, j | 0 <= i < j < |key| ::
      key[DistKeyOrder(key)[i]] <= key[DistKeyOrder(key)[j]] &&
      (key[DistKeyOrder(key)[i]] == key[DistKeyOrder(key)[j]] ==> DistKeyOrder(key)[i] < DistKeyOrder(key)[j])
  {
    SortPrefixSorted(key, |key|);
    SortedDistinct(key, DistKeyOrder(key));
  }

  /** The comparator is a strict total order on the indices, so exactly one
      arrangement of the columns is sorted: whatever algorithm the runtime's
      sort uses yields `DistKeyOrder`. */
  lemma {:induction false} SortedUnique(key: seq<char>, a: seq<nat>, b: seq<nat>)
    requires Indexes(key, a) && Indexes(key, b)
    requires Sorted(key, a) && Sorted(key, b)
    requires forall y :: y in a <==> y in b
    ensures a == b
  {
    if |a| == 0 {
      SortedDistinct(key, b);
      DistinctWithin(b, a);
    } else {
      assert a[0] in b;
      assert b[0] in a;
      SortedFirst(key, a, b[0]);
      SortedFirst(key, b, a[0]);
      LessAsymmetric(key, a[0], b[0]);
      assert a[0] == b[0];
      SortedDistinct(key, a);
      SortedDistinct(key, b);
      forall y
        ensures y in a[1..] ==> y in b[1..]
        ensures y in b[1..] ==> y in a[1..]
      {
        if y in a[1..] {
          var p :| 1 <= p < |a| && a[p] == y;
          assert y in a;
          var q :| 0 <= q < |b| && b[q] == y;
          assert q != 0;
          assert b[1..][q - 1] == y;
        }
        if y in b[1..] {
          var p :| 1 <= p < |b| && b[p] == y;
          assert y in b;
          var q :| 0 <= q < |a| && a[q] == y;
          assert q != 0;
          assert a[1..][q - 1] == y;
        }
      }
      SortedUnique(key, a[1..], b[1..]);
    }
  }

  // ---------------------------------------------------------------------
  // src/app.ts: stable sort by character only

  /** Stable insertion by character: `x` goes after every element whose
      character is not greater than its own. */
  function StableInsert(key: seq<char>, x: nat, s: seq<nat>): (r: seq<nat>)
    requires x < |key| && Indexes(key, s)
    ensures |r| == |s| + 1 && Indexes(key, r)
  {
    if |s| == 0 then [x]
    else if key[x] < key[s[0]] then [x] + s
    else [s[0]] + StableInsert(key, x, s[1..])
  }

  function StableSortPrefix(key: seq<char>, n: nat): (r: seq<nat>)
    requires n <= |key|
    ensures |r| == n && Indexes(key, r)
  {
    if n == 0 then [] else StableInsert(key, n - 1, StableSortPrefix(key, n - 1))
  }

  /** The `keyOrder` of src/app.ts, as column indices. */
  function SrcKeyOrder(key: seq<char>): (order: seq<nat>)
    ensures IsColumnOrder(order, |key|)
  {
    StableSortPrefixAgrees(key, |key|);
    assert IsColumnOrder(DistKeyOrder(key), |key|);
    StableSortPrefix(key, |key|)
  }

  /** Inserting an index larger than every index present: a character-only
      comparison decides the same as the tie-breaking one. */
  lemma {:induction false} StableInsertAgrees(key: seq<char>, x: nat, s: seq<nat>)
    requires x < |key| && Indexes(key, s)
    requires forall i | 0 <= i < |s| :: s[i] < x
    ensures StableInsert(key, x, s) == Insert(key, x, s)
  {
    if |s| > 0 {
      StableInsertAgrees(key, x, s[1..]);
    }
  }

  /** A stable sort by character alone puts the columns in the same order
      as the dist comparator: equal letters keep their left-to-right
      order, which is the tie-break by original index. */
  lemma SrcKeyOrderAgrees(key: seq<char>)
    ensures SrcKeyOrder(key) == DistKeyOrder(key)
  {
    StableSortPrefixAgrees(key, |key|);
  }

  lemma {:induction false} StableSortPrefixAgrees(key: seq<char>, n: nat)
    requires n <= |key|
    ensures StableSortPrefix(key, n) == SortPrefix(key, n)
  {
    if n > 0 {
      StableSortPrefixAgrees(key, n - 1);
      var s := SortPrefix(key, n - 1);
      forall i | 0 <= i < |s|
        ensures s[i] < n - 1
      {
        assert s[i] in s;
      }
      StableInsertAgrees(key, n - 1, s);
    }
  }
}
