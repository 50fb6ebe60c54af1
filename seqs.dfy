/** Generic sequence operations that the engine takes from the JavaScript
    runtime: de-duplication through a `Set`, `Array.prototype.indexOf`,
    `String.prototype.substr`, `s[i] || ""`, global replacement of a
    literal pattern, and per-character maps and filters (the character-class
    `.replace` calls), each written out with the facts the proofs need. */
module Seqs {

  /** No element occurs twice. */
  predicate Distinct<T(==)>(s: seq<T>) {
    forall i, j | 0 <= i < j < |s| :: s[i] != s[j]
  }

  /** The elements of `s`, as a set. */
  function Elems<T(==)>(s: seq<T>): set<T> {
    set x | x in s
  }

  /** `[0, 1, ..., n - 1]`. */
  function Range(n: nat): (r: seq<nat>)
    ensures |r| == n
    ensures forall i | 0 <= i < n :: r[i] == i
  {
    seq(n, i => i)
  }

  /** The value of `s[i] || ""`: the one-element string at `i`, or the
      empty string past the end. */
  function Cell<T>(s: seq<T>, i: nat): seq<T> {
    if i < |s| then [s[i]] else []
  }

  /** `s.substr(start, len)`, which clamps both ends to the string. */
  function Substr<T>(s: seq<T>, start: nat, len: nat): seq<T> {
    var b := if start < |s| then start else |s|;
    var e := if start + len < |s| then start + len else |s|;
    s[b..e]
  }

  /** `Array.prototype.indexOf`: the first position of `x`, or -1. */
  function IndexOf<T(==)>(s: seq<T>, x: T): (r: int)
    ensures -1 <= r < |s|
    ensures r == -1 <==> x !in s
    ensures r >= 0 ==> s[r] == x && forall j | 0 <= j < r :: s[j] != x
  {
    if |s| == 0 then -1
    else if s[0] == x then 0
    else
      var k := IndexOf(s[1..], x);
      if k == -1 then -1 else k + 1
  }

  /** Per-element map. */
  function Map<T, U>(s: seq<T>, f: T -> U): (r: seq<U>)
    ensures |r| == |s|
    ensures forall i | 0 <= i < |s| :: r[i] == f(s[i])
  {
    seq(|s|, i requires 0 <= i < |s| => f(s[i]))
  }

  /** The elements of `s` that satisfy `p`, in order. */
  function Filter<T>(s: seq<T>, p: T -> bool): seq<T> {
    if |s| == 0 then []
    else (if p(s[0]) then [s[0]] else []) + Filter(s[1..], p)
  }

  /** The test "is not an element of `acc`", as a value. */
  function NotIn<T(==)>(acc: seq<T>): T -> bool {
    x => x !in acc
  }

  /** The test "is an element of `u`", as a value. */
  function InSeq<T(==)>(u: seq<T>): T -> bool {
    x => x in u
  }

  /** Each element replaced by a sequence, all concatenated. */
  function FlatMap<T, U>(s: seq<T>, f: T -> seq<U>): seq<U> {
    if |s| == 0 then [] else f(s[0]) + FlatMap(s[1..], f)
  }

  /** Walks `s` left to right and appends to `acc` every element that is
      not there yet: the loop `for (x of s) if (!placed(x)) place(x)`. */
  function AppendNew<T(==)>(acc: seq<T>, s: seq<T>): seq<T>
    decreases |s|
  {
    if |s| == 0 then acc
    else AppendNew(if s[0] in acc then acc else acc + [s[0]], s[1..])
  }

  /** `Array.from(new Set(s))`: each element once, in order of first
      occurrence. */
  function Dedup<T(==)>(s: seq<T>): seq<T> {
    AppendNew([], s)
  }

  /** `s.replace(new RegExp(pat, "g"), rep)` for a pattern without
      metacharacters: leftmost, non-overlapping occurrences are replaced. */
  function ReplaceAll<T(==)>(s: seq<T>, pat: seq<T>, rep: seq<T>): seq<T>
    requires |pat| > 0
    decreases |s|
  {
    if |s| < |pat| then s
    else if s[..|pat|] == pat then rep + ReplaceAll(s[|pat|..], pat, rep)
    else [s[0]] + ReplaceAll(s[1..], pat, rep)
  }

  // ---------------------------------------------------------------------
  // Filter

  lemma {:induction false} FilterConcat<T>(a: seq<T>, b: seq<T>, p: T -> bool)
    ensures Filter(a + b, p) == Filter(a, p) + Filter(b, p)
  {
    if |a| > 0 {
      assert (a + b)[1..] == a[1..] + b;
      FilterConcat(a[1..], b, p);
    } else {
      assert a + b == b;
    }
  }

  lemma {:induction false} FilterMembers<T>(s: seq<T>, p: T -> bool)
    ensures forall x :: x in Filter(s, p) <==> x in s && p(x)
  {
    if |s| > 0 {
      FilterMembers(s[1..], p);
      assert s == [s[0]] + s[1..];
    }
  }

  lemma {:induction false} FilterDistinct<T>(s: seq<T>, p: T -> bool)
    requires Distinct(s)
    ensures Distinct(Filter(s, p))
  {
    if |s| > 0 {
      assert Distinct(s[1..]);
      FilterDistinct(s[1..], p);
      FilterMembers(s[1..], p);
      assert s[0] !in s[1..];
    }
  }

  lemma {:induction false} FilterAll<T>(s: seq<T>, p: T -> bool)
    requires forall i | 0 <= i < |s| :: p(s[i])
    ensures Filter(s, p) == s
  {
    if |s| > 0 {
      FilterAll(s[1..], p);
    }
  }

  /** A tail with no element to keep leaves the filter unchanged. */
  lemma FilterRestNone<T>(s: seq<T>, pre: seq<T>, rest: seq<T>, p: T -> bool, kept: seq<T>)
    requires s == pre + rest && kept == Filter(pre, p)
    requires forall i | 0 <= i < |rest| :: !p(rest[i])
    ensures Filter(s, p) == kept
  {
    FilterNone(rest, p);
    FilterConcat(pre, rest, p);
  }

  lemma {:induction false} FilterNone<T>(s: seq<T>, p: T -> bool)
    requires forall i | 0 <= i < |s| :: !p(s[i])
    ensures Filter(s, p) == []
  {
    if |s| > 0 {
      FilterNone(s[1..], p);
    }
  }

  /** Two predicates that agree on the elements of `s` filter it alike. */
  lemma {:induction false} FilterExt<T>(s: seq<T>, p: T -> bool, q: T -> bool)
    requires forall i | 0 <= i < |s| :: p(s[i]) == q(s[i])
    ensures Filter(s, p) == Filter(s, q)
  {
    if |s| > 0 {
      FilterExt(s[1..], p, q);
    }
  }

  /** Filtering one more element at the end. */
  lemma FilterSnoc<T>(s: seq<T>, i: nat, p: T -> bool)
    requires i < |s|
    ensures Filter(s[..i + 1], p) == Filter(s[..i], p) + (if p(s[i]) then [s[i]] else [])
  {
    assert s[..i + 1] == s[..i] + [s[i]];
    FilterConcat(s[..i], [s[i]], p);
  }

  /** A prefix one or two elements longer, and a split at any index. */
  lemma TakeOneMore<T>(s: seq<T>, i: nat)
    requires i < |s|
    ensures s[..i + 1] == s[..i] + [s[i]]
  {
  }

  lemma TakeTwoMore<T>(s: seq<T>, i: nat)
    requires i + 1 < |s|
    ensures s[..i + 2] == s[..i] + [s[i], s[i + 1]]
  {
  }

  lemma TakeDrop<T>(s: seq<T>, i: nat)
    requires i <= |s|
    ensures s == s[..i] + s[i..]
  {
  }

  // ---------------------------------------------------------------------
  // FlatMap

  lemma {:induction false} FlatMapConcat<T, U>(a: seq<T>, b: seq<T>, f: T -> seq<U>)
    ensures FlatMap(a + b, f) == FlatMap(a, f) + FlatMap(b, f)
  {
    if |a| > 0 {
      assert (a + b)[1..] == a[1..] + b;
      FlatMapConcat(a[1..], b, f);
    } else {
      assert a + b == b;
    }
  }

  /** When every image is drawn from `u`, so is the whole of `FlatMap`. */
  lemma {:induction false} FlatMapInto<T, U>(s: seq<T>, f: T -> seq<U>, u: seq<U>)
    requires forall i, j | 0 <= i < |s| && 0 <= j < |f(s[i])| :: f(s[i])[j] in u
    ensures forall j | 0 <= j < |FlatMap(s, f)| :: FlatMap(s, f)[j] in u
  {
    if |s| > 0 {
      FlatMapInto(s[1..], f, u);
      var h, t := f(s[0]), FlatMap(s[1..], f);
      assert forall j | 0 <= j < |h| :: h[j] in u;
      forall j | 0 <= j < |h + t|
        ensures (h + t)[j] in u
      {
        if j >= |h| {
          assert (h + t)[j] == t[j - |h|];
        }
      }
    }
  }

  // ---------------------------------------------------------------------
  // AppendNew and Dedup

  /** `AppendNew` only ever appends, and appends exactly the new elements. */
  lemma {:induction false} AppendNewElems<T>(acc: seq<T>, s: seq<T>)
    ensures |AppendNew(acc, s)| >= |acc|
    ensures AppendNew(acc, s)[..|acc|] == acc
    ensures forall x :: x in AppendNew(acc, s) <==> x in acc || x in s
    ensures Distinct(acc) ==> Distinct(AppendNew(acc, s))
    decreases |s|
  {
    if |s| > 0 {
      var acc' := if s[0] in acc then acc else acc + [s[0]];
      AppendNewElems(acc', s[1..]);
      assert acc'[..|acc|] == acc;
      assert s == [s[0]] + s[1..];
      if Distinct(acc) && s[0] !in acc {
        assert Distinct(acc');
      }
    }
  }

  /** Nothing is appended when every element is already present. */
  lemma {:induction false} AppendNewNothingNew<T>(acc: seq<T>, s: seq<T>)
    requires forall x | x in s :: x in acc
    ensures AppendNew(acc, s) == acc
    decreases |s|
  {
    if |s| > 0 {
      AppendNewNothingNew(acc, s[1..]);
    }
  }

  lemma {:induction false} AppendNewConcat<T>(acc: seq<T>, a: seq<T>, b: seq<T>)
    ensures AppendNew(acc, a + b) == AppendNew(AppendNew(acc, a), b)
    decreases |a|
  {
    if |a| > 0 {
      assert (a + b)[0] == a[0];
      assert (a + b)[1..] == a[1..] + b;
      AppendNewConcat(if a[0] in acc then acc else acc + [a[0]], a[1..], b);
    } else {
      assert a + b == b;
    }
  }

  /** One more element of the source: appended unless already present. */
  lemma AppendNewSnoc<T>(acc: seq<T>, s: seq<T>, j: nat)
    requires j < |s|
    ensures AppendNew(acc, s[..j + 1]) ==
      var a := AppendNew(acc, s[..j]);
      if s[j] in a then a else a + [s[j]]
  {
    assert s[..j + 1] == s[..j] + [s[j]];
    AppendNewConcat(acc, s[..j], [s[j]]);
  }

  /** Over a source without repeats, `AppendNew` appends the elements of
      the source that `acc` lacks, in source order. */
  lemma {:induction false} AppendNewDistinctSource<T>(acc: seq<T>, s: seq<T>)
    requires Distinct(s)
    ensures AppendNew(acc, s) == acc + Filter(s, NotIn(acc))
    decreases |s|
  {
    if |s| > 0 {
      var x := s[0];
      assert Distinct(s[1..]);
      assert x !in s[1..];
      if x in acc {
        AppendNewDistinctSource(acc, s[1..]);
      } else {
        AppendNewDistinctSource(acc + [x], s[1..]);
        FilterExt(s[1..], NotIn(acc + [x]), NotIn(acc));
      }
    }
  }

  /** Two sequences without repeats and without common elements
      concatenate to one without repeats. */
  lemma DistinctConcat<T>(a: seq<T>, b: seq<T>)
    requires Distinct(a) && Distinct(b)
    requires forall x | x in a :: x !in b
    ensures Distinct(a + b)
  {
    forall i, j | 0 <= i < j < |a + b|
      ensures (a + b)[i] != (a + b)[j]
    {
      if i < |a| && j >= |a| {
        assert (a + b)[i] in a;
        assert (a + b)[j] in b;
      }
    }
  }

  /** `Dedup` keeps each element once and loses none. */
  lemma DedupFacts<T>(s: seq<T>)
    ensures Distinct(Dedup(s))
    ensures forall x :: x in Dedup(s) <==> x in s
  {
    AppendNewElems([], s);
  }

  // ---------------------------------------------------------------------
  // Counting

  lemma {:induction false} ElemsCard<T>(s: seq<T>)
    ensures |Elems(s)| <= |s|
    ensures Distinct(s) ==> |Elems(s)| == |s|
  {
    if |s| > 0 {
      var t := s[..|s| - 1];
      ElemsCard(t);
      assert s == t + [s[|s| - 1]];
      assert Elems(s) == Elems(t) + {s[|s| - 1]};
      if Distinct(s) {
        assert Distinct(t);
        assert s[|s| - 1] !in Elems(t);
      }
    }
  }

  lemma SubsetCard<T>(a: set<T>, b: set<T>)
    requires a <= b
    ensures |a| <= |b|
  {
    assert b == a + (b - a);
  }

  /** A sequence without repeats drawn from `u` is no longer than `u`, and
      when it is as long it holds every element of `u`. */
  lemma DistinctWithin<T>(a: seq<T>, u: seq<T>)
    requires Distinct(a)
    requires forall x | x in a :: x in u
    ensures |a| <= |u|
    ensures |a| == |u| ==> forall y | y in u :: y in a
  {
    ElemsCard(a);
    ElemsCard(u);
    SubsetCard(Elems(a), Elems(u));
    if |a| == |u| {
      forall y | y in u
        ensures y in a
      {
        if y !in a {
          SubsetCard(Elems(a), Elems(u) - {y});
        }
      }
    }
  }
}
