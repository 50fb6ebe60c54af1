/** The keyed columnar transposition of both engine files, for any column
    order. The text is written row-major into rows of the key's length and
    read back column by column, the columns taken in the key's sorted order
    (`columnarTransposition`); the inverse recomputes the column lengths by
    ORIGINAL column index, cuts the ciphertext into columns in SORTED order
    and reads the grid back row-major (`inverseColumnarTransposition`). How
    the order is obtained from the key is the business of each engine
    file's module. */
module Transposition {
  import opened Seqs
  import opened Arith

  /** `Math.ceil(n / k)`: the number of grid rows. */
  function NumRows(n: nat, k: nat): nat
    requires k > 0
  {
    (n + k - 1) / k
  }

  /** The length of column `c` as `inverseColumnarTransposition` computes
      it: `floor(n / k)`, plus one for each of the first `n % k` columns in
      original order. */
  function ColLength(n: nat, k: nat, c: nat): nat
    requires k > 0
  {
    n / k + (if c < n % k then 1 else 0)
  }

  function ColLengths(n: nat, k: nat): (lens: seq<nat>)
    requires k > 0
    ensures |lens| == k
    ensures forall c | 0 <= c < k :: lens[c] == ColLength(n, k, c)
  {
    seq(k, c requires 0 <= c < k => ColLength(n, k, c))
  }

  /** Row `r` of column `c` is a real cell exactly when the row-major
      offset `r * k + c` lies inside the text: the formula agrees with the
      grid the encryption writes. */
  lemma ColLengthSpec(n: nat, k: nat, c: nat, r: nat)
    requires 0 < k && c < k
    ensures r < ColLength(n, k, c) <==> r * k + c < n
  {
    var q, m := n / k, n % k;
    assert n == q * k + m;
    if r < q {
      MulLe(r + 1, q, k);
      MulSucc(r, k);
    } else if r > q {
      MulLe(q + 1, r, k);
      MulSucc(q, k);
    }
  }

  /** The grid has enough rows for the text, and no column is longer than
      the grid. */
  lemma NumRowsSpec(n: nat, k: nat)
    requires k > 0
    ensures NumRows(n, k) * k >= n
    ensures forall c | 0 <= c < k :: ColLength(n, k, c) <= NumRows(n, k)
  {
    var rows := NumRows(n, k);
    assert n + k - 1 == rows * k + (n + k - 1) % k;
    forall c | 0 <= c < k
      ensures ColLength(n, k, c) <= rows
    {
      ColLengthSpec(n, k, c, rows);
    }
  }

  // ---------------------------------------------------------------------
  // Columns

  /** Column `c` of the grid: `s[c], s[c + k], s[c + 2k], ...` while inside
      the text. */
  function Column(s: seq<char>, k: nat, c: nat): (col: seq<char>)
    requires 0 < k && c < k
    ensures |col| == ColLength(|s|, k, c)
  {
    var len := ColLength(|s|, k, c);
    seq(len, r requires 0 <= r < len => ColumnCell(s, k, c, r))
  }

  function ColumnCell(s: seq<char>, k: nat, c: nat, r: nat): (x: char)
    requires 0 < k && c < k && r < ColLength(|s|, k, c)
    ensures r * k + c < |s| && x == s[r * k + c]
  {
    ColLengthSpec(|s|, k, c, r);
    s[r * k + c]
  }

  /** Row `r` of column `c` is the text's character at offset `r * k + c`. */
  lemma ColumnAt(s: seq<char>, k: nat, c: nat, r: nat)
    requires 0 < k && c < k && r < ColLength(|s|, k, c)
    ensures r * k + c < |s| && Column(s, k, c)[r] == s[r * k + c]
  {
    assert Column(s, k, c)[r] == ColumnCell(s, k, c, r);
  }

  function Columns(s: seq<char>, k: nat): (cols: seq<seq<char>>)
    requires k > 0
    ensures |cols| == k
    ensures forall c | 0 <= c < k :: cols[c] == Column(s, k, c)
  {
    seq(k, c requires 0 <= c < k => Column(s, k, c))
  }

  /** `grid[0][c] + ... + grid[rows - 1][c]`, where the grid cell in row
      `r` is `s[r * k + c] || ""`. */
  function ColumnRead(s: seq<char>, k: nat, c: nat, rows: nat): seq<char> {
    if rows == 0 then [] else ColumnRead(s, k, c, rows - 1) + Cell(s, (rows - 1) * k + c)
  }

  /** Reading a column of the grid top to bottom yields the column: the
      padding cells past the end of the text contribute nothing. */
  lemma ColumnReadFull(s: seq<char>, k: nat, c: nat)
    requires 0 < k && c < k
    ensures ColumnRead(s, k, c, NumRows(|s|, k)) == Column(s, k, c)
  {
    NumRowsSpec(|s|, k);
    ColumnReadTop(s, k, c, NumRows(|s|, k));
  }

  lemma {:induction false} ColumnReadTop(s: seq<char>, k: nat, c: nat, rows: nat)
    requires 0 < k && c < k
    ensures ColumnRead(s, k, c, rows) == Column(s, k, c)[..Min(rows, ColLength(|s|, k, c))]
  {
    if rows > 0 {
      ColumnReadTop(s, k, c, rows - 1);
      ColLengthSpec(|s|, k, c, rows - 1);
      var col := Column(s, k, c);
      if rows - 1 < |col| {
        assert col[..rows] == col[..rows - 1] + [col[rows - 1]];
      }
    }
  }

  /** A column order for a key of length `k`: every column index exactly
      once. */
  predicate IsColumnOrder(order: seq<nat>, k: nat) {
    |order| == k && Distinct(order) && forall i | 0 <= i < |order| :: order[i] < k
  }

  lemma ColumnOrderCovers(order: seq<nat>, k: nat)
    requires IsColumnOrder(order, k)
    ensures forall c: nat | c < k :: c in order
  {
    var u := Range(k);
    forall x | x in order
      ensures x in u
    {
      assert u[x] == x;
    }
    DistinctWithin(order, u);
    forall c: nat | c < k
      ensures c in order
    {
      assert u[c] == c;
    }
  }

  /** The columns named by `order`, one after another. */
  function Gather(cols: seq<seq<char>>, order: seq<nat>): seq<char>
    requires forall i | 0 <= i < |order| :: order[i] < |cols|
  {
    if |order| == 0 then []
    else Gather(cols, order[..|order| - 1]) + cols[order[|order| - 1]]
  }

  /** `columnarTransposition` for a given column order. */
  function Transpose(s: seq<char>, k: nat, order: seq<nat>): seq<char>
    requires k > 0 && IsColumnOrder(order, k)
  {
    Gather(Columns(s, k), order)
  }

  // ---------------------------------------------------------------------
  // The inverse

  /** The slicing loop: walking `order`, column `c` receives
      `t.substr(index, lens[c])` and `index` advances by `lens[c]`. Returns
      the columns and the final index; columns never visited stay empty. */
  function Split(t: seq<char>, lens: seq<nat>, order: seq<nat>): (res: (seq<seq<char>>, nat))
    requires forall i | 0 <= i < |order| :: order[i] < |lens|
    ensures |res.0| == |lens|
  {
    if |order| == 0 then (seq(|lens|, _ => []), 0)
    else
      var (cols, index) := Split(t, lens, order[..|order| - 1]);
      var c := order[|order| - 1];
      (cols[c := Substr(t, index, lens[c])], index + lens[c])
  }

  /** `columns[0][r] || "" + ... + columns[m - 1][r] || ""`. */
  function Row(cols: seq<seq<char>>, r: nat, m: nat): seq<char>
    requires m <= |cols|
  {
    if m == 0 then [] else Row(cols, r, m - 1) + Cell(cols[m - 1], r)
  }

  /** The rebuilding loop: the first `rows` rows, row-major. */
  function RowMajor(cols: seq<seq<char>>, rows: nat): seq<char> {
    if rows == 0 then [] else RowMajor(cols, rows - 1) + Row(cols, rows - 1, |cols|)
  }

  /** `inverseColumnarTransposition` for a given column order. */
  function Untranspose(t: seq<char>, k: nat, order: seq<nat>): seq<char>
    requires k > 0 && IsColumnOrder(order, k)
  {
    RowMajor(Split(t, ColLengths(|t|, k), order).0, NumRows(|t|, k))
  }

  // ---------------------------------------------------------------------
  // Reading the columns back row-major gives the text

  /** Row `r` of the columns of `s` is the stretch of `s` that the grid's
      row `r` holds. */
  lemma {:induction false} RowOfColumns(s: seq<char>, k: nat, r: nat, m: nat)
    requires 0 < k && m <= k
    ensures r * k <= r * k + m
    ensures Row(Columns(s, k), r, m) == s[Min(r * k, |s|) .. Min(r * k + m, |s|)]
  {
    if m > 0 {
      RowOfColumns(s, k, r, m - 1);
      var col := Column(s, k, m - 1);
      ColLengthSpec(|s|, k, m - 1, r);
      var a := r * k + (m - 1);
      if a < |s| {
        assert Cell(col, r) == [s[a]];
        assert s[Min(r * k, |s|) .. a + 1] == s[Min(r * k, |s|) .. a] + [s[a]];
      }
    }
  }

  lemma {:induction false} RowMajorPrefix(s: seq<char>, k: nat, rows: nat)
    requires k > 0
    ensures RowMajor(Columns(s, k), rows) == s[..Min(rows * k, |s|)]
  {
    if rows > 0 {
      var cols, r := Columns(s, k), rows - 1;
      RowMajorPrefix(s, k, r);
      RowOfColumns(s, k, r, k);
      RowMajorLast(cols, rows);
      MulSucc(r, k);
      JoinRows(s, RowMajor(cols, r), Row(cols, r, k), RowMajor(cols, rows), Min(r * k, |s|), Min(r * k + k, |s|));
    }
  }

  lemma RowMajorLast(cols: seq<seq<char>>, rows: nat)
    requires rows > 0
    ensures RowMajor(cols, rows) == RowMajor(cols, rows - 1) + Row(cols, rows - 1, |cols|)
  {
  }

  lemma JoinRows(s: seq<char>, head: seq<char>, row: seq<char>, whole: seq<char>, x: nat, y: nat)
    requires x <= y <= |s| && head == s[..x] && row == s[x..y] && whole == head + row
    ensures whole == s[..y]
  {
    assert s[..y] == s[..x] + s[x..y];
  }

  lemma RowMajorStep(cols: seq<seq<char>>, rows: nat)
    ensures RowMajor(cols, rows + 1) == RowMajor(cols, rows) + Row(cols, rows, |cols|)
  {
  }

  lemma RowStep(cols: seq<seq<char>>, r: nat, m: nat)
    requires m < |cols|
    ensures Row(cols, r, m + 1) == Row(cols, r, m) + Cell(cols[m], r)
  {
  }

  lemma AppendAssoc(a: seq<char>, b: seq<char>, c: seq<char>)
    ensures (a + b) + c == a + (b + c)
  {
  }

  /** Writing the text into the grid and reading it back row-major is the
      identity. */
  lemma RowMajorColumns(s: seq<char>, k: nat)
    requires k > 0
    ensures RowMajor(Columns(s, k), NumRows(|s|, k)) == s
  {
    NumRowsSpec(|s|, k);
    RowMajorPrefix(s, k, NumRows(|s|, k));
  }

  // ---------------------------------------------------------------------
  // Permutation

  /** Column `c`, or nothing when there is no such column. */
  function ColAt(cols: seq<seq<char>>, c: nat): seq<char> {
    if c < |cols| then cols[c] else []
  }

  /** The multiset of the columns named by `order`. */
  function Bag(cols: seq<seq<char>>, order: seq<nat>): multiset<char> {
    if |order| == 0 then multiset{}
    else Bag(cols, order[..|order| - 1]) + multiset(ColAt(cols, order[|order| - 1]))
  }

  lemma {:induction false} GatherBag(cols: seq<seq<char>>, order: seq<nat>)
    requires forall i | 0 <= i < |order| :: order[i] < |cols|
    ensures multiset(Gather(cols, order)) == Bag(cols, order)
  {
    if |order| > 0 {
      GatherBag(cols, order[..|order| - 1]);
    }
  }

  lemma {:induction false} BagConcat(cols: seq<seq<char>>, a: seq<nat>, b: seq<nat>)
    ensures Bag(cols, a + b) == Bag(cols, a) + Bag(cols, b)
  {
    if |b| == 0 {
      assert a + b == a;
    } else {
      assert (a + b)[..|a + b| - 1] == a + b[..|b| - 1];
      BagConcat(cols, a, b[..|b| - 1]);
    }
  }

  /** `b` without its element at position `i`. */
  function Without(b: seq<nat>, i: nat): (r: seq<nat>)
    requires i < |b|
    ensures |r| == |b| - 1
  {
    b[..i] + b[i + 1..]
  }

  /** Removing a position from a sequence without repeats removes exactly
      that element. */
  lemma WithoutFacts(b: seq<nat>, i: nat)
    requires Distinct(b) && i < |b|
    ensures Distinct(Without(b, i))
    ensures forall y :: y in Without(b, i) <==> y in b && y != b[i]
  {
    var b' := Without(b, i);
    forall p, q | 0 <= p < q < |b'|
      ensures b'[p] != b'[q]
    {
      var p' := if p < i then p else p + 1;
      var q' := if q < i then q else q + 1;
      assert b'[p] == b[p'] && b'[q] == b[q'];
    }
    forall y
      ensures y in b' <==> y in b && y != b[i]
    {
      if y in b' {
        var j :| 0 <= j < |b'| && b'[j] == y;
        var j' := if j < i then j else j + 1;
        assert b[j'] == y;
      }
      if y in b && y != b[i] {
        var j :| 0 <= j < |b| && b[j] == y;
        if j < i {
          assert b'[j] == y;
        } else {
          assert b'[j - 1] == y;
        }
      }
    }
  }

  /** Taking column `b[i]` out of the bag. */
  lemma BagWithout(cols: seq<seq<char>>, b: seq<nat>, i: nat)
    requires i < |b|
    ensures Bag(cols, b) == Bag(cols, Without(b, i)) + multiset(ColAt(cols, b[i]))
  {
    assert b == b[..i] + [b[i]] + b[i + 1..];
    BagSplit(cols, b[..i], b[i], b[i + 1..]);
  }

  lemma BagSplit(cols: seq<seq<char>>, pre: seq<nat>, x: nat, post: seq<nat>)
    ensures Bag(cols, pre + [x] + post) == Bag(cols, pre + post) + multiset(ColAt(cols, x))
  {
    var mid := [x];
    BagConcat3(cols, pre, mid, post);
    BagConcat(cols, pre, post);
    BagSingle(cols, x);
    MoveLast(Bag(cols, pre + mid + post), Bag(cols, pre), Bag(cols, mid), Bag(cols, post), Bag(cols, pre + post));
  }

  lemma BagConcat3(cols: seq<seq<char>>, x: seq<nat>, y: seq<nat>, z: seq<nat>)
    ensures Bag(cols, x + y + z) == (Bag(cols, x) + Bag(cols, y)) + Bag(cols, z)
  {
    BagConcat(cols, x, y);
    BagConcat(cols, x + y, z);
  }

  lemma BagSingle(cols: seq<seq<char>>, c: nat)
    ensures Bag(cols, [c]) == multiset(ColAt(cols, c))
  {
    assert [c][..0] == [];
  }

  lemma MoveLast(all: multiset<char>, x: multiset<char>, y: multiset<char>, z: multiset<char>, rest: multiset<char>)
    requires all == (x + y) + z && rest == x + z
    ensures all == rest + y
  {
  }

  /** The multiset does not depend on the order the columns are taken in. */
  lemma {:induction false} BagPermutation(cols: seq<seq<char>>, a: seq<nat>, b: seq<nat>)
    requires Distinct(a) && Distinct(b)
    requires forall x :: x in a <==> x in b
    ensures Bag(cols, a) == Bag(cols, b)
    decreases |a|
  {
    if |a| == 0 {
      DistinctWithin(b, a);
    } else {
      var x := a[|a| - 1];
      assert x in b;
      var i :| 0 <= i < |b| && b[i] == x;
      var a', b' := Without(a, |a| - 1), Without(b, i);
      assert a' == a[..|a| - 1];
      WithoutFacts(a, |a| - 1);
      WithoutFacts(b, i);
      BagWithout(cols, b, i);
      BagPermutation(cols, a', b');
    }
  }

  /** The multiset of the first `m` sequences of `ps`. */
  function BagOf(ps: seq<seq<char>>, m: nat): multiset<char>
    requires m <= |ps|
  {
    if m == 0 then multiset{} else BagOf(ps, m - 1) + multiset(ps[m - 1])
  }

  lemma Interchange(a: multiset<char>, b: multiset<char>, c: multiset<char>, d: multiset<char>)
    ensures (a + b) + (c + d) == (a + c) + (b + d)
  {
  }

  /** Pointwise sums of sequences' multisets add up. */
  lemma {:induction false} BagOfAdd(a: seq<seq<char>>, b: seq<seq<char>>, c: seq<seq<char>>, m: nat)
    requires m <= |a| && m <= |b| && m <= |c|
    requires forall i | 0 <= i < m :: multiset(a[i]) == multiset(b[i]) + multiset(c[i])
    ensures BagOf(a, m) == BagOf(b, m) + BagOf(c, m)
  {
    if m > 0 {
      BagOfAdd(a, b, c, m - 1);
      Interchange(BagOf(b, m - 1), BagOf(c, m - 1), multiset(b[m - 1]), multiset(c[m - 1]));
    }
  }

  lemma {:induction false} BagOfEmpty(ps: seq<seq<char>>, m: nat)
    requires m <= |ps|
    requires forall i | 0 <= i < m :: ps[i] == []
    ensures BagOf(ps, m) == multiset{}
  {
    if m > 0 {
      BagOfEmpty(ps, m - 1);
    }
  }

  /** The first `m` sequences of `ps`, one after another. */
  function Concat(ps: seq<seq<char>>, m: nat): seq<char>
    requires m <= |ps|
  {
    if m == 0 then [] else Concat(ps, m - 1) + ps[m - 1]
  }

  lemma {:induction false} ConcatBag(ps: seq<seq<char>>, m: nat)
    requires m <= |ps|
    ensures multiset(Concat(ps, m)) == BagOf(ps, m)
  {
    if m > 0 {
      ConcatBag(ps, m - 1);
    }
  }

  /** The columns cut to their top `rows` cells. */
  function Prefixes(cols: seq<seq<char>>, rows: nat): (ps: seq<seq<char>>)
    ensures |ps| == |cols|
  {
    seq(|cols|, i requires 0 <= i < |cols| => cols[i][..Min(rows, |cols[i]|)])
  }

  /** Row `r` of the columns, one cell (or nothing) per column. */
  function RowCells(cols: seq<seq<char>>, r: nat): (cs: seq<seq<char>>)
    ensures |cs| == |cols|
  {
    seq(|cols|, i requires 0 <= i < |cols| => Cell(cols[i], r))
  }

  /** One more row adds one cell to a column's top. */
  lemma PrefixStep(cols: seq<seq<char>>, rows: nat, i: nat)
    requires i < |cols|
    ensures multiset(Prefixes(cols, rows + 1)[i]) == multiset(Prefixes(cols, rows)[i]) + multiset(RowCells(cols, rows)[i])
  {
    var col := cols[i];
    assert col[..Min(rows + 1, |col|)] == col[..Min(rows, |col|)] + Cell(col, rows);
  }

  /** One more row contributes one more cell of each column. */
  lemma TopStep(cols: seq<seq<char>>, rows: nat)
    ensures BagOf(Prefixes(cols, rows + 1), |cols|) == BagOf(Prefixes(cols, rows), |cols|) + BagOf(RowCells(cols, rows), |cols|)
  {
    forall i | 0 <= i < |cols|
      ensures multiset(Prefixes(cols, rows + 1)[i]) == multiset(Prefixes(cols, rows)[i]) + multiset(RowCells(cols, rows)[i])
    {
      PrefixStep(cols, rows, i);
    }
    BagOfAdd(Prefixes(cols, rows + 1), Prefixes(cols, rows), RowCells(cols, rows), |cols|);
  }

  lemma {:induction false} RowConcat(cols: seq<seq<char>>, r: nat, m: nat)
    requires m <= |cols|
    ensures Row(cols, r, m) == Concat(RowCells(cols, r), m)
  {
    if m > 0 {
      RowConcat(cols, r, m - 1);
      assert RowCells(cols, r)[m - 1] == Cell(cols[m - 1], r);
    }
  }

  lemma RowMajorBagStep(cols: seq<seq<char>>, rows: nat)
    ensures multiset(RowMajor(cols, rows + 1)) == multiset(RowMajor(cols, rows)) + BagOf(RowCells(cols, rows), |cols|)
  {
    assert RowMajor(cols, rows + 1) == RowMajor(cols, rows) + Row(cols, rows, |cols|);
    RowConcat(cols, rows, |cols|);
    ConcatBag(RowCells(cols, rows), |cols|);
  }

  /** Exchanging the double sum over rows and columns. */
  lemma {:induction false} RowMajorBag(cols: seq<seq<char>>, rows: nat)
    ensures multiset(RowMajor(cols, rows)) == BagOf(Prefixes(cols, rows), |cols|)
  {
    if rows == 0 {
      BagOfEmpty(Prefixes(cols, 0), |cols|);
    } else {
      var r := rows - 1;
      RowMajorBag(cols, r);
      RowMajorBagStep(cols, r);
      TopStep(cols, r);
      assert r + 1 == rows;
    }
  }

  lemma {:induction false} BagOfRange(cols: seq<seq<char>>, m: nat)
    requires m <= |cols|
    ensures BagOf(cols, m) == Bag(cols, Range(m))
  {
    if m > 0 {
      BagOfRange(cols, m - 1);
      assert Range(m)[..m - 1] == Range(m - 1);
    }
  }

  /** When no column is longer than `rows`, the tops are the columns. */
  lemma TopsAll(cols: seq<seq<char>>, rows: nat)
    requires forall c | 0 <= c < |cols| :: |cols[c]| <= rows
    ensures BagOf(Prefixes(cols, rows), |cols|) == Bag(cols, Range(|cols|))
  {
    forall c | 0 <= c < |cols|
      ensures Prefixes(cols, rows)[c] == cols[c]
    {
      assert cols[c][..|cols[c]|] == cols[c];
    }
    assert Prefixes(cols, rows) == cols;
    BagOfRange(cols, |cols|);
  }

  /** `columnarTransposition` returns a permutation of its input, of the
      same length. */
  lemma TransposePermutation(s: seq<char>, k: nat, order: seq<nat>)
    requires k > 0 && IsColumnOrder(order, k)
    ensures multiset(Transpose(s, k, order)) == multiset(s)
    ensures |Transpose(s, k, order)| == |s|
  {
    var cols, rows := Columns(s, k), NumRows(|s|, k);
    NumRowsSpec(|s|, k);
    RowMajorColumns(s, k);
    RowMajorBag(cols, rows);
    TopsAll(cols, rows);
    ColumnOrderCovers(order, k);
    forall x
      ensures x in order <==> x in Range(k)
    {
      if x in order {
        assert Range(k)[x] == x;
      }
    }
    BagPermutation(cols, order, Range(k));
    GatherBag(cols, order);
    assert |multiset(Transpose(s, k, order))| == |multiset(s)|;
  }

  // ---------------------------------------------------------------------
  // Round trip

  /** The columns of `cols` named in `order`; the others empty. */
  function Restrict(cols: seq<seq<char>>, order: seq<nat>): (r: seq<seq<char>>)
    ensures |r| == |cols|
  {
    seq(|cols|, c requires 0 <= c < |cols| => if c in order then cols[c] else [])
  }

  /** Slicing a text that begins with the gathered columns recovers those
      columns, and the running index ends after them. */
  lemma {:induction false} SplitGather(t: seq<char>, cols: seq<seq<char>>, lens: seq<nat>, order: seq<nat>)
    requires |lens| == |cols|
    requires forall i | 0 <= i < |order| :: order[i] < |cols| && |cols[order[i]]| == lens[order[i]]
    requires Distinct(order)
    requires |Gather(cols, order)| <= |t| && t[..|Gather(cols, order)|] == Gather(cols, order)
    ensures Split(t, lens, order) == (Restrict(cols, order), |Gather(cols, order)|)
  {
    if |order| == 0 {
      assert Restrict(cols, order) == seq(|lens|, _ => []);
    } else {
      var init, c := order[..|order| - 1], order[|order| - 1];
      var g := Gather(cols, init);
      assert Distinct(init);
      assert Gather(cols, order) == g + cols[c];
      assert t[..|g|] == g by {
        assert t[..|g|] == t[..|Gather(cols, order)|][..|g|];
      }
      SplitGather(t, cols, lens, init);
      assert Substr(t, |g|, lens[c]) == cols[c] by {
        assert t[|g|..|g| + lens[c]] == t[..|Gather(cols, order)|][|g|..];
      }
      assert c !in init;
      assert Restrict(cols, init)[c := cols[c]] == Restrict(cols, order);
    }
  }

  /** `inverseColumnarTransposition` undoes `columnarTransposition` for
      every text, whatever the column order: the column lengths it
      computes by original index are those of the columns the encryption
      read, and it slices them in the order they were written. */
  lemma UntransposeTranspose(s: seq<char>, k: nat, order: seq<nat>)
    requires k > 0 && IsColumnOrder(order, k)
    ensures Untranspose(Transpose(s, k, order), k, order) == s
  {
    var t, cols := Transpose(s, k, order), Columns(s, k);
    TransposePermutation(s, k, order);
    var lens := ColLengths(|s|, k);
    SplitGather(t, cols, lens, order);
    ColumnOrderCovers(order, k);
    assert Restrict(cols, order) == cols;
    RowMajorColumns(s, k);
  }

  // ---------------------------------------------------------------------
  // The loops

  /** The grid-writing loop of `columnarTransposition` (the same in both
      engine files): `Math.ceil(n / k)` rows of `k` cells, cell `j` of row
      `i` being `encryptedText[index] || ""` with `index` running on. */
  method WriteGrid(text: seq<char>, k: nat) returns (grid: seq<seq<seq<char>>>)
    requires k > 0
    ensures |grid| == NumRows(|text|, k)
    ensures forall r | 0 <= r < |grid| :: |grid[r]| == k
    ensures forall r, c | 0 <= r < |grid| && 0 <= c < k :: grid[r][c] == Cell(text, r * k + c)
  {
    var numRows := NumRows(|text|, k);
    grid := [];
    var index := 0;
    var i := 0;
    while i < numRows
      invariant 0 <= i <= numRows
      invariant |grid| == i && index == i * k
      invariant forall r | 0 <= r < i :: |grid[r]| == k
      invariant forall r, c | 0 <= r < i && 0 <= c < k :: grid[r][c] == Cell(text, r * k + c)
    {
      var row: seq<seq<char>> := [];
      var j := 0;
      while j < k
        invariant 0 <= j <= k && |row| == j && index == i * k + j
        invariant forall c | 0 <= c < j :: row[c] == Cell(text, i * k + c)
      {
        row := row + [Cell(text, index)];
        index := index + 1;
        j := j + 1;
      }
      grid := grid + [row];
      MulSucc(i, k);
      i := i + 1;
    }
  }

  /** `columnarTransposition` once the key has been turned into a column
      order: the grid is written, then `grid[row][colIndex]` is appended
      column by column in that order. */
  method ColumnarTransposition(text: seq<char>, k: nat, order: seq<nat>) returns (result: seq<char>)
    requires k > 0 && IsColumnOrder(order, k)
    ensures result == Transpose(text, k, order)
  {
    var numRows := NumRows(|text|, k);
    var grid := WriteGrid(text, k);
    result := [];
    var p := 0;
    while p < |order|
      invariant 0 <= p <= |order|
      invariant result == Gather(Columns(text, k), order[..p])
    {
      var colIndex := order[p];
      var r := 0;
      while r < numRows
        invariant 0 <= r <= numRows
        invariant result == Gather(Columns(text, k), order[..p]) + ColumnRead(text, k, colIndex, r)
      {
        ColumnReadStep(text, k, colIndex, r);
        AppendAssoc(Gather(Columns(text, k), order[..p]), ColumnRead(text, k, colIndex, r), grid[r][colIndex]);
        result := result + grid[r][colIndex];
        r := r + 1;
      }
      ColumnReadFull(text, k, colIndex);
      GatherStep(Columns(text, k), order, p);
      p := p + 1;
    }
    assert order[..|order|] == order;
  }

  lemma ColumnReadStep(s: seq<char>, k: nat, c: nat, r: nat)
    ensures ColumnRead(s, k, c, r + 1) == ColumnRead(s, k, c, r) + Cell(s, r * k + c)
  {
  }

  lemma GatherStep(cols: seq<seq<char>>, order: seq<nat>, p: nat)
    requires forall i | 0 <= i < |order| :: order[i] < |cols|
    requires p < |order|
    ensures Gather(cols, order[..p + 1]) == Gather(cols, order[..p]) + cols[order[p]]
  {
    assert order[..p + 1][..p] == order[..p];
  }

  /** The column-length loop of `inverseColumnarTransposition`: an array
      filled with `floor(n / k)`, then one more for each original column
      while `extraChars` lasts. */
  method ColumnLengths(n: nat, k: nat) returns (lens: seq<nat>)
    requires k > 0
    ensures lens == ColLengths(n, k)
  {
    var colLengths := new nat[k](_ => n / k);
    var extraChars := n % k;
    for i := 0 to k
      invariant extraChars == if i < n % k then n % k - i else 0
      invariant forall c | 0 <= c < k :: colLengths[c] == if c < i then ColLength(n, k, c) else n / k
    {
      if extraChars > 0 {
        colLengths[i] := colLengths[i] + 1;
        extraChars := extraChars - 1;
      }
    }
    lens := colLengths[..];
  }

  /** `inverseColumnarTransposition` once the key has been turned into a
      column order: the ciphertext is sliced with `substr` in sorted order
      and a running index, each slice going to its original column, and the
      grid is read back row-major with `columns[col][row] || ""`. */
  method InverseColumnarTransposition(t: seq<char>, k: nat, order: seq<nat>) returns (result: seq<char>)
    requires k > 0 && IsColumnOrder(order, k)
    ensures result == Untranspose(t, k, order)
  {
    var numRows := NumRows(|t|, k);
    var colLengths := ColumnLengths(|t|, k);
    // Every column is assigned below, since `order` names each index once.
    var columns: seq<seq<char>> := seq(k, _ => []);
    var index := 0;
    for p := 0 to |order|
      invariant (columns, index) == Split(t, colLengths, order[..p])
    {
      var originalIndex := order[p];
      assert order[..p + 1][..p] == order[..p];
      columns := columns[originalIndex := Substr(t, index, colLengths[originalIndex])];
      index := index + colLengths[originalIndex];
    }
    assert order[..|order|] == order;
    result := ReadRows(columns, numRows);
  }

  /** The rebuilding loop of `inverseColumnarTransposition`: for each row,
      `columns[col][row] || ""` for every column. */
  method ReadRows(columns: seq<seq<char>>, numRows: nat) returns (result: seq<char>)
    ensures result == RowMajor(columns, numRows)
  {
    result := [];
    for row := 0 to numRows
      invariant result == RowMajor(columns, row)
    {
      for col := 0 to |columns|
        invariant result == RowMajor(columns, row) + Row(columns, row, col)
      {
        RowStep(columns, row, col);
        AppendAssoc(RowMajor(columns, row), Row(columns, row, col), Cell(columns[col], row));
        result := result + Cell(columns[col], row);
      }
      RowMajorStep(columns, row);
    }
  }
}
