/** The key-derived Polybius square that both engine files build
    (`generatePolybiusSquare` in dist/app.js, `generateCipherMatrix` in
    src/app.ts): its row-major contents as a function of the key and the
    variant, the grid it makes, and what is proved about it. */
module PolybiusSquare {
  import opened Seqs
  import opened Alphabet
  import opened Arith

  /** The `symbols` string: for ADFGX the 26 letters with J replaced by I
      (so I occurs twice), for ADFGVX the 26 letters followed by the ten
      digits. */
  function Symbols(v: Variant): seq<char> {
    if v == ADFGX then ReplaceChar(Letters, 'J', 'I') else Letters + Digits
  }

  /** The symbols of the variant, each once, in the order of `Symbols`. */
  function Universe(v: Variant): seq<char> {
    if v == ADFGX then "ABCDEFGHIKLMNOPQRSTUVWXYZ" else Letters + Digits
  }

  lemma LettersDigitsDistinct()
    ensures Distinct(Letters + Digits)
  {
    AscendingDistinct(Letters);
    AscendingDistinct(Digits);
    DistinctConcat(Letters, Digits);
  }

  lemma SymbolsADFGX()
    ensures Symbols(ADFGX) == "ABCDEFGHIIKLMNOPQRSTUVWXYZ"
  {
  }

  lemma UniverseADFGX()
    ensures Distinct(Universe(ADFGX))
    ensures forall c :: c in Symbols(ADFGX) <==> c in Universe(ADFGX)
    ensures forall c :: c in Universe(ADFGX) <==> IsLetter(c) && c != 'J'
  {
    AscendingDistinct(Universe(ADFGX));
    SymbolsADFGX();
  }

  lemma UniverseADFGVX()
    ensures Distinct(Universe(ADFGVX))
    ensures forall c :: c in Universe(ADFGVX) <==> IsAlnum(c)
  {
    LettersDigitsDistinct();
  }

  /** The universe holds exactly one cell's worth of symbols per cell: the
      25 letters other than J, or the 26 letters and 10 digits. */
  lemma UniverseFacts(v: Variant)
    ensures Distinct(Universe(v))
    ensures |Universe(v)| == Size(v) * Size(v)
    ensures forall c :: c in Symbols(v) <==> c in Universe(v)
    ensures v == ADFGX ==> forall c :: c in Universe(v) <==> IsLetter(c) && c != 'J'
    ensures v == ADFGVX ==> forall c :: c in Universe(v) <==> IsAlnum(c)
  {
    if v == ADFGX {
      UniverseADFGX();
    } else {
      UniverseADFGVX();
    }
  }

  // ---------------------------------------------------------------------
  // Grids

  /** A matrix as the source holds it: an array of rows. */
  type Grid = seq<seq<char>>

  predicate IsGrid(m: Grid, n: nat) {
    |m| == n && forall r | 0 <= r < n :: |m[r]| == n
  }

  /** The row-major reading of a matrix. */
  function Flatten(m: Grid): seq<char> {
    if |m| == 0 then [] else m[0] + Flatten(m[1..])
  }

  /** What `isCharInMatrix` answers: some row `includes` the character. */
  predicate InMatrix(m: Grid, c: char) {
    exists r | 0 <= r < |m| :: c in m[r]
  }

  /** `flat` cut into `rows` rows of width `w`. */
  function Rows(flat: seq<char>, rows: nat, w: nat): (m: Grid)
    requires |flat| == rows * w
    ensures |m| == rows
    ensures forall r | 0 <= r < rows :: |m[r]| == w
  {
    if rows == 0 then []
    else
      assert |flat| == w + (rows - 1) * w;
      [flat[..w]] + Rows(flat[w..], rows - 1, w)
  }

  /** Row `r` of the cut holds the offsets `r * w` up to `r * w + w`. */
  lemma {:induction false} RowsCell(flat: seq<char>, rows: nat, w: nat, r: nat, c: nat)
    requires |flat| == rows * w
    requires r < rows && c < w
    ensures r * w + c < |flat|
    ensures Rows(flat, rows, w)[r][c] == flat[r * w + c]
  {
    MulStep(r, w, rows);
    if r > 0 {
      assert |flat| == w + (rows - 1) * w;
      RowsCell(flat[w..], rows - 1, w, r - 1, c);
      assert r * w == w + (r - 1) * w;
    }
  }

  lemma {:induction false} InMatrixFlatten(m: Grid, c: char)
    ensures InMatrix(m, c) <==> c in Flatten(m)
  {
    if |m| > 0 {
      InMatrixFlatten(m[1..], c);
      if InMatrix(m[1..], c) {
        var r :| 0 <= r < |m[1..]| && c in m[1..][r];
        assert c in m[r + 1];
      }
      if InMatrix(m, c) && c !in m[0] {
        var r :| 0 <= r < |m| && c in m[r];
        assert c in m[1..][r - 1];
      }
    }
  }

  /** Appending to row `i` appends to the reading when every later row is
      still empty. */
  lemma {:induction false} FlattenAppend(m: Grid, i: nat, c: char)
    requires i < |m|
    requires forall r | i < r < |m| :: m[r] == []
    ensures Flatten(m[i := m[i] + [c]]) == Flatten(m) + [c]
  {
    if i == 0 {
      FlattenEmpty(m[1..]);
      assert m[i := m[i] + [c]][1..] == m[1..];
    } else {
      FlattenAppend(m[1..], i - 1, c);
      assert m[i := m[i] + [c]][1..] == m[1..][i - 1 := m[1..][i - 1] + [c]];
    }
  }

  lemma {:induction false} FlattenEmpty(m: Grid)
    requires forall r | 0 <= r < |m| :: m[r] == []
    ensures Flatten(m) == []
  {
    if |m| > 0 {
      FlattenEmpty(m[1..]);
    }
  }

  /** Cutting a reading into rows and reading them back is the identity. */
  lemma {:induction false} FlattenRows(flat: seq<char>, rows: nat, w: nat)
    requires |flat| == rows * w
    ensures Flatten(Rows(flat, rows, w)) == flat
  {
    if rows > 0 {
      assert |flat| == w + (rows - 1) * w;
      FlattenRows(flat[w..], rows - 1, w);
      assert flat == flat[..w] + flat[w..];
    }
  }

  /** A matrix whose rows all have width `w` is its reading cut into rows. */
  lemma {:induction false} RowsFlatten(m: Grid, w: nat)
    requires forall r | 0 <= r < |m| :: |m[r]| == w
    ensures |Flatten(m)| == |m| * w
    ensures Rows(Flatten(m), |m|, w) == m
  {
    if |m| > 0 {
      RowsFlatten(m[1..], w);
      assert |Flatten(m)| == w + (|m| - 1) * w;
      assert Flatten(m)[..w] == m[0];
      assert Flatten(m)[w..] == Flatten(m[1..]);
      assert m == [m[0]] + m[1..];
    }
  }

  /** Two cells of a row-major layout of width `n` at the same offset are
      the same cell. */
  lemma RowMajorInjective(n: nat, r1: nat, c1: nat, r2: nat, c2: nat)
    requires c1 < n && c2 < n
    requires r1 * n + c1 == r2 * n + c2
    ensures r1 == r2 && c1 == c2
  {
    if r1 < r2 {
      MulStep(r1, n, r2);
    } else if r2 < r1 {
      MulStep(r2, n, r1);
    }
  }

  // ---------------------------------------------------------------------
  // The square

  /** The test "is one of the variant's symbols" (`symbols.includes`). */
  function InSymbols(v: Variant): char -> bool {
    c => c in Symbols(v)
  }

  /** The characters the key places: its distinct characters, in order of
      first occurrence, that are symbols of the variant. */
  function KeyPart(key: seq<char>, v: Variant): seq<char> {
    Filter(Dedup(key), InSymbols(v))
  }

  /** The row-major contents of the square: the key's characters first,
      then every symbol not placed yet, in `symbols` order. */
  function SquareOrder(key: seq<char>, v: Variant): seq<char> {
    AppendNew(KeyPart(key, v), Symbols(v))
  }

  lemma KeyPartFacts(key: seq<char>, v: Variant)
    ensures Distinct(KeyPart(key, v))
    ensures forall c :: c in KeyPart(key, v) <==> c in key && c in Universe(v)
  {
    DedupFacts(key);
    FilterDistinct(Dedup(key), InSymbols(v));
    FilterMembers(Dedup(key), InSymbols(v));
    UniverseFacts(v);
  }

  /** The row-major contents hold every universe symbol exactly once, and
      nothing else, so they fill the square exactly. */
  lemma SquareOrderFacts(key: seq<char>, v: Variant)
    ensures Distinct(SquareOrder(key, v))
    ensures forall c :: c in SquareOrder(key, v) <==> c in Universe(v)
    ensures |SquareOrder(key, v)| == Size(v) * Size(v)
  {
    KeyPartFacts(key, v);
    UniverseFacts(v);
    AppendNewElems(KeyPart(key, v), Symbols(v));
    DistinctWithin(SquareOrder(key, v), Universe(v));
    DistinctWithin(Universe(v), SquareOrder(key, v));
  }

  /** The square of `generatePolybiusSquare(key, variant)`. */
  function Square(key: seq<char>, v: Variant): (m: Grid)
    ensures |m| == Size(v) && forall r | 0 <= r < Size(v) :: |m[r]| == Size(v)
  {
    SquareOrderFacts(key, v);
    Rows(SquareOrder(key, v), Size(v), Size(v))
  }

  const UpToI: seq<char> := "ABCDEFGHI"
  const FromK: seq<char> := "KLMNOPQRSTUVWXYZ"

  /** The ADFGX symbols are the universe with a second I after the first. */
  lemma SymbolsSplitADFGX()
    ensures Symbols(ADFGX) == UpToI + ['I'] + FromK
  {
    SymbolsADFGX();
  }

  /** The ADFGX universe is the letters up to I, then those from K. */
  lemma UniverseSplitADFGX()
    ensures Universe(ADFGX) == UpToI + FromK
  {
  }

  lemma UpToIFromK()
    ensures Distinct(UpToI) && Distinct(FromK)
    ensures UpToI[8] == 'I'
    ensures forall c | c in FromK :: c !in UpToI
  {
    AscendingDistinct(UpToI);
    AscendingDistinct(FromK);
  }

  /** The square's row-major reading is the key's distinct universe
      characters in first-occurrence order, followed by the remaining
      universe symbols in universe order. */
  lemma {:induction false} SquareOrderSplit(key: seq<char>, v: Variant)
    ensures SquareOrder(key, v) == KeyPart(key, v) + Filter(Universe(v), NotIn(KeyPart(key, v)))
  {
    var kp := KeyPart(key, v);
    if v == ADFGVX {
      UniverseADFGVX();
      AppendNewDistinctSource(kp, Symbols(v));
    } else {
      SymbolsSplitADFGX();
      UniverseSplitADFGX();
      UpToIFromK();
      AppendNewRepeat(kp, UpToI, 'I', FromK);
    }
  }

  /** A repeat of an element already met in a source without other
      repeats appends nothing. */
  lemma AppendNewRepeat(kp: seq<char>, a: seq<char>, i: char, b: seq<char>)
    requires Distinct(a) && Distinct(b) && i in a
    requires forall c | c in b :: c !in a
    ensures AppendNew(kp, a + [i] + b) == kp + Filter(a + b, NotIn(kp))
  {
    var x := kp + Filter(a, NotIn(kp));
    AppendNewConcat(kp, a + [i], b);
    RepeatAppendsNothing(kp, a, i);
    AppendNewAfter(kp, a, b);
    FilterConcat(a, b, NotIn(kp));
    assert x + Filter(b, NotIn(kp)) == kp + (Filter(a, NotIn(kp)) + Filter(b, NotIn(kp)));
  }

  /** The repeated element adds nothing after the source it repeats. */
  lemma RepeatAppendsNothing(kp: seq<char>, a: seq<char>, i: char)
    requires Distinct(a) && i in a
    ensures AppendNew(kp, a + [i]) == kp + Filter(a, NotIn(kp))
  {
    AppendNewConcat(kp, a, [i]);
    AppendNewDistinctSource(kp, a);
    var x := kp + Filter(a, NotIn(kp));
    FilterMembers(a, NotIn(kp));
    assert i in x;
    assert AppendNew(x, [i]) == x;
  }

  /** A source disjoint from `a` appends what it would append to `kp`. */
  lemma AppendNewAfter(kp: seq<char>, a: seq<char>, b: seq<char>)
    requires Distinct(b)
    requires forall c | c in b :: c !in a
    ensures AppendNew(kp + Filter(a, NotIn(kp)), b) == kp + Filter(a, NotIn(kp)) + Filter(b, NotIn(kp))
  {
    var x := kp + Filter(a, NotIn(kp));
    FilterMembers(a, NotIn(kp));
    AppendNewDistinctSource(x, b);
    forall j | 0 <= j < |b|
      ensures NotIn(x)(b[j]) == NotIn(kp)(b[j])
    {
      assert b[j] in b;
    }
    FilterExt(b, NotIn(x), NotIn(kp));
  }

  /** With an empty key the square lists the universe in its natural order. */
  lemma EmptyKeySquare(v: Variant)
    ensures SquareOrder([], v) == Universe(v)
    ensures Square([], v) == Rows(Universe(v), Size(v), Size(v))
  {
    assert KeyPart([], v) == [];
    SquareOrderSplit([], v);
    FilterAll(Universe(v), NotIn([]));
  }

  /** `generatePolybiusSquare` returns a `size` by `size` grid (5 for
      ADFGX, 6 for ADFGVX) read row-major as `SquareOrder`. */
  lemma SquareShape(key: seq<char>, v: Variant)
    ensures IsGrid(Square(key, v), Size(v))
    ensures Flatten(Square(key, v)) == SquareOrder(key, v)
  {
    SquareOrderFacts(key, v);
    FlattenRows(SquareOrder(key, v), Size(v), Size(v));
  }

  /** Cell `(r, c)` holds offset `r * size + c` of the reading. */
  lemma SquareCell(key: seq<char>, v: Variant, r: nat, c: nat)
    requires r < Size(v) && c < Size(v)
    ensures r * Size(v) + c < |SquareOrder(key, v)|
    ensures Square(key, v)[r][c] == SquareOrder(key, v)[r * Size(v) + c]
  {
    SquareOrderFacts(key, v);
    RowsCell(SquareOrder(key, v), Size(v), Size(v), r, c);
  }

  /** A character is in the square exactly when it is one of the
      variant's symbols. */
  lemma SquareMembers(key: seq<char>, v: Variant)
    ensures forall c :: InMatrix(Square(key, v), c) <==> c in Universe(v)
  {
    SquareOrderFacts(key, v);
    SquareShape(key, v);
    forall c
      ensures InMatrix(Square(key, v), c) <==> c in Universe(v)
    {
      InMatrixFlatten(Square(key, v), c);
    }
  }

  /** No character occupies two cells of the square. */
  lemma SquareInjective(key: seq<char>, v: Variant)
    ensures forall r1, c1, r2, c2 |
      0 <= r1 < Size(v) && 0 <= c1 < Size(v) && 0 <= r2 < Size(v) && 0 <= c2 < Size(v) &&
      Square(key, v)[r1][c1] == Square(key, v)[r2][c2] :: r1 == r2 && c1 == c2
  {
    var n, m := Size(v), Square(key, v);
    forall r1, c1, r2, c2 |
      0 <= r1 < n && 0 <= c1 < n && 0 <= r2 < n && 0 <= c2 < n && m[r1][c1] == m[r2][c2]
      ensures r1 == r2 && c1 == c2
    {
      SquareCellInjective(key, v, r1, c1, r2, c2);
    }
  }

  lemma SquareCellInjective(key: seq<char>, v: Variant, r1: nat, c1: nat, r2: nat, c2: nat)
    requires r1 < Size(v) && c1 < Size(v) && r2 < Size(v) && c2 < Size(v)
    requires Square(key, v)[r1][c1] == Square(key, v)[r2][c2]
    ensures r1 == r2 && c1 == c2
  {
    var n, flat := Size(v), SquareOrder(key, v);
    SquareCell(key, v, r1, c1);
    SquareCell(key, v, r2, c2);
    var a, b := r1 * n + c1, r2 * n + c2;
    assert a == b by {
      SquareOrderFacts(key, v);
      assert flat[a] == flat[b];
    }
    RowMajorInjective(n, r1, c1, r2, c2);
  }

  // ---------------------------------------------------------------------
  // Filling the matrix in place

  /** `isCharInMatrix`: does some row `include` the character. */
  method IsCharInMatrix(matrix: Grid, ch: char) returns (found: bool)
    ensures found == InMatrix(matrix, ch)
  {
    for r := 0 to |matrix|
      invariant forall r' | 0 <= r' < r :: ch !in matrix[r']
    {
      if ch in matrix[r] {
        return true;
      }
    }
    return false;
  }

  /** The state of the fill loops of a matrix of side `n`: the rows above
      `row` are full, row `row` holds `col` cells, the rows below are still
      empty, and the row-major reading is `placed`. */
  predicate Filling(m: Grid, n: nat, row: nat, col: nat, placed: seq<char>) {
    0 < n && |m| == n && row <= n && col < n && (row == n ==> col == 0) &&
    (forall r | 0 <= r < row :: |m[r]| == n) &&
    (row < n ==> |m[row]| == col) &&
    (forall r | row < r < n :: m[r] == []) &&
    Flatten(m) == placed && |placed| == row * n + col
  }

  /** `Array.from({ length: matrixSize }, () => [])`, before any write. */
  lemma FillStart(n: nat)
    requires 0 < n
    ensures Filling(seq(n, _ => []), n, 0, 0, [])
  {
    FlattenEmpty(seq(n, _ => []));
  }

  /** Where the counters go after a write: `colIndex++`, and on reaching
      the side, `colIndex = 0; rowIndex++`. */
  function Advance(n: nat, row: nat, col: nat): (nat, nat) {
    if col + 1 == n then (row + 1, 0) else (row, col + 1)
  }

  /** `matrix[rowIndex][colIndex] = char` appends to the current row, since
      `colIndex` is that row's length, and so appends to the reading. */
  lemma FillStep(m: Grid, n: nat, row: nat, col: nat, placed: seq<char>, ch: char)
    requires Filling(m, n, row, col, placed) && row < n
    ensures Filling(m[row := m[row] + [ch]], n, Advance(n, row, col).0, Advance(n, row, col).1, placed + [ch])
  {
    FlattenAppend(m, row, ch);
    MulSucc(row, n);
    if row + 1 < n {
      MulStep(row + 1, n, n);
    }
  }

  /** A symbol not yet placed still has a cell: the placed characters are
      distinct symbols of a universe of `n * n`, so fewer than `n * n`. */
  lemma FillRoom(m: Grid, n: nat, row: nat, col: nat, placed: seq<char>, u: seq<char>, ch: char)
    requires Filling(m, n, row, col, placed)
    requires Distinct(placed) && (forall c | c in placed :: c in u) && |u| == n * n
    requires ch in u && ch !in placed
    ensures row < n
  {
    DistinctWithin(placed, u);
  }

  /** A set of distinct placed symbols of the universe `u`. */
  predicate PlacedFrom(placed: seq<char>, u: seq<char>) {
    Distinct(placed) && forall c | c in placed :: c in u
  }

  /** Placing a symbol of `u` that is not placed yet: there is room for it,
      and the placed symbols stay distinct symbols of `u`. */
  lemma PlaceNew(m: Grid, n: nat, row: nat, col: nat, placed: seq<char>, u: seq<char>, ch: char)
    requires Filling(m, n, row, col, placed) && PlacedFrom(placed, u) && |u| == n * n
    requires ch in u && ch !in placed
    ensures row < n && PlacedFrom(placed + [ch], u)
  {
    FillRoom(m, n, row, col, placed, u, ch);
  }

  /** One write of either fill loop, in both engine files: `matrix[rowIndex][colIndex] = char`
      (an append to the row, whose length is `colIndex`), then
      `colIndex++`, wrapping to the next row at the side. */
  method Place(matrix: Grid, matrixSize: nat, rowIndex: nat, colIndex: nat, ghost placed: seq<char>, ch: char)
    returns (matrix': Grid, rowIndex': nat, colIndex': nat)
    requires Filling(matrix, matrixSize, rowIndex, colIndex, placed) && rowIndex < matrixSize
    ensures Filling(matrix', matrixSize, rowIndex', colIndex', placed + [ch])
  {
    FillStep(matrix, matrixSize, rowIndex, colIndex, placed, ch);
    matrix' := matrix[rowIndex := matrix[rowIndex] + [ch]];
    rowIndex', colIndex' := rowIndex, colIndex + 1;
    if colIndex' == matrixSize {
      colIndex' := 0;
      rowIndex' := rowIndex' + 1;
    }
  }

  /** One turn of the key loop: the character is written exactly when it
      is a symbol not in the matrix yet, which for a distinct key character
      is exactly when the key part gains it. */
  lemma KeyStep(unique: seq<char>, i: nat, placed: seq<char>, v: Variant, inMatrix: bool)
    requires Distinct(unique) && i < |unique|
    requires placed == Filter(unique[..i], InSymbols(v))
    requires inMatrix == (unique[i] in placed)
    ensures unique[i] in Symbols(v) && !inMatrix ==> unique[i] in Universe(v) && unique[i] !in placed
    ensures Filter(unique[..i + 1], InSymbols(v)) ==
      if unique[i] in Symbols(v) && !inMatrix then placed + [unique[i]] else placed
  {
    UniverseFacts(v);
    FilterSnoc(unique, i, InSymbols(v));
    FilterMembers(unique[..i], InSymbols(v));
    assert unique[i] !in unique[..i];
  }

  /** One turn of the symbol loop: the symbol is written exactly when it
      is not placed yet, which is when `AppendNew` appends it. */
  lemma SymbolStep(keyPart: seq<char>, symbols: seq<char>, j: nat, placed: seq<char>, v: Variant, inMatrix: bool)
    requires symbols == Symbols(v) && j < |symbols|
    requires placed == AppendNew(keyPart, symbols[..j])
    requires inMatrix == (symbols[j] in placed)
    ensures !inMatrix ==> symbols[j] in Universe(v) && symbols[j] !in placed
    ensures AppendNew(keyPart, symbols[..j + 1]) == if inMatrix then placed else placed + [symbols[j]]
  {
    UniverseFacts(v);
    AppendNewSnoc(keyPart, symbols, j);
  }

  /** Once `n * n` characters are placed, the matrix is their reading cut
      into rows. */
  lemma FillDone(m: Grid, n: nat, row: nat, col: nat, placed: seq<char>)
    requires Filling(m, n, row, col, placed) && |placed| == n * n
    ensures m == Rows(placed, n, n)
  {
    if row < n {
      MulStep(row, n, n);
    }
    assert row == n;
    RowsFlatten(m, n);
  }
}
