/** The encryption engine of src/app.ts: its own input preparation (no
    placeholders: digits are kept, and for ADFGX they cannot be encrypted),
    `generateCipherMatrix` with its early exits, the transposition sorted
    by letter alone, and the pipeline `encryptADFGVX`. The search loop of
    `encryptUsingMatrix` and `isCharInMatrix` are the same code as in
    dist/app.js and are shared (`Fractionation.EncryptUsingMatrix`,
    `PolybiusSquare.IsCharInMatrix`). */
module SrcApp {
  import opened Seqs
  import opened Alphabet
  import opened PolybiusSquare
  import opened Placeholders
  import opened Fractionation
  import Transposition
  import opened KeyOrder
  import DistApp

  // ---------------------------------------------------------------------
  // prepareInput

  /** `prepareInput(text, variant)`: normalise, then for ADFGX fold J
      into I. */
  function PrepareInput(text: seq<char>, v: Variant): seq<char> {
    var result := Clean(text);
    if v == ADFGX then ReplaceChar(result, 'J', 'I') else result
  }

  /** The prepared text is made of capital letters and digits, with no J
      for ADFGX, and has a digit exactly when the input has one. */
  lemma PrepareInputAlphabet(text: seq<char>, v: Variant)
    ensures forall i | 0 <= i < |PrepareInput(text, v)| ::
      IsAlnum(PrepareInput(text, v)[i]) && (v == ADFGX ==> PrepareInput(text, v)[i] != 'J')
    ensures DigitFree(PrepareInput(text, v)) <==> DigitFree(text)
  {
    CleanAlphabet(text);
    CleanDigitFree(text);
  }

  // ---------------------------------------------------------------------
  // generateCipherMatrix

  /** `generateCipherMatrix(key, variant)`: the same square as
      dist/app.js builds; the loops stop as soon as the last row is full. */
  method GenerateCipherMatrix(key: seq<char>, v: Variant) returns (matrix: Grid)
    ensures matrix == Square(key, v)
  {
    var indicators := Indicators(v);
    var matrixSize := |indicators|;
    var symbols := Letters;
    if v == ADFGX {
      symbols := ReplaceChar(symbols, 'J', 'I');
    } else {
      symbols := symbols + Digits;
    }
    assert symbols == Symbols(v);
    matrix := [];
    for i := 0 to matrixSize
      invariant matrix == seq(i, _ => [])
    {
      matrix := matrix + [[]];
    }
    var uniqueKeyChars := Dedup(key);
    DedupFacts(key);
    KeyPartFacts(key, v);
    FillStart(matrixSize);
    var rowIndex, colIndex;
    matrix, rowIndex, colIndex := FillFromKey(matrix, uniqueKeyChars, symbols, v);
    matrix, rowIndex, colIndex := FillFromSymbols(matrix, rowIndex, colIndex, KeyPart(key, v), symbols, v);
    SquareOrderFacts(key, v);
    FillDone(matrix, matrixSize, rowIndex, colIndex, SquareOrder(key, v));
  }

  /** Once the square is full every symbol is placed, so no later key
      character is a symbol: leaving the loop early changes nothing. */
  lemma KeyRestOutside(unique: seq<char>, j: nat, placed: seq<char>, v: Variant)
    requires Distinct(unique) && j <= |unique|
    requires placed == Filter(unique[..j], InSymbols(v))
    requires PlacedFrom(placed, Universe(v)) && |placed| == Size(v) * Size(v)
    ensures Filter(unique, InSymbols(v)) == placed
  {
    var pre, rest := unique[..j], unique[j..];
    RestNoSymbols(unique, j, rest, placed, v);
    assert unique == pre + rest;
    FilterRestNone(unique, pre, rest, InSymbols(v), placed);
  }

  /** A full square holds every symbol. */
  lemma FullCovers(placed: seq<char>, v: Variant)
    requires PlacedFrom(placed, Universe(v)) && |placed| == Size(v) * Size(v)
    ensures forall c | c in Symbols(v) :: c in placed
  {
    UniverseFacts(v);
    DistinctWithin(placed, Universe(v));
  }

  /** No key character after a full square is a symbol: every symbol was
      placed from the key before it, and the key has no repeats. */
  lemma RestNoSymbols(unique: seq<char>, j: nat, rest: seq<char>, placed: seq<char>, v: Variant)
    requires Distinct(unique) && j <= |unique| && rest == unique[j..]
    requires placed == Filter(unique[..j], InSymbols(v))
    requires PlacedFrom(placed, Universe(v)) && |placed| == Size(v) * Size(v)
    ensures forall i | 0 <= i < |rest| :: !InSymbols(v)(rest[i])
  {
    FullCovers(placed, v);
    FilterMembers(unique[..j], InSymbols(v));
    forall i | 0 <= i < |rest|
      ensures !InSymbols(v)(rest[i])
    {
      assert rest[i] == unique[j + i];
      assert rest[i] !in unique[..j];
    }
  }

  /** The key loop may stop at a full square: its state is then the one
      it reaches at the end of the key. */
  lemma KeyRestFilling(m: Grid, row: nat, col: nat, unique: seq<char>, j: nat, placed: seq<char>, v: Variant)
    requires Filling(m, Size(v), row, col, placed) && row == Size(v)
    requires Distinct(unique) && j <= |unique|
    requires placed == Filter(unique[..j], InSymbols(v))
    requires PlacedFrom(placed, Universe(v))
    ensures Filling(m, Size(v), row, col, Filter(unique, InSymbols(v)))
  {
    KeyRestOutside(unique, j, placed, v);
  }

  /** Once the square is full every later symbol is already placed. */
  lemma SymbolsRestPlaced(keyPart: seq<char>, symbols: seq<char>, j: nat, placed: seq<char>, v: Variant)
    requires symbols == Symbols(v) && j <= |symbols|
    requires placed == AppendNew(keyPart, symbols[..j])
    requires PlacedFrom(placed, Universe(v)) && |placed| == Size(v) * Size(v)
    ensures AppendNew(keyPart, symbols) == placed
  {
    FullCovers(placed, v);
    var rest := symbols[j..];
    assert forall c | c in rest :: c in symbols;
    AppendNewNothingNew(placed, rest);
    AppendNewConcat(keyPart, symbols[..j], rest);
    assert symbols == symbols[..j] + rest;
  }

  /** The first loop of `generateCipherMatrix`, with its `break` once the
      last row is full. */
  method FillFromKey(matrix0: Grid, uniqueKeyChars: seq<char>, symbols: seq<char>, v: Variant)
    returns (matrix: Grid, rowIndex: nat, colIndex: nat)
    requires Filling(matrix0, Size(v), 0, 0, []) && symbols == Symbols(v) && Distinct(uniqueKeyChars)
    ensures Filling(matrix, Size(v), rowIndex, colIndex, Filter(uniqueKeyChars, InSymbols(v)))
  {
    var matrixSize := Size(v);
    matrix, rowIndex, colIndex := matrix0, 0, 0;
    ghost var placed: seq<char> := [];
    ghost var u := Universe(v);
    UniverseFacts(v);
    var i := 0;
    while i < |uniqueKeyChars|
      invariant i <= |uniqueKeyChars|
      invariant Filling(matrix, matrixSize, rowIndex, colIndex, placed)
      invariant placed == Filter(uniqueKeyChars[..i], InSymbols(v))
      invariant PlacedFrom(placed, u)
    {
      var ch := uniqueKeyChars[i];
      var inMatrix := IsCharInMatrix(matrix, ch);
      InMatrixFlatten(matrix, ch);
      KeyStep(uniqueKeyChars, i, placed, v, inMatrix);
      if ch in symbols && !inMatrix {
        PlaceNew(matrix, matrixSize, rowIndex, colIndex, placed, u, ch);
        matrix, rowIndex, colIndex := Place(matrix, matrixSize, rowIndex, colIndex, placed, ch);
        placed := placed + [ch];
        if rowIndex == matrixSize {
          KeyRestFilling(matrix, rowIndex, colIndex, uniqueKeyChars, i + 1, placed, v);
          break;
        }
      }
      i := i + 1;
    }
    if i == |uniqueKeyChars| {
      assert uniqueKeyChars[..i] == uniqueKeyChars;
    }
  }

  /** The second loop of `generateCipherMatrix`, with its `break` once the
      last row is full. */
  method FillFromSymbols(matrix0: Grid, rowIndex0: nat, colIndex0: nat, ghost keyPart: seq<char>, symbols: seq<char>, v: Variant)
    returns (matrix: Grid, rowIndex: nat, colIndex: nat)
    requires Filling(matrix0, Size(v), rowIndex0, colIndex0, keyPart) && symbols == Symbols(v)
    requires PlacedFrom(keyPart, Universe(v))
    ensures Filling(matrix, Size(v), rowIndex, colIndex, AppendNew(keyPart, symbols))
  {
    var matrixSize := Size(v);
    matrix, rowIndex, colIndex := matrix0, rowIndex0, colIndex0;
    ghost var placed := keyPart;
    ghost var u := Universe(v);
    UniverseFacts(v);
    var j := 0;
    while j < |symbols|
      invariant j <= |symbols|
      invariant Filling(matrix, matrixSize, rowIndex, colIndex, placed)
      invariant placed == AppendNew(keyPart, symbols[..j])
      invariant PlacedFrom(placed, u)
    {
      var ch := symbols[j];
      var inMatrix := IsCharInMatrix(matrix, ch);
      InMatrixFlatten(matrix, ch);
      SymbolStep(keyPart, symbols, j, placed, v, inMatrix);
      if !inMatrix {
        PlaceNew(matrix, matrixSize, rowIndex, colIndex, placed, u, ch);
        matrix, rowIndex, colIndex := Place(matrix, matrixSize, rowIndex, colIndex, placed, ch);
        placed := placed + [ch];
        if rowIndex == matrixSize {
          SymbolsRestPlaced(keyPart, symbols, j + 1, placed, v);
          break;
        }
      }
      j := j + 1;
    }
    if j == |symbols| {
      assert symbols[..j] == symbols;
    }
  }

  // ---------------------------------------------------------------------
  // columnarTransposition

  /** `columnarTransposition(encryptedText, key)` of src/app.ts: the
      columns read in a stable sort of the key by letter alone, which is
      the order dist/app.js obtains with its explicit tie-break, so both
      files transpose alike. */
  method ColumnarTransposition(encryptedText: seq<char>, key: seq<char>) returns (result: seq<char>)
    requires ValidColumnKey(key)
    ensures result == Transposition.Transpose(encryptedText, |key|, SrcKeyOrder(key))
    ensures result == Transposition.Transpose(encryptedText, |key|, DistKeyOrder(key))
    ensures multiset(result) == multiset(encryptedText)
  {
    var keyOrder := SrcKeyOrder(key);
    SrcKeyOrderAgrees(key);
    result := Transposition.ColumnarTransposition(encryptedText, |key|, keyOrder);
    Transposition.TransposePermutation(encryptedText, |key|, keyOrder);
  }

  // ---------------------------------------------------------------------
  // encryptADFGVX

  /** What `encryptADFGVX(plainText, matrixKey, columnKey, variant)`
      returns or throws. */
  function Encrypted(plainText: seq<char>, matrixKey: seq<char>, columnKey: seq<char>, v: Variant): Result<Encryption>
    requires ValidColumnKey(columnKey)
  {
    SquareShape(matrixKey, v);
    var sub := Encode(PrepareInput(plainText, v), Square(matrixKey, v), Indicators(v));
    if sub.Failure? then Failure(sub.error)
    else Success(Encryption(sub.value, Transposition.Transpose(sub.value, |columnKey|, SrcKeyOrder(columnKey))))
  }

  method EncryptADFGVX(plainText: seq<char>, matrixKey: seq<char>, columnKey: seq<char>, v: Variant)
    returns (r: Result<Encryption>)
    requires ValidColumnKey(columnKey)
    ensures r == Encrypted(plainText, matrixKey, columnKey, v)
  {
    var preparedText := PrepareInput(plainText, v);
    var cipherMatrix := GenerateCipherMatrix(matrixKey, v);
    SquareShape(matrixKey, v);
    var substitution := EncryptUsingMatrix(preparedText, cipherMatrix, v);
    if substitution.Failure? {
      return Failure(substitution.error);
    }
    var encryptedText := ColumnarTransposition(substitution.value, columnKey);
    return Success(Encryption(substitution.value, encryptedText));
  }

  /** `encryptADFGVX` throws exactly for ADFGX plaintexts that contain a
      digit, and then names a digit: the prepared text keeps digits, and
      the 5 by 5 square has none. */
  lemma EncryptedSucceeds(plainText: seq<char>, matrixKey: seq<char>, columnKey: seq<char>, v: Variant)
    requires ValidColumnKey(columnKey)
    ensures Encrypted(plainText, matrixKey, columnKey, v).Success? <==> v == ADFGVX || DigitFree(plainText)
    ensures Encrypted(plainText, matrixKey, columnKey, v).Failure? ==>
      Encrypted(plainText, matrixKey, columnKey, v).error.NotFound? &&
      IsDigit(Encrypted(plainText, matrixKey, columnKey, v).error.ch)
  {
    var p, m, ind := PrepareInput(plainText, v), Square(matrixKey, v), Indicators(v);
    SquareShape(matrixKey, v);
    PreparedInSquare(plainText, matrixKey, v);
    EncodeSucceeds(p, m, ind);
    if Encode(p, m, ind).Failure? {
      EncodeFailure(p, m, ind);
      var j :| 0 <= j < |p| && !InMatrix(m, p[j]) && Encode(p, m, ind).error == NotFound(p[j]);
      MissingIsDigit(plainText, matrixKey, v, j);
    }
  }

  /** Every prepared character is in the square exactly when the variant
      is ADFGVX or the plaintext has no digit. */
  lemma PreparedInSquare(plainText: seq<char>, matrixKey: seq<char>, v: Variant)
    ensures (forall i | 0 <= i < |PrepareInput(plainText, v)| :: InMatrix(Square(matrixKey, v), PrepareInput(plainText, v)[i]))
      <==> v == ADFGVX || DigitFree(plainText)
  {
    var p, m := PrepareInput(plainText, v), Square(matrixKey, v);
    PrepareInputAlphabet(plainText, v);
    SquareMembers(matrixKey, v);
    UniverseFacts(v);
    if v == ADFGX {
      if forall i | 0 <= i < |p| :: InMatrix(m, p[i]) {
        assert forall i | 0 <= i < |p| :: IsLetter(p[i]);
        assert DigitFree(p);
      }
      if DigitFree(p) {
        forall i | 0 <= i < |p|
          ensures InMatrix(m, p[i])
        {
          assert IsAlnum(p[i]) && !IsDigit(p[i]) && p[i] != 'J';
        }
      }
    }
  }

  /** A prepared character missing from the square is a digit. */
  lemma MissingIsDigit(plainText: seq<char>, matrixKey: seq<char>, v: Variant, j: nat)
    requires j < |PrepareInput(plainText, v)|
    requires !InMatrix(Square(matrixKey, v), PrepareInput(plainText, v)[j])
    ensures v == ADFGX && IsDigit(PrepareInput(plainText, v)[j])
  {
    PrepareInputAlphabet(plainText, v);
    SquareMembers(matrixKey, v);
    UniverseFacts(v);
  }

  /** On plaintexts without spaces (and, for ADFGX, without digits) the two
      engine files encrypt alike; so dist/app.js decrypts what src/app.ts
      encrypts. */
  lemma AgreesWithDist(plainText: seq<char>, matrixKey: seq<char>, columnKey: seq<char>, v: Variant)
    requires ValidColumnKey(columnKey)
    requires forall i | 0 <= i < |plainText| :: plainText[i] != ' ' && (v == ADFGX ==> !IsDigit(plainText[i]))
    ensures Encrypted(plainText, matrixKey, columnKey, v) == DistApp.Encrypted(plainText, matrixKey, columnKey, v)
  {
    SrcKeyOrderAgrees(columnKey);
    if v == ADFGX {
      ApplyNone(plainText);
      var c := Clean(plainText);
      CleanAlphabet(plainText);
      CleanDigitFree(plainText);
      FilterAll(c, IsLetter);
    } else {
      ApplySpaceNoSpace(plainText);
    }
  }
}
