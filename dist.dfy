/** The cipher engine of dist/app.js: input preparation, the key square,
    the keyed columnar transposition, and the two pipelines
    `encryptCipher` and `decryptCipher`, with the round trip between them. */
module DistApp {
  import opened Seqs
  import opened Alphabet
  import opened PolybiusSquare
  import opened Placeholders
  import opened Fractionation
  import Transposition
  import opened KeyOrder

  // ---------------------------------------------------------------------
  // prepareInput

  /** `prepareInput(text, variant)`: ADFGX spells out spaces and digits,
      normalises, drops what is not a letter and folds J into I; ADFGVX
      spells out spaces only and normalises. */
  function PrepareInput(text: seq<char>, v: Variant): seq<char> {
    if v == ADFGX then ReplaceChar(Filter(Clean(ApplyPlaceholders(text)), IsLetter), 'J', 'I')
    else Clean(ApplySpacePlaceholder(text))
  }

  /** Every prepared character has a cell in the square. */
  lemma PreparedHaveCells(plainText: seq<char>, matrixKey: seq<char>, v: Variant)
    ensures forall i | 0 <= i < |PrepareInput(plainText, v)| :: InMatrix(Square(matrixKey, v), PrepareInput(plainText, v)[i])
  {
    PrepareInputAlphabet(plainText, v);
    SquareMembers(matrixKey, v);
  }

  /** The prepared text is made of the variant's symbols: letters other
      than J for ADFGX, letters and digits for ADFGVX. */
  lemma PrepareInputAlphabet(text: seq<char>, v: Variant)
    ensures forall i | 0 <= i < |PrepareInput(text, v)| :: PrepareInput(text, v)[i] in Universe(v)
  {
    UniverseFacts(v);
    if v == ADFGX {
      var f := Filter(Clean(ApplyPlaceholders(text)), IsLetter);
      FilterMembers(Clean(ApplyPlaceholders(text)), IsLetter);
      assert forall i | 0 <= i < |f| :: f[i] in f;
    } else {
      CleanAlphabet(ApplySpacePlaceholder(text));
    }
  }

  /** The plaintexts the placeholders restore exactly: capital letters
      other than X, spaces and digits, and for ADFGX no J either, since J
      is folded into I. */
  predicate PlainText(text: seq<char>, v: Variant) {
    forall i | 0 <= i < |text| :: PlainChar(text[i]) && (v == ADFGX ==> text[i] != 'J')
  }

  /** On such a text the normalisation after the placeholders changes
      nothing. */
  lemma PrepareInputPlain(text: seq<char>, v: Variant)
    requires PlainText(text, v)
    ensures PrepareInput(text, v) == (if v == ADFGX then ApplyPlaceholders(text) else ApplySpacePlaceholder(text))
  {
    UniverseFacts(v);
    if v == ADFGX {
      var t := ApplyPlaceholders(text);
      ApplyPlaceholdersTokens(text);
      WordLetters();
      forall i, j | 0 <= i < |text| && 0 <= j < |Token(text[i])|
        ensures Token(text[i])[j] in Universe(v)
      {
        if text[i] == ' ' || IsDigit(text[i]) {
          PassOfWord(text[i]);
        }
      }
      FlatMapInto(text, Token, Universe(v));
      assert forall i | 0 <= i < |t| :: IsLetter(t[i]) && t[i] != 'J';
      CleanFixes(t);
      FilterAll(t, IsLetter);
      assert ReplaceChar(t, 'J', 'I') == t;
    } else {
      var t := ApplySpacePlaceholder(text);
      forall i, j | 0 <= i < |text| && 0 <= j < |SpaceToken(text[i])|
        ensures SpaceToken(text[i])[j] in Universe(v)
      {
        if text[i] == ' ' {
          WordLetters();
          assert SpaceToken(text[i]) == PassPattern(0);
        }
      }
      FlatMapInto(text, SpaceToken, Universe(v));
      CleanFixes(t);
    }
  }

  /** Reverting the placeholders of a prepared plain text gives the text
      back. */
  lemma RevertPrepared(text: seq<char>, v: Variant)
    requires PlainText(text, v)
    ensures Reverted(PrepareInput(text, v)) == text
  {
    PrepareInputPlain(text, v);
    if v == ADFGX {
      RevertApply(text);
    } else {
      RevertApplySpace(text);
    }
  }

  // ---------------------------------------------------------------------
  // generatePolybiusSquare

  /** `generatePolybiusSquare(key, variant)`: the key's distinct symbols,
      then the remaining symbols, written cell by cell into an initially
      empty array of rows. */
  method GeneratePolybiusSquare(key: seq<char>, v: Variant) returns (matrix: Grid)
    ensures matrix == Square(key, v)
  {
    var matrixSize: nat := if v == ADFGX then 5 else 6;
    var symbols := Letters;
    if v == ADFGX {
      symbols := ReplaceChar(symbols, 'J', 'I');
    } else {
      symbols := symbols + Digits;
    }
    assert symbols == Symbols(v);
    matrix := seq(matrixSize, _ => []);
    var uniqueKeyChars := Dedup(key);
    DedupFacts(key);
    KeyPartFacts(key, v);
    FillStart(matrixSize);
    var rowIndex, colIndex;
    matrix, rowIndex, colIndex := FillFromKey(matrix, uniqueKeyChars, symbols, v);
    matrix, rowIndex, colIndex := FillFromSymbols(matrix, rowIndex, colIndex, KeyPart(key, v), symbols, v);
    SquareOrderFacts(key, v);
    FillDone(matrix, matrixSize, rowIndex, colIndex, SquareOrder(key, v));
  }

  /** The first loop of `generatePolybiusSquare`: each distinct key
      character that is a symbol and not yet in the matrix is written. */
  method FillFromKey(matrix0: Grid, uniqueKeyChars: seq<char>, symbols: seq<char>, v: Variant)
    returns (matrix: Grid, rowIndex: nat, colIndex: nat)
    requires Filling(matrix0, Size(v), 0, 0, []) && symbols == Symbols(v) && Distinct(uniqueKeyChars)
    ensures Filling(matrix, Size(v), rowIndex, colIndex, Filter(uniqueKeyChars, InSymbols(v)))
  {
    var matrixSize := Size(v);
    matrix, rowIndex, colIndex := matrix0, 0, 0;
    ghost var placed: seq<char> := [];
    ghost var u := Universe(v);
    UniverseFacts(v);
    for i := 0 to |uniqueKeyChars|
      invariant Filling(matrix, matrixSize, rowIndex, colIndex, placed)
      invariant placed == Filter(uniqueKeyChars[..i], InSymbols(v))
      invariant PlacedFrom(placed, u)
    {
      var ch := uniqueKeyChars[i];
      var inMatrix := IsCharInMatrix(matrix, ch);
      InMatrixFlatten(matrix, ch);
      KeyStep(uniqueKeyChars, i, placed, v, inMatrix);
      if ch in symbols && !inMatrix {
        PlaceNew(matrix, matrixSize, rowIndex, colIndex, placed, u, ch);
        matrix, rowIndex, colIndex := Place(matrix, matrixSize, rowIndex, colIndex, placed, ch);
        placed := placed + [ch];
      }
    }
    assert uniqueKeyChars[..|uniqueKeyChars|] == uniqueKeyChars;
  }

  /** The second loop of `generatePolybiusSquare`: each symbol not yet in
      the matrix is written, in `symbols` order. */
  method FillFromSymbols(matrix0: Grid, rowIndex0: nat, colIndex0: nat, ghost keyPart: seq<char>, symbols: seq<char>, v: Variant)
    returns (matrix: Grid, rowIndex: nat, colIndex: nat)
    requires Filling(matrix0, Size(v), rowIndex0, colIndex0, keyPart) && symbols == Symbols(v)
    requires Distinct(keyPart) && forall c | c in keyPart :: c in Universe(v)
    ensures Filling(matrix, Size(v), rowIndex, colIndex, AppendNew(keyPart, symbols))
  {
    var matrixSize := Size(v);
    matrix, rowIndex, colIndex := matrix0, rowIndex0, colIndex0;
    ghost var placed := keyPart;
    ghost var u := Universe(v);
    UniverseFacts(v);
    for j := 0 to |symbols|
      invariant Filling(matrix, matrixSize, rowIndex, colIndex, placed)
      invariant placed == AppendNew(keyPart, symbols[..j])
      invariant PlacedFrom(placed, u)
    {
      var ch := symbols[j];
      var inMatrix := IsCharInMatrix(matrix, ch);
      InMatrixFlatten(matrix, ch);
      SymbolStep(keyPart, symbols, j, placed, v, inMatrix);
      if !inMatrix {
        PlaceNew(matrix, matrixSize, rowIndex, colIndex, placed, u, ch);
        matrix, rowIndex, colIndex := Place(matrix, matrixSize, rowIndex, colIndex, placed, ch);
        placed := placed + [ch];
      }
    }
    assert symbols[..|symbols|] == symbols;
  }

  // ---------------------------------------------------------------------
  // The keyed transposition

  /** `columnarTransposition(encryptedText, key)`: the columns of the grid
      read in ascending order of (key letter, position). The result is a
      rearrangement of the input. */
  method ColumnarTransposition(encryptedText: seq<char>, key: seq<char>) returns (result: seq<char>)
    requires ValidColumnKey(key)
    ensures result == Transposition.Transpose(encryptedText, |key|, DistKeyOrder(key))
    ensures multiset(result) == multiset(encryptedText)
  {
    var keyOrder := DistKeyOrder(key);
    DistKeyOrderSpec(key);
    result := Transposition.ColumnarTransposition(encryptedText, |key|, keyOrder);
    Transposition.TransposePermutation(encryptedText, |key|, keyOrder);
  }

  /** `inverseColumnarTransposition(encryptedText, key)`: the text cut into
      columns of the computed lengths in the same key order, read back row
      by row. It undoes `ColumnarTransposition` (`TranspositionRoundTrip`). */
  method InverseColumnarTransposition(encryptedText: seq<char>, key: seq<char>) returns (result: seq<char>)
    requires ValidColumnKey(key)
    ensures result == Transposition.Untranspose(encryptedText, |key|, DistKeyOrder(key))
  {
    var keyOrder := DistKeyOrder(key);
    DistKeyOrderSpec(key);
    result := Transposition.InverseColumnarTransposition(encryptedText, |key|, keyOrder);
  }

  lemma TranspositionRoundTrip(s: seq<char>, key: seq<char>)
    requires ValidColumnKey(key)
    ensures Transposition.Untranspose(Transposition.Transpose(s, |key|, DistKeyOrder(key)), |key|, DistKeyOrder(key)) == s
  {
    DistKeyOrderSpec(key);
    Transposition.UntransposeTranspose(s, |key|, DistKeyOrder(key));
  }

  // ---------------------------------------------------------------------
  // encryptCipher and decryptCipher

  /** What `encryptCipher(plainText, matrixKey, columnKey, variant)`
      returns or throws. */
  function Encrypted(plainText: seq<char>, matrixKey: seq<char>, columnKey: seq<char>, v: Variant): Result<Encryption>
    requires ValidColumnKey(columnKey)
  {
    SquareShape(matrixKey, v);
    var sub := Encode(PrepareInput(plainText, v), Square(matrixKey, v), Indicators(v));
    if sub.Failure? then Failure(sub.error)
    else Success(Encryption(sub.value, Transposition.Transpose(sub.value, |columnKey|, DistKeyOrder(columnKey))))
  }

  /** What `decryptCipher(encryptedText, matrixKey, columnKey, variant)`
      returns or throws. */
  function Decrypted(encryptedText: seq<char>, matrixKey: seq<char>, columnKey: seq<char>, v: Variant): Result<Decryption>
    requires ValidColumnKey(columnKey)
  {
    SquareShape(matrixKey, v);
    var sub := Transposition.Untranspose(encryptedText, |columnKey|, DistKeyOrder(columnKey));
    var d := Decode(sub, Square(matrixKey, v), Indicators(v));
    if d.Failure? then Failure(d.error)
    else Success(Decryption(sub, Reverted(d.value)))
  }

  method EncryptCipher(plainText: seq<char>, matrixKey: seq<char>, columnKey: seq<char>, v: Variant)
    returns (r: Result<Encryption>)
    requires ValidColumnKey(columnKey)
    ensures r == Encrypted(plainText, matrixKey, columnKey, v)
  {
    var preparedText := PrepareInput(plainText, v);
    var cipherMatrix := GeneratePolybiusSquare(matrixKey, v);
    SquareShape(matrixKey, v);
    var substitution := EncryptUsingMatrix(preparedText, cipherMatrix, v);
    if substitution.Failure? {
      return Failure(substitution.error);
    }
    var encryptedText := ColumnarTransposition(substitution.value, columnKey);
    return Success(Encryption(substitution.value, encryptedText));
  }

  method DecryptCipher(encryptedText: seq<char>, matrixKey: seq<char>, columnKey: seq<char>, v: Variant)
    returns (r: Result<Decryption>)
    requires ValidColumnKey(columnKey)
    ensures r == Decrypted(encryptedText, matrixKey, columnKey, v)
  {
    var cipherMatrix := GeneratePolybiusSquare(matrixKey, v);
    SquareShape(matrixKey, v);
    var substitutionText := InverseColumnarTransposition(encryptedText, columnKey);
    var decrypted := DecryptUsingMatrix(substitutionText, cipherMatrix, v);
    if decrypted.Failure? {
      return Failure(decrypted.error);
    }
    var decryptedText := decrypted.value;
    if v == ADFGX {
      decryptedText := RevertPlaceholders(decryptedText);
    }
    if v == ADFGVX {
      decryptedText := RevertPlaceholders(decryptedText);
    }
    return Success(Decryption(substitutionText, decryptedText));
  }

  // ---------------------------------------------------------------------
  // Properties

  /** Encryption never throws: every prepared character is in the square.
      The substitution text holds two indicators per prepared character and
      decodes back to the prepared text, and the ciphertext is a
      rearrangement of it. */
  lemma EncryptedFacts(plainText: seq<char>, matrixKey: seq<char>, columnKey: seq<char>, v: Variant)
    requires ValidColumnKey(columnKey)
    ensures Encrypted(plainText, matrixKey, columnKey, v).Success?
    ensures var e := Encrypted(plainText, matrixKey, columnKey, v).value;
      |e.substitutionText| == 2 * |PrepareInput(plainText, v)| &&
      multiset(e.encryptedText) == multiset(e.substitutionText) &&
      forall i | 0 <= i < |e.substitutionText| :: e.substitutionText[i] in Indicators(v)
  {
    var p, m, ind := PrepareInput(plainText, v), Square(matrixKey, v), Indicators(v);
    SquareShape(matrixKey, v);
    PreparedHaveCells(plainText, matrixKey, v);
    IndicatorsDistinct(v);
    SubstitutionFacts(p, m, ind);
    DistKeyOrderSpec(columnKey);
    Transposition.TransposePermutation(Encode(p, m, ind).value, |columnKey|, DistKeyOrder(columnKey));
  }

  /** Decrypting a ciphertext with the keys that produced it yields the
      same substitution text and the prepared plaintext with its
      placeholders reverted. */
  lemma CipherRoundTrip(plainText: seq<char>, matrixKey: seq<char>, columnKey: seq<char>, v: Variant)
    requires ValidColumnKey(columnKey)
    ensures Encrypted(plainText, matrixKey, columnKey, v).Success?
    ensures var e := Encrypted(plainText, matrixKey, columnKey, v).value;
      Decrypted(e.encryptedText, matrixKey, columnKey, v) ==
        Success(Decryption(e.substitutionText, Reverted(PrepareInput(plainText, v))))
  {
    var p, m, ind := PrepareInput(plainText, v), Square(matrixKey, v), Indicators(v);
    EncryptedFacts(plainText, matrixKey, columnKey, v);
    SquareShape(matrixKey, v);
    IndicatorsDistinct(v);
    DecodeEncode(p, m, ind);
    TranspositionRoundTrip(Encode(p, m, ind).value, columnKey);
  }

  /** For plaintexts of capital letters other than X (and J for ADFGX),
      spaces and digits, decryption returns exactly the plaintext. */
  lemma PlainRoundTrip(plainText: seq<char>, matrixKey: seq<char>, columnKey: seq<char>, v: Variant)
    requires ValidColumnKey(columnKey) && PlainText(plainText, v)
    ensures Encrypted(plainText, matrixKey, columnKey, v).Success?
    ensures Decrypted(Encrypted(plainText, matrixKey, columnKey, v).value.encryptedText, matrixKey, columnKey, v)
      .Success?
    ensures Decrypted(Encrypted(plainText, matrixKey, columnKey, v).value.encryptedText, matrixKey, columnKey, v)
      .value.decryptedText == plainText
  {
    CipherRoundTrip(plainText, matrixKey, columnKey, v);
    RevertPrepared(plainText, v);
  }
}
