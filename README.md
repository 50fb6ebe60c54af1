# ADFGX / ADFGVX cipher engine in Dafny

This project models the cipher engine of a small web application that encrypts and decrypts text with the ADFGX and ADFGVX field ciphers.
- The plaintext is normalised to capital letters (and digits for ADFGVX).
- Each character is replaced by the row and column indicators of its cell in a Polybius square derived from a matrix key. The indicators are `ADFGX` or `ADFGVX`.
- The resulting stream is written row by row under a column key and read column by column, with the columns taken in key-sorted order.

The repository holds the engine twice, and each copy is modelled on its own:
- `dist/app.js` is the full engine: placeholders for spaces and digits, square construction, substitution, transposition, and both directions.
- `src/app.ts` is an older, encrypt-only copy. Its `prepareInput` inserts no placeholders and keeps digits for ADFGX. Its square loops stop once the square is full. Its column sort compares characters only and relies on a stable sort.

## Structure

| module (file) | contents |
|---|---|
| `Arith` (arith.dfy) | multiplication facts used by the grid index arithmetic |
| `Seqs` (seqs.dfy) | sequence helpers the source gets from JavaScript: `Filter`, `FlatMap`, `Dedup` (`Array.from(new Set(key))`), `AppendNew`, `ReplaceAll` (a global `String.prototype.replace` with a literal pattern), `IndexOf` |
| `Alphabet` (alphabet.dfy) | the variants, the indicator tables, upper-casing with the accent table, and the `[^A-Z0-9]` strip |
| `PolybiusSquare` (polybius.dfy) | the specification of the square (row-major content `SquareOrder`, grid `Square`), `isCharInMatrix`, and the fill invariant `Filling` shared by both fill loops |
| `Fractionation` (fractionation.dfy) | `encryptUsingMatrix` and `decryptUsingMatrix`, as `Result`-valued functions and as the source's nested loops |
| `Transposition` (transposition.dfy) | columnar transposition and its inverse for any column order, as functions and as the source's loops, with the permutation and round-trip proofs |
| `KeyOrder` (keyorder.dfy) | the two key sorts: by (character, index) in `dist/app.js`, and by character with a stable sort in `src/app.ts` |
| `Placeholders` (placeholders.dfy) | `applyPlaceholders`, `applySpacePlaceholder`, `revertPlaceholders` and the proof that reverting undoes applying |
| `DistApp` (dist.dfy) | `dist/app.js`: `prepareInput`, `generatePolybiusSquare`, the transposition wrappers, `encryptCipher`, `decryptCipher` |
| `SrcApp` (src.dfy) | `src/app.ts`: `prepareInput`, `generateCipherMatrix`, `columnarTransposition`, `encryptADFGVX` |

Modelling choices:
- Thrown errors become a `Result`: `NotFound(ch)` for a character missing from the square, and `InvalidIndicators(a, b)` for a bad indicator pair, where `b` is `None` for the missing second indicator of an odd-length text.
- The loops of the source become methods. Each method is proved equal to the specification function: `GeneratePolybiusSquare`, `GenerateCipherMatrix`, `EncryptUsingMatrix`, `DecryptUsingMatrix`, both transposition loops, and `RevertPlaceholders`.
- The square's grid is a `seq<seq<char>>`. Each row is a sequence, and the assignment `matrix[rowIndex][colIndex] = char` becomes an append to row `rowIndex`. The fill invariant proves that this append always lands on cell `colIndex`.
- Column keys are required to be non-empty and made of `A`–`Z` (`KeyOrder.ValidColumnKey`). The click handlers produce A–Z column keys, which may be empty (`dist/app.js:374`, `dist/app.js:403`, `src/app.ts:285-288`; the empty case is under "## Left out"). On such keys the model orders characters by character code. This matches `localeCompare` under the root and English collations, but not in every locale (see "## Left out").

## Model

| member | source | states |
|---|---|---|
| Alphabet.Size | dist/app.js:3-6 | the side of the square is the number of indicators: 5 for ADFGX, 6 for ADFGVX |
| Alphabet.IndicatorsDistinct | dist/app.js:3-6 | no indicator letter repeats, so `indexOf` recovers its position |
| Alphabet.DigitValue | dist/app.js:24 | `parseInt(digit)` of a digit character is a value below 10 that prints back as the same character |
| Alphabet.DigitChar | dist/app.js:33-35 | `index.toString()` of a value below 10 is the digit character of that value |
| Alphabet.ReplaceChar | dist/app.js:77 | replacing J by I keeps the length and changes exactly the positions that hold J |
| Alphabet.FoldFixesAlnum | dist/app.js:59-73 | upper-casing and the accent table leave capital letters and digits unchanged |
| Alphabet.FoldToX | dist/app.js:59-73 | a character normalises to X exactly when it is `x` or `X` |
| Alphabet.FoldDigit | dist/app.js:59-73 | a character normalises to a digit exactly when it is a digit |
| Alphabet.CleanPerChar | dist/app.js:59-74 | the normalisation chain works character by character: each character becomes its normal form, or nothing if that is not in A–Z0–9 |
| Alphabet.CleanAlphabet | dist/app.js:74 | after the strip, every character is a capital letter or a digit |
| Alphabet.CleanFixes | dist/app.js:59-74 | text already made of capital letters and digits is left unchanged |
| Alphabet.CleanDigitFree | src/app.ts:8-23 | the normalised text has a digit exactly when the input has one |
| PolybiusSquare.SymbolsADFGX | dist/app.js:84-87 | for ADFGX the symbol string is the alphabet with J replaced by a second I |
| PolybiusSquare.UniverseADFGX | dist/app.js:84-87 | once duplicates are dropped, the ADFGX symbols are exactly the 25 capital letters other than J |
| PolybiusSquare.UniverseADFGVX | dist/app.js:88-90 | the ADFGVX symbols are exactly the 36 capital letters and digits, with none repeated |
| PolybiusSquare.UniverseFacts | dist/app.js:83-90 | for each variant, the distinct symbols number side × side, and both characterisations above hold |
| PolybiusSquare.IsCharInMatrix | dist/app.js:43-50 | the row scan answers true exactly when some row holds the character |
| PolybiusSquare.InMatrixFlatten | src/app.ts:33-40 | a character is in some row exactly when it is in the row-major reading of the grid |
| PolybiusSquare.KeyPartFacts | dist/app.js:93-106 | the characters the key loop places are distinct and are exactly the key's characters that are symbols |
| PolybiusSquare.SquareOrderFacts | dist/app.js:82-119 | the row-major reading holds every symbol exactly once and nothing else, side × side characters in all |
| PolybiusSquare.SquareOrderSplit | dist/app.js:96-117 | the reading is the key's distinct symbols in first-occurrence order, then the remaining symbols in symbol order |
| PolybiusSquare.AppendNewRepeat | dist/app.js:86 | the duplicate I of the ADFGX symbol string adds nothing once the first I is placed |
| PolybiusSquare.EmptyKeySquare | dist/app.js:93-117 | the empty key yields the symbols in their natural order, row by row |
| PolybiusSquare.SquareShape | dist/app.js:91-118 | the square is a side × side grid whose row-major reading is that two-part sequence |
| PolybiusSquare.SquareCell | dist/app.js:99-117 | cell (r, c) holds position r × side + c of the reading |
| PolybiusSquare.SquareMembers | dist/app.js:82-119 | a character is in the square exactly when it is a symbol of the variant |
| PolybiusSquare.SquareInjective | dist/app.js:82-119 | no character occupies two cells |
| PolybiusSquare.FillStart | dist/app.js:91-95 | the empty rows with both counters at 0 start the fill |
| PolybiusSquare.FillStep | dist/app.js:99-104 | writing one cell and advancing the column counter (wrapping to the next row at the side) keeps the rows equal to the placed characters, row by row |
| PolybiusSquare.FillRoom | dist/app.js:108-116 | a character not yet placed and drawn from the symbols always finds a free cell, so no write leaves the grid |
| PolybiusSquare.PlaceNew | dist/app.js:98-99 | such a character keeps the placed characters distinct and within the symbols |
| PolybiusSquare.Place | dist/app.js:99-104 | one placement step extends the placed sequence by the character |
| PolybiusSquare.KeyStep | dist/app.js:97-98 | the key loop's test places the character exactly when it is a symbol not yet placed |
| PolybiusSquare.SymbolStep | dist/app.js:108-109 | the symbol loop places a symbol exactly when it is not placed yet |
| PolybiusSquare.FillDone | dist/app.js:108-118 | once side × side characters are placed, the grid is their row-major arrangement |
| Fractionation.LocateSpec | dist/app.js:150-165 | the search finds no cell exactly when the character is absent, and otherwise finds the first cell in row-major order |
| Fractionation.LocateDistinct | dist/app.js:152-158 | in a square without repeated characters the search finds the cell itself |
| Fractionation.EncodeSucceeds | dist/app.js:146-168 | encryption succeeds exactly when every character is in the square |
| Fractionation.EncodeFailure | dist/app.js:163-165 | a failing encryption reports `NotFound` of the first character that is not in the square |
| Fractionation.EncodeValues | src/app.ts:153-180 | a successful encryption writes, for each character, the row and column indicators of its first cell: twice the input length |
| Fractionation.EncodeConcat | dist/app.js:150-166 | encrypting a concatenation encrypts the parts, and the first failure wins |
| Fractionation.DecodeSucceeds | dist/app.js:282-289 | decryption succeeds exactly when the text has even length and only indicator characters |
| Fractionation.DecodeValues | dist/app.js:279-293 | a successful decryption yields one character per pair: the cell that the pair names |
| Fractionation.DecodeConcat | dist/app.js:282-291 | decrypting an even-length prefix and the rest decrypts the whole text |
| Fractionation.DecodeEncode | dist/app.js:279-293 | decrypting a successful encryption gives back the plaintext |
| Fractionation.EncodeDecode | dist/app.js:146-168 | on a square without repeats, encrypting a successful decryption gives back the indicator text |
| Fractionation.SquareDistinct | dist/app.js:82-119 | the generated square has no repeated character, so both round trips apply to it |
| Fractionation.FindCell | dist/app.js:151-162 | the row-then-column search with `found` and `break` stops at exactly the cell `Locate` names, and reports not found only when no row holds the character |
| Fractionation.EncryptUsingMatrix | dist/app.js:146-168 | the per-character loop returns the `Encode` result, including the `NotFound` error |
| Fractionation.DecryptUsingMatrix | dist/app.js:279-293 | the pair loop returns the `Decode` result, including the `InvalidIndicators` error |
| Transposition.ColLengths | dist/app.js:253-260 | there is one column length per key position, indexed by original position |
| Transposition.ColLengthSpec | dist/app.js:253-260 | row r of column c exists exactly when r × k + c < n, so column c has floor(n/k) cells, plus one when c < n mod k |
| Transposition.NumRowsSpec | dist/app.js:171 | `Math.ceil(n / k)` rows hold the text, and no column is longer |
| Transposition.ColumnAt | dist/app.js:174-180 | cell r of column c is character r × k + c of the text; padding cells add nothing |
| Transposition.ColumnReadFull | dist/app.js:191-195 | reading all the grid's rows of one column yields exactly that column |
| Transposition.ColumnOrderCovers | dist/app.js:181-191 | a column order visits every column |
| Transposition.RowMajorColumns | dist/app.js:271-276 | reading the columns back row by row restores the text |
| Transposition.SplitGather | dist/app.js:262-269 | slicing the concatenated columns by the lengths, in the same order, recovers each column at its original index |
| Transposition.TransposePermutation | dist/app.js:169-197 | the transposition keeps the length and is a permutation of its input |
| Transposition.UntransposeTranspose | dist/app.js:245-278 | the inverse transposition undoes the transposition for every text and every column order |
| Transposition.WriteGrid | dist/app.js:172-180 | the grid loop writes character r × k + c at (r, c), or `""` past the end |
| Transposition.ColumnarTransposition | dist/app.js:169-197 | the grid and column-reading loops compute `Transpose` |
| Transposition.ColumnLengths | dist/app.js:253-260 | the length loop, with its `extraChars` countdown, computes the column lengths |
| Transposition.InverseColumnarTransposition | dist/app.js:245-278 | the slicing and row-reading loops compute `Untranspose` |
| Transposition.ReadRows | dist/app.js:271-276 | the final loop reads the columns row by row and skips missing cells |
| KeyOrder.SortPrefix | dist/app.js:181-189 | sorting the first n key positions yields each of them exactly once |
| KeyOrder.InsertSorted | dist/app.js:182-189 | inserting a position keeps the order sorted by (character, index) |
| KeyOrder.DistKeyOrderSpec | dist/app.js:181-189 | the column order is a permutation of the key positions, ascending by character, with equal characters in left-to-right order |
| KeyOrder.SortedUnique | dist/app.js:248-251 | only one arrangement of the positions is sorted by (character, index), so the sorts at lines 182-189 and 251 agree |
| KeyOrder.SrcKeyOrder | src/app.ts:197-198 | the stable sort by character alone is a column order |
| KeyOrder.StableInsertAgrees | src/app.ts:198 | inserting a position larger than all earlier ones after the equal characters is the same as the (character, index) insertion |
| KeyOrder.SrcKeyOrderAgrees | src/app.ts:197-198 | the stable character-only sort gives the same column order as the sort in `dist/app.js`, which breaks ties by index |
| Placeholders.ApplyPlaceholdersTokens | dist/app.js:21-25 | the two replacements amount to sending each space to `XMZRY`, each digit d to the d-th digit word, and keeping every other character |
| Placeholders.SpaceWordDigitFree | dist/app.js:23-24 | the digit replacement leaves the space word unchanged |
| Placeholders.RevertPlaceholders | dist/app.js:30-37 | the loop of eleven replacements computes `Reverted` |
| Placeholders.PassPatterns | dist/app.js:7-19 | every placeholder word starts with X, ends with Y and has no Y inside |
| Placeholders.PassPatternsDistinct | dist/app.js:8-19 | the eleven placeholder words are pairwise different |
| Placeholders.WordLetters | dist/app.js:7-19 | the placeholder words are made of capital letters other than J |
| Placeholders.ReplaceToken | dist/app.js:32-34 | replacing one word in a stream of placeholder words and single non-X characters replaces exactly the occurrences of that word |
| Placeholders.ReplaceTokens | dist/app.js:32-34 | the same holds for a whole stream of such tokens |
| Placeholders.RevertPass | dist/app.js:32-34 | each replacement pass turns one kind of word back into its character |
| Placeholders.RevertApply | dist/app.js:21-37 | on capital letters other than X, spaces and digits, reverting the placeholders undoes `applyPlaceholders` |
| Placeholders.RevertApplySpace | dist/app.js:26-37 | the same holds for `applySpacePlaceholder` |
| Placeholders.ApplySpaceNoSpace | dist/app.js:26-28 | a text without spaces passes through `applySpacePlaceholder` unchanged |
| Placeholders.ApplyNone | dist/app.js:21-25 | a text without spaces and digits passes through `applyPlaceholders` unchanged |
| Placeholders.RevertLossy | dist/app.js:26-37 | the literal plaintext `XMZRY` comes back as a space, so the placeholder round trip does not hold for every text |
| DistApp.PrepareInputAlphabet | dist/app.js:52-80 | every prepared character is a symbol of the variant: for ADFGX a capital letter other than J, for ADFGVX a capital letter or a digit |
| DistApp.PrepareInputPlain | dist/app.js:52-80 | on a plain text, preparing it only applies the placeholders |
| DistApp.RevertPrepared | dist/app.js:52-80 | on a plain text, reverting the placeholders of the prepared text restores it |
| DistApp.GeneratePolybiusSquare | dist/app.js:82-119 | the two fill loops build exactly `Square(key, variant)` |
| DistApp.FillFromKey | dist/app.js:96-106 | the key loop places the key's distinct symbols in order of first occurrence |
| DistApp.FillFromSymbols | dist/app.js:107-117 | the symbol loop appends every symbol not yet placed, in symbol order |
| DistApp.ColumnarTransposition | dist/app.js:169-197 | the transposition reads the columns in (character, index) order and permutes its input |
| DistApp.InverseColumnarTransposition | dist/app.js:245-278 | the inverse takes column lengths by original index and slices in sorted order |
| DistApp.TranspositionRoundTrip | dist/app.js:245-278 | the inverse transposition undoes the transposition for the same column key |
| DistApp.EncryptCipher | dist/app.js:294-300 | the pipeline's result is the substitution text and its transposition |
| DistApp.DecryptCipher | dist/app.js:301-316 | the pipeline's result is the inverse transposition, its decryption and, for both variants, the reverted placeholders |
| DistApp.EncryptedFacts | dist/app.js:294-300 | encryption never fails; the substitution text is twice the prepared length and made of indicators; the ciphertext is a permutation of it |
| DistApp.CipherRoundTrip | dist/app.js:294-316 | decrypting a ciphertext gives back the substitution text and `revertPlaceholders(prepareInput(p, v))` |
| DistApp.PlainRoundTrip | dist/app.js:294-316 | for a plain text, decrypting the ciphertext gives back the plaintext itself |
| SrcApp.PrepareInputAlphabet | src/app.ts:7-30 | prepared characters are capital letters and digits, with no J for ADFGX; digits are kept for both variants |
| SrcApp.GenerateCipherMatrix | src/app.ts:43-99 | the fill loops with their early exits build the same square as `dist/app.js` |
| SrcApp.FillFromKey | src/app.ts:68-81 | the key loop, even when it leaves early, reaches the state of placing all the key's distinct symbols |
| SrcApp.KeyRestFilling | src/app.ts:77-79 | once the square is full, every later key character is already placed |
| SrcApp.SymbolsRestPlaced | src/app.ts:92-94 | once the square is full, every later symbol is already placed |
| SrcApp.FillFromSymbols | src/app.ts:83-96 | the symbol loop with its early exit appends every symbol not yet placed |
| SrcApp.ColumnarTransposition | src/app.ts:183-208 | the character-only stable sort gives the same transposition as `dist/app.js`, and it permutes its input |
| SrcApp.EncryptADFGVX | src/app.ts:211-227 | the pipeline returns the substitution of the prepared text in the generated square and its transposition |
| SrcApp.PreparedInSquare | src/app.ts:7-99 | every character of `prepareInput` lies in the square `generateCipherMatrix` builds (membership as `isCharInMatrix` tests it) exactly when the variant is ADFGVX or the plaintext has no digit |
| SrcApp.MissingIsDigit | src/app.ts:174-176 | a prepared character missing from the square is a digit under ADFGX |
| SrcApp.EncryptedSucceeds | src/app.ts:211-227 | encryption succeeds exactly when the variant is ADFGVX or the plaintext has no digit; otherwise it throws `NotFound` for a digit |
| SrcApp.AgreesWithDist | src/app.ts:211-227 | without spaces (and, for ADFGX, without digits) the two engines encrypt alike |

## Left out

- The display and UI code is not modelled: the functions that build HTML tables, the click handlers, `alert`, and the example buttons.
- The column-key clean-up in the handlers (`.replace(/[^A-Z]/g, "")`) is not modelled. `DistApp.ColumnarTransposition`, `DistApp.InverseColumnarTransposition`, `DistApp.EncryptCipher`, `DistApp.DecryptCipher`, `SrcApp.ColumnarTransposition` and `SrcApp.EncryptADFGVX` require its outcome, a non-empty A–Z key. With an empty key and a non-empty text the source computes `Math.ceil(n / 0)`, which is `Infinity`, and its loops do not finish. With an empty key and an empty text, `Math.ceil(0 / 0)` is `NaN`, the row loops never run, and both transpositions return the empty string, so `encryptCipher` on an empty plaintext returns two empty strings. The precondition excludes both cases.
- `toUpperCase` is modelled only for ASCII letters and for the lower-case forms of the accented letters in the accent table. Other Unicode case mappings are not modelled; a character they would map into A–Z is dropped in the model.
- `localeCompare` (`dist/app.js:187`, `dist/app.js:251`, `src/app.ts:198`) uses the host's default locale; the model compares character codes instead. The two agree on A–Z under the root and English collations. In some locales they do not: Estonian sorts Z before T, and Lithuanian and Latvian sort Y before J. For keys such as "TZ" or "JY", the source's column order then differs from `KeyOrder.DistKeyOrder` and `KeyOrder.SrcKeyOrder`. Encryption and decryption still agree with each other there, because both use the same comparator and `Transposition.UntransposeTranspose` holds for every column order.
- JavaScript strings are modelled as sequences of Unicode code points (`seq<char>`, whose elements are Unicode scalar values), not as UTF-16 code units. A character outside the Basic Multilingual Plane is one element in the model, where JavaScript's `.length` and `substr` count two code units. On the encryption side this never shows: `prepareInput` keeps only A–Z and 0–9. It shows only for a ciphertext that holds such characters. `inverseColumnarTransposition` (`dist/app.js:247-268`) cuts the raw ciphertext by code units, so its column lengths and slices differ from `Transposition.Untranspose`. Decryption then fails in both, but the `InvalidIndicators` payload differs. For example, ciphertext "AD😀" with column key "AB" fails in the source on `A` and the first half of the surrogate pair. In the model it fails on `A` and the whole character.
- The regular-expression engine is not modelled. Each `.replace` with a literal pattern is `Seqs.ReplaceAll`, a left-to-right, non-overlapping replacement. Each character class is a per-character test.
- `Array.prototype.sort` is modelled as an insertion sort. `KeyOrder.SortedUnique` shows that any correct sort with the same comparator gives the same order. The src sort is modelled as a stable insertion sort, matching the stability of `Array.prototype.sort`.
- `revertSpacePlaceholder` (`dist/app.js:38-42`) is not modelled. No caller uses it.
- `DistApp.PlainRoundTrip`: the full plaintext round trip is stated only for plain texts, meaning capital letters other than X, spaces and digits, with no J for ADFGX. The folding of J into I, the stripping of other characters and literal placeholder words in the plaintext all make the cipher lossy (see `Placeholders.RevertLossy`). For every other text, `DistApp.CipherRoundTrip` states what comes back.
- The row-and-column assignment `matrix[rowIndex][colIndex] = char` is modelled as an append to row `rowIndex`. The fill invariant shows that the append lands on column `colIndex`. The sparse-array behaviour of writing far beyond a row's end cannot arise.
- The transposition loops build a `seq` of `seq`s rather than assigning into JavaScript arrays. In the inverse, `columns[originalIndex]` entries cannot be left unassigned, because a column order visits every column.
