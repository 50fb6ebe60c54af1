/** The substitution half of the cipher, shared by both engine files: each
    character becomes the two indicators of its cell (`encryptUsingMatrix`),
    and each pair of indicators becomes the character of its cell
    (`decryptUsingMatrix`). Defined here as functions on grids; the loops
    of each engine file are proved against them in their own modules. */
module Fractionation {
  import opened Seqs
  import opened Alphabet
  import opened PolybiusSquare

  datatype Option<T> = None | Some(value: T)

  /** The errors the engine throws. */
  datatype CipherError =
    | NotFound(ch: char)
      // "Character ... not found in cipher matrix."
    | InvalidIndicators(row: char, col: Option<char>)
      // "Invalid indicators: ..."; `col` is `None` when the text has odd
      // length and the last pair has no second character.

  datatype Result<T> = Success(value: T) | Failure(error: CipherError)

  /** The records the pipelines return: `{ substitutionText, encryptedText }`
      and `{ substitutionText, decryptedText }`. */
  datatype Encryption = Encryption(substitutionText: seq<char>, encryptedText: seq<char>)

  datatype Decryption = Decryption(substitutionText: seq<char>, decryptedText: seq<char>)

  /** Two results in sequence: the first failure wins, otherwise the
      outputs are concatenated. */
  function Join(x: Result<seq<char>>, y: Result<seq<char>>): Result<seq<char>> {
    if x.Failure? then x
    else if y.Failure? then y
    else Success(x.value + y.value)
  }

  lemma JoinUnit(y: Result<seq<char>>)
    ensures Join(Success([]), y) == y
  {
    if y.Success? {
      assert [] + y.value == y.value;
    }
  }

  lemma JoinRightUnit(x: Result<seq<char>>)
    ensures Join(x, Success([])) == x
  {
    if x.Success? {
      assert x.value + [] == x.value;
    }
  }

  lemma JoinAssoc(x: Result<seq<char>>, y: Result<seq<char>>, z: Result<seq<char>>)
    ensures Join(Join(x, y), z) == Join(x, Join(y, z))
  {
    if x.Success? && y.Success? && z.Success? {
      assert (x.value + y.value) + z.value == x.value + (y.value + z.value);
    }
  }

  // ---------------------------------------------------------------------
  // Locating a character

  /** Cells in row-major order: `(r1, c1)` comes before `(r2, c2)`. */
  predicate Before(r1: nat, c1: nat, r2: nat, c2: nat) {
    r1 < r2 || (r1 == r2 && c1 < c2)
  }

  /** No character occupies two cells of a square grid of side `n`. */
  predicate CellsDistinct(m: Grid, n: nat)
    requires IsGrid(m, n)
  {
    forall r1, c1, r2, c2 | 0 <= r1 < n && 0 <= c1 < n && 0 <= r2 < n && 0 <= c2 < n &&
      m[r1][c1] == m[r2][c2] :: r1 == r2 && c1 == c2
  }

  /** The search over rows `r` and below: the first row that holds `ch`,
      and the first column of that row that does. */
  function LocateFrom(m: Grid, ind: seq<char>, r: nat, ch: char): (loc: Option<(nat, nat)>)
    requires IsGrid(m, |ind|) && r <= |ind|
    ensures loc.Some? ==>
      r <= loc.value.0 < |ind| && loc.value.1 < |ind| && m[loc.value.0][loc.value.1] == ch
    decreases |ind| - r
  {
    if r == |ind| then None
    else if ch in m[r] then Some((r, IndexOf(m[r], ch) as nat))
    else LocateFrom(m, ind, r + 1, ch)
  }

  /** The cell the nested `row`/`col` search of `encryptUsingMatrix` stops
      at: the first cell in row-major order that holds `ch`, or `None`
      (`LocateSpec` states this). */
  function Locate(m: Grid, ind: seq<char>, ch: char): (loc: Option<(nat, nat)>)
    requires IsGrid(m, |ind|)
    ensures loc.Some? ==> loc.value.0 < |ind| && loc.value.1 < |ind| && m[loc.value.0][loc.value.1] == ch
  {
    LocateFrom(m, ind, 0, ch)
  }

  lemma {:induction false} LocateFromSpec(m: Grid, ind: seq<char>, r: nat, ch: char)
    requires IsGrid(m, |ind|) && r <= |ind|
    ensures LocateFrom(m, ind, r, ch).None? <==> forall r' | r <= r' < |ind| :: ch !in m[r']
    ensures LocateFrom(m, ind, r, ch).Some? ==>
      var (rr, c) := LocateFrom(m, ind, r, ch).value;
      (forall r' | r <= r' < rr :: ch !in m[r']) && forall c' | 0 <= c' < c :: m[rr][c'] != ch
    decreases |ind| - r
  {
    if r < |ind| && ch !in m[r] {
      LocateFromSpec(m, ind, r + 1, ch);
    }
  }

  /** The search finds a cell exactly when the matrix holds the character,
      and the cell it finds is the first one in row-major order. */
  lemma LocateSpec(m: Grid, ind: seq<char>, ch: char)
    requires IsGrid(m, |ind|)
    ensures Locate(m, ind, ch).None? <==> !InMatrix(m, ch)
    ensures Locate(m, ind, ch).Some? ==>
      var (r, c) := Locate(m, ind, ch).value;
      forall r', c' | 0 <= r' < |ind| && 0 <= c' < |ind| && Before(r', c', r, c) :: m[r'][c'] != ch
  {
    LocateFromSpec(m, ind, 0, ch);
    if Locate(m, ind, ch).Some? {
      var (r, c) := Locate(m, ind, ch).value;
      forall r', c' | 0 <= r' < |ind| && 0 <= c' < |ind| && Before(r', c', r, c)
        ensures m[r'][c'] != ch
      {
        if r' < r {
          assert ch !in m[r'];
          assert m[r'][c'] in m[r'];
        }
      }
    }
  }

  /** When no character repeats, the search stops at the cell itself. */
  lemma LocateDistinct(m: Grid, ind: seq<char>, r: nat, c: nat)
    requires IsGrid(m, |ind|) && CellsDistinct(m, |ind|)
    requires r < |ind| && c < |ind|
    ensures Locate(m, ind, m[r][c]) == Some((r, c))
  {
    assert m[r][c] in m[r];
    assert InMatrix(m, m[r][c]);
    LocateSpec(m, ind, m[r][c]);
  }

  // ---------------------------------------------------------------------
  // Substitution

  /** The two indicators of cell `(r, c)`: `indicators[row] + indicators[col]`. */
  function Pair(ind: seq<char>, r: nat, c: nat): seq<char>
    requires r < |ind| && c < |ind|
  {
    [ind[r], ind[c]]
  }

  /** What `encryptUsingMatrix(text, m, ind)` returns or throws. */
  function Encode(text: seq<char>, m: Grid, ind: seq<char>): Result<seq<char>>
    requires IsGrid(m, |ind|)
  {
    if |text| == 0 then Success([])
    else
      var loc := Locate(m, ind, text[0]);
      if loc.None? then Failure(NotFound(text[0]))
      else Join(Success(Pair(ind, loc.value.0, loc.value.1)), Encode(text[1..], m, ind))
  }

  /** The cell of an indicator pair, or the error `decryptUsingMatrix`
      throws for it; `hasCol` is false for the lone last character of a
      text of odd length, whose second indicator is `undefined`. */
  function DecodePair(m: Grid, ind: seq<char>, a: char, b: char, hasCol: bool): Result<seq<char>>
    requires IsGrid(m, |ind|)
  {
    var r := IndexOf(ind, a);
    var c := if hasCol then IndexOf(ind, b) else -1;
    if r == -1 || c == -1 then Failure(InvalidIndicators(a, if hasCol then Some(b) else None))
    else Success([m[r][c]])
  }

  /** What `decryptUsingMatrix(s, m, ind)` returns or throws. */
  function Decode(s: seq<char>, m: Grid, ind: seq<char>): Result<seq<char>>
    requires IsGrid(m, |ind|)
    decreases |s|
  {
    if |s| == 0 then Success([])
    else if |s| == 1 then DecodePair(m, ind, s[0], s[0], false)
    else Join(DecodePair(m, ind, s[0], s[1], true), Decode(s[2..], m, ind))
  }

  // ---------------------------------------------------------------------
  // Properties

  /** Encoding works character by character. */
  lemma {:induction false} EncodeConcat(a: seq<char>, b: seq<char>, m: Grid, ind: seq<char>)
    requires IsGrid(m, |ind|)
    ensures Encode(a + b, m, ind) == Join(Encode(a, m, ind), Encode(b, m, ind))
  {
    if |a| == 0 {
      assert a + b == b;
      JoinUnit(Encode(b, m, ind));
    } else {
      assert (a + b)[0] == a[0];
      assert (a + b)[1..] == a[1..] + b;
      EncodeConcat(a[1..], b, m, ind);
      if Locate(m, ind, a[0]).Some? {
        var loc := Locate(m, ind, a[0]);
        JoinAssoc(Success(Pair(ind, loc.value.0, loc.value.1)), Encode(a[1..], m, ind), Encode(b, m, ind));
      }
    }
  }

  /** Decoding works pair by pair. */
  lemma {:induction false} DecodeConcat(a: seq<char>, b: seq<char>, m: Grid, ind: seq<char>)
    requires IsGrid(m, |ind|)
    requires |a| % 2 == 0
    ensures Decode(a + b, m, ind) == Join(Decode(a, m, ind), Decode(b, m, ind))
    decreases |a|
  {
    if |a| == 0 {
      assert a + b == b;
      JoinUnit(Decode(b, m, ind));
    } else {
      assert (a + b)[0] == a[0] && (a + b)[1] == a[1];
      assert (a + b)[2..] == a[2..] + b;
      DecodeConcat(a[2..], b, m, ind);
      JoinAssoc(DecodePair(m, ind, a[0], a[1], true), Decode(a[2..], m, ind), Decode(b, m, ind));
    }
  }

  /** One step of `encryptUsingMatrix`: the first character is looked up,
      then the rest is encoded. */
  lemma EncodeHead(text: seq<char>, m: Grid, ind: seq<char>)
    requires IsGrid(m, |ind|)
    requires |text| > 0
    ensures Locate(m, ind, text[0]).None? ==> Encode(text, m, ind) == Failure(NotFound(text[0]))
    ensures Locate(m, ind, text[0]).Some? && Encode(text[1..], m, ind).Failure? ==>
      Encode(text, m, ind) == Encode(text[1..], m, ind)
    ensures Locate(m, ind, text[0]).Some? && Encode(text[1..], m, ind).Success? ==>
      var (r, c) := Locate(m, ind, text[0]).value;
      Encode(text, m, ind) == Success(Pair(ind, r, c) + Encode(text[1..], m, ind).value)
  {
  }

  lemma EncodeCons(ch: char, rest: seq<char>, m: Grid, ind: seq<char>)
    requires IsGrid(m, |ind|)
    requires Locate(m, ind, ch).Some? && Encode(rest, m, ind).Success?
    ensures Encode([ch] + rest, m, ind) ==
      Success(Pair(ind, Locate(m, ind, ch).value.0, Locate(m, ind, ch).value.1) + Encode(rest, m, ind).value)
  {
    var t := [ch] + rest;
    assert t[0] == ch && t[1..] == rest;
    EncodeHead(t, m, ind);
  }

  /** `encryptUsingMatrix` succeeds exactly when every character is in the
      matrix. */
  lemma {:induction false} EncodeSucceeds(text: seq<char>, m: Grid, ind: seq<char>)
    requires IsGrid(m, |ind|)
    ensures Encode(text, m, ind).Success? <==> forall i | 0 <= i < |text| :: InMatrix(m, text[i])
  {
    if |text| > 0 {
      var t := text[1..];
      EncodeSucceeds(t, m, ind);
      EncodeHead(text, m, ind);
      LocateSpec(m, ind, text[0]);
      AllInShift(text, m);
    }
  }

  lemma AllInShift(text: seq<char>, m: Grid)
    requires |text| > 0
    ensures (forall i | 0 <= i < |text| :: InMatrix(m, text[i])) <==>
      InMatrix(m, text[0]) && forall i | 0 <= i < |text[1..]| :: InMatrix(m, text[1..][i])
  {
    if forall i | 0 <= i < |text[1..]| :: InMatrix(m, text[1..][i]) {
      forall i | 1 <= i < |text|
        ensures InMatrix(m, text[i])
      {
        assert text[i] == text[1..][i - 1];
      }
    }
  }

  /** Pair `i` of `s` is the two indicators of the cell at which the
      search for `ch` stops. */
  predicate EncodesAt(s: seq<char>, m: Grid, ind: seq<char>, i: nat, ch: char)
    requires IsGrid(m, |ind|)
    requires 2 * i + 1 < |s|
  {
    var loc := Locate(m, ind, ch);
    loc.Some? && [s[2 * i], s[2 * i + 1]] == Pair(ind, loc.value.0, loc.value.1)
  }

  /** When `encryptUsingMatrix` succeeds it writes two indicators per
      character, the indicators of the character's cell. */
  lemma {:induction false} EncodeValues(text: seq<char>, m: Grid, ind: seq<char>)
    requires IsGrid(m, |ind|)
    requires Encode(text, m, ind).Success?
    ensures |Encode(text, m, ind).value| == 2 * |text|
    ensures forall i | 0 <= i < |text| :: EncodesAt(Encode(text, m, ind).value, m, ind, i, text[i])
  {
    if |text| > 0 {
      var t := text[1..];
      EncodeHead(text, m, ind);
      EncodeValues(t, m, ind);
      var s, rest := Encode(text, m, ind).value, Encode(t, m, ind).value;
      forall i | 0 <= i < |text|
        ensures EncodesAt(s, m, ind, i, text[i])
      {
        if i > 0 {
          assert text[i] == t[i - 1];
          EncodesAtShift(s, m, ind, i, text[i]);
        }
      }
    }
  }

  lemma EncodesAtShift(s: seq<char>, m: Grid, ind: seq<char>, i: nat, ch: char)
    requires IsGrid(m, |ind|)
    requires 0 < i && 2 * i + 1 < |s|
    requires EncodesAt(s[2..], m, ind, i - 1, ch)
    ensures EncodesAt(s, m, ind, i, ch)
  {
    assert s[2 * i] == s[2..][2 * (i - 1)];
    assert s[2 * i + 1] == s[2..][2 * (i - 1) + 1];
  }

  /** When `encryptUsingMatrix` throws, it throws for the first character
      that is not in the matrix. */
  lemma {:induction false} EncodeFailure(text: seq<char>, m: Grid, ind: seq<char>)
    requires IsGrid(m, |ind|)
    requires Encode(text, m, ind).Failure?
    ensures exists j | 0 <= j < |text| ::
      !InMatrix(m, text[j]) && Encode(text, m, ind).error == NotFound(text[j]) &&
      forall i | 0 <= i < j :: InMatrix(m, text[i])
  {
    var t := text[1..];
    EncodeHead(text, m, ind);
    LocateSpec(m, ind, text[0]);
    if InMatrix(m, text[0]) {
      EncodeFailure(t, m, ind);
      var j :| 0 <= j < |t| && !InMatrix(m, t[j]) && Encode(t, m, ind).error == NotFound(t[j]) &&
        forall i | 0 <= i < j :: InMatrix(m, t[i]);
      assert text[j + 1] == t[j];
      forall i | 0 <= i < j + 1
        ensures InMatrix(m, text[i])
      {
        if i > 0 {
          assert text[i] == t[i - 1];
        }
      }
    }
  }

  /** `decryptUsingMatrix` succeeds exactly when the text has even length
      and consists of indicators. */
  lemma {:induction false} DecodeSucceeds(s: seq<char>, m: Grid, ind: seq<char>)
    requires IsGrid(m, |ind|)
    ensures Decode(s, m, ind).Success? <==>
      |s| % 2 == 0 && forall i | 0 <= i < |s| :: s[i] in ind
    decreases |s|
  {
    if |s| >= 2 {
      DecodeSucceeds(s[2..], m, ind);
      DecodeStep(s, m, ind);
      AllInStep(s, ind);
      assert (|s| - 2) % 2 == |s| % 2;
    }
  }

  lemma DecodeStep(s: seq<char>, m: Grid, ind: seq<char>)
    requires IsGrid(m, |ind|)
    requires |s| >= 2
    ensures Decode(s, m, ind).Success? <==>
      s[0] in ind && s[1] in ind && Decode(s[2..], m, ind).Success?
  {
  }

  /** All elements lie in `u` exactly when the first two and the rest do. */
  lemma AllInStep(s: seq<char>, u: seq<char>)
    requires |s| >= 2
    ensures (forall i | 0 <= i < |s| :: s[i] in u) <==>
      s[0] in u && s[1] in u && forall i | 0 <= i < |s[2..]| :: s[2..][i] in u
  {
    if forall i | 0 <= i < |s[2..]| :: s[2..][i] in u {
      forall i | 2 <= i < |s|
        ensures s[i] in u
      {
        assert s[i] == s[2..][i - 2];
      }
    }
  }

  /** Pair `i` of `s` consists of indicators and names a cell that holds
      `ch`. */
  predicate NamesCell(s: seq<char>, m: Grid, ind: seq<char>, i: nat, ch: char)
    requires IsGrid(m, |ind|)
    requires 2 * i + 1 < |s|
  {
    var r, c := IndexOf(ind, s[2 * i]), IndexOf(ind, s[2 * i + 1]);
    0 <= r && 0 <= c && m[r][c] == ch
  }

  lemma NamesCellShift(s: seq<char>, m: Grid, ind: seq<char>, i: nat, ch: char)
    requires IsGrid(m, |ind|)
    requires 0 < i && 2 * i + 1 < |s|
    requires NamesCell(s[2..], m, ind, i - 1, ch)
    ensures NamesCell(s, m, ind, i, ch)
  {
    assert s[2 * i] == s[2..][2 * (i - 1)];
    assert s[2 * i + 1] == s[2..][2 * (i - 1) + 1];
  }

  /** When `decryptUsingMatrix` succeeds it writes one character per pair,
      the character in the cell the pair names. */
  lemma {:induction false} DecodeValues(s: seq<char>, m: Grid, ind: seq<char>)
    requires IsGrid(m, |ind|)
    requires Decode(s, m, ind).Success?
    ensures 2 * |Decode(s, m, ind).value| == |s|
    ensures forall i | 0 <= i < |Decode(s, m, ind).value| :: NamesCell(s, m, ind, i, Decode(s, m, ind).value[i])
    decreases |s|
  {
    if |s| >= 2 {
      var t := s[2..];
      DecodeValues(t, m, ind);
      DecodeHead(s, m, ind);
      var d, rest := Decode(s, m, ind).value, Decode(t, m, ind).value;
      forall i | 0 <= i < |d|
        ensures NamesCell(s, m, ind, i, d[i])
      {
        if i > 0 {
          assert d[i] == rest[i - 1];
          NamesCellShift(s, m, ind, i, rest[i - 1]);
        }
      }
    }
  }

  /** A successful decoding starts with the character of the first pair. */
  lemma DecodeHead(s: seq<char>, m: Grid, ind: seq<char>)
    requires IsGrid(m, |ind|)
    requires |s| >= 2 && Decode(s, m, ind).Success?
    ensures s[0] in ind && s[1] in ind
    ensures Decode(s, m, ind).value ==
      [m[IndexOf(ind, s[0])][IndexOf(ind, s[1])]] + Decode(s[2..], m, ind).value
  {
  }

  /** Decoding undoes encoding, for any matrix, as long as no indicator
      is repeated (`IndicatorsDistinct`). */
  lemma {:induction false} DecodeEncode(text: seq<char>, m: Grid, ind: seq<char>)
    requires IsGrid(m, |ind|) && Distinct(ind)
    requires Encode(text, m, ind).Success?
    ensures Decode(Encode(text, m, ind).value, m, ind) == Success(text)
  {
    if |text| > 0 {
      EncodeHead(text, m, ind);
      var (r, c) := Locate(m, ind, text[0]).value;
      var p, rest := Pair(ind, r, c), Encode(text[1..], m, ind).value;
      DecodeEncode(text[1..], m, ind);
      DecodePairOf(m, ind, r, c);
      DecodeConcat(p, rest, m, ind);
      assert [text[0]] + text[1..] == text;
    }
  }

  /** The pair of a cell decodes to the cell's character. */
  lemma DecodePairOf(m: Grid, ind: seq<char>, r: nat, c: nat)
    requires IsGrid(m, |ind|) && Distinct(ind)
    requires r < |ind| && c < |ind|
    ensures Decode(Pair(ind, r, c), m, ind) == Success([m[r][c]])
  {
    var p := Pair(ind, r, c);
    assert IndexOf(ind, p[0]) == r;
    assert IndexOf(ind, p[1]) == c;
    assert p[2..] == [];
    assert DecodePair(m, ind, p[0], p[1], true) == Success([m[r][c]]);
    JoinUnit(Success([m[r][c]]));
    assert [m[r][c]] + [] == [m[r][c]];
  }

  /** Encoding undoes decoding when no character occupies two cells, as
      in every generated square. */
  lemma {:induction false} EncodeDecode(s: seq<char>, m: Grid, ind: seq<char>)
    requires IsGrid(m, |ind|) && CellsDistinct(m, |ind|)
    requires Decode(s, m, ind).Success?
    ensures Encode(Decode(s, m, ind).value, m, ind) == Success(s)
    decreases |s|
  {
    if |s| > 0 {
      DecodeSucceeds(s, m, ind);
      DecodeHead(s, m, ind);
      var r, c := IndexOf(ind, s[0]), IndexOf(ind, s[1]);
      var ch := m[r][c];
      LocateDistinct(m, ind, r, c);
      var rest := Decode(s[2..], m, ind).value;
      EncodeDecode(s[2..], m, ind);
      EncodeCons(ch, rest, m, ind);
      assert s == Pair(ind, r, c) + s[2..];
    }
  }

  /** The generated square has no repeated character, so the two
      directions are inverse on it. */
  lemma SquareDistinct(key: seq<char>, v: Variant)
    ensures IsGrid(Square(key, v), Size(v))
    ensures CellsDistinct(Square(key, v), Size(v))
  {
    SquareShape(key, v);
    SquareInjective(key, v);
  }

  // ---------------------------------------------------------------------
  // The loops

  /** The nested search stops at the first match: no earlier row holds the
      character and no earlier column of this row does. */
  lemma {:induction false} LocateFromAt(m: Grid, ind: seq<char>, r0: nat, r: nat, c: nat, ch: char)
    requires IsGrid(m, |ind|) && r0 <= r < |ind| && c < |ind|
    requires m[r][c] == ch && forall c' | 0 <= c' < c :: m[r][c'] != ch
    requires forall r' | r0 <= r' < r :: ch !in m[r']
    ensures LocateFrom(m, ind, r0, ch) == Some((r, c))
    decreases r - r0
  {
    if r0 < r {
      LocateFromAt(m, ind, r0 + 1, r, c, ch);
    } else {
      assert ch in m[r];
    }
  }

  /** One more character found in the matrix: its pair is appended. */
  lemma EncodeStepFound(text: seq<char>, i: nat, m: Grid, ind: seq<char>, out: seq<char>)
    requires IsGrid(m, |ind|) && i < |text|
    requires Encode(text[..i], m, ind) == Success(out)
    requires Locate(m, ind, text[i]).Some?
    ensures Encode(text[..i + 1], m, ind) ==
      Success(out + Pair(ind, Locate(m, ind, text[i]).value.0, Locate(m, ind, text[i]).value.1))
  {
    TakeOneMore(text, i);
    EncodeAppend(text[..i], text[i], m, ind, out);
  }

  lemma EncodeAppend(a: seq<char>, ch: char, m: Grid, ind: seq<char>, out: seq<char>)
    requires IsGrid(m, |ind|) && Locate(m, ind, ch).Some?
    requires Encode(a, m, ind) == Success(out)
    ensures Encode(a + [ch], m, ind) ==
      Success(out + Pair(ind, Locate(m, ind, ch).value.0, Locate(m, ind, ch).value.1))
  {
    EncodeSingle(ch, m, ind);
    EncodeConcat(a, [ch], m, ind);
  }

  lemma EncodeSingle(ch: char, m: Grid, ind: seq<char>)
    requires IsGrid(m, |ind|) && Locate(m, ind, ch).Some?
    ensures Encode([ch], m, ind) == Success(Pair(ind, Locate(m, ind, ch).value.0, Locate(m, ind, ch).value.1))
  {
    var loc := Locate(m, ind, ch).value;
    var pair := Pair(ind, loc.0, loc.1);
    assert [ch][1..] == [];
    assert Encode([ch], m, ind) == Join(Success(pair), Success([]));
    JoinRightUnit(Success(pair));
  }

  /** The first cell of the row-major search holding a character is the
      one `Locate` finds. */
  lemma LocateFirst(m: Grid, ind: seq<char>, r: nat, c: nat, ch: char)
    requires IsGrid(m, |ind|) && r < |ind| && c < |ind|
    requires m[r][c] == ch && forall c' | 0 <= c' < c :: m[r][c'] != ch
    requires forall r' | 0 <= r' < r :: ch !in m[r']
    ensures Locate(m, ind, ch) == Some((r, c))
  {
    LocateFromAt(m, ind, 0, r, c, ch);
  }

  lemma EncodeStepMissing(text: seq<char>, i: nat, m: Grid, ind: seq<char>)
    requires IsGrid(m, |ind|) && i < |text|
    requires Encode(text[..i], m, ind).Success?
    requires forall r | 0 <= r < |ind| :: text[i] !in m[r]
    ensures Encode(text, m, ind) == Failure(NotFound(text[i]))
  {
    TakeDrop(text, i);
    EncodeConcat(text[..i], text[i..], m, ind);
    LocateFromSpec(m, ind, 0, text[i]);
    EncodeHead(text[i..], m, ind);
  }

  /** The search of `encryptUsingMatrix` for one character: rows, then
      columns, stopping at the first cell that holds it (the `found` flag
      and the two `break`s). */
  method FindCell(matrix: Grid, indicators: seq<char>, ch: char) returns (found: bool, row: nat, col: nat)
    requires IsGrid(matrix, |indicators|)
    ensures found ==> Locate(matrix, indicators, ch) == Some((row, col))
    ensures !found ==> forall r | 0 <= r < |indicators| :: ch !in matrix[r]
  {
    var size := |indicators|;
    found, row, col := false, 0, 0;
    while row < size
      invariant 0 <= row <= size && !found
      invariant forall r' | 0 <= r' < row :: ch !in matrix[r']
    {
      col := 0;
      while col < size
        invariant 0 <= col <= size && !found
        invariant forall c' | 0 <= c' < col :: matrix[row][c'] != ch
      {
        if matrix[row][col] == ch {
          LocateFirst(matrix, indicators, row, col, ch);
          found := true;
          break;
        }
        col := col + 1;
      }
      if found {
        break;
      }
      assert ch !in matrix[row];
      row := row + 1;
    }
  }

  /** `encryptUsingMatrix`: for each character, the cell search,
      appending `indicators[row] + indicators[col]`, or the "not found"
      error. */
  method EncryptUsingMatrix(plainText: seq<char>, matrix: Grid, v: Variant) returns (r: Result<seq<char>>)
    requires IsGrid(matrix, Size(v))
    ensures r == Encode(plainText, matrix, Indicators(v))
  {
    var indicators := Indicators(v);
    var encryptedText := [];
    for i := 0 to |plainText|
      invariant Encode(plainText[..i], matrix, indicators) == Success(encryptedText)
    {
      var ch := plainText[i];
      var found, row, col := FindCell(matrix, indicators, ch);
      if !found {
        EncodeStepMissing(plainText, i, matrix, indicators);
        return Failure(NotFound(ch));
      }
      EncodeStepFound(plainText, i, matrix, indicators, encryptedText);
      encryptedText := encryptedText + [indicators[row], indicators[col]];
    }
    assert plainText[..|plainText|] == plainText;
    return Success(encryptedText);
  }

  /** A text whose every character has a cell substitutes into two
      indicators per character, all of them indicators. */
  lemma SubstitutionFacts(text: seq<char>, m: Grid, ind: seq<char>)
    requires IsGrid(m, |ind|) && Distinct(ind)
    requires forall i | 0 <= i < |text| :: InMatrix(m, text[i])
    ensures Encode(text, m, ind).Success?
    ensures |Encode(text, m, ind).value| == 2 * |text|
    ensures forall i | 0 <= i < |Encode(text, m, ind).value| :: Encode(text, m, ind).value[i] in ind
  {
    EncodeSucceeds(text, m, ind);
    EncodeValues(text, m, ind);
    DecodeEncode(text, m, ind);
    DecodeSucceeds(Encode(text, m, ind).value, m, ind);
  }

  /** Two more indicators, both valid: their cell is appended. */
  lemma DecodeStepFound(s: seq<char>, i: nat, m: Grid, ind: seq<char>, out: seq<char>)
    requires IsGrid(m, |ind|) && i + 1 < |s| && i % 2 == 0
    requires Decode(s[..i], m, ind) == Success(out)
    requires IndexOf(ind, s[i]) >= 0 && IndexOf(ind, s[i + 1]) >= 0
    ensures Decode(s[..i + 2], m, ind) == Success(out + [m[IndexOf(ind, s[i])][IndexOf(ind, s[i + 1])]])
  {
    TakeTwoMore(s, i);
    DecodeAppendPair(s[..i], s[i], s[i + 1], m, ind, out);
  }

  lemma DecodeAppendPair(a: seq<char>, x: char, y: char, m: Grid, ind: seq<char>, out: seq<char>)
    requires IsGrid(m, |ind|) && |a| % 2 == 0
    requires Decode(a, m, ind) == Success(out)
    requires IndexOf(ind, x) >= 0 && IndexOf(ind, y) >= 0
    ensures Decode(a + [x, y], m, ind) == Success(out + [m[IndexOf(ind, x)][IndexOf(ind, y)]])
  {
    var pair := [x, y];
    DecodeConcat(a, pair, m, ind);
    assert pair[2..] == [];
    var cell := DecodePair(m, ind, x, y, true);
    assert cell == Success([m[IndexOf(ind, x)][IndexOf(ind, y)]]);
    assert Decode(pair, m, ind) == Join(cell, Success([]));
    JoinRightUnit(cell);
  }

  /** An invalid or missing indicator: the whole text fails with it. */
  lemma DecodeStepInvalid(s: seq<char>, i: nat, m: Grid, ind: seq<char>)
    requires IsGrid(m, |ind|) && i < |s| && i % 2 == 0
    requires Decode(s[..i], m, ind).Success?
    requires IndexOf(ind, s[i]) == -1 || i + 1 == |s| || IndexOf(ind, s[i + 1]) == -1
    ensures Decode(s, m, ind) ==
      Failure(InvalidIndicators(s[i], if i + 1 < |s| then Some(s[i + 1]) else None))
  {
    var t := s[i..];
    TakeDrop(s, i);
    assert t[0] == s[i] && (i + 1 < |s| ==> t[1] == s[i + 1]);
    DecodeSplitInvalid(s[..i], t, m, ind);
  }

  lemma DecodeSplitInvalid(a: seq<char>, t: seq<char>, m: Grid, ind: seq<char>)
    requires IsGrid(m, |ind|) && |a| % 2 == 0 && |t| > 0
    requires Decode(a, m, ind).Success?
    requires IndexOf(ind, t[0]) == -1 || |t| == 1 || IndexOf(ind, t[1]) == -1
    ensures Decode(a + t, m, ind) == Failure(InvalidIndicators(t[0], if 1 < |t| then Some(t[1]) else None))
  {
    DecodeConcat(a, t, m, ind);
    DecodeHeadInvalid(t, m, ind);
  }

  /** A text whose first pair is invalid fails on that pair. */
  lemma DecodeHeadInvalid(t: seq<char>, m: Grid, ind: seq<char>)
    requires IsGrid(m, |ind|) && |t| > 0
    requires IndexOf(ind, t[0]) == -1 || |t| == 1 || IndexOf(ind, t[1]) == -1
    ensures Decode(t, m, ind) == Failure(InvalidIndicators(t[0], if 1 < |t| then Some(t[1]) else None))
  {
  }

  /** `decryptUsingMatrix`: pairs of indicators looked up with `indexOf`,
      the "invalid indicators" error when either is missing (the second
      one is `undefined` past the end of a text of odd length). */
  method DecryptUsingMatrix(substitutionText: seq<char>, matrix: Grid, v: Variant) returns (r: Result<seq<char>>)
    requires IsGrid(matrix, Size(v))
    ensures r == Decode(substitutionText, matrix, Indicators(v))
  {
    var s := substitutionText;
    var indicators := Indicators(v);
    var decryptedText := [];
    var i := 0;
    while i < |s|
      invariant 0 <= i <= |s| && i % 2 == 0
      invariant Decode(s[..i], matrix, indicators) == Success(decryptedText)
    {
      var rowIndicator := s[i];
      var hasCol := i + 1 < |s|;
      var row := IndexOf(indicators, rowIndicator);
      var col := if hasCol then IndexOf(indicators, s[i + 1]) else -1;
      if row == -1 || col == -1 {
        DecodeStepInvalid(s, i, matrix, indicators);
        return Failure(InvalidIndicators(rowIndicator, if hasCol then Some(s[i + 1]) else None));
      }
      DecodeStepFound(s, i, matrix, indicators, decryptedText);
      decryptedText := decryptedText + [matrix[row][col]];
      i := i + 2;
    }
    assert s[..|s|] == s;
    return Success(decryptedText);
  }
}
