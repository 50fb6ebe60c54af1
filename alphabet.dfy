/** The constants both engine files share: the two cipher variants, their
    indicator alphabets (`indicatorsMap`), the letter and digit strings the
    square is built from, and the character tables of input normalisation
    (upper-casing, the fixed accent table and the `[^A-Z0-9]` strip). */
module Alphabet {
  import opened Seqs

  datatype Variant = ADFGX | ADFGVX

  /** `indicatorsMap[variant]`: the row and column labels of the square. */
  function Indicators(v: Variant): seq<char> {
    if v == ADFGX then "ADFGX" else "ADFGVX"
  }

  /** The side of the square: 5 for ADFGX, 6 for ADFGVX. */
  function Size(v: Variant): (n: nat)
    ensures n == |Indicators(v)|
    ensures n == (if v == ADFGX then 5 else 6)
  {
    |Indicators(v)|
  }

  const Letters: seq<char> := "ABCDEFGHIJKLMNOPQRSTUVWXYZ"
  const Digits: seq<char> := "0123456789"

  predicate IsLetter(c: char) { 'A' <= c <= 'Z' }
  predicate IsDigit(c: char) { '0' <= c <= '9' }
  predicate IsAlnum(c: char) { IsLetter(c) || IsDigit(c) }

  /** The character of digit `d`, as `d.toString()` writes it. */
  function DigitChar(d: nat): (c: char)
    requires d < 10
    ensures IsDigit(c) && c as int - '0' as int == d
  {
    (d + '0' as int) as char
  }

  /** The value of a digit character, as `parseInt` reads it. */
  function DigitValue(c: char): (d: nat)
    requires IsDigit(c)
    ensures d < 10 && DigitChar(d) == c
  {
    c as int - '0' as int
  }

  /** `toUpperCase` on one character, restricted to ASCII letters and to
      the lower-case forms of the letters of the accent table. */
  function ToUpper(c: char): char {
    if 'a' <= c <= 'z' then (c as int - 32) as char
    else match c
      case 'á' => 'Á' case 'à' => 'À' case 'â' => 'Â' case 'ä' => 'Ä'
      case 'č' => 'Č' case 'ď' => 'Ď'
      case 'é' => 'É' case 'è' => 'È' case 'ê' => 'Ê' case 'ë' => 'Ë' case 'ě' => 'Ě'
      case 'í' => 'Í' case 'ì' => 'Ì' case 'î' => 'Î' case 'ï' => 'Ï'
      case 'ň' => 'Ň'
      case 'ó' => 'Ó' case 'ò' => 'Ò' case 'ô' => 'Ô' case 'ö' => 'Ö'
      case 'ř' => 'Ř' case 'š' => 'Š' case 'ť' => 'Ť'
      case 'ú' => 'Ú' case 'ù' => 'Ù' case 'û' => 'Û' case 'ü' => 'Ü'
      case 'ý' => 'Ý' case 'ž' => 'Ž'
      case _ => c
  }

  /** The fixed accent table: the thirteen `.replace(/[ÁÀÂÄ]/g, "A")` ...
      `.replace(/[Ž]/g, "Z")` passes. Their classes are disjoint and no
      pass produces a character a later pass rewrites, so together they act
      as this one per-character map. */
  function Transliterate(c: char): char {
    match c
      case 'Á' | 'À' | 'Â' | 'Ä' => 'A'
      case 'Č' => 'C'
      case 'Ď' => 'D'
      case 'É' | 'È' | 'Ê' | 'Ë' | 'Ě' => 'E'
      case 'Í' | 'Ì' | 'Î' | 'Ï' => 'I'
      case 'Ň' => 'N'
      case 'Ó' | 'Ò' | 'Ô' | 'Ö' => 'O'
      case 'Ř' => 'R'
      case 'Š' => 'S'
      case 'Ť' => 'T'
      case 'Ú' | 'Ù' | 'Û' | 'Ü' => 'U'
      case 'Ý' => 'Y'
      case 'Ž' => 'Z'
      case _ => c
  }

  /** The per-character part of the normalisation chain: upper-case, then
      the accent table. */
  function Fold(c: char): char {
    Transliterate(ToUpper(c))
  }

  /** `text.toUpperCase().replace(...accent table...).replace(/[^A-Z0-9]/g, "")`,
      the chain both engine files apply. */
  function Clean(text: seq<char>): seq<char> {
    Filter(Map(Map(text, ToUpper), Transliterate), IsAlnum)
  }

  /** `s.replace(/a/g, b)` for one character `a`. */
  function ReplaceChar(s: seq<char>, a: char, b: char): (r: seq<char>)
    ensures |r| == |s|
    ensures forall i | 0 <= i < |s| :: r[i] == (if s[i] == a then b else s[i])
  {
    Map(s, c => if c == a then b else c)
  }

  /** Strictly increasing character codes. */
  predicate Ascending(s: seq<char>) {
    forall i | 0 <= i < |s| - 1 :: s[i] < s[i + 1]
  }

  lemma {:induction false} AscendingDistinct(s: seq<char>)
    requires Ascending(s)
    ensures Distinct(s)
    ensures forall i, j | 0 <= i < j < |s| :: s[i] < s[j]
    ensures forall x | x in s :: s[0] <= x <= s[|s| - 1]
  {
    if |s| > 1 {
      AscendingDistinct(s[1..]);
      forall i, j | 0 <= i < j < |s|
        ensures s[i] < s[j]
      {
        if i > 0 {
          assert s[i] == s[1..][i - 1] && s[j] == s[1..][j - 1];
        } else if j > 1 {
          assert s[1] < s[j] by { assert s[1] == s[1..][0] && s[j] == s[1..][j - 1]; }
        }
      }
    }
  }

  /** No indicator labels two rows. */
  lemma IndicatorsDistinct(v: Variant)
    ensures Distinct(Indicators(v))
  {
    AscendingDistinct(Indicators(v));
  }

  /** Upper-case letters and digits are left alone by the fold. */
  lemma FoldFixesAlnum(c: char)
    requires IsAlnum(c)
    ensures Fold(c) == c
  {
  }

  /** Only `x` and `X` fold to `X`. */
  lemma FoldToX(c: char)
    ensures Fold(c) == 'X' <==> c == 'x' || c == 'X'
  {
  }

  /** Only digits fold to digits: no letter, accented letter or other
      character becomes one. */
  lemma FoldDigit(c: char)
    ensures IsDigit(Fold(c)) <==> IsDigit(c)
  {
  }

  /** What `Clean` keeps of one character. */
  function CleanChar(c: char): seq<char> {
    if IsAlnum(Fold(c)) then [Fold(c)] else []
  }

  /** `Clean` works character by character: it keeps the folded form of a
      character exactly when that form is a capital letter or a digit. */
  lemma {:induction false} CleanPerChar(text: seq<char>)
    ensures Clean(text) == FlatMap(text, CleanChar)
  {
    if |text| > 0 {
      var m := Map(Map(text, ToUpper), Transliterate);
      assert m[0] == Fold(text[0]);
      assert m[1..] == Map(Map(text[1..], ToUpper), Transliterate);
      assert Clean(text) == CleanChar(text[0]) + Clean(text[1..]);
      CleanPerChar(text[1..]);
    }
  }

  /** A text of capital letters and digits is already clean. */
  lemma CleanFixes(text: seq<char>)
    requires forall i | 0 <= i < |text| :: IsAlnum(text[i])
    ensures Clean(text) == text
  {
    var m := Map(Map(text, ToUpper), Transliterate);
    forall i | 0 <= i < |text|
      ensures m[i] == text[i]
    {
      FoldFixesAlnum(text[i]);
    }
    assert m == text;
    FilterAll(text, IsAlnum);
  }

  /** Everything `Clean` returns is a capital letter or a digit. */
  lemma CleanAlphabet(text: seq<char>)
    ensures forall i | 0 <= i < |Clean(text)| :: IsAlnum(Clean(text)[i])
  {
    FilterMembers(Map(Map(text, ToUpper), Transliterate), IsAlnum);
    assert forall i | 0 <= i < |Clean(text)| :: Clean(text)[i] in Clean(text);
  }

  predicate DigitFree(s: seq<char>) {
    forall i | 0 <= i < |s| :: !IsDigit(s[i])
  }

  lemma DigitFreeConcat(a: seq<char>, b: seq<char>)
    ensures DigitFree(a + b) <==> DigitFree(a) && DigitFree(b)
  {
    if DigitFree(a) && DigitFree(b) {
      forall i | 0 <= i < |a + b|
        ensures !IsDigit((a + b)[i])
      {
        if i >= |a| {
          assert (a + b)[i] == b[i - |a|];
        }
      }
    }
    if DigitFree(a + b) {
      forall i | 0 <= i < |a|
        ensures !IsDigit(a[i])
      {
        assert (a + b)[i] == a[i];
      }
      forall i | 0 <= i < |b|
        ensures !IsDigit(b[i])
      {
        assert (a + b)[|a| + i] == b[i];
      }
    }
  }

  /** `Clean` neither removes nor creates digits: its result has one exactly
      when the text has one. */
  lemma {:induction false} CleanDigitFree(text: seq<char>)
    ensures DigitFree(Clean(text)) <==> DigitFree(text)
  {
    CleanPerChar(text);
    if |text| > 0 {
      CleanDigitFree(text[1..]);
      CleanPerChar(text[1..]);
      FoldDigit(text[0]);
      DigitFreeConcat(CleanChar(text[0]), Clean(text[1..]));
      DigitFreeConcat([text[0]], text[1..]);
      assert text == [text[0]] + text[1..];
    }
  }
}
