/** The placeholder layer of dist/app.js: spaces and digits are spelled
    out as letter words before normalisation strips them
    (`applyPlaceholders`, `applySpacePlaceholder`), and the words are
    turned back after decryption (`revertPlaceholders`). Every word begins
    with `X` and ends with `Y`, which is what makes the reversal exact on
    texts that do not themselves contain an `X`. */
module Placeholders {
  import opened Seqs
  import opened Alphabet

  const SpacePlaceholder: seq<char> := "XMZRY"

  const NumbersPlaceholder: seq<seq<char>> :=
    ["XZEROY", "XONEY", "XTWOY", "XTHREEY", "XFOURY", "XFIVEY", "XSIXY", "XSEVENY", "XEIGHTY", "XNINEY"]

  /** `.replace(/ /g, spacePlaceholder)`, one character at a time. */
  function SpaceToken(c: char): seq<char> {
    if c == ' ' then SpacePlaceholder else [c]
  }

  /** `.replace(/\d/g, (digit) => numbersPlaceholder[parseInt(digit)])`,
      one character at a time. */
  function DigitToken(c: char): seq<char> {
    if IsDigit(c) then NumbersPlaceholder[DigitValue(c)] else [c]
  }

  function ApplySpacePlaceholder(text: seq<char>): seq<char> {
    FlatMap(text, SpaceToken)
  }

  /** The space pass, then the digit pass. */
  function ApplyPlaceholders(text: seq<char>): seq<char> {
    FlatMap(ApplySpacePlaceholder(text), DigitToken)
  }

  /** What both passes together do to one character. */
  function Token(c: char): seq<char> {
    if c == ' ' then SpacePlaceholder
    else if IsDigit(c) then NumbersPlaceholder[DigitValue(c)]
    else [c]
  }

  lemma {:induction false} FlatMapExt(s: seq<char>, f: char -> seq<char>, g: char -> seq<char>)
    requires forall i | 0 <= i < |s| :: f(s[i]) == g(s[i])
    ensures FlatMap(s, f) == FlatMap(s, g)
  {
    if |s| > 0 {
      FlatMapExt(s[1..], f, g);
    }
  }

  /** The space placeholder has no digit, so the digit pass leaves it
      alone, and the two passes act as one per-character map. */
  lemma {:induction false} ApplyPlaceholdersTokens(text: seq<char>)
    ensures ApplyPlaceholders(text) == FlatMap(text, Token)
  {
    if |text| > 0 {
      ApplyPlaceholdersTokens(text[1..]);
      var c := text[0];
      FlatMapConcat(SpaceToken(c), ApplySpacePlaceholder(text[1..]), DigitToken);
      if c == ' ' {
        SpaceWordDigitFree();
      } else {
        assert FlatMap([c], DigitToken) == DigitToken(c) + FlatMap([], DigitToken);
      }
    }
  }

  lemma SpaceWordDigitFree()
    ensures FlatMap(SpacePlaceholder, DigitToken) == SpacePlaceholder
  {
    var s := SpacePlaceholder;
    assert s[1..][1..][1..][1..][1..] == [];
  }

  // ---------------------------------------------------------------------
  // revertPlaceholders

  /** The pattern of revert pass `i`: first the space word, then the ten
      digit words in index order, as the `forEach` visits them. */
  function PassPattern(i: nat): seq<char>
    requires i < 11
  {
    if i == 0 then SpacePlaceholder else NumbersPlaceholder[i - 1]
  }

  /** The character pass `i` writes: a space, or `index.toString()`. */
  function PassChar(i: nat): char
    requires i < 11
  {
    if i == 0 then ' ' else DigitChar(i - 1)
  }

  /** The text after the first `i` revert passes. */
  function RevertUpTo(text: seq<char>, i: nat): seq<char>
    requires i <= 11
  {
    if i == 0 then text
    else ReplaceAll(RevertUpTo(text, i - 1), PassPattern(i - 1), [PassChar(i - 1)])
  }

  /** What `revertPlaceholders(text)` returns. */
  function Reverted(text: seq<char>): seq<char> {
    RevertUpTo(text, 11)
  }

  /** `revertPlaceholders`: `result` replaced in place, the space word
      first, then each digit word in turn in the `forEach`. */
  method RevertPlaceholders(text: seq<char>) returns (result: seq<char>)
    ensures result == Reverted(text)
  {
    result := text;
    result := ReplaceAll(result, SpacePlaceholder, " ");
    for index := 0 to |NumbersPlaceholder|
      invariant result == RevertUpTo(text, index + 1)
    {
      result := ReplaceAll(result, NumbersPlaceholder[index], [DigitChar(index)]);
    }
  }

  // ---------------------------------------------------------------------
  // The words

  /** The shape every placeholder word has: `X`, then letters among which
      `Y` does not occur and any `X` is followed by `Y`, then a final `Y`. */
  predicate Word(t: seq<char>) {
    |t| >= 2 && t[0] == 'X' && t[|t| - 1] == 'Y' &&
    (forall i | 0 < i < |t| - 1 :: t[i] != 'Y') &&
    (forall i | 0 < i < |t| - 1 :: XFollowed(t, i))
  }

  /** An `X` at `i` is followed by `Y`. */
  predicate XFollowed(t: seq<char>, i: nat)
    requires i + 1 < |t|
  {
    t[i] == 'X' ==> t[i + 1] == 'Y'
  }

  /** A word that can be searched for: its second character is not `Y`, so
      no `X` inside another word starts a match. */
  predicate Pattern(t: seq<char>) {
    Word(t) && t[1] != 'Y'
  }

  lemma PassPatterns()
    ensures forall i | 0 <= i < 11 :: Pattern(PassPattern(i))
  {
    assert Pattern("XMZRY");
    assert Pattern("XZEROY");
    assert Pattern("XONEY");
    assert Pattern("XTWOY");
    assert Pattern("XTHREEY");
    assert Pattern("XFOURY");
    assert Pattern("XFIVEY");
    assert Pattern("XSIXY");
    assert Pattern("XSEVENY");
    assert Pattern("XEIGHTY");
    assert Pattern("XNINEY");
  }

  /** The words are made of capital letters other than `J`, so the
      normalisation that follows them keeps them whole. */
  lemma WordLetters()
    ensures forall i, j | 0 <= i < 11 && 0 <= j < |PassPattern(i)| ::
      IsLetter(PassPattern(i)[j]) && PassPattern(i)[j] != 'J'
  {
  }

  /** Distinct passes search for distinct words. */
  lemma PassPatternsDistinct(i: nat, j: nat)
    requires i < 11 && j < 11 && i != j
    ensures PassPattern(i) != PassPattern(j)
  {
    var a, b := PassPattern(i), PassPattern(j);
    assert |a| != |b| || a[1] != b[1] || a[2] != b[2];
  }

  /** Two distinct words: neither begins the other followed by anything. */
  lemma WordPrefix(t: seq<char>, w: seq<char>, pat: seq<char>)
    requires Word(t) && Word(pat) && t != pat
    ensures |t + w| < |pat| || (t + w)[..|pat|] != pat
  {
    var s := t + w;
    if |s| < |pat| {
    } else if |pat| <= |t| {
      assert s[..|pat|] == t[..|pat|];
      if |pat| < |t| {
        assert t[|pat| - 1] != 'Y';
      } else {
        assert t[..|pat|] == t;
      }
    } else {
      assert s[|t| - 1] == 'Y';
      assert pat[|t| - 1] != 'Y';
    }
  }

  /** Inside a word other than the pattern no match starts. */
  lemma {:induction false} ReplaceSkip(t: seq<char>, j: nat, w: seq<char>, pat: seq<char>, rep: seq<char>)
    requires Word(t) && Pattern(pat) && t != pat && 0 < j <= |t|
    ensures ReplaceAll(t[j..] + w, pat, rep) == t[j..] + ReplaceAll(w, pat, rep)
    decreases |t| - j
  {
    var s := t[j..] + w;
    if j < |t| {
      ReplaceSkip(t, j + 1, w, pat, rep);
      if |s| >= |pat| {
        assert s[..|pat|][0] == t[j];
        if j + 1 < |t| {
          assert XFollowed(t, j);
          assert s[..|pat|][1] == t[j + 1];
        }
      }
      ReplaceHeadKept(s, pat, rep);
      assert s[1..] == t[j + 1..] + w;
    } else {
      assert t[j..] == [];
      assert s == w;
    }
  }

  lemma ReplaceShort(w: seq<char>, pat: seq<char>, rep: seq<char>)
    requires |pat| > 0 && |w| < |pat|
    ensures ReplaceAll(w, pat, rep) == w
  {
  }

  /** No match at the head of `s`: its first element is kept. */
  lemma ReplaceHeadKept(s: seq<char>, pat: seq<char>, rep: seq<char>)
    requires |pat| > 0 && |s| > 0
    requires |s| < |pat| || s[..|pat|] != pat
    ensures ReplaceAll(s, pat, rep) == [s[0]] + ReplaceAll(s[1..], pat, rep)
  {
    if |s| < |pat| {
      ReplaceShort(s[1..], pat, rep);
    }
  }

  lemma ReplaceTokenPattern(w: seq<char>, pat: seq<char>, rep: seq<char>)
    requires |pat| > 0
    ensures ReplaceAll(pat + w, pat, rep) == rep + ReplaceAll(w, pat, rep)
  {
    var s := pat + w;
    assert s[..|pat|] == pat && s[|pat|..] == w;
  }

  lemma ReplaceTokenSingle(c: char, w: seq<char>, pat: seq<char>, rep: seq<char>)
    requires c != 'X' && Pattern(pat)
    ensures ReplaceAll([c] + w, pat, rep) == [c] + ReplaceAll(w, pat, rep)
  {
    var s := [c] + w;
    if |s| >= |pat| {
      assert s[..|pat|][0] == c;
    }
    ReplaceHeadKept(s, pat, rep);
    assert s[1..] == w;
  }

  lemma ReplaceTokenWord(t: seq<char>, w: seq<char>, pat: seq<char>, rep: seq<char>)
    requires Word(t) && Pattern(pat) && t != pat
    ensures ReplaceAll(t + w, pat, rep) == t + ReplaceAll(w, pat, rep)
  {
    WordPrefix(t, w, pat);
    ReplaceHeadKept(t + w, pat, rep);
    ReplaceSkip(t, 1, w, pat, rep);
    HeadThenRest(t, w, pat, rep);
  }

  /** A kept head followed by a kept rest keeps the whole prefix `t`. */
  lemma HeadThenRest(t: seq<char>, w: seq<char>, pat: seq<char>, rep: seq<char>)
    requires |pat| > 0 && |t| > 0
    requires ReplaceAll(t + w, pat, rep) == [(t + w)[0]] + ReplaceAll((t + w)[1..], pat, rep)
    requires ReplaceAll(t[1..] + w, pat, rep) == t[1..] + ReplaceAll(w, pat, rep)
    ensures ReplaceAll(t + w, pat, rep) == t + ReplaceAll(w, pat, rep)
  {
    assert (t + w)[1..] == t[1..] + w;
    assert t == [t[0]] + t[1..];
  }

  /** One token of the text: the pattern itself is replaced, any other
      word or a single character other than `X` is kept. */
  lemma ReplaceToken(t: seq<char>, w: seq<char>, pat: seq<char>, rep: seq<char>)
    requires Word(t) || (|t| == 1 && t[0] != 'X')
    requires Pattern(pat)
    ensures ReplaceAll(t + w, pat, rep) == (if t == pat then rep else t) + ReplaceAll(w, pat, rep)
  {
    if t == pat {
      ReplaceTokenPattern(w, pat, rep);
    } else if |t| == 1 && t[0] != 'X' {
      ReplaceTokenSingle(t[0], w, pat, rep);
      assert t == [t[0]];
    } else {
      ReplaceTokenWord(t, w, pat, rep);
    }
  }

  /** Replacing a word in a text made of tokens replaces exactly the
      tokens equal to it. */
  lemma {:induction false} ReplaceTokens(q: seq<char>, f: char -> seq<char>, pat: seq<char>, rep: seq<char>)
    requires forall i | 0 <= i < |q| :: Word(f(q[i])) || (|f(q[i])| == 1 && f(q[i])[0] != 'X')
    requires Pattern(pat)
    ensures ReplaceAll(FlatMap(q, f), pat, rep) == FlatMap(q, c => if f(c) == pat then rep else f(c))
  {
    if |q| > 0 {
      ReplaceTokens(q[1..], f, pat, rep);
      ReplaceToken(f(q[0]), FlatMap(q[1..], f), pat, rep);
    }
  }

  // ---------------------------------------------------------------------
  // The reversal is exact on plain texts

  /** Capital letters other than `X`, spaces and digits. */
  predicate PlainChar(c: char) {
    c == ' ' || IsDigit(c) || (IsLetter(c) && c != 'X')
  }

  /** Whether `c` was spelled out: a space always, a digit when the digit
      pass ran (ADFGX). */
  predicate Spelled(digits: bool, c: char) {
    c == ' ' || (digits && IsDigit(c))
  }

  /** The pass that turns the word of a spelled character back. */
  function PassOf(c: char): nat
    requires c == ' ' || IsDigit(c)
  {
    if c == ' ' then 0 else DigitValue(c) + 1
  }

  lemma PassOfWord(c: char)
    requires c == ' ' || IsDigit(c)
    ensures PassOf(c) < 11 && Token(c) == PassPattern(PassOf(c)) && PassChar(PassOf(c)) == c
  {
  }

  /** The token of `c` after the first `k` revert passes: its word until
      the pass for it has run, the character itself from then on. */
  function TokenAfter(digits: bool, k: nat): char -> seq<char> {
    c => if Spelled(digits, c) && PassOf(c) >= k then Token(c) else [c]
  }

  lemma TokensBefore(p: seq<char>)
    ensures FlatMap(p, Token) == FlatMap(p, TokenAfter(true, 0))
    ensures FlatMap(p, SpaceToken) == FlatMap(p, TokenAfter(false, 0))
  {
    FlatMapExt(p, Token, TokenAfter(true, 0));
    FlatMapExt(p, SpaceToken, TokenAfter(false, 0));
  }

  lemma {:induction false} RevertPass(p: seq<char>, digits: bool, k: nat)
    requires k < 11
    requires forall i | 0 <= i < |p| :: PlainChar(p[i])
    ensures ReplaceAll(FlatMap(p, TokenAfter(digits, k)), PassPattern(k), [PassChar(k)]) == FlatMap(p, TokenAfter(digits, k + 1))
  {
    var f, pat, rep := TokenAfter(digits, k), PassPattern(k), [PassChar(k)];
    forall i | 0 <= i < |p|
      ensures Word(f(p[i])) || (|f(p[i])| == 1 && f(p[i])[0] != 'X')
    {
      TokenShape(digits, k, p[i]);
    }
    PassPatterns();
    ReplaceTokens(p, f, pat, rep);
    var g := c => if f(c) == pat then rep else f(c);
    forall i | 0 <= i < |p|
      ensures g(p[i]) == TokenAfter(digits, k + 1)(p[i])
    {
      TokenPass(digits, k, p[i]);
    }
    FlatMapExt(p, g, TokenAfter(digits, k + 1));
  }

  /** Before pass `k` every token is a placeholder word or a single
      character other than `X`. */
  lemma TokenShape(digits: bool, k: nat, c: char)
    requires k < 11 && PlainChar(c)
    ensures Word(TokenAfter(digits, k)(c)) || (|TokenAfter(digits, k)(c)| == 1 && TokenAfter(digits, k)(c)[0] != 'X')
  {
    if Spelled(digits, c) && PassOf(c) >= k {
      PassOfWord(c);
      PassPatterns();
    }
  }

  /** Pass `k` turns exactly the tokens of the characters it handles back
      into those characters. */
  lemma TokenPass(digits: bool, k: nat, c: char)
    requires k < 11 && PlainChar(c)
    ensures (if TokenAfter(digits, k)(c) == PassPattern(k) then [PassChar(k)] else TokenAfter(digits, k)(c))
      == TokenAfter(digits, k + 1)(c)
  {
    if Spelled(digits, c) {
      PassOfWord(c);
      if PassOf(c) > k {
        PassPatternsDistinct(PassOf(c), k);
      }
    } else {
      assert |PassPattern(k)| > 1;
    }
  }

  lemma {:induction false} RevertUpToTokens(p: seq<char>, digits: bool, k: nat)
    requires k <= 11
    requires forall i | 0 <= i < |p| :: PlainChar(p[i])
    ensures RevertUpTo(FlatMap(p, TokenAfter(digits, 0)), k) == FlatMap(p, TokenAfter(digits, k))
  {
    if k > 0 {
      RevertUpToTokens(p, digits, k - 1);
      RevertPass(p, digits, k - 1);
    }
  }

  /** After all eleven passes every token is its character again. */
  lemma {:induction false} FlatMapSingles(p: seq<char>, digits: bool)
    requires forall i | 0 <= i < |p| :: PlainChar(p[i])
    ensures FlatMap(p, TokenAfter(digits, 11)) == p
  {
    if |p| > 0 {
      FlatMapSingles(p[1..], digits);
      assert p == [p[0]] + p[1..];
    }
  }

  /** `revertPlaceholders` undoes `applyPlaceholders` on every text of
      capital letters other than `X`, spaces and digits. */
  lemma RevertApply(p: seq<char>)
    requires forall i | 0 <= i < |p| :: PlainChar(p[i])
    ensures Reverted(ApplyPlaceholders(p)) == p
  {
    ApplyPlaceholdersTokens(p);
    TokensBefore(p);
    RevertUpToTokens(p, true, 11);
    FlatMapSingles(p, true);
  }

  /** ... and `applySpacePlaceholder`: the digits stay digits throughout,
      since no digit word occurs in such a text. */
  lemma RevertApplySpace(p: seq<char>)
    requires forall i | 0 <= i < |p| :: PlainChar(p[i])
    ensures Reverted(ApplySpacePlaceholder(p)) == p
  {
    TokensBefore(p);
    RevertUpToTokens(p, false, 11);
    FlatMapSingles(p, false);
  }

  /** A text without spaces is left alone by the space pass. */
  lemma {:induction false} ApplySpaceNoSpace(t: seq<char>)
    requires forall i | 0 <= i < |t| :: t[i] != ' '
    ensures ApplySpacePlaceholder(t) == t
  {
    if |t| > 0 {
      ApplySpaceNoSpace(t[1..]);
      assert t == [t[0]] + t[1..];
    }
  }

  /** A text without spaces or digits is left alone by both passes. */
  lemma {:induction false} ApplyNone(t: seq<char>)
    requires forall i | 0 <= i < |t| :: t[i] != ' ' && !IsDigit(t[i])
    ensures ApplyPlaceholders(t) == t
  {
    ApplySpaceNoSpace(t);
    DigitNone(t);
  }

  lemma {:induction false} DigitNone(t: seq<char>)
    requires forall i | 0 <= i < |t| :: !IsDigit(t[i])
    ensures FlatMap(t, DigitToken) == t
  {
    if |t| > 0 {
      DigitNone(t[1..]);
      assert t == [t[0]] + t[1..];
    }
  }

  /** A text containing a placeholder word of its own is not restored: the
      word comes back as the character it stands for. */
  lemma RevertLossy()
    ensures ApplySpacePlaceholder("XMZRY") == "XMZRY"
    ensures Reverted(ApplySpacePlaceholder("XMZRY")) == " "
  {
    var t := "XMZRY";
    ApplySpaceNoSpace(t);
    assert t[1..][1..][1..][1..][1..] == [];
    assert FlatMap([' '], TokenAfter(false, 0)) == t;
    RevertUpToTokens([' '], false, 11);
    FlatMapSingles([' '], false);
  }
}
