/** Dictionary order on glyphs and on strings, and the length of a string
    counted in glyphs. */
module Collation {
  import opened Alphabet
  import opened Tokenizer

  /** `isize::signum`. */
  function Sign(n: int): (r: int)
    ensures -1 <= r <= 1
    ensures r < 0 <==> n < 0
    ensures r == 0 <==> n == 0
  {
    if n < 0 then -1 else if n > 0 then 1 else 0
  }

  /** `char_compare`: two letters compare by their position in the alphabet,
      two other characters by their code points, and a letter comes before
      any other character. */
  function CharCompare(c1: Character, c2: Character): (r: int)
    ensures -1 <= r <= 1
    ensures r == 0 <==> c1 == c2
  {
    match (c1, c2)
    case (Other(a), Other(b)) => Sign(a as int - b as int)
    case (Pali(x), Pali(y)) => Sign(x - y)
    case (Other(_), Pali(_)) => 1
    case (Pali(_), Other(_)) => -1
  }

  /** The position of a glyph in collation order: the 41 letters first, in
      alphabet order, then every other character by its code point. */
  function CollationKey(g: Character): (k: nat)
    ensures g.Pali? <==> k < AlphabetSize
  {
    match g
    case Pali(x) => x
    case Other(c) => AlphabetSize + c as int
  }

  /** `char_compare` is the comparison of collation keys. */
  lemma CharCompareByKey(c1: Character, c2: Character)
    ensures CharCompare(c1, c2) == Sign(CollationKey(c1) - CollationKey(c2))
  {
  }

  /** Different glyphs have different collation keys. */
  lemma CollationKeyInjective(c1: Character, c2: Character)
    requires CollationKey(c1) == CollationKey(c2)
    ensures c1 == c2
  {
  }

  lemma CharCompareAntisymmetric(c1: Character, c2: Character)
    ensures CharCompare(c2, c1) == -CharCompare(c1, c2)
  {
    CharCompareByKey(c1, c2);
    CharCompareByKey(c2, c1);
  }

  lemma CharCompareTransitive(c1: Character, c2: Character, c3: Character)
    requires CharCompare(c1, c2) < 0 && CharCompare(c2, c3) < 0
    ensures CharCompare(c1, c3) < 0
  {
    CharCompareByKey(c1, c2);
    CharCompareByKey(c2, c3);
    CharCompareByKey(c1, c3);
  }

  /** `zip` followed by `map(char_compare)`: the comparisons of the glyphs at
      the same position, as far as the shorter sequence reaches. */
  function PairwiseCompare(xs: seq<Character>, ys: seq<Character>): (ds: seq<int>)
    ensures forall d :: d in ds ==> -1 <= d <= 1
  {
    var n := if |xs| <= |ys| then |xs| else |ys|;
    seq(n, k requires 0 <= k < n => CharCompare(xs[k], ys[k]))
  }

  /** `find(|&sn| sn != 0)`: the first non-zero comparison, if any. */
  function FindNonZero(ds: seq<int>): (r: Option<int>)
    ensures r.None? <==> forall k :: 0 <= k < |ds| ==> ds[k] == 0
    ensures r.Some? ==> r.value != 0 && r.value in ds
    ensures r.Some? ==> exists k :: 0 <= k < |ds| && ds[k] == r.value && forall j :: 0 <= j < k ==> ds[j] == 0
  {
    if ds == [] then None
    else if ds[0] != 0 then Some(ds[0])
    else FindNonZero(ds[1..])
  }

  /** The comparison `string_compare` makes once both strings are tokenized:
      the first position where the glyphs differ decides, and when one glyph
      sequence is a prefix of the other the shorter comes first. */
  function GlyphCompare(xs: seq<Character>, ys: seq<Character>): (r: int)
    ensures -1 <= r <= 1
  {
    match FindNonZero(PairwiseCompare(xs, ys))
    case Some(d) => d
    case None => if |xs| != |ys| then Sign(|xs| - |ys|) else 0
  }

  /** `string_compare`. The lengths it falls back on are those of
      `string_length`, which tokenizes each string a second time and so
      counts the same glyphs. */
  function StringCompare(str1: string, str2: string): (r: int)
    ensures -1 <= r <= 1
  {
    GlyphCompare(Tokenize(str1), Tokenize(str2))
  }

  /** Lexicographic order on glyph sequences, written out position by
      position: the reference `GlyphCompare` is checked against. */
  function LexCompare(xs: seq<Character>, ys: seq<Character>): (r: int)
    ensures -1 <= r <= 1
    decreases |xs|
  {
    if xs == [] && ys == [] then 0
    else if xs == [] then -1
    else if ys == [] then 1
    else if CharCompare(xs[0], ys[0]) != 0 then CharCompare(xs[0], ys[0])
    else LexCompare(xs[1..], ys[1..])
  }

  /** Comparing the first glyphs leaves the comparison of the rest. */
  lemma PairwiseCompareCons(xs: seq<Character>, ys: seq<Character>)
    requires xs != [] && ys != []
    ensures PairwiseCompare(xs, ys) == [CharCompare(xs[0], ys[0])] + PairwiseCompare(xs[1..], ys[1..])
  {
  }

  /** The zip/map/find comparison with its length tie-break is exactly
      lexicographic order. */
  lemma {:induction false} GlyphCompareIsLex(xs: seq<Character>, ys: seq<Character>)
    ensures GlyphCompare(xs, ys) == LexCompare(xs, ys)
    decreases |xs|
  {
    if xs != [] && ys != [] {
      PairwiseCompareCons(xs, ys);
      var ds := PairwiseCompare(xs, ys);
      if ds[0] == 0 {
        assert ds[1..] == PairwiseCompare(xs[1..], ys[1..]);
        GlyphCompareIsLex(xs[1..], ys[1..]);
      }
    }
  }

  lemma {:induction false} LexAntisymmetric(xs: seq<Character>, ys: seq<Character>)
    ensures LexCompare(ys, xs) == -LexCompare(xs, ys)
    decreases |xs|
  {
    if xs != [] && ys != [] {
      CharCompareAntisymmetric(xs[0], ys[0]);
      LexAntisymmetric(xs[1..], ys[1..]);
    }
  }

  lemma {:induction false} LexZeroIffEqual(xs: seq<Character>, ys: seq<Character>)
    ensures LexCompare(xs, ys) == 0 <==> xs == ys
    decreases |xs|
  {
    if xs != [] && ys != [] {
      LexZeroIffEqual(xs[1..], ys[1..]);
      if xs[0] == ys[0] && xs[1..] == ys[1..] {
        assert xs == [xs[0]] + xs[1..] && ys == [ys[0]] + ys[1..];
      }
    }
  }

  lemma {:induction false} LexTransitive(xs: seq<Character>, ys: seq<Character>, zs: seq<Character>)
    requires LexCompare(xs, ys) < 0 && LexCompare(ys, zs) < 0
    ensures LexCompare(xs, zs) < 0
    decreases |xs|
  {
    if xs != [] {
      var a, b := CharCompare(xs[0], ys[0]), CharCompare(ys[0], zs[0]);
      if a < 0 && b < 0 {
        CharCompareTransitive(xs[0], ys[0], zs[0]);
      } else if a == 0 && b == 0 {
        LexTransitive(xs[1..], ys[1..], zs[1..]);
      }
    }
  }

  /** `string_compare` is lexicographic order on the glyph sequences. */
  lemma StringCompareIsLex(str1: string, str2: string)
    ensures StringCompare(str1, str2) == LexCompare(Tokenize(str1), Tokenize(str2))
  {
    GlyphCompareIsLex(Tokenize(str1), Tokenize(str2));
  }

  lemma StringCompareAntisymmetric(str1: string, str2: string)
    ensures StringCompare(str2, str1) == -StringCompare(str1, str2)
  {
    StringCompareIsLex(str1, str2);
    StringCompareIsLex(str2, str1);
    LexAntisymmetric(Tokenize(str1), Tokenize(str2));
  }

  /** Two strings compare equal only when they are the same string: the
      tokenizer loses no character. */
  lemma StringCompareZeroIffEqual(str1: string, str2: string)
    ensures StringCompare(str1, str2) == 0 <==> str1 == str2
  {
    StringCompareIsLex(str1, str2);
    LexZeroIffEqual(Tokenize(str1), Tokenize(str2));
    RenderTokenize(str1);
    RenderTokenize(str2);
  }

  lemma StringCompareTransitive(str1: string, str2: string, str3: string)
    requires StringCompare(str1, str2) < 0 && StringCompare(str2, str3) < 0
    ensures StringCompare(str1, str3) < 0
  {
    StringCompareIsLex(str1, str2);
    StringCompareIsLex(str2, str3);
    StringCompareIsLex(str1, str3);
    LexTransitive(Tokenize(str1), Tokenize(str2), Tokenize(str3));
  }

  /** Comparing the spellings of two letters is comparing their positions in
      the alphabet. */
  lemma StringCompareSpellings(i: nat, j: nat)
    requires i < AlphabetSize && j < AlphabetSize
    ensures StringCompare(Roman[i], Roman[j]) == Sign(i - j)
  {
    TokenizeSpelling(i);
    TokenizeSpelling(j);
    PairwiseCompareCons([Pali(i)], [Pali(j)]);
  }

  /** A string that starts with a letter of the alphabet comes before one
      whose first character starts no spelling at all. */
  lemma LetterBeforeOther(str1: string, str2: string, x: Symbol)
    requires Spelling(x) <= str1 && |str2| > 0
    requires forall y: Symbol :: Spelling(y)[0] != str2[0]
    ensures StringCompare(str1, str2) == -1
  {
    ScanLongestMatch(str1);
    ScanLongestMatch(str2);
    TokenizeStep(str1);
    TokenizeStep(str2);
    PairwiseCompareCons(Tokenize(str1), Tokenize(str2));
  }

  /** `string_length`: drain a `CharacterTokenizer` and count the glyphs. */
  method StringLength(str1: string) returns (n: nat)
    ensures n == |Tokenize(str1)|
    ensures n <= |str1| <= 2 * n
  {
    var tokenizer := new CharacterTokenizer(str1);
    n := 0;
    while true
      invariant tokenizer.Valid() && tokenizer.source == str1
      invariant |Tokenize(str1)| == n + |tokenizer.glyphs|
      decreases |str1| - tokenizer.pos
    {
      var next := tokenizer.Next();
      if next.None? {
        return;
      }
      n := n + 1;
    }
  }

  /** Strings that start with different letters are ordered by those
      letters, whatever follows. */
  lemma FirstLettersDecide(x: Symbol, y: Symbol, rest1: string, rest2: string)
    requires x != y
    requires !(IsCompoundLetterOrdinal(x) && |rest1| > 0 && rest1[0] == 'h')
    requires !(IsCompoundLetterOrdinal(y) && |rest2| > 0 && rest2[0] == 'h')
    ensures StringCompare(Spelling(x) + rest1, Spelling(y) + rest2) == Sign(x - y)
  {
    TokenizeSpellingThen(x, rest1);
    TokenizeSpellingThen(y, rest2);
    PairwiseCompareCons([Pali(x)] + Tokenize(rest1), [Pali(y)] + Tokenize(rest2));
  }

  /** A common first letter does not decide: the rest of the strings do. */
  lemma SameFirstLetter(x: Symbol, rest1: string, rest2: string)
    requires !(IsCompoundLetterOrdinal(x) && |rest1| > 0 && rest1[0] == 'h')
    requires !(IsCompoundLetterOrdinal(x) && |rest2| > 0 && rest2[0] == 'h')
    ensures StringCompare(Spelling(x) + rest1, Spelling(x) + rest2) == StringCompare(rest1, rest2)
  {
    TokenizeSpellingThen(x, rest1);
    TokenizeSpellingThen(x, rest2);
    var xs, ys := [Pali(x)] + Tokenize(rest1), [Pali(x)] + Tokenize(rest2);
    PairwiseCompareCons(xs, ys);
    assert xs[1..] == Tokenize(rest1) && ys[1..] == Tokenize(rest2);
    assert PairwiseCompare(xs, ys)[1..] == PairwiseCompare(Tokenize(rest1), Tokenize(rest2));
  }

  /** Cases of `string_compare_tests`: a one-letter word against a longer word with the
      same first letter. */
  lemma CompareExamplesPrefix()
    ensures StringCompare("c", "cc") == -1 && StringCompare("cc", "c") == 1
  {
    TokenizeSpelling(C);
    TokenizeSpellingThen(C, "c");
    assert Spelling(C) + "c" == "cc";
    PairwiseCompareCons([Pali(C)], [Pali(C), Pali(C)]);
    StringCompareAntisymmetric("c", "cc");
  }

  /** Cases of `string_compare_tests`: single letters, decided by their positions. */
  lemma CompareExamplesLetters()
    ensures StringCompare("c", "b") == -1 && StringCompare("b", "c") == 1
  {
    FirstLettersDecide(C, B, "", "");
    FirstLettersDecide(B, C, "", "");
    assert Spelling(C) + "" == "c" && Spelling(B) + "" == "b";
  }

  /** Cases of `string_compare_tests`: the first letters decide, whatever their lengths
      and whatever follows. */
  lemma CompareExamplesFirstLetters()
    ensures StringCompare("i", "ā") == 1 && StringCompare("cc", "b") == -1
  {
    FirstLettersDecide(I, Aa, "", "");
    assert Spelling(I) + "" == "i" && Spelling(Aa) + "" == "ā";
    FirstLettersDecide(C, B, "c", "");
    assert Spelling(C) + "c" == "cc" && Spelling(B) + "" == "b";
  }

  /** The glyphs of two words of `string_compare_tests`. */
  lemma GlyphsOfAcAndAb()
    ensures Tokenize("ac") == [Pali(A), Pali(C)] && Tokenize("ab") == [Pali(A), Pali(B)]
  {
    TokenizeSpellingThen(A, "c");
    TokenizeSpellingThen(A, "b");
    TokenizeSpelling(C);
    TokenizeSpelling(B);
    assert Spelling(A) + "c" == "ac" && Spelling(A) + "b" == "ab";
    assert Spelling(C) == "c" && Spelling(B) == "b";
  }

  /** Cases of `string_compare_tests`: a common first letter, then the second decides. */
  lemma CompareExamplesWords()
    ensures StringCompare("ac", "ab") == -1 && StringCompare("ab", "ac") == 1
  {
    GlyphsOfAcAndAb();
    var xs, ys := [Pali(A), Pali(C)], [Pali(A), Pali(B)];
    PairwiseCompareCons(xs, ys);
    PairwiseCompareCons(ys, xs);
    assert xs[1..] == [Pali(C)] && ys[1..] == [Pali(B)];
    PairwiseCompareCons([Pali(C)], [Pali(B)]);
    PairwiseCompareCons([Pali(B)], [Pali(C)]);
  }

  /** Cases of `string_compare_tests`: a letter before another character. */
  lemma CompareExamplesLetterFirst()
    ensures StringCompare("a", "x") == -1 && StringCompare("x", "a") == 1
  {
    NoSpellingStartsWithX();
    LetterBeforeOther("a", "x", A);
    StringCompareAntisymmetric("a", "x");
  }

  /** Cases of `string_compare_tests`: a word starting with a letter before one starting
      with another character. */
  lemma CompareExamplesWordLetterFirst()
    ensures StringCompare("xabc", "aabc") == 1 && StringCompare("aabc", "xabc") == -1
  {
    NoSpellingStartsWithX();
    LetterBeforeOther("aabc", "xabc", A);
    StringCompareAntisymmetric("aabc", "xabc");
  }

  /** Cases of `string_compare_tests`: `y` is a letter, so a word starting with it comes
      before one starting with `x`. */
  lemma CompareExamplesYBeforeX()
    ensures StringCompare("xabc", "yabc") == 1 && StringCompare("yabc", "xabc") == -1
  {
    NoSpellingStartsWithX();
    LetterBeforeOther("yabc", "xabc", Y);
    StringCompareAntisymmetric("yabc", "xabc");
  }

  /** Cases of `string_compare_tests`: other characters, by code point. */
  lemma CompareExamplesOther()
    ensures StringCompare("x", "z") == -1 && StringCompare("z", "x") == 1
  {
    UnknownIffNoSpelling('x');
    UnknownIffNoSpelling('z');
    TokenizeOtherThen('x', "");
    TokenizeOtherThen('z', "");
    assert "x" == ['x'] + "" && "z" == ['z'] + "";
    PairwiseCompareCons([Other('x')], [Other('z')]);
    StringCompareAntisymmetric("x", "z");
  }

  /** Cases of `string_compare_tests`: a word against itself. */
  lemma CompareExamplesEqual()
    ensures StringCompare("c", "c") == 0 && StringCompare("ac", "ac") == 0
    ensures StringCompare("x", "x") == 0 && StringCompare("xabc", "xabc") == 0
  {
    StringCompareZeroIffEqual("c", "c");
    StringCompareZeroIffEqual("ac", "ac");
    StringCompareZeroIffEqual("x", "x");
    StringCompareZeroIffEqual("xabc", "xabc");
  }

  /** A case of `string_length_tests`: "buddho" is b-u-d-dh-o. */
  lemma StringLengthBuddho()
    ensures |Tokenize("buddho")| == 5
  {
    var xs := [B, U, D, Dh, O];
    assert Spell(xs[4..]) == "o";
    assert Spell(xs[3..]) == "dho";
    assert Spell(xs[2..]) == "ddho";
    assert Spell(xs[1..]) == "uddho";
    assert Spell(xs) == "buddho";
    TokenizeSpell(xs);
  }

  /** A case of `string_length_tests`: "bhagavā" is bh-a-g-a-v-ā. */
  lemma StringLengthBhagava()
    ensures |Tokenize("bhagavā")| == 6
  {
    var xs := [Bh, A, G, A, V, Aa];
    assert Spell(xs[5..]) == "ā";
    assert Spell(xs[4..]) == "vā";
    assert Spell(xs[3..]) == "avā";
    assert Spell(xs[2..]) == "gavā";
    assert Spell(xs[1..]) == "agavā";
    assert Spell(xs) == "bhagavā";
    TokenizeSpell(xs);
  }

  /** All the letters, in alphabet order. */
  const AllLetters: seq<Symbol> := seq(AlphabetSize, i requires 0 <= i < AlphabetSize => i)

  /** A case of `string_length_tests`: the spellings of the whole alphabet, one after the
      other, are 41 glyphs. */
  lemma StringLengthAllLetters()
    ensures |Tokenize(Spell(AllLetters))| == AlphabetSize
  {
    assert NoBaseThenH(AllLetters);
    TokenizeSpell(AllLetters);
  }
}
