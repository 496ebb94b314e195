/** The tokenizer: one left-to-right pass over the characters of a string,
    with one character of look-ahead, turning them into glyphs. */
module Tokenizer {
  import opened Alphabet

  /** A glyph (`Character`): a letter of the alphabet, or any other
      character passed through unchanged. */
  datatype Character = Pali(symbol: Symbol) | Other(c: char)

  /** What the match in `CharacterTokenizer::next` does with the character
      it has just read: a letter on its own, the base of a base/aspirate pair
      (which needs one character of look-ahead), or no letter at all. */
  datatype Letter = Single(symbol: Symbol) | Multi(base: Symbol, aspirate: Symbol) | Unknown

  /** The match table of `CharacterTokenizer::next`, one arm per character. */
  function Classify(c: char): (r: Letter)
    ensures r.Multi? ==> IsCompoundLetterOrdinal(r.base) && r.aspirate == r.base + 1
  {
    match c
    case 'a' => Single(A)
    case 'ā' => Single(Aa)
    case 'i' => Single(I)
    case 'ī' => Single(Ii)
    case 'u' => Single(U)
    case 'ū' => Single(Uu)
    case 'e' => Single(E)
    case 'o' => Single(O)
    case 'k' => Multi(K, Kh)
    case 'g' => Multi(G, Gh)
    case 'ṅ' => Single(QuoteN)
    case 'c' => Multi(C, Ch)
    case 'j' => Multi(J, Jh)
    case 'ñ' => Single(TildeN)
    case 'ṭ' => Multi(DotT, DotTH)
    case 'ḍ' => Multi(DotD, DotDH)
    case 'ṇ' => Single(DotN)
    case 't' => Multi(T, Th)
    case 'd' => Multi(D, Dh)
    case 'n' => Single(N)
    case 'p' => Multi(P, Ph)
    case 'b' => Multi(B, Bh)
    case 'm' => Single(M)
    case 'y' => Single(Y)
    case 'r' => Single(R)
    case 'l' => Single(L)
    case 'v' => Single(V)
    case 's' => Single(S)
    case 'h' => Single(H)
    case 'ḷ' => Single(DotL)
    case 'ṃ' => Single(DotM)
    case _ => Unknown
  }

  /** The arm for `c` agrees with the spelling table: a single letter is
      spelled by the character alone, a pair's base by the character, and its
      aspirate, the next letter, by the character followed by `h`. */
  predicate ArmAgrees(c: char) {
    match Classify(c)
    case Single(a) => |Spelling(a)| == 1 && Spelling(a)[0] == c && !IsCompoundLetterOrdinal(a)
    case Multi(base, aspirate) => |Spelling(base)| == 1 && Spelling(base)[0] == c && IsCompoundLetterOrdinal(base) && aspirate == Aspirate(base)
    case Unknown => true
  }

  /** Every arm of the match agrees with the spelling table. */
  lemma ClassifyAgrees(c: char)
    ensures ArmAgrees(c)
  {
    match Classify(c)
    case Single(a) =>
      assert Spelling(a) == [c];
    case Multi(base, aspirate) =>
      assert Spelling(base) == [c];
    case Unknown =>
  }

  /** The first character of the spelling of `x` selects `x`, or the pair
      `x` belongs to. */
  predicate HeadSelects(x: Symbol) {
    var r := Classify(Spelling(x)[0]);
    if IsCompoundLetterOrdinal(x) then r == Multi(x, Aspirate(x))
    else if |Spelling(x)| == 2 then r == Multi(x - 1, x)
    else r == Single(x)
  }

  /** The first character of every spelling selects that letter, or the
      pair it belongs to. */
  lemma ClassifySpellingHead(x: Symbol)
    ensures HeadSelects(x)
  {
    if x <= QuoteN {
      HeadsUpToGutturals(x);
    } else if x <= DotN {
      HeadsOfPalatalsAndRetroflexes(x);
    } else if x <= M {
      HeadsOfDentalsAndLabials(x);
    } else {
      HeadsOfSemivowels(x);
    }
  }

  /** `ClassifySpellingHead` for the vowels and the gutturals. */
  lemma HeadsUpToGutturals(x: Symbol)
    requires x <= QuoteN
    ensures HeadSelects(x)
  {
  }

  /** `ClassifySpellingHead` for the palatals and the retroflexes. */
  lemma HeadsOfPalatalsAndRetroflexes(x: Symbol)
    requires C <= x <= DotN
    ensures HeadSelects(x)
  {
  }

  /** `ClassifySpellingHead` for the dentals and the labials. */
  lemma HeadsOfDentalsAndLabials(x: Symbol)
    requires T <= x <= M
    ensures HeadSelects(x)
  {
  }

  /** `ClassifySpellingHead` for the semivowels and the niggahita. */
  lemma HeadsOfSemivowels(x: Symbol)
    requires Y <= x
    ensures HeadSelects(x)
  {
  }

  /** A character is passed through as `Other` exactly when no spelling in
      the table starts with it. */
  lemma UnknownIffNoSpelling(c: char)
    ensures Classify(c).Unknown? <==> forall x: Symbol :: Spelling(x)[0] != c
  {
    forall x: Symbol | Spelling(x)[0] == c ensures !Classify(c).Unknown? {
      ClassifySpellingHead(x);
    }
    if !Classify(c).Unknown? {
      ClassifyAgrees(c);
      var x := if Classify(c).Single? then Classify(c).symbol else Classify(c).base;
      assert Spelling(x)[0] == c;
    }
  }

  /** The only spelling that starts with `h` is that of the letter h. */
  lemma SpellingStartsWithH(x: Symbol)
    requires Spelling(x)[0] == 'h'
    ensures x == H
  {
    ClassifySpellingHead(x);
  }

  /** One glyph together with the number of characters it consumed. */
  datatype Scanned = Scanned(glyph: Character, width: nat)

  /** `parse_singlechar_letter`: the glyph of a letter that no following
      character can change. */
  function ParseSinglecharLetter(a: Symbol): (r: Character)
    ensures r.Pali? && r.symbol == a
  {
    Pali(a)
  }

  /** `parse_multichar_letter`, given the characters that follow the base
      consonant already read: a following `h` is consumed too and yields the
      aspirate; anything else, or the end of the input, leaves the base. */
  function MulticharLetter(after: string, base: Symbol, aspirate: Symbol): (r: Scanned)
    ensures r.width == (if |after| > 0 && after[0] == 'h' then 2 else 1)
  {
    if |after| > 0 && after[0] == 'h' then Scanned(Pali(aspirate), 2) else Scanned(Pali(base), 1)
  }

  /** The characters a glyph stands for. */
  function Text(g: Character): (r: string)
    ensures 1 <= |r| <= 2
  {
    match g
    case Pali(x) => Spelling(x)
    case Other(c) => [c]
  }

  /** One call of `CharacterTokenizer::next` on a non-empty input: the glyph
      and how many characters (one or two) it consumes. */
  function Scan(s: string): (r: Scanned)
    requires |s| > 0
    ensures 1 <= r.width <= 2 && r.width <= |s|
  {
    match Classify(s[0])
    case Single(a) => Scanned(ParseSinglecharLetter(a), 1)
    case Multi(base, aspirate) => MulticharLetter(s[1..], base, aspirate)
    case Unknown => Scanned(Other(s[0]), 1)
  }

  /** The characters a scan consumes are exactly those its glyph stands for. */
  lemma ScanText(s: string)
    requires |s| > 0
    ensures Text(Scan(s).glyph) == s[..Scan(s).width]
  {
    ClassifyAgrees(s[0]);
  }

  /** Scan chooses the longest spelling in the table that starts the input,
      and passes the first character through only when no spelling does. */
  lemma ScanLongestMatch(s: string)
    requires |s| > 0
    ensures Scan(s).glyph.Other? <==> forall x :: !(Spelling(x) <= s)
    ensures forall x :: Spelling(x) <= s ==> |Spelling(x)| <= Scan(s).width
  {
    forall x | Spelling(x) <= s ensures |Spelling(x)| <= Scan(s).width && Scan(s).glyph.Pali? {
      ClassifySpellingHead(x);
    }
    var g := Scan(s).glyph;
    if g.Pali? {
      assert Spelling(g.symbol) <= s;
    }
  }

  /** A letter's spelling scans back to that letter, unless an aspirable base
      is directly followed by `h`. */
  lemma ScanSpelling(x: Symbol, rest: string)
    requires !(IsCompoundLetterOrdinal(x) && |rest| > 0 && rest[0] == 'h')
    ensures Scan(Spelling(x) + rest) == Scanned(Pali(x), |Spelling(x)|)
  {
    ClassifySpellingHead(x);
    var s := Spelling(x) + rest;
    assert s[0] == Spelling(x)[0];
    if |Spelling(x)| == 2 {
      assert s[1..][0] == 'h';
    } else if IsCompoundLetterOrdinal(x) {
      assert s[1..] == rest;
    }
  }

  /** An aspirable base directly followed by `h` always merges into the
      aspirate, whatever comes next: the look-ahead is one character. */
  lemma ScanBaseThenH(x: Symbol, rest: string)
    requires IsCompoundLetterOrdinal(x)
    ensures Scan(Spelling(x) + "h" + rest) == Scanned(Pali(Aspirate(x)), 2)
  {
    ClassifySpellingHead(x);
    var s := Spelling(x) + "h" + rest;
    assert s[0] == Spelling(x)[0];
    assert s[1..][0] == 'h';
  }

  /** The whole token stream of `CharacterTokenizer` over a string. Each
      glyph consumes one or two characters. */
  function Tokenize(s: string): (r: seq<Character>)
    ensures |r| <= |s| <= 2 * |r|
    decreases |s|
  {
    if |s| == 0 then []
    else
      var t := Scan(s);
      [t.glyph] + Tokenize(s[t.width..])
  }

  /** The characters a glyph sequence stands for, glyph after glyph. */
  function Render(gs: seq<Character>): string {
    if gs == [] then [] else Text(gs[0]) + Render(gs[1..])
  }

  /** Prepending a glyph prepends the characters it stands for. */
  lemma RenderPrepend(g: Character, rest: seq<Character>, s: string, w: nat)
    requires w <= |s| && Text(g) == s[..w] && Render(rest) == s[w..]
    ensures Render([g] + rest) == s
  {
    assert ([g] + rest)[1..] == rest;
  }

  /** Tokenizing loses nothing: the glyphs spell out the input again. */
  lemma {:induction false} RenderTokenize(s: string)
    ensures Render(Tokenize(s)) == s
  {
    if |s| > 0 {
      var t := Scan(s);
      var rest := Tokenize(s[t.width..]);
      ScanText(s);
      RenderTokenize(s[t.width..]);
      RenderPrepend(t.glyph, rest, s, t.width);
    }
  }

  /** The first glyph of a non-empty input, and the characters it stands for. */
  lemma TokenizeStep(s: string)
    requires |s| > 0
    ensures Tokenize(s) == [Scan(s).glyph] + Tokenize(s[Scan(s).width..])
    ensures Scan(s).width == |Text(Scan(s).glyph)|
  {
    ScanText(s);
  }

  /** A spelling at the front of the input becomes its letter, unless an
      aspirable base is directly followed by `h`. */
  lemma TokenizeSpellingThen(x: Symbol, rest: string)
    requires !(IsCompoundLetterOrdinal(x) && |rest| > 0 && rest[0] == 'h')
    ensures Tokenize(Spelling(x) + rest) == [Pali(x)] + Tokenize(rest)
  {
    ScanSpelling(x, rest);
    assert (Spelling(x) + rest)[|Spelling(x)|..] == rest;
  }

  /** A spelling on its own tokenizes to its letter. */
  lemma TokenizeSpelling(x: Symbol)
    ensures Tokenize(Spelling(x)) == [Pali(x)]
  {
    TokenizeSpellingThen(x, "");
    assert Spelling(x) + "" == Spelling(x);
  }

  /** A character no spelling starts with is passed through on its own. */
  lemma TokenizeOtherThen(c: char, rest: string)
    requires forall x: Symbol :: Spelling(x)[0] != c
    ensures Tokenize([c] + rest) == [Other(c)] + Tokenize(rest)
  {
    UnknownIffNoSpelling(c);
    assert ([c] + rest)[0] == c && ([c] + rest)[1..] == rest;
  }

  /** The spellings of a letter sequence, concatenated. */
  function Spell(xs: seq<Symbol>): (r: string)
    ensures |xs| <= |r| <= 2 * |xs|
  {
    if xs == [] then [] else Spelling(xs[0]) + Spell(xs[1..])
  }

  /** No index of an aspirable base is directly followed by the index of h. */
  predicate NoBaseThenH(indices: seq<nat>) {
    forall k :: 0 <= k < |indices| - 1 ==> !(IsCompoundLetterOrdinal(indices[k]) && indices[k + 1] == CompoundingLetterOrdinal)
  }

  /** The glyphs of a letter sequence. */
  function PaliGlyphs(xs: seq<Symbol>): seq<Character> {
    seq(|xs|, k requires 0 <= k < |xs| => Pali(xs[k]))
  }

  /** Tokenizing the spellings of letters gives those letters back, as long
      as no aspirable base is directly followed by h. */
  lemma {:induction false} TokenizeSpell(xs: seq<Symbol>)
    requires NoBaseThenH(xs)
    ensures Tokenize(Spell(xs)) == PaliGlyphs(xs)
  {
    if xs != [] {
      var rest := Spell(xs[1..]);
      if |xs| > 1 {
        assert rest[0] == Spelling(xs[1])[0];
        if rest[0] == 'h' {
          SpellingStartsWithH(xs[1]);
        }
      }
      ScanSpelling(xs[0], rest);
      var s := Spelling(xs[0]) + rest;
      assert s[|Spelling(xs[0])|..] == rest;
      assert NoBaseThenH(xs[1..]) by {
        forall k | 0 <= k < |xs[1..]| - 1 ensures !(IsCompoundLetterOrdinal(xs[1..][k]) && xs[1..][k + 1] == CompoundingLetterOrdinal) {
          assert xs[1..][k] == xs[k + 1] && xs[1..][k + 1] == xs[k + 2];
        }
      }
      TokenizeSpell(xs[1..]);
      assert PaliGlyphs(xs) == [Pali(xs[0])] + PaliGlyphs(xs[1..]);
    }
  }

  /** One scan at position `p` of `source`, stated on the remaining input
      before and after it. */
  lemma ScanAt(source: string, p: nat)
    requires p < |source|
    ensures p + Scan(source[p..]).width <= |source|
    ensures var sc := Scan(source[p..]);
      && Tokenize(source[p..]) == [sc.glyph] + Tokenize(source[p + sc.width..])
      && source[p..] == Text(sc.glyph) + source[p + sc.width..]
  {
    var s := source[p..];
    TokenizeStep(s);
    ScanText(s);
    assert s[Scan(s).width..] == source[p + Scan(s).width..];
    assert s == s[..Scan(s).width] + s[Scan(s).width..];
  }

  /** `CharacterTokenizer`: an iterator over the characters of `source` that
      have not been consumed yet, those from `pos` on. The ghost field
      `glyphs` holds the glyphs the iterator has still to produce. */
  class CharacterTokenizer {
    const source: string
    var pos: nat
    ghost var glyphs: seq<Character>

    ghost predicate Valid()
      reads this
    {
      pos <= |source| && glyphs == Tokenize(source[pos..])
    }

    constructor (source: string)
      ensures Valid() && this.source == source && pos == 0 && glyphs == Tokenize(source)
    {
      this.source := source;
      pos := 0;
      glyphs := Tokenize(source);
      assert source[0..] == source;
    }

    /** `parse_multichar_letter`: peek at the next character and consume it
        only when it is `h`. */
    method ParseMulticharLetter(base: Symbol, aspirate: Symbol) returns (c: Character)
      requires pos <= |source|
      modifies this
      ensures pos <= |source| && glyphs == old(glyphs)
      ensures var m := MulticharLetter(old(source[pos..]), base, aspirate);
        c == m.glyph && pos == old(pos) + m.width - 1
    {
      if pos < |source| && source[pos] == 'h' {
        pos := pos + 1;
        c := Pali(aspirate);
      } else {
        c := Pali(base);
      }
    }

    /** `CharacterTokenizer::next`: `None` at the end of the input, and
        otherwise the next glyph, consuming the characters it stands for. */
    method Next() returns (r: Option<Character>)
      requires Valid()
      modifies this
      ensures Valid()
      ensures r.None? <==> old(pos) == |source|
      ensures r.None? ==> pos == old(pos) && glyphs == []
      ensures r.Some? ==> old(source[pos..]) == Text(r.value) + source[pos..]
      ensures r.Some? ==> old(pos) < pos && old(glyphs) == [r.value] + glyphs
    {
      if pos == |source| {
        assert source[pos..] == [];
        return None;
      }
      ghost var s := source[pos..];
      var c := source[pos];
      pos := pos + 1;
      match Classify(c) {
        case Single(a) =>
          r := Some(ParseSinglecharLetter(a));
        case Multi(base, aspirate) =>
          var g := ParseMulticharLetter(base, aspirate);
          r := Some(g);
        case Unknown =>
          r := Some(Other(c));
      }
      assert r.value == Scan(s).glyph && pos == old(pos) + Scan(s).width;
      ScanAt(source, old(pos));
      glyphs := glyphs[1..];
    }
  }

  /** `CharacterTokenizer::new(s.chars()).collect()`: drain the iterator. */
  method Collect(s: string) returns (gs: seq<Character>)
    ensures gs == Tokenize(s)
  {
    var tokenizer := new CharacterTokenizer(s);
    ghost var all := tokenizer.glyphs;
    gs := [];
    while true
      invariant tokenizer.Valid() && tokenizer.source == s
      invariant all == gs + tokenizer.glyphs
      decreases |s| - tokenizer.pos
    {
      var next := tokenizer.Next();
      if next.None? {
        return;
      }
      gs := gs + [next.value];
    }
  }

  /** No spelling starts with `x`. */
  lemma NoSpellingStartsWithX()
    ensures forall y: Symbol :: Spelling(y)[0] != 'x'
  {
    UnknownIffNoSpelling('x');
  }

  /** The `x` that starts the string of `parse_with_non_pali_character` is
      passed through. */
  lemma ParseLeadingX()
    ensures Tokenize("xā1b") == [Other('x')] + Tokenize("ā1b")
  {
    var rest := "ā1b";
    NoSpellingStartsWithX();
    TokenizeOtherThen('x', rest);
    assert ['x'] + rest == "xā1b";
  }

  /** The letters and the digit that follow `x` in the string of
      `parse_with_non_pali_character`. */
  lemma ParseAfterX()
    ensures Tokenize("ā1b") == [Pali(Aa), Other('1'), Pali(B)]
  {
    UnknownIffNoSpelling('1');
    TokenizeSpelling(B);
    TokenizeOtherThen('1', "b");
    TokenizeSpellingThen(Aa, "1b");
    assert Spelling(Aa) + "1b" == "ā1b";
  }

  /** `parse_with_non_pali_character`: the tokenization of a string mixing
      letters and other characters. */
  lemma ParseWithNonPaliCharacter()
    ensures Tokenize("xā1b") == [Other('x'), Pali(Aa), Other('1'), Pali(B)]
  {
    ParseLeadingX();
    ParseAfterX();
  }
}
