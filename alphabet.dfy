/** The Pāli alphabet in Roman transliteration: the 41 letters, their
    dictionary positions (ordinals) and their spellings. */
module Alphabet {

  datatype Option<T> = None | Some(value: T)

  const AlphabetSize: nat := 41

  /** A letter of the alphabet (`PaliAlphabet`), represented by its ordinal:
      its position in the enumeration, which is its dictionary order. The
      conversion `PaliAlphabet -> usize` is therefore the identity. */
  type Symbol = i: nat | i < AlphabetSize

  /** The variants of `PaliAlphabet`, in declaration order. */
  // vowels, 0-7
  const A: Symbol := 0
  const Aa: Symbol := 1
  const I: Symbol := 2
  const Ii: Symbol := 3
  const U: Symbol := 4
  const Uu: Symbol := 5
  const E: Symbol := 6
  const O: Symbol := 7
  // gutturals, 8-12
  const K: Symbol := 8
  const Kh: Symbol := 9
  const G: Symbol := 10
  const Gh: Symbol := 11
  const QuoteN: Symbol := 12
  // palatals, 13-17
  const C: Symbol := 13
  const Ch: Symbol := 14
  const J: Symbol := 15
  const Jh: Symbol := 16
  const TildeN: Symbol := 17
  // retroflexes, 18-22
  const DotT: Symbol := 18
  const DotTH: Symbol := 19
  const DotD: Symbol := 20
  const DotDH: Symbol := 21
  const DotN: Symbol := 22
  // dentals, 23-27
  const T: Symbol := 23
  const Th: Symbol := 24
  const D: Symbol := 25
  const Dh: Symbol := 26
  const N: Symbol := 27
  // labials, 28-32
  const P: Symbol := 28
  const Ph: Symbol := 29
  const B: Symbol := 30
  const Bh: Symbol := 31
  const M: Symbol := 32
  // semivowels, 33-39
  const Y: Symbol := 33
  const R: Symbol := 34
  const L: Symbol := 35
  const V: Symbol := 36
  const S: Symbol := 37
  const H: Symbol := 38
  const DotL: Symbol := 39
  // niggahita, 40-40
  const DotM: Symbol := 40

  /** Whether `i` is the ordinal of one of the ten aspirable base consonants
      k g c j ṭ ḍ t d p b, whose aspirated partner has the next ordinal
      (`PALI_ALPHABET_ROMAN_COMPOUND_LETTERS_INDICES`). */
  predicate IsCompoundLetterOrdinal(i: int)
    ensures IsCompoundLetterOrdinal(i) ==> K <= i <= B
  {
    i == 8 || i == 10 || i == 13 || i == 15 || i == 18 || i == 20 || i == 23 || i == 25 || i == 28 || i == 30
  }

  /** Ordinal of the letter h, which turns a base consonant into its aspirate. */
  const CompoundingLetterOrdinal: nat := 38

  /** `PaliAlphabet::try_from(i)`: the letter with ordinal `i`, or `None`
      when `i` is past the last letter. */
  function TryFromOrdinal(i: nat): (r: Option<Symbol>)
    ensures r.Some? <==> i < AlphabetSize
    ensures r.Some? ==> r.value as nat == i
  {
    if i < AlphabetSize then Some(i) else None
  }

  /** The Roman spelling of a letter. Every spelling is one character, except
      that the aspirate following each of the ten base consonants is spelled
      by the base's character followed by `h`. */
  function Spelling(x: Symbol): (r: string)
    ensures 1 <= |r| <= 2
    ensures |r| == 2 <==> IsCompoundLetterOrdinal(x - 1)
    ensures |r| == 2 ==> r[1] == 'h'
  {
    match x
    case 0 => "a"       // A
    case 1 => "ā"       // Aa
    case 2 => "i"       // I
    case 3 => "ī"       // Ii
    case 4 => "u"       // U
    case 5 => "ū"       // Uu
    case 6 => "e"       // E
    case 7 => "o"       // O
    case 8 => "k"       // K
    case 9 => "kh"      // Kh
    case 10 => "g"      // G
    case 11 => "gh"     // Gh
    case 12 => "ṅ"      // QuoteN
    case 13 => "c"      // C
    case 14 => "ch"     // Ch
    case 15 => "j"      // J
    case 16 => "jh"     // Jh
    case 17 => "ñ"      // TildeN
    case 18 => "ṭ"      // DotT
    case 19 => "ṭh"     // DotTH
    case 20 => "ḍ"      // DotD
    case 21 => "ḍh"     // DotDH
    case 22 => "ṇ"      // DotN
    case 23 => "t"      // T
    case 24 => "th"     // Th
    case 25 => "d"      // D
    case 26 => "dh"     // Dh
    case 27 => "n"      // N
    case 28 => "p"      // P
    case 29 => "ph"     // Ph
    case 30 => "b"      // B
    case 31 => "bh"     // Bh
    case 32 => "m"      // M
    case 33 => "y"      // Y
    case 34 => "r"      // R
    case 35 => "l"      // L
    case 36 => "v"      // V
    case 37 => "s"      // S
    case 38 => "h"      // H
    case 39 => "ḷ"      // DotL
    case 40 => "ṃ"      // DotM
  }

  /** `PALI_ALPHABET_ROMAN`: the spellings, listed by ordinal. */
  const Roman: seq<string> := seq(AlphabetSize, i requires 0 <= i < AlphabetSize => Spelling(i))

  /** The aspirated partner of a base consonant. */
  function Aspirate(x: Symbol): (r: Symbol)
    requires IsCompoundLetterOrdinal(x)
    ensures r == x + 1 && !IsCompoundLetterOrdinal(r)
    ensures Spelling(r) == Spelling(x) + "h"
  {
    x + 1
  }

  /** The size of the table and the position of the last letter. */
  lemma AlphabetLength()
    ensures |Roman| == AlphabetSize == 41
    ensures DotM == 40 && TryFromOrdinal(40) == Some(DotM) && TryFromOrdinal(41) == None
  {
  }
}
