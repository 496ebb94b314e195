# Pāli alphabet: tokenizer and collation

A Dafny model of the Pāli alphabet module of `pls_core`
(`pls_core/src/alphabet.rs`). The module defines:

- the 41 letters of the alphabet (`PaliAlphabet`) in dictionary order;
- their Roman spellings (`PALI_ALPHABET_ROMAN`);
- a tokenizer (`CharacterTokenizer`). It reads a string left to right with one
  character of look-ahead and turns it into glyphs (`Character`). A glyph is
  either a letter or any other character, passed through unchanged. Ten base
  consonants (k g c j ṭ ḍ t d p b) followed by `h` make a single aspirated
  letter (kh gh … bh).
- the dictionary order on glyphs (`char_compare`);
- the dictionary order on strings (`string_compare`). It compares glyph by
  glyph; when one glyph sequence is a prefix of the other, the shorter one
  comes first.
- the length of a string counted in glyphs (`string_length`);
- a helper used by the module's own round-trip checks
  (`fixup_compound_letters`). It merges a base consonant's index with a
  following `h` index, so that spelling the indices and tokenizing the result
  gives the same indices back.

Structure:

- `alphabet.dfy` (module `Alphabet`) holds the letters and their spellings. A
  letter is represented by its ordinal, which is its position in the
  enumeration. The conversion of a letter to `usize` is therefore the identity,
  and the derived order on letters is the order on ordinals. The match in
  `next` refers to some letters by upper-case names (`AA`, `KH`, …). These are
  the declared variants `Aa`, `Kh`, …; the model uses the declared names.
- `tokenizer.dfy` (module `Tokenizer`) holds the tokenizer in two forms:
  - a pure specification: one step `Scan` and the whole stream `Tokenize`;
  - the class `CharacterTokenizer`, with a source string and a position.
    Its `Next` method is proved against the specification, and `Collect`
    drains it.

  The match of `next` is the table `Classify`. Lemmas prove it consistent with
  the spelling table.
- `collation.dfy` (module `Collation`) holds `char_compare`, `string_compare`
  and `string_length`:
  - `string_compare` is proved equal to lexicographic order on glyph
    sequences, which is an independent reference. From that follow
    antisymmetry, "zero only for equal strings" and transitivity.
  - `string_length` is a method that drains the tokenizer.
- `roundtrip.dfy` (module `RoundTrip`) holds the fix-up fold and the round
  trips between indices, spellings and glyphs.

## Model

| member | source | states |
|---|---|---|
| `Alphabet.TryFromOrdinal` | pls_core/src/alphabet.rs:8-52 | an ordinal converts to a letter exactly when it is below 41, and the letter has that ordinal |
| `Alphabet.Spelling` | pls_core/src/alphabet.rs:54-63 | the table `PALI_ALPHABET_ROMAN` (the constant `Roman` lists it by ordinal): every spelling has one or two characters; it has two exactly when the previous letter is one of the ten aspirable bases, and then the second character is `h` |
| `Alphabet.IsCompoundLetterOrdinal` | pls_core/src/alphabet.rs:237-246 | the ten aspirable bases `PALI_ALPHABET_ROMAN_COMPOUND_LETTERS_INDICES` lie between k and b; the index of h is the constant `CompoundingLetterOrdinal` |
| `Alphabet.Aspirate` | pls_core/src/alphabet.rs:54-63 | the aspirate of a base is the next letter; it is not itself aspirable; its spelling is the base's spelling followed by `h` |
| `Alphabet.AlphabetLength` | pls_core/src/alphabet.rs:229-235 | the table has 41 spellings; the last letter ṃ has ordinal 40; 40 converts to a letter and 41 does not |
| `Tokenizer.Classify` | pls_core/src/alphabet.rs:144-216 | the match of `next`, one arm per character: an arm that needs look-ahead pairs an aspirable base with the next letter, its aspirate |
| `Tokenizer.ClassifyAgrees` | pls_core/src/alphabet.rs:143-218 | every arm of the match in `next` agrees with the spelling table. A single-letter arm yields the letter spelled by that character alone, which is not aspirable. A base arm yields the base spelled by that character and, as its partner, the base's aspirate. |
| `Tokenizer.ClassifySpellingHead` | pls_core/src/alphabet.rs:143-218 | the first character of each letter's spelling selects that letter in the match. For an aspirable base or an aspirate, it selects the pair the letter belongs to. |
| `Tokenizer.UnknownIffNoSpelling` | pls_core/src/alphabet.rs:216 | a character falls through to `Other` exactly when no spelling in the table starts with it |
| `Tokenizer.SpellingStartsWithH` | pls_core/src/alphabet.rs:54-63 | the only spelling that starts with `h` is that of the letter h |
| `Tokenizer.ParseSinglecharLetter` | pls_core/src/alphabet.rs:136-138 | the glyph is the letter itself; no further character is looked at |
| `Tokenizer.MulticharLetter` | pls_core/src/alphabet.rs:122-134 | one extra character (an `h`) is consumed exactly when the next character is `h` |
| `Tokenizer.Text` | pls_core/src/alphabet.rs:65-69 | the characters a glyph (`Character`: a letter or any other character) stands for; every glyph stands for one or two characters |
| `Tokenizer.Scan` | pls_core/src/alphabet.rs:143-218 | one call of `next` on a non-empty input consumes one or two characters, never more than there are |
| `Tokenizer.ScanText` | pls_core/src/alphabet.rs:143-218 | the characters one call of `next` consumes are exactly those its glyph stands for |
| `Tokenizer.ScanLongestMatch` | pls_core/src/alphabet.rs:143-218 | `next` yields `Other` exactly when no spelling starts the input. Otherwise it takes the longest spelling that starts the input. |
| `Tokenizer.ScanSpelling` | pls_core/src/alphabet.rs:122-138 | a letter's spelling at the front of the input is read back as that letter, consuming the whole spelling. The one exception is an aspirable base directly followed by `h`. |
| `Tokenizer.ScanBaseThenH` | pls_core/src/alphabet.rs:122-134 | an aspirable base followed by `h` is always read as its aspirate, whatever follows |
| `Tokenizer.Tokenize` | pls_core/src/alphabet.rs:140-219 | the glyph stream has at most as many glyphs as the input has characters, and at least half as many |
| `Tokenizer.TokenizeStep` | pls_core/src/alphabet.rs:143-218 | the stream is the first glyph followed by the stream of the rest. The first glyph consumes as many characters as it stands for. |
| `Tokenizer.ScanAt` | pls_core/src/alphabet.rs:143-218 | one call of `next` at any position of a source removes the first glyph from the stream still to come, and advances past exactly the characters that glyph stands for |
| `Tokenizer.RenderTokenize` | pls_core/src/alphabet.rs:140-219 | tokenizing loses no character: the glyphs spell the input back exactly |
| `Tokenizer.TokenizeSpellingThen` | pls_core/src/alphabet.rs:122-138 | a spelling at the front of the input becomes its letter, followed by the stream of the rest, unless an aspirable base is followed by `h` |
| `Tokenizer.TokenizeSpelling` | pls_core/src/alphabet.rs:350-360 | each spelling on its own tokenizes to exactly its letter |
| `Tokenizer.TokenizeOtherThen` | pls_core/src/alphabet.rs:216 | a character that starts no spelling becomes `Other`, followed by the stream of the rest |
| `Tokenizer.Spell` | pls_core/src/alphabet.rs:366-369 | the spellings of a letter sequence, concatenated: at least one and at most two characters per letter |
| `Tokenizer.TokenizeSpell` | pls_core/src/alphabet.rs:362-375 | the spellings of any letter sequence tokenize back to those letters, provided no aspirable base is directly followed by h |
| `Tokenizer.CharacterTokenizer.constructor` | pls_core/src/alphabet.rs:114-120 | a new tokenizer is at the start of its source and has the whole stream still to produce |
| `Tokenizer.CharacterTokenizer.ParseMulticharLetter` | pls_core/src/alphabet.rs:122-134 | peeks at the next character, consumes it only when it is `h`, and returns the aspirate in that case and the base otherwise |
| `Tokenizer.CharacterTokenizer.Next` | pls_core/src/alphabet.rs:143-218 | returns `None` exactly at the end of the input. Otherwise it returns the next glyph of the stream and advances past exactly the characters that glyph stands for. |
| `Tokenizer.Collect` | pls_core/src/alphabet.rs:272-277 | draining the tokenizer yields exactly the glyph stream |
| `Tokenizer.NoSpellingStartsWithX` | pls_core/src/alphabet.rs:216 | `x` starts no spelling |
| `Tokenizer.ParseLeadingX` | pls_core/src/alphabet.rs:272-286 | the `x` at the head of "xā1b" is passed through |
| `Tokenizer.ParseAfterX` | pls_core/src/alphabet.rs:272-286 | "ā1b" tokenizes to ā, `1`, b |
| `Tokenizer.ParseWithNonPaliCharacter` | pls_core/src/alphabet.rs:271-287 | "xā1b" tokenizes to `Other('x')`, ā, `Other('1')`, b |
| `Collation.Sign` | pls_core/src/alphabet.rs:75-82 | `signum`: -1, 0 or 1, with the sign of its argument |
| `Collation.CharCompare` | pls_core/src/alphabet.rs:75-82 | the result is -1, 0 or 1, and it is 0 exactly for equal glyphs |
| `Collation.CollationKey` | pls_core/src/alphabet.rs:75-82 | letters take the keys below 41 and every other character a key from 41 up |
| `Collation.CharCompareByKey` | pls_core/src/alphabet.rs:75-82 | `char_compare` is the sign of the key difference. Letters compare by ordinal and come before every other character; other characters compare by code point. |
| `Collation.CollationKeyInjective` | pls_core/src/alphabet.rs:75-82 | different glyphs have different keys, so the glyph order is total |
| `Collation.CharCompareAntisymmetric` | pls_core/src/alphabet.rs:75-82 | swapping the glyphs negates the result |
| `Collation.CharCompareTransitive` | pls_core/src/alphabet.rs:75-82 | "before" on glyphs is transitive |
| `Collation.PairwiseCompare` | pls_core/src/alphabet.rs:88-91 | every pairwise comparison is -1, 0 or 1 |
| `Collation.FindNonZero` | pls_core/src/alphabet.rs:88-91 | `find` yields nothing exactly when every comparison is 0. Otherwise it yields the first non-zero comparison: every comparison before it is 0. |
| `Collation.GlyphCompare` | pls_core/src/alphabet.rs:88-105 | the comparison of two glyph sequences is -1, 0 or 1 |
| `Collation.StringCompare` | pls_core/src/alphabet.rs:84-106 | the comparison of two strings is -1, 0 or 1 |
| `Collation.LexCompare` | pls_core/src/alphabet.rs:84-106 | the reference lexicographic order gives -1, 0 or 1 |
| `Collation.PairwiseCompareCons` | pls_core/src/alphabet.rs:88-90 | zipping two non-empty sequences compares their heads first, then zips their tails |
| `Collation.GlyphCompareIsLex` | pls_core/src/alphabet.rs:88-105 | first non-zero comparison, with the glyph-count tie-break, is exactly lexicographic order |
| `Collation.LexAntisymmetric` | pls_core/src/alphabet.rs:84-106 | lexicographic order is antisymmetric |
| `Collation.LexZeroIffEqual` | pls_core/src/alphabet.rs:84-106 | lexicographic comparison gives 0 exactly for equal sequences |
| `Collation.LexTransitive` | pls_core/src/alphabet.rs:84-106 | lexicographic "before" is transitive |
| `Collation.StringCompareIsLex` | pls_core/src/alphabet.rs:84-106 | `string_compare` is lexicographic order on the strings' glyph streams |
| `Collation.StringCompareAntisymmetric` | pls_core/src/alphabet.rs:84-106 | swapping the strings negates the result |
| `Collation.StringCompareZeroIffEqual` | pls_core/src/alphabet.rs:84-106 | two strings compare equal exactly when they are the same string |
| `Collation.StringCompareTransitive` | pls_core/src/alphabet.rs:84-106 | "before" on strings is transitive |
| `Collation.StringCompareSpellings` | pls_core/src/alphabet.rs:329-338 | for all i, j below 41, comparing spellings i and j gives the sign of i − j |
| `Collation.LetterBeforeOther` | pls_core/src/alphabet.rs:79-80 | a string starting with a letter's spelling comes before any string whose first character starts no spelling |
| `Collation.StringLength` | pls_core/src/alphabet.rs:108-112 | draining the tokenizer counts the glyphs of the stream. The count is at most the number of characters and at least half of it. |
| `Collation.FirstLettersDecide` | pls_core/src/alphabet.rs:84-95 | strings starting with different letters are ordered by those letters, whatever follows |
| `Collation.SameFirstLetter` | pls_core/src/alphabet.rs:84-106 | a common first letter does not decide; the rest of the strings do |
| `Collation.CompareExamplesPrefix` | pls_core/src/alphabet.rs:297-301 | "c" < "cc" and "cc" > "c" |
| `Collation.CompareExamplesLetters` | pls_core/src/alphabet.rs:298-300 | "c" < "b" and "b" > "c": c comes before b in the alphabet |
| `Collation.CompareExamplesFirstLetters` | pls_core/src/alphabet.rs:315-316 | "i" > "ā" and "cc" < "b" |
| `Collation.GlyphsOfAcAndAb` | pls_core/src/alphabet.rs:302-304 | "ac" and "ab" tokenize to a-c and a-b |
| `Collation.CompareExamplesWords` | pls_core/src/alphabet.rs:302-304 | "ac" < "ab" and "ab" > "ac" |
| `Collation.CompareExamplesLetterFirst` | pls_core/src/alphabet.rs:305-306 | "a" < "x" and "x" > "a" |
| `Collation.CompareExamplesWordLetterFirst` | pls_core/src/alphabet.rs:310-311 | "xabc" > "aabc" and "aabc" < "xabc" |
| `Collation.CompareExamplesYBeforeX` | pls_core/src/alphabet.rs:312-314 | "xabc" > "yabc" and "yabc" < "xabc", because y is a letter |
| `Collation.CompareExamplesOther` | pls_core/src/alphabet.rs:307-309 | "x" < "z" and "z" > "x", by code point |
| `Collation.CompareExamplesEqual` | pls_core/src/alphabet.rs:299-313 | "c", "ac", "x" and "xabc" each compare equal to themselves |
| `Collation.StringLengthBuddho` | pls_core/src/alphabet.rs:321 | "buddho" has 5 glyphs |
| `Collation.StringLengthBhagava` | pls_core/src/alphabet.rs:322 | "bhagavā" has 6 glyphs |
| `Collation.StringLengthAllLetters` | pls_core/src/alphabet.rs:323 | the 41 spellings written one after the other are 41 glyphs |
| `RoundTrip.AsLetters` | pls_core/src/alphabet.rs:363-368 | indices below 41 are letters, unchanged |
| `RoundTrip.FixupStep` | pls_core/src/alphabet.rs:251-265 | after a step the fold has seen the new index and has produced at least one index |
| `RoundTrip.FixupFold` | pls_core/src/alphabet.rs:248-268 | the fold remembers the last index given; it produces no more indices than it is given, and at least one when it is given any |
| `RoundTrip.FixupCompoundLetters` | pls_core/src/alphabet.rs:248-268 | the fix-up never lengthens the index list |
| `RoundTrip.FixupKeepsInvariant` | pls_core/src/alphabet.rs:248-268 | for indices below 41, the output indices are below 41 and no base among them is followed by h. The last output is the last input, or else the last input was an h and the last output is no base. |
| `RoundTrip.FixupIdentity` | pls_core/src/alphabet.rs:248-268 | indices where no base is followed by h are left unchanged |
| `RoundTrip.FixupWithNoCompoundLetters` | pls_core/src/alphabet.rs:289-295 | 0, 1, 2 is left unchanged |
| `RoundTrip.FixupFoldSnoc` | pls_core/src/alphabet.rs:248-268 | the fold takes one more index by one more step |
| `RoundTrip.FixupMergesFirstH` | pls_core/src/alphabet.rs:340-349 | in 0, b, h the h is merged into the base b |
| `RoundTrip.FixupWithCompoundLetters` | pls_core/src/alphabet.rs:340-349 | for every aspirable base b, 0, b, h, h, i, h becomes 0, aspirate of b, h, i, h |
| `RoundTrip.SpellSnoc` | pls_core/src/alphabet.rs:366-369 | spelling one more letter appends its spelling |
| `RoundTrip.SpellAspirateLast` | pls_core/src/alphabet.rs:54-63 | spelling the aspirate in place of a final base adds an h |
| `RoundTrip.AppendKeepsSpelling` | pls_core/src/alphabet.rs:260 | pushing an index appends its spelling |
| `RoundTrip.MergeKeepsSpelling` | pls_core/src/alphabet.rs:254-258 | bumping a final base to its aspirate appends an h to the spelling |
| `RoundTrip.FixupStepKeepsSpelling` | pls_core/src/alphabet.rs:251-266 | each step of the fold adds to the spelling exactly the spelling of the index it is given |
| `RoundTrip.FixupKeepsSpelling` | pls_core/src/alphabet.rs:248-268 | for every list of indices below 41, the fixed-up indices spell the same string: the fix-up only regroups characters |
| `RoundTrip.SpellingReadsBackFixedUp` | pls_core/src/alphabet.rs:362-375 | for every list of indices below 41, tokenizing their spelling reads back exactly their fix-up |
| `RoundTrip.Ordinals` | pls_core/src/alphabet.rs:372 | reading glyphs back as ordinals succeeds exactly when every glyph is a letter, and then gives one ordinal per glyph |
| `RoundTrip.OrdinalsOfLetters` | pls_core/src/alphabet.rs:372 | reading back the glyphs of letters gives their ordinals |
| `RoundTrip.RoundTripParsingForLongStrings` | pls_core/src/alphabet.rs:362-375 | for every list of indices below 41, spell the fixed-up indices and tokenize the result. Every glyph is a letter, and the ordinals read back are the fixed-up indices. |
| `RoundTrip.BaseThenHIsAspirate` | pls_core/src/alphabet.rs:122-134 | without the fix-up the round trip fails: k followed by h reads back as the single letter kh |
| `RoundTrip.RoundTripPaliToRoman` | pls_core/src/alphabet.rs:350-360 | every ordinal below 41 converts to a letter with that ordinal, and that letter's spelling tokenizes to exactly that letter |
| `RoundTrip.SpellingsDistinct` | pls_core/src/alphabet.rs:54-63 | no two letters share a spelling |

## Left out

- Laziness of `Peekable<Chars>` and of the iterator adaptors. The tokenizer is modelled on a string and a position, and `count`/`collect` drain it in a loop. `zip`, `map` and `find` are the sequence functions `PairwiseCompare` and `FindNonZero` over the whole glyph streams. Because nothing else observes the source, order and results are the same.
- Collation.StringCompare: does not model the panic of `isize::try_from(..).unwrap()`. It would occur for glyph counts above `isize::MAX`, which no string in memory reaches. Counts are unbounded integers.
- Collation.StringCompare: the two glyph counts it falls back on are taken from the streams it already compares. The source re-tokenizes each string through `string_length`, which produces the same stream.
- Collation.StringLengthAllLetters: states the count for the concatenation of the 41 spellings in table order. The listed test string is that concatenation. It is not compared with it character by character.
- Unicode handling: characters are Unicode scalar values, as Rust's `char`, and there is no normalisation. A decomposed ā (a followed by a combining macron) is two characters, the second passed through as `Other`, as in the source.
- The randomised test drivers. The lemmas hold for every input in the ranges those tests draw from. There is no 100-element bound on the index lists.
- Derived traits (`Debug`, `Clone`, `Copy`, `Eq`, `Ord`) and the `num_enum` conversions. The conversion to `usize` is the identity on ordinals, and conversion from `usize` is `TryFromOrdinal`.
