/** Round trips between letter indices, their Roman spellings and the
    tokenizer, including the fix-up that merges a base consonant and a
    following h into the aspirate before spelling. */
module RoundTrip {
  import opened Alphabet
  import opened Tokenizer

  /** Every index names a letter. */
  predicate InAlphabet(indices: seq<nat>) {
    forall k :: 0 <= k < |indices| ==> indices[k] < AlphabetSize
  }

  /** The letters the indices name. */
  function AsLetters(indices: seq<nat>): (xs: seq<Symbol>)
    requires InAlphabet(indices)
    ensures xs == indices
  {
    seq(|indices|, k requires 0 <= k < |indices| => indices[k] as Symbol)
  }

  /** The state of the fold in `fixup_compound_letters`: the index the fold
      saw last, as given, and the indices produced so far. */
  datatype FixupState = FixupState(previous: Option<nat>, acc: seq<nat>)

  /** One step of that fold: an h that follows an aspirable base is merged
      into it by turning the last index produced into the next one (the
      aspirate); any other index is appended. The comparison is with the
      previous index as given, not as produced. */
  function FixupStep(st: FixupState, e: nat): (r: FixupState)
    requires st.previous.Some? ==> st.acc != []
    ensures r.previous == Some(e) && r.acc != []
  {
    match st.previous
    case Some(ep) =>
      if e == CompoundingLetterOrdinal && IsCompoundLetterOrdinal(ep) then
        var i := |st.acc| - 1;
        FixupState(Some(e), st.acc[i := st.acc[i] + 1])
      else
        FixupState(Some(e), st.acc + [e])
    case None => FixupState(Some(e), st.acc + [e])
  }

  /** The fold over `indices`, from the left. */
  function FixupFold(indices: seq<nat>): (r: FixupState)
    ensures r.previous.Some? <==> indices != []
    ensures r.previous.Some? ==> r.previous.value == indices[|indices| - 1] && r.acc != []
    ensures |r.acc| <= |indices|
  {
    if indices == [] then FixupState(None, [])
    else FixupStep(FixupFold(indices[..|indices| - 1]), indices[|indices| - 1])
  }

  /** `fixup_compound_letters`. */
  function FixupCompoundLetters(indices: seq<nat>): (r: seq<nat>)
    ensures |r| <= |indices|
  {
    FixupFold(indices).acc
  }

  /** What the fold keeps true: the indices produced name letters, no base is
      followed by h among them, and the last one produced is the last one
      given, or else the last one given was an h merged into an aspirate. */
  predicate FixupInvariant(indices: seq<nat>, acc: seq<nat>) {
    && InAlphabet(acc)
    && NoBaseThenH(acc)
    && (indices != [] ==>
          && acc != []
          && (|| acc[|acc| - 1] == indices[|indices| - 1]
              || (indices[|indices| - 1] == CompoundingLetterOrdinal && !IsCompoundLetterOrdinal(acc[|acc| - 1]))))
  }

  lemma {:induction false} FixupKeepsInvariant(indices: seq<nat>)
    requires InAlphabet(indices)
    ensures FixupInvariant(indices, FixupCompoundLetters(indices))
  {
    if indices != [] {
      var n := |indices|;
      var front := indices[..n - 1];
      assert InAlphabet(front) by {
        forall k | 0 <= k < |front| ensures front[k] < AlphabetSize {
          assert front[k] == indices[k];
        }
      }
      FixupKeepsInvariant(front);
    }
  }

  /** The fix-up changes nothing when no base is followed by h. */
  lemma {:induction false} FixupIdentity(indices: seq<nat>)
    requires NoBaseThenH(indices)
    ensures FixupCompoundLetters(indices) == indices
  {
    if indices != [] {
      var n := |indices|;
      var front := indices[..n - 1];
      assert NoBaseThenH(front) by {
        forall k | 0 <= k < |front| - 1
          ensures !(IsCompoundLetterOrdinal(front[k]) && front[k + 1] == CompoundingLetterOrdinal)
        {
          assert front[k] == indices[k] && front[k + 1] == indices[k + 1];
        }
      }
      FixupIdentity(front);
      assert front + [indices[n - 1]] == indices;
    }
  }

  /** `fixup_compound_letters_with_no_compound_letters`: indices with no
      compound letter stay as they are. */
  lemma FixupWithNoCompoundLetters()
    ensures FixupCompoundLetters([0, 1, 2]) == [0, 1, 2]
  {
    FixupIdentity([0, 1, 2]);
  }

  /** The fold takes one more index by one more step. */
  lemma FixupFoldSnoc(indices: seq<nat>, e: nat)
    ensures FixupFold(indices + [e]) == FixupStep(FixupFold(indices), e)
  {
    assert (indices + [e])[..|indices|] == indices;
  }

  /** The first h after the base b is merged into it. */
  lemma FixupMergesFirstH(b: nat)
    requires IsCompoundLetterOrdinal(b)
    ensures FixupFold([0, b, 38]) == FixupState(Some(38), [0, b + 1])
  {
    var xs1 := [] + [0];
    var xs2 := xs1 + [b];
    FixupFoldSnoc([], 0);
    FixupFoldSnoc(xs1, b);
    FixupFoldSnoc(xs2, 38);
    assert xs2 + [38] == [0, b, 38];
  }

  /** `fixup_compound_letters_with_compound_letters`: in 0, b, h, h, i, h,
      for each base b, only the h right after b is merged into it. */
  lemma FixupWithCompoundLetters(b: nat)
    requires IsCompoundLetterOrdinal(b)
    ensures FixupCompoundLetters([0, b, 38, 38, 2, 38]) == [0, b + 1, 38, 2, 38]
  {
    var xs3 := [0, b, 38];
    var xs4 := xs3 + [38];
    var xs5 := xs4 + [2];
    FixupMergesFirstH(b);
    FixupFoldSnoc(xs3, 38);
    FixupFoldSnoc(xs4, 2);
    FixupFoldSnoc(xs5, 38);
    assert xs5 + [38] == [0, b, 38, 38, 2, 38];
  }

  /** The ordinals of the glyphs, as the round-trip checks read them back:
      `None` when a glyph is not a letter (the check then fails). */
  function Ordinals(gs: seq<Character>): (r: Option<seq<nat>>)
    ensures r.Some? <==> forall k :: 0 <= k < |gs| ==> gs[k].Pali?
    ensures r.Some? ==> |r.value| == |gs|
  {
    if gs == [] then Some([])
    else match (gs[0], Ordinals(gs[1..]))
      case (Pali(x), Some(rest)) => Some([x as nat] + rest)
      case _ => None
  }

  /** Reading back the glyphs of letters gives their ordinals. */
  lemma {:induction false} OrdinalsOfLetters(xs: seq<Symbol>)
    ensures Ordinals(PaliGlyphs(xs)) == Some(xs)
  {
    if xs != [] {
      assert PaliGlyphs(xs)[1..] == PaliGlyphs(xs[1..]);
      OrdinalsOfLetters(xs[1..]);
      assert [xs[0] as nat] + xs[1..] == xs;
    }
  }

  /** Spelling out letters and tokenizing the result gives the letters back,
      once the fix-up has merged every base followed by h. */
  lemma RoundTripParsingForLongStrings(indices: seq<nat>)
    requires InAlphabet(indices)
    ensures InAlphabet(FixupCompoundLetters(indices))
    ensures var fixed := FixupCompoundLetters(indices);
      Ordinals(Tokenize(Spell(AsLetters(fixed)))) == Some(fixed)
  {
    var fixed := FixupCompoundLetters(indices);
    FixupKeepsInvariant(indices);
    var xs := AsLetters(fixed);
    assert NoBaseThenH(xs);
    TokenizeSpell(xs);
    OrdinalsOfLetters(xs);
  }

  /** Spelling one more letter appends its spelling. */
  lemma {:induction false} SpellSnoc(xs: seq<Symbol>, x: Symbol)
    ensures Spell(xs + [x]) == Spell(xs) + Spelling(x)
  {
    if xs != [] {
      assert (xs + [x])[1..] == xs[1..] + [x];
      SpellSnoc(xs[1..], x);
    }
  }

  /** Appending an index appends its spelling. */
  lemma AppendKeepsSpelling(acc: seq<nat>, e: nat)
    requires InAlphabet(acc) && e < AlphabetSize
    ensures InAlphabet(acc + [e])
    ensures Spell(AsLetters(acc + [e])) == Spell(AsLetters(acc)) + Spelling(e)
  {
    assert AsLetters(acc + [e]) == AsLetters(acc) + [e];
    SpellSnoc(AsLetters(acc), e);
  }

  /** Spelling an aspirate in place of its base adds an h. */
  lemma SpellAspirateLast(init: seq<Symbol>, ep: Symbol)
    requires IsCompoundLetterOrdinal(ep)
    ensures Spell(init + [Aspirate(ep)]) == Spell(init + [ep]) + Spelling(H)
  {
    SpellSnoc(init, ep);
    SpellSnoc(init, Aspirate(ep));
    var front := Spell(init);
    assert front + (Spelling(ep) + Spelling(H)) == (front + Spelling(ep)) + Spelling(H);
  }

  /** Turning a last base into its aspirate appends an h to the spelling. */
  lemma MergeKeepsSpelling(acc: seq<nat>, ep: nat)
    requires InAlphabet(acc) && acc != [] && acc[|acc| - 1] == ep && IsCompoundLetterOrdinal(ep)
    ensures InAlphabet(acc[|acc| - 1 := ep + 1])
    ensures Spell(AsLetters(acc[|acc| - 1 := ep + 1])) == Spell(AsLetters(acc)) + Spelling(H)
  {
    var i := |acc| - 1;
    var init := AsLetters(acc[..i]);
    assert AsLetters(acc) == init + [ep];
    assert AsLetters(acc[i := ep + 1]) == init + [Aspirate(ep)];
    SpellAspirateLast(init, ep);
  }

  /** One step of the fold appends the spelling of the index it is given:
      a merged h turns the last letter into its aspirate, which is spelled
      with that h. */
  lemma FixupStepKeepsSpelling(st: FixupState, e: nat)
    requires st.previous.Some? ==> st.acc != []
    requires InAlphabet(st.acc) && e < AlphabetSize
    requires st.previous.Some? && IsCompoundLetterOrdinal(st.previous.value) ==> st.acc[|st.acc| - 1] == st.previous.value
    ensures InAlphabet(FixupStep(st, e).acc)
    ensures Spell(AsLetters(FixupStep(st, e).acc)) == Spell(AsLetters(st.acc)) + Spelling(e)
  {
    if st.previous.Some? && e == CompoundingLetterOrdinal && IsCompoundLetterOrdinal(st.previous.value) {
      MergeKeepsSpelling(st.acc, st.previous.value);
    } else {
      AppendKeepsSpelling(st.acc, e);
    }
  }

  /** The fix-up only regroups characters: the fixed-up indices spell the
      same string as the indices given. */
  lemma {:induction false} FixupKeepsSpelling(indices: seq<nat>)
    requires InAlphabet(indices)
    ensures InAlphabet(FixupCompoundLetters(indices))
    ensures Spell(AsLetters(FixupCompoundLetters(indices))) == Spell(AsLetters(indices))
  {
    if indices != [] {
      var n := |indices|;
      var front, e := indices[..n - 1], indices[n - 1];
      assert indices == front + [e];
      FixupKeepsSpelling(front);
      FixupKeepsInvariant(front);
      FixupStepKeepsSpelling(FixupFold(front), e);
      assert AsLetters(indices) == AsLetters(front) + [e];
      SpellSnoc(AsLetters(front), e);
    }
  }

  /** For every list of indices: spelling them and tokenizing the result
      gives back their fix-up. */
  lemma SpellingReadsBackFixedUp(indices: seq<nat>)
    requires InAlphabet(indices)
    ensures Ordinals(Tokenize(Spell(AsLetters(indices)))) == Some(FixupCompoundLetters(indices))
  {
    FixupKeepsSpelling(indices);
    RoundTripParsingForLongStrings(indices);
  }

  /** Without the fix-up the round trip fails: k followed by h is read back
      as the single letter kh. */
  lemma BaseThenHIsAspirate()
    ensures Tokenize(Spell([K, H])) == [Pali(Kh)]
    ensures Ordinals(Tokenize(Spell([K, H]))) != Some([K, H])
  {
    var xs := [K, H];
    assert xs[1..] == [H] && [H][1..] == [];
    assert Spell([H]) == Spelling(H) + Spell([]) == "h";
    assert Spell(xs) == Spelling(K) + "h";
    ScanBaseThenH(K, "");
    assert Spelling(K) + "h" + "" == Spelling(K) + "h";
  }

  /** Each index names a letter, and that letter's spelling is read back as
      that letter alone. */
  lemma RoundTripPaliToRoman(index: nat)
    requires index < AlphabetSize
    ensures TryFromOrdinal(index).Some?
    ensures var x := TryFromOrdinal(index).value;
      x as nat == index && Tokenize(Roman[x]) == [Pali(x)]
  {
    TokenizeSpelling(index);
  }

  /** No two letters share a spelling. */
  lemma SpellingsDistinct(i: nat, j: nat)
    requires i < AlphabetSize && j < AlphabetSize && Roman[i] == Roman[j]
    ensures i == j
  {
    RoundTripPaliToRoman(i);
    RoundTripPaliToRoman(j);
  }
}
