/** Stage 2 of `custom_transform`: synonym replacement. Every alphabetic token of length at
    least 3 is selected by a gate; a selected word is replaced by a pick among its WordNet
    synonyms, filtered and de-duplicated, and capitalised when the word starts upper case. */
module Synonyms {
  import opened Text
  import opened Oracle

  /** WordNet as seen by the stage: for a lower-cased word, its synsets, each given by the
      names of its lemmas in order. */
  type Lexicon = string -> seq<seq<string>>

  /** `lemma.name().replace('_', ' ')`. */
  function UnderscoresToSpaces(name: string): (r: string)
    ensures |r| == |name|
    ensures forall i | 0 <= i < |name| :: r[i] == (if name[i] == '_' then ' ' else name[i])
  {
    seq(|name|, i requires 0 <= i < |name| => if name[i] == '_' then ' ' else name[i])
  }

  /** The filter applied to each renamed lemma: not the word itself, ignoring case, and a single
      word. */
  predicate Admissible(synonym: string, wordLower: string) {
    LowerStr(synonym) != wordLower && |Split(synonym)| == 1
  }

  /** The admissible renamed lemmas of one synset, in order. */
  function LemmaSynonyms(lemmas: seq<string>, wordLower: string): seq<string>
    decreases |lemmas|
  {
    if lemmas == [] then []
    else
      var synonym := UnderscoresToSpaces(lemmas[|lemmas| - 1]);
      LemmaSynonyms(lemmas[..|lemmas| - 1], wordLower) + (if Admissible(synonym, wordLower) then [synonym] else [])
  }

  /** The `synonyms` list: the admissible renamed lemmas of all synsets, synset by synset. */
  function CollectedSynonyms(synsets: seq<seq<string>>, wordLower: string): seq<string>
    decreases |synsets|
  {
    if synsets == [] then []
    else CollectedSynonyms(synsets[..|synsets| - 1], wordLower) + LemmaSynonyms(synsets[|synsets| - 1], wordLower)
  }

  /** The `unique_synonyms` list the replacement is picked from. */
  function Candidates(wordLower: string, synsets: seq<seq<string>>): seq<string>
  {
    DedupByLower(CollectedSynonyms(synsets, wordLower))
  }

  /** `v` is a renamed lemma of one of the synsets. */
  predicate FromSynsets(v: string, synsets: seq<seq<string>>) {
    exists s, l | 0 <= s < |synsets| && 0 <= l < |synsets[s]| :: v == UnderscoresToSpaces(synsets[s][l])
  }

  /** The tokens the stage may replace. */
  predicate Eligible(w: string) {
    IsAlphaWord(w) && |w| >= 3
  }

  /** The chosen synonym in the case of the replaced word: `capitalize()` when the word starts
      upper case, as stored otherwise. */
  function MatchCase(word: string, synonym: string): string
    requires word != []
  {
    if IsUpper(word[0]) then Capitalize(synonym) else synonym
  }

  /** One token through the synonym stage. */
  function SynonymWord(w: string, lex: Lexicon, rng: Stream): (string, Stream)
  {
    if !Eligible(w) then (w, rng)
    else
      var (selected, r1) := NextGate(rng);
      if !selected then (w, r1)
      else
        var synsets := lex(LowerStr(w));
        if synsets == [] then (w, r1)
        else
          var candidates := Candidates(LowerStr(w), synsets);
          if candidates == [] then (w, r1)
          else
            var (k, r2) := NextPick(r1, |candidates|);
            (MatchCase(w, candidates[k]), r2)
  }

  /** The synonym stage over a token list. */
  function SynonymPass(words: seq<string>, lex: Lexicon, rng: Stream): (seq<string>, Stream)
    decreases |words|
  {
    if words == [] then ([], rng)
    else
      var (done, r) := SynonymPass(words[..|words| - 1], lex, rng);
      var (w, r') := SynonymWord(words[|words| - 1], lex, r);
      (done + [w], r')
  }

  /** `v` is what the stage may make of `w`: `w` itself, or, for an eligible word, one of its
      candidates in the word's case. */
  predicate SynonymOf(w: string, v: string, lex: Lexicon) {
    v == w || (Eligible(w) && exists c | c in Candidates(LowerStr(w), lex(LowerStr(w))) :: v == MatchCase(w, c))
  }

  lemma {:induction false} LemmaSynonymsSpec(lemmas: seq<string>, wordLower: string)
    ensures forall i | 0 <= i < |LemmaSynonyms(lemmas, wordLower)| ::
      Admissible(LemmaSynonyms(lemmas, wordLower)[i], wordLower) &&
      exists l | 0 <= l < |lemmas| :: LemmaSynonyms(lemmas, wordLower)[i] == UnderscoresToSpaces(lemmas[l])
    ensures forall l | 0 <= l < |lemmas| && Admissible(UnderscoresToSpaces(lemmas[l]), wordLower) ::
      UnderscoresToSpaces(lemmas[l]) in LemmaSynonyms(lemmas, wordLower)
    decreases |lemmas|
  {
    if lemmas != [] {
      var init := lemmas[..|lemmas| - 1];
      LemmaSynonymsSpec(init, wordLower);
      var r := LemmaSynonyms(lemmas, wordLower);
      var prev := LemmaSynonyms(init, wordLower);
      forall i | 0 <= i < |r|
        ensures Admissible(r[i], wordLower) && exists l | 0 <= l < |lemmas| :: r[i] == UnderscoresToSpaces(lemmas[l])
      {
        if i < |prev| {
          assert r[i] == prev[i];
          var l :| 0 <= l < |init| && prev[i] == UnderscoresToSpaces(init[l]);
          assert init[l] == lemmas[l];
        } else {
          assert r[i] == UnderscoresToSpaces(lemmas[|lemmas| - 1]);
        }
      }
      forall l | 0 <= l < |lemmas| && Admissible(UnderscoresToSpaces(lemmas[l]), wordLower)
        ensures UnderscoresToSpaces(lemmas[l]) in r
      {
        if l < |init| {
          assert init[l] == lemmas[l];
        }
      }
    }
  }

  /** Every admissible renamed lemma of every synset is collected. */
  lemma {:induction false} CollectedSynonymsComplete(synsets: seq<seq<string>>, wordLower: string)
    ensures forall s, l | 0 <= s < |synsets| && 0 <= l < |synsets[s]| &&
      Admissible(UnderscoresToSpaces(synsets[s][l]), wordLower) ::
      UnderscoresToSpaces(synsets[s][l]) in CollectedSynonyms(synsets, wordLower)
    decreases |synsets|
  {
    if synsets != [] {
      var init := synsets[..|synsets| - 1];
      var last := synsets[|synsets| - 1];
      CollectedSynonymsComplete(init, wordLower);
      LemmaSynonymsSpec(last, wordLower);
      var prev := CollectedSynonyms(init, wordLower);
      var r := CollectedSynonyms(synsets, wordLower);
      assert r == prev + LemmaSynonyms(last, wordLower);
      forall s, l | 0 <= s < |synsets| && 0 <= l < |synsets[s]| &&
        Admissible(UnderscoresToSpaces(synsets[s][l]), wordLower)
        ensures UnderscoresToSpaces(synsets[s][l]) in r
      {
        if s < |init| {
          assert synsets[s] == init[s];
          assert UnderscoresToSpaces(init[s][l]) in prev;
        } else {
          assert UnderscoresToSpaces(last[l]) in LemmaSynonyms(last, wordLower);
        }
      }
    }
  }

  /** Every collected synonym is admissible and a renamed lemma of one of the synsets; every
      admissible one is collected. */
  lemma {:induction false} CollectedSynonymsSpec(synsets: seq<seq<string>>, wordLower: string)
    ensures forall i | 0 <= i < |CollectedSynonyms(synsets, wordLower)| ::
      Admissible(CollectedSynonyms(synsets, wordLower)[i], wordLower) &&
      FromSynsets(CollectedSynonyms(synsets, wordLower)[i], synsets)
    ensures forall s, l | 0 <= s < |synsets| && 0 <= l < |synsets[s]| &&
      Admissible(UnderscoresToSpaces(synsets[s][l]), wordLower) ::
      UnderscoresToSpaces(synsets[s][l]) in CollectedSynonyms(synsets, wordLower)
    decreases |synsets|
  {
    CollectedSynonymsComplete(synsets, wordLower);
    if synsets != [] {
      var init := synsets[..|synsets| - 1];
      var last := synsets[|synsets| - 1];
      CollectedSynonymsSpec(init, wordLower);
      LemmaSynonymsSpec(last, wordLower);
      var r := CollectedSynonyms(synsets, wordLower);
      var prev := CollectedSynonyms(init, wordLower);
      forall i | 0 <= i < |r|
        ensures Admissible(r[i], wordLower) && FromSynsets(r[i], synsets)
      {
        if i < |prev| {
          assert r[i] == prev[i];
          var s, l :| 0 <= s < |init| && 0 <= l < |init[s]| && prev[i] == UnderscoresToSpaces(init[s][l]);
          assert init[s] == synsets[s];
        } else {
          assert r[i] == LemmaSynonyms(last, wordLower)[i - |prev|];
          var l :| 0 <= l < |last| && r[i] == UnderscoresToSpaces(last[l]);
          assert synsets[|synsets| - 1][l] == last[l];
        }
      }
    }
  }

  /** Every candidate is a renamed lemma of one of the word's synsets, differs from the word
      ignoring case and is a single word; no two candidates are equal ignoring case; every
      admissible lemma is among the candidates up to case; the first of each case-insensitive
      group of admissible lemmas is kept; and the candidates keep first-seen order. */
  lemma CandidatesSpec(wordLower: string, synsets: seq<seq<string>>)
    ensures forall i | 0 <= i < |Candidates(wordLower, synsets)| ::
      var c := Candidates(wordLower, synsets)[i];
      LowerStr(c) != wordLower && |Split(c)| == 1 && FromSynsets(c, synsets)
    ensures forall i, j | 0 <= i < j < |Candidates(wordLower, synsets)| ::
      LowerStr(Candidates(wordLower, synsets)[i]) != LowerStr(Candidates(wordLower, synsets)[j])
    ensures LowerSet(Candidates(wordLower, synsets)) == LowerSet(CollectedSynonyms(synsets, wordLower))
    ensures forall s, l | 0 <= s < |synsets| && 0 <= l < |synsets[s]| &&
      Admissible(UnderscoresToSpaces(synsets[s][l]), wordLower) ::
      LowerStr(UnderscoresToSpaces(synsets[s][l])) in LowerSet(Candidates(wordLower, synsets))
    ensures var xs := CollectedSynonyms(synsets, wordLower);
      forall i | 0 <= i < |xs| && LowerStr(xs[i]) !in LowerSet(xs[..i]) :: xs[i] in Candidates(wordLower, synsets)
    ensures var xs := CollectedSynonyms(synsets, wordLower);
      forall i | 0 <= i <= |xs| :: DedupByLower(xs[..i]) <= Candidates(wordLower, synsets)
  {
    var xs := CollectedSynonyms(synsets, wordLower);
    CollectedSynonymsSpec(synsets, wordLower);
    DedupByLowerSpec(xs);
    forall s, l | 0 <= s < |synsets| && 0 <= l < |synsets[s]| &&
      Admissible(UnderscoresToSpaces(synsets[s][l]), wordLower)
      ensures LowerStr(UnderscoresToSpaces(synsets[s][l])) in LowerSet(Candidates(wordLower, synsets))
    {
      InLowerSet(xs, UnderscoresToSpaces(synsets[s][l]));
    }
  }

  /** One token: an ineligible token passes through without a draw; a failed gate leaves the word
      as it was; a passed gate with candidates always replaces the word by one of them in the
      word's case; and the result is always the word or such a candidate. */
  lemma SynonymWordSpec(w: string, lex: Lexicon, rng: Stream)
    ensures SynonymOf(w, SynonymWord(w, lex, rng).0, lex)
    ensures !Eligible(w) ==> SynonymWord(w, lex, rng) == (w, rng)
    ensures Eligible(w) && !NextGate(rng).0 ==> SynonymWord(w, lex, rng) == (w, NextGate(rng).1)
    ensures Eligible(w) && NextGate(rng).0 && Candidates(LowerStr(w), lex(LowerStr(w))) != [] ==>
      exists c | c in Candidates(LowerStr(w), lex(LowerStr(w))) :: SynonymWord(w, lex, rng).0 == MatchCase(w, c)
  {
    if Eligible(w) && NextGate(rng).0 && Candidates(LowerStr(w), lex(LowerStr(w))) != [] {
      var candidates := Candidates(LowerStr(w), lex(LowerStr(w)));
      assert lex(LowerStr(w)) != [];
      var k := NextPick(NextGate(rng).1, |candidates|).0;
      assert candidates[k] in candidates;
    }
  }

  /** The stage keeps the token count and order; every output token is its input token or one of
      that token's candidates, and every ineligible token comes out unchanged. */
  lemma {:induction false} SynonymPassSpec(words: seq<string>, lex: Lexicon, rng: Stream)
    ensures |SynonymPass(words, lex, rng).0| == |words|
    ensures forall i | 0 <= i < |words| :: SynonymOf(words[i], SynonymPass(words, lex, rng).0[i], lex)
    ensures forall i | 0 <= i < |words| && !Eligible(words[i]) :: SynonymPass(words, lex, rng).0[i] == words[i]
    decreases |words|
  {
    if words != [] {
      var init := words[..|words| - 1];
      SynonymPassSpec(init, lex, rng);
      SynonymWordSpec(words[|words| - 1], lex, SynonymPass(init, lex, rng).1);
      assert forall i | 0 <= i < |init| :: words[i] == init[i];
    }
  }

  /** With no gate passing (synonym probability 0) the stage leaves every token as it was. */
  lemma {:induction false} SynonymPassWithoutGates(words: seq<string>, lex: Lexicon, rng: Stream)
    requires NoGatePasses(rng)
    ensures SynonymPass(words, lex, rng).0 == words
    ensures NoGatePasses(SynonymPass(words, lex, rng).1)
    decreases |words|
  {
    if words != [] {
      var init := words[..|words| - 1];
      SynonymPassWithoutGates(init, lex, rng);
      AdvanceKeepsNoGatePasses(SynonymPass(init, lex, rng).1);
      assert words == init + [words[|words| - 1]];
    }
  }

  /** The nested loop that builds `synonyms` from the lemmas of every synset. */
  method CollectSynonyms(wordLower: string, synsets: seq<seq<string>>) returns (synonyms: seq<string>)
    ensures synonyms == CollectedSynonyms(synsets, wordLower)
  {
    synonyms := [];
    for s := 0 to |synsets|
      invariant synonyms == CollectedSynonyms(synsets[..s], wordLower)
    {
      var lemmas := synsets[s];
      for l := 0 to |lemmas|
        invariant synonyms == CollectedSynonyms(synsets[..s], wordLower) + LemmaSynonyms(lemmas[..l], wordLower)
      {
        assert lemmas[..l + 1][..l] == lemmas[..l];
        var synonym := UnderscoresToSpaces(lemmas[l]);
        if LowerStr(synonym) != wordLower && |Split(synonym)| == 1 {
          synonyms := synonyms + [synonym];
        }
      }
      assert lemmas[..|lemmas|] == lemmas;
      assert synsets[..s + 1][..s] == synsets[..s];
    }
    assert synsets[..|synsets|] == synsets;
  }

  /** The loop that builds `unique_synonyms`, keeping a `seen` set of lower-cased forms. */
  method UniqueSynonyms(synonyms: seq<string>) returns (unique: seq<string>)
    ensures unique == DedupByLower(synonyms)
  {
    var seen: set<string> := {};
    unique := [];
    for i := 0 to |synonyms|
      invariant unique == DedupByLower(synonyms[..i])
      invariant seen == LowerSet(synonyms[..i])
    {
      assert synonyms[..i + 1] == synonyms[..i] + [synonyms[i]];
      LowerSetSnoc(synonyms[..i], synonyms[i]);
      var key := LowerStr(synonyms[i]);
      if key !in seen {
        seen := seen + {key};
        unique := unique + [synonyms[i]];
      }
    }
    assert synonyms[..|synonyms|] == synonyms;
  }

  /** `replace_synonyms` on the token list. */
  method ReplaceSynonyms(words: seq<string>, lex: Lexicon, rng: Stream) returns (out: seq<string>, rest: Stream)
    ensures (out, rest) == SynonymPass(words, lex, rng)
  {
    out, rest := [], rng;
    for n := 0 to |words|
      invariant (out, rest) == SynonymPass(words[..n], lex, rng)
    {
      assert words[..n + 1][..n] == words[..n];
      var word := words[n];
      if !IsAlphaWord(word) || |word| < 3 {
        out := out + [word];
        continue;
      }
      var (selected, afterGate) := NextGate(rest);
      rest := afterGate;
      if selected {
        var wordLower := LowerStr(word);
        var synsets := lex(wordLower);
        if synsets != [] {
          var synonyms := CollectSynonyms(wordLower, synsets);
          var unique := UniqueSynonyms(synonyms);
          if unique != [] {
            var (k, afterPick) := NextPick(rest, |unique|);
            rest := afterPick;
            var replacement := unique[k];
            if IsUpper(word[0]) {
              replacement := Capitalize(replacement);
            }
            out := out + [replacement];
            continue;
          }
        }
      }
      out := out + [word];
    }
    assert words[..|words|] == words;
  }
}
