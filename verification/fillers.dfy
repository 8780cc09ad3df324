/** Stage 4 of `custom_transform`: filler and slang insertion. The text is split at runs of
    terminal punctuation; every non-blank sentence may get a filler phrase in front and a slang
    token before each intensity word; the sentences are joined again with single spaces. */
module Fillers {
  import opened Text
  import opened Oracle

  /** `FILLER_PHRASES`, the sentence prefixes. */
  const FillerPhrases: seq<string> := [
    "tbh", "imo", "imho", "ngl", "fr", "frfr", "lowkey", "highkey", "deadass", "no cap", "ong", "istg"
  ]

  /** The slang tokens inserted before an intensity word. */
  const SlangTokens: seq<string> := ["lowkey", "highkey", "fr", "ngl", "tbh", "deadass"]

  /** `intensity_words`. */
  const IntensityWords: seq<string> := [
    "very", "really", "extremely", "incredibly", "absolutely", "completely", "totally", "quite", "rather", "pretty"
  ]

  predicate IsTerminator(c: char) { c == '.' || c == '!' || c == '?' }

  predicate NoTerminator(s: string) { forall i | 0 <= i < |s| :: !IsTerminator(s[i]) }

  predicate AllTerminators(s: string) { forall i | 0 <= i < |s| :: IsTerminator(s[i]) }

  /** The terminal punctuation characters of `s`, in order. */
  function Terminators(s: string): string
  {
    if s == [] then [] else (if IsTerminator(s[0]) then [s[0]] else []) + Terminators(s[1..])
  }

  // ---------------------------------------------------------------------------------------
  // Sentence splitting: `re.split(r'([.!?]+)', text)` and the pairing loop.

  /** The first index at or after `i` holding terminal punctuation, or the end. */
  function SegmentEnd(t: string, i: nat): (j: nat)
    requires i <= |t|
    ensures i <= j <= |t|
    ensures NoTerminator(t[i..j])
    ensures j < |t| ==> IsTerminator(t[j])
    decreases |t| - i
  {
    if i == |t| || IsTerminator(t[i]) then i else SegmentEnd(t, i + 1)
  }

  /** The first index at or after `i` not holding terminal punctuation, or the end. */
  function RunEnd(t: string, i: nat): (j: nat)
    requires i <= |t|
    ensures i <= j <= |t|
    ensures AllTerminators(t[i..j])
    ensures j < |t| ==> !IsTerminator(t[j])
    decreases |t| - i
  {
    if i == |t| || !IsTerminator(t[i]) then i else RunEnd(t, i + 1)
  }

  /** `re.split(r'([.!?]+)', t)`: segments alternating with the maximal runs of terminal
      punctuation that separate them, starting and ending with a segment. */
  function SplitPieces(t: string): (ps: seq<string>)
    ensures |ps| % 2 == 1
    decreases |t|
  {
    var i := SegmentEnd(t, 0);
    if i == |t| then [t]
    else
      var j := RunEnd(t, i);
      [t[..i], t[i..j]] + SplitPieces(t[j..])
  }

  /** The pieces, concatenated, give back the text. */
  lemma {:induction false} SplitPiecesConcat(t: string)
    ensures Concat(SplitPieces(t)) == t
    decreases |t|
  {
    var i := SegmentEnd(t, 0);
    if i == |t| {
      assert Concat([t]) == t + Concat([]);
    } else {
      var j := RunEnd(t, i);
      var rest := SplitPieces(t[j..]);
      SplitPiecesConcat(t[j..]);
      assert SplitPieces(t) == [t[..i], t[i..j]] + rest;
      ConcatOfPair(t[..i], t[i..j], rest);
      ThreeSlices(t, i, j);
    }
  }

  lemma ThreeSlices(t: string, i: nat, j: nat)
    requires i <= j <= |t|
    ensures t[..i] + t[i..j] + t[j..] == t
  {
  }

  lemma ConcatOfPair(a: string, b: string, rest: seq<string>)
    ensures Concat([a, b] + rest) == a + b + Concat(rest)
  {
    assert ([a, b] + rest)[1..] == [b] + rest;
    assert ([b] + rest)[1..] == rest;
  }

  /** Segments hold no terminal punctuation and runs nothing else. */
  lemma {:induction false} SplitPiecesShape(t: string)
    ensures var ps := SplitPieces(t);
      forall k | 0 <= k < |ps| / 2 :: NoTerminator(ps[2 * k]) && ps[2 * k + 1] != [] && AllTerminators(ps[2 * k + 1])
    ensures NoTerminator(SplitPieces(t)[|SplitPieces(t)| - 1])
    decreases |t|
  {
    var i := SegmentEnd(t, 0);
    if i < |t| {
      var j := RunEnd(t, i);
      var rest := SplitPieces(t[j..]);
      SplitPiecesShape(t[j..]);
      var ps := SplitPieces(t);
      assert ps == [t[..i], t[i..j]] + rest;
      forall k | 0 <= k < |ps| / 2
        ensures NoTerminator(ps[2 * k]) && ps[2 * k + 1] != [] && AllTerminators(ps[2 * k + 1])
      {
        if k > 0 {
          assert ps[2 * k] == rest[2 * (k - 1)] && ps[2 * k + 1] == rest[2 * (k - 1) + 1];
        }
      }
      assert ps[|ps| - 1] == rest[|rest| - 1];
    }
  }

  /** The pairs the loop builds: each segment with the punctuation run after it. */
  function SentencePairs(ps: seq<string>): seq<(string, string)>
    decreases |ps|
  {
    if |ps| < 2 then [] else [(ps[0], ps[1])] + SentencePairs(ps[2..])
  }

  /** The segments and runs of `pairs`, concatenated. */
  function Unsplit(pairs: seq<(string, string)>): string
    decreases |pairs|
  {
    if pairs == [] then [] else pairs[0].0 + pairs[0].1 + Unsplit(pairs[1..])
  }

  /** The punctuation runs of `pairs`, concatenated. */
  function Runs(pairs: seq<(string, string)>): string
    decreases |pairs|
  {
    if pairs == [] then [] else pairs[0].1 + Runs(pairs[1..])
  }

  /** The pairs are the segments of even index with the pieces that follow them. */
  lemma SentencePairsOfPieces(ps: seq<string>)
    requires |ps| % 2 == 1
    ensures |SentencePairs(ps)| == |ps| / 2
    ensures forall k | 0 <= k < |ps| / 2 :: SentencePairs(ps)[k] == (ps[2 * k], ps[2 * k + 1])
    ensures Concat(ps) == Unsplit(SentencePairs(ps)) + ps[|ps| - 1]
  {
    SentencePairsAt(ps);
    SentencePairsConcat(ps);
  }

  lemma {:induction false} SentencePairsAt(ps: seq<string>)
    requires |ps| % 2 == 1
    ensures |SentencePairs(ps)| == |ps| / 2
    ensures forall k | 0 <= k < |ps| / 2 :: SentencePairs(ps)[k] == (ps[2 * k], ps[2 * k + 1])
    decreases |ps|
  {
    if |ps| > 1 {
      var rest := ps[2..];
      SentencePairsAt(rest);
      forall k | 1 <= k < |ps| / 2 ensures SentencePairs(ps)[k] == (ps[2 * k], ps[2 * k + 1]) {
        assert SentencePairs(ps)[k] == SentencePairs(rest)[k - 1];
        assert ps[2 * k] == rest[2 * (k - 1)] && ps[2 * k + 1] == rest[2 * (k - 1) + 1];
      }
    }
  }

  lemma {:induction false} SentencePairsConcat(ps: seq<string>)
    requires |ps| % 2 == 1
    ensures Concat(ps) == Unsplit(SentencePairs(ps)) + ps[|ps| - 1]
    decreases |ps|
  {
    if |ps| == 1 {
      assert Concat(ps) == ps[0] + Concat([]);
    } else {
      var rest := ps[2..];
      SentencePairsConcat(rest);
      assert ps == [ps[0], ps[1]] + rest;
      ConcatOfPair(ps[0], ps[1], rest);
      assert Unsplit(SentencePairs(ps)) == ps[0] + ps[1] + Unsplit(SentencePairs(rest));
      Associative(ps[0] + ps[1], Unsplit(SentencePairs(rest)), rest[|rest| - 1]);
    }
  }

  /** One pair per punctuation run, in order: the text is the pairs followed by a final segment
      without terminal punctuation, and that final segment is not part of any pair. */
  lemma SentencePairsOfText(t: string)
    ensures var ps := SplitPieces(t);
      |SentencePairs(ps)| == |ps| / 2 &&
      t == Unsplit(SentencePairs(ps)) + ps[|ps| - 1] &&
      NoTerminator(ps[|ps| - 1]) &&
      forall k | 0 <= k < |SentencePairs(ps)| ::
        NoTerminator(SentencePairs(ps)[k].0) && SentencePairs(ps)[k].1 != [] && AllTerminators(SentencePairs(ps)[k].1)
  {
    var ps := SplitPieces(t);
    SplitPiecesConcat(t);
    SplitPiecesShape(t);
    SentencePairsOfPieces(ps);
  }

  /** The pairing loop: `for i in range(0, len(sentences) - 1, 2)`. Its `else` branch, which
      would pair a segment with an empty run, is never reached: the range stops before the
      last index. */
  method PairSentences(ps: seq<string>) returns (pairs: seq<(string, string)>)
    ensures pairs == SentencePairs(ps)
  {
    pairs := [];
    var i := 0;
    while i < |ps| - 1
      invariant 0 <= i <= |ps| || (i == 0 && ps == [])
      invariant pairs + SentencePairs(ps[i..]) == SentencePairs(ps)
    {
      if i + 1 < |ps| {
        assert ps[i..][2..] == ps[i + 2..];
        pairs := pairs + [(ps[i], ps[i + 1])];
      } else {
        assert false;
      }
      i := i + 2;
    }
  }

  // ---------------------------------------------------------------------------------------
  // One sentence.

  /** `re.sub(r'[^\w]', '', word.lower())`. */
  function CleanWord(w: string): string
    decreases |w|
  {
    if w == [] then []
    else (if IsWordChar(Lower(w[0])) then [Lower(w[0])] else []) + CleanWord(w[1..])
  }

  predicate IsIntensityWord(w: string) {
    CleanWord(w) in IntensityWords
  }

  /** The filler prefix: a gate and, when it passes, a pick among the filler phrases,
      capitalised when the sentence starts upper case. */
  function Prefixed(sentence: string, rng: Stream): (string, Stream)
  {
    var (selected, r1) := NextGate(rng);
    if !selected then (sentence, r1)
    else
      var (k, r2) := NextPick(r1, |FillerPhrases|);
      var filler := if sentence != [] && IsUpper(sentence[0]) then Capitalize(FillerPhrases[k]) else FillerPhrases[k];
      (filler + ", " + sentence, r2)
  }

  /** The word loop: before each intensity word a gate and, when it passes, a slang token. */
  function SlangWords(words: seq<string>, rng: Stream): (seq<string>, Stream)
    decreases |words|
  {
    if words == [] then ([], rng)
    else
      var (done, r) := SlangWords(words[..|words| - 1], rng);
      var w := words[|words| - 1];
      if !IsIntensityWord(w) then (done + [w], r)
      else
        var (hit, r1) := NextGate(r);
        if !hit then (done + [w], r1)
        else
          var (k, r2) := NextPick(r1, |SlangTokens|);
          (done + [SlangTokens[k], w], r2)
  }

  /** One sentence and its punctuation run through the stage. */
  function FillSentence(sentence: string, punctuation: string, rng: Stream): (string, Stream)
  {
    if IsBlank(sentence) then (sentence + punctuation, rng)
    else
      var (prefixed, r1) := Prefixed(sentence, rng);
      var (words, r2) := SlangWords(Split(prefixed), r1);
      (Join(" ", words) + punctuation, r2)
  }

  /** All sentences, in order. */
  function FillSentences(pairs: seq<(string, string)>, rng: Stream): (seq<string>, Stream)
    decreases |pairs|
  {
    if pairs == [] then ([], rng)
    else
      var (first, r1) := FillSentence(pairs[0].0, pairs[0].1, rng);
      var (others, r2) := FillSentences(pairs[1..], r1);
      ([first] + others, r2)
  }

  /** The whole stage. */
  function FillerPass(text: string, rng: Stream): (string, Stream)
  {
    var (sentences, r) := FillSentences(SentencePairs(SplitPieces(text)), rng);
    (Join(" ", sentences), r)
  }

  /** `rs` is `ws` with slang tokens inserted, each immediately before an intensity word. */
  predicate SlangInserted(ws: seq<string>, rs: seq<string>)
    decreases |ws|
  {
    if ws == [] then rs == []
    else
      var w := ws[|ws| - 1];
      |rs| > 0 && rs[|rs| - 1] == w &&
      (SlangInserted(ws[..|ws| - 1], rs[..|rs| - 1]) ||
       (IsIntensityWord(w) && |rs| > 1 && rs[|rs| - 2] in SlangTokens && SlangInserted(ws[..|ws| - 1], rs[..|rs| - 2])))
  }

  /** The word loop only inserts slang tokens before intensity words: removing them gives back
      the words in their original order. */
  lemma {:induction false} SlangWordsSpec(words: seq<string>, rng: Stream)
    ensures SlangInserted(words, SlangWords(words, rng).0)
    decreases |words|
  {
    if words != [] {
      var init := words[..|words| - 1];
      SlangWordsSpec(init, rng);
      var done := SlangWords(init, rng).0;
      var out := SlangWords(words, rng).0;
      assert out[..|done|] == done;
      if |out| == |done| + 1 {
        assert out[..|out| - 1] == done;
      } else {
        assert out[..|out| - 2] == done;
      }
    }
  }

  /** A blank segment passes through with its run and without a draw. A non-blank segment comes
      out as its words, possibly led by a filler phrase (capitalised when the segment starts
      upper case) and with slang tokens inserted before intensity words, joined by single spaces
      and followed by its run. */
  lemma FillSentenceSpec(sentence: string, punctuation: string, rng: Stream)
    ensures IsBlank(sentence) ==> FillSentence(sentence, punctuation, rng) == (sentence + punctuation, rng)
    ensures !IsBlank(sentence) ==>
      var prefixed := Prefixed(sentence, rng).0;
      (prefixed == sentence ||
       exists k | 0 <= k < |FillerPhrases| ::
         prefixed == (if IsUpper(sentence[0]) then Capitalize(FillerPhrases[k]) else FillerPhrases[k]) + ", " + sentence) &&
      exists ws :: SlangInserted(Split(prefixed), ws) && FillSentence(sentence, punctuation, rng).0 == Join(" ", ws) + punctuation
  {
    if !IsBlank(sentence) {
      var (prefixed, r1) := Prefixed(sentence, rng);
      SlangWordsSpec(Split(prefixed), r1);
    }
  }

  /** A filler prefix splits into its own words followed by the words of the sentence. */
  lemma PrefixWords(filler: string, sentence: string)
    ensures Split(filler + ", " + sentence) == Split(filler + ", ") + Split(sentence)
  {
    assert filler + ", " + sentence == (filler + ", ") + sentence;
    SplitAfterSpace(filler + ", ", sentence);
  }

  // ---------------------------------------------------------------------------------------
  // Terminal punctuation is preserved.

  lemma TailOfAppend(a: string, b: string)
    requires a != []
    ensures (a + b)[0] == a[0] && (a + b)[1..] == a[1..] + b
  {
  }

  lemma {:induction false} TerminatorsAppend(a: string, b: string)
    ensures Terminators(a + b) == Terminators(a) + Terminators(b)
    decreases |a|
  {
    if a == [] {
      assert a + b == b;
    } else {
      TailOfAppend(a, b);
      TerminatorsAppend(a[1..], b);
      var head := if IsTerminator(a[0]) then [a[0]] else [];
      assert Terminators(a + b) == head + Terminators(a[1..] + b);
      assert Terminators(a) == head + Terminators(a[1..]);
      Associative(head, Terminators(a[1..]), Terminators(b));
    }
  }

  lemma Associative(x: string, y: string, z: string)
    ensures x + (y + z) == (x + y) + z
  {
  }

  lemma {:induction false} TerminatorsOfNone(s: string)
    requires NoTerminator(s)
    ensures Terminators(s) == []
    decreases |s|
  {
    if s != [] {
      TerminatorsOfNone(s[1..]);
    }
  }

  lemma {:induction false} TerminatorsOfAll(s: string)
    requires AllTerminators(s)
    ensures Terminators(s) == s
    decreases |s|
  {
    if s != [] {
      TerminatorsOfAll(s[1..]);
    }
  }

  /** Joining words none of which holds terminal punctuation yields none. */
  lemma {:induction false} JoinNoTerminator(ws: seq<string>)
    requires forall i | 0 <= i < |ws| :: NoTerminator(ws[i])
    ensures NoTerminator(Join(" ", ws))
    decreases |ws|
  {
    if |ws| > 1 {
      JoinNoTerminator(ws[1..]);
    }
  }

  /** Changing case never introduces terminal punctuation. */
  lemma CapitalizeNoTerminator(s: string)
    requires NoTerminator(s)
    ensures NoTerminator(Capitalize(s))
  {
    var r := Capitalize(s);
    forall i | 0 <= i < |r|
      ensures !IsTerminator(r[i])
    {
      if i > 0 {
        assert r[i] == r[1..][i - 1] == Lower(s[i]);
      }
    }
  }

  lemma FillerPhrasesNoTerminator()
    ensures forall k | 0 <= k < |FillerPhrases| :: NoTerminator(FillerPhrases[k])
  {
  }

  lemma FillerPhraseNoTerminator(k: nat, upper: bool)
    requires k < |FillerPhrases|
    ensures NoTerminator(if upper then Capitalize(FillerPhrases[k]) else FillerPhrases[k])
  {
    FillerPhrasesNoTerminator();
    if upper {
      CapitalizeNoTerminator(FillerPhrases[k]);
    }
  }

  lemma PrefixedNoTerminator(sentence: string, rng: Stream)
    requires NoTerminator(sentence)
    ensures NoTerminator(Prefixed(sentence, rng).0)
  {
    var (selected, r1) := NextGate(rng);
    if selected {
      var k := NextPick(r1, |FillerPhrases|).0;
      FillerPhraseNoTerminator(k, sentence != [] && IsUpper(sentence[0]));
    }
  }

  lemma {:induction false} SplitNoTerminator(s: string)
    requires NoTerminator(s)
    ensures forall i | 0 <= i < |Split(s)| :: NoTerminator(Split(s)[i])
    decreases |s|
  {
    if s != [] {
      if IsSpace(s[0]) {
        SplitNoTerminator(s[1..]);
      } else {
        var j := WordEnd(s, 0);
        SplitNoTerminator(s[j..]);
        assert Split(s) == [s[..j]] + Split(s[j..]);
      }
    }
  }

  lemma {:induction false} SlangWordsNoTerminator(words: seq<string>, rng: Stream)
    requires forall i | 0 <= i < |words| :: NoTerminator(words[i])
    ensures forall i | 0 <= i < |SlangWords(words, rng).0| :: NoTerminator(SlangWords(words, rng).0[i])
    decreases |words|
  {
    if words != [] {
      SlangWordsNoTerminator(words[..|words| - 1], rng);
      assert forall k | 0 <= k < |SlangTokens| :: NoTerminator(SlangTokens[k]);
    }
  }

  lemma SentenceWordsNoTerminator(s: string, rng: Stream)
    requires NoTerminator(s)
    ensures forall i | 0 <= i < |SlangWords(Split(s), rng).0| :: NoTerminator(SlangWords(Split(s), rng).0[i])
  {
    SplitNoTerminator(s);
    SlangWordsNoTerminator(Split(s), rng);
  }

  /** A transformed sentence holds exactly the terminal punctuation of its run. */
  lemma FillSentenceTerminators(sentence: string, punctuation: string, rng: Stream)
    requires NoTerminator(sentence) && AllTerminators(punctuation)
    ensures Terminators(FillSentence(sentence, punctuation, rng).0) == punctuation
  {
    TerminatorsOfAll(punctuation);
    if IsBlank(sentence) {
      TerminatorsAppend(sentence, punctuation);
      TerminatorsOfNone(sentence);
    } else {
      var (prefixed, r1) := Prefixed(sentence, rng);
      PrefixedNoTerminator(sentence, rng);
      var words := SlangWords(Split(prefixed), r1).0;
      SentenceWordsNoTerminator(prefixed, r1);
      JoinNoTerminator(words);
      TerminatorsAppend(Join(" ", words), punctuation);
      TerminatorsOfNone(Join(" ", words));
    }
  }

  /** Every pair is a segment without terminal punctuation and a run made only of it. */
  predicate PunctuatedPairs(pairs: seq<(string, string)>) {
    forall k | 0 <= k < |pairs| :: NoTerminator(pairs[k].0) && AllTerminators(pairs[k].1)
  }

  lemma PunctuatedPairsTail(pairs: seq<(string, string)>)
    requires pairs != [] && PunctuatedPairs(pairs)
    ensures NoTerminator(pairs[0].0) && AllTerminators(pairs[0].1) && PunctuatedPairs(pairs[1..])
  {
    assert forall k | 0 <= k < |pairs| - 1 :: pairs[1..][k] == pairs[k + 1];
  }

  /** The terminal punctuation of the joined sentences is that of the runs, in order. */
  lemma {:induction false} FillSentencesTerminators(pairs: seq<(string, string)>, rng: Stream)
    requires PunctuatedPairs(pairs)
    ensures Terminators(Join(" ", FillSentences(pairs, rng).0)) == Runs(pairs)
    decreases |pairs|
  {
    if pairs != [] {
      PunctuatedPairsTail(pairs);
      var (first, r1) := FillSentence(pairs[0].0, pairs[0].1, rng);
      FillSentenceTerminators(pairs[0].0, pairs[0].1, rng);
      FillSentencesTerminators(pairs[1..], r1);
      var others := FillSentences(pairs[1..], r1).0;
      assert FillSentences(pairs, rng).0 == [first] + others;
      assert Runs(pairs) == pairs[0].1 + Runs(pairs[1..]);
      if others == [] {
        assert pairs[1..] == [];
        assert Join(" ", [first] + others) == first;
      } else {
        assert ([first] + others)[1..] == others;
        assert Join(" ", [first] + others) == (first + " ") + Join(" ", others);
        TerminatorsAppend(first + " ", Join(" ", others));
        TerminatorsAppend(first, " ");
        assert Terminators(" ") == [];
      }
    }
  }

  lemma {:induction false} UnsplitTerminators(pairs: seq<(string, string)>)
    requires PunctuatedPairs(pairs)
    ensures Terminators(Unsplit(pairs)) == Runs(pairs)
    decreases |pairs|
  {
    if pairs != [] {
      var (segment, run) := pairs[0];
      var tail := pairs[1..];
      PunctuatedPairsTail(pairs);
      UnsplitTerminators(tail);
      assert Unsplit(pairs) == (segment + run) + Unsplit(tail);
      TerminatorsAppend(segment + run, Unsplit(tail));
      TerminatorsAppend(segment, run);
      TerminatorsOfNone(segment);
      TerminatorsOfAll(run);
      assert Terminators(segment + run) == run;
      assert Runs(pairs) == run + Runs(tail);
    }
  }

  /** The stage keeps every terminal punctuation character of the text, in order, and adds none. */
  lemma FillerPassKeepsTerminators(text: string, rng: Stream)
    ensures Terminators(FillerPass(text, rng).0) == Terminators(text)
  {
    TextRuns(text);
    FillSentencesTerminators(SentencePairs(SplitPieces(text)), rng);
  }

  /** The text's terminal punctuation is that of the runs of its pairs, in order. */
  lemma TextRuns(text: string)
    ensures PunctuatedPairs(SentencePairs(SplitPieces(text)))
    ensures Terminators(text) == Runs(SentencePairs(SplitPieces(text)))
  {
    PairsPunctuated(text);
    var ps := SplitPieces(text);
    var pairs := SentencePairs(ps);
    SplitPiecesConcat(text);
    SentencePairsConcat(ps);
    SplitPiecesShape(text);
    UnsplitTerminators(pairs);
    TerminatorsAppend(Unsplit(pairs), ps[|ps| - 1]);
    TerminatorsOfNone(ps[|ps| - 1]);
  }

  lemma PairsPunctuated(text: string)
    ensures PunctuatedPairs(SentencePairs(SplitPieces(text)))
  {
    var ps := SplitPieces(text);
    SplitPiecesShape(text);
    SentencePairsAt(ps);
    forall k | 0 <= k < |SentencePairs(ps)|
      ensures NoTerminator(SentencePairs(ps)[k].0) && AllTerminators(SentencePairs(ps)[k].1)
    {
      assert SentencePairs(ps)[k] == (ps[2 * k], ps[2 * k + 1]);
    }
  }

  /** Text without terminal punctuation comes out empty: its only segment is never paired. */
  lemma FillerPassWithoutTerminators(text: string, rng: Stream)
    requires NoTerminator(text)
    ensures FillerPass(text, rng) == ("", rng)
  {
    assert SegmentEnd(text, 0) == |text|;
  }

  // ---------------------------------------------------------------------------------------
  // With every gate failing.

  /** With no gate passing the word loop inserts nothing. */
  lemma {:induction false} SlangWordsWithoutGates(words: seq<string>, rng: Stream)
    requires NoGatePasses(rng)
    ensures SlangWords(words, rng).0 == words
    ensures NoGatePasses(SlangWords(words, rng).1)
    decreases |words|
  {
    if words != [] {
      var init := words[..|words| - 1];
      SlangWordsWithoutGates(init, rng);
      AdvanceKeepsNoGatePasses(SlangWords(init, rng).1);
      assert words == init + [words[|words| - 1]];
    }
  }

  /** With no gate passing (filler probabilities 0) a sentence only has its whitespace
      normalised: its words joined by single spaces, then its run; a blank one is kept whole. */
  lemma FillSentenceWithoutGates(sentence: string, punctuation: string, rng: Stream)
    requires NoGatePasses(rng)
    ensures FillSentence(sentence, punctuation, rng).0 ==
      if IsBlank(sentence) then sentence + punctuation else Join(" ", Split(sentence)) + punctuation
    ensures NoGatePasses(FillSentence(sentence, punctuation, rng).1)
  {
    if !IsBlank(sentence) {
      AdvanceKeepsNoGatePasses(rng);
      SlangWordsWithoutGates(Split(sentence), Advance(rng));
    }
  }

  // ---------------------------------------------------------------------------------------
  // The imperative stage.

  /** `add_filler_phrases`: pair the split text, then transform the sentences one by one. */
  method AddFillerPhrases(text: string, rng: Stream) returns (out: string, rest: Stream)
    ensures (out, rest) == FillerPass(text, rng)
  {
    var sentences := SplitPieces(text);
    var pairs := PairSentences(sentences);
    var transformed: seq<string> := [];
    rest := rng;
    for n := 0 to |pairs|
      invariant transformed + FillSentences(pairs[n..], rest).0 == FillSentences(pairs, rng).0
      invariant FillSentences(pairs[n..], rest).1 == FillSentences(pairs, rng).1
    {
      assert pairs[n..][1..] == pairs[n + 1..];
      var (sentence, punctuation) := pairs[n];
      var done;
      done, rest := TransformSentence(sentence, punctuation, rest);
      transformed := transformed + [done];
    }
    assert pairs[|pairs|..] == [];
    assert transformed == FillSentences(pairs, rng).0 && rest == FillSentences(pairs, rng).1;
    out := Join(" ", transformed);
  }

  /** The body of the sentence loop: the blank check, the filler prefix and the word loop. */
  method TransformSentence(sentence: string, punctuation: string, rng: Stream) returns (out: string, rest: Stream)
    ensures (out, rest) == FillSentence(sentence, punctuation, rng)
  {
    rest := rng;
    if IsBlank(sentence) {
      out := sentence + punctuation;
      return;
    }
    var s := sentence;
    var (selected, afterGate) := NextGate(rest);
    rest := afterGate;
    if selected {
      var (k, afterPick) := NextPick(rest, |FillerPhrases|);
      rest := afterPick;
      var filler := FillerPhrases[k];
      if s != [] && IsUpper(s[0]) {
        filler := Capitalize(filler);
      }
      s := filler + ", " + s;
    }
    assert (s, rest) == Prefixed(sentence, rng);
    var newWords;
    newWords, rest := InsertSlang(Split(s), rest);
    out := Join(" ", newWords) + punctuation;
  }

  /** The word loop of a sentence: a gate before every intensity word and, when it passes, a
      slang token in front of the word. */
  method InsertSlang(words: seq<string>, rng: Stream) returns (newWords: seq<string>, rest: Stream)
    ensures (newWords, rest) == SlangWords(words, rng)
  {
    newWords, rest := [], rng;
    for i := 0 to |words|
      invariant (newWords, rest) == SlangWords(words[..i], rng)
    {
      assert words[..i + 1][..i] == words[..i];
      var word := words[i];
      var clean := CleanWord(word);
      if clean in IntensityWords {
        var (hit, afterHit) := NextGate(rest);
        rest := afterHit;
        if hit {
          var (j, afterSlang) := NextPick(rest, |SlangTokens|);
          rest := afterSlang;
          newWords := newWords + [SlangTokens[j]];
        }
      }
      assert newWords + [word] == SlangWords(words[..i + 1], rng).0;
      newWords := newWords + [word];
    }
    assert words[..|words|] == words;
  }
}
