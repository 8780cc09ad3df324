/** `custom_transform` and `example_transform` on one example. The example's `text` runs
    through the four stages in order, each reading the text the previous one produced and the
    random stream where the previous one left it; the label is carried through untouched.
    NLTK's `word_tokenize` and `TreebankWordDetokenizer().detokenize` are parameters. */
module Pipeline {
  import opened Text
  import opened Oracle
  import Acronyms
  import Synonyms
  import Typos
  import Fillers

  // The example's `label` entry (`label` is a keyword in Dafny).
  datatype Example<L> = Example(text: string, target: L)

  type Tokenizer = string -> seq<string>

  type Detokenizer = seq<string> -> string

  /** `example_transform`: only upper-case letters change, each to its lower-case form, and the
      label is kept. */
  function ExampleTransform<L>(e: Example<L>): (r: Example<L>)
    ensures r.target == e.target
    ensures |r.text| == |e.text|
    ensures forall i | 0 <= i < |r.text| :: !IsUpper(r.text[i])
    ensures forall i | 0 <= i < |e.text| && !IsUpper(e.text[i]) :: r.text[i] == e.text[i]
    ensures LowerStr(r.text) == LowerStr(e.text)
  {
    e.(text := LowerStr(e.text))
  }

  /** The four stages on a text. */
  function Transform(text: string, tokenize: Tokenizer, detokenize: Detokenizer,
                     lex: Synonyms.Lexicon, rng: Stream): (string, Stream)
  {
    var rewritten := Acronyms.RewriteAcronyms(text);
    var (synonymWords, r1) := Synonyms.SynonymPass(tokenize(rewritten), lex, rng);
    var (typoWords, r2) := Typos.TypoPass(tokenize(detokenize(synonymWords)), r1);
    Fillers.FillerPass(detokenize(typoWords), r2)
  }

  /** With every gate failing, the synonym and typo stages hand their tokens on unchanged: the
      filler stage then reads the rewritten text after two tokenize/detokenize round trips. */
  lemma TransformWithoutGates(text: string, tokenize: Tokenizer, detokenize: Detokenizer,
                              lex: Synonyms.Lexicon, rng: Stream)
    requires NoGatePasses(rng)
    ensures exists r :: (NoGatePasses(r) &&
      Transform(text, tokenize, detokenize, lex, rng) ==
      Fillers.FillerPass(detokenize(tokenize(detokenize(tokenize(Acronyms.RewriteAcronyms(text))))), r))
  {
    var rewritten := Acronyms.RewriteAcronyms(text);
    Synonyms.SynonymPassWithoutGates(tokenize(rewritten), lex, rng);
    var r1 := Synonyms.SynonymPass(tokenize(rewritten), lex, rng).1;
    var t2 := detokenize(tokenize(rewritten));
    Typos.TypoPassWithoutGates(tokenize(t2), r1);
    var r2 := Typos.TypoPass(tokenize(t2), r1).1;
    assert Transform(text, tokenize, detokenize, lex, rng) == Fillers.FillerPass(detokenize(tokenize(t2)), r2);
  }

  /** `custom_transform`: the stages applied in order to the example's text. The result is a
      function of the example, the collaborators and the stream, so equal seeds give equal
      output; the output holds exactly the terminal punctuation of the text the filler stage
      received. */
  method CustomTransform<L>(e: Example<L>, tokenize: Tokenizer, detokenize: Detokenizer,
                            lex: Synonyms.Lexicon, rng: Stream) returns (r: Example<L>, rest: Stream)
    ensures r.target == e.target
    ensures (r.text, rest) == Transform(e.text, tokenize, detokenize, lex, rng)
    ensures Fillers.Terminators(r.text) ==
      Fillers.Terminators(detokenize(Typos.TypoPass(tokenize(detokenize(
        Synonyms.SynonymPass(tokenize(Acronyms.RewriteAcronyms(e.text)), lex, rng).0)),
        Synonyms.SynonymPass(tokenize(Acronyms.RewriteAcronyms(e.text)), lex, rng).1).0))
  {
    var text := Acronyms.RewriteAcronyms(e.text);
    var synonymWords, afterSynonyms := Synonyms.ReplaceSynonyms(tokenize(text), lex, rng);
    text := detokenize(synonymWords);
    var typoWords, afterTypos := Typos.IntroduceTypos(tokenize(text), afterSynonyms);
    text := detokenize(typoWords);
    var out;
    out, rest := Fillers.AddFillerPhrases(text, afterTypos);
    Fillers.FillerPassKeepsTerminators(text, afterTypos);
    r := e.(text := out);
  }
}
