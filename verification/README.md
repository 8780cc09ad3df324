# Film-review text augmentation, modelled in Dafny

This project models `custom_transform` from `utils.py` of the film-review sentiment
classifier, together with `example_transform`. Each review example is a text with a label.
The transform rewrites the text in four stages, in order, and keeps the label:

1. **Acronym rewriter.** Every case-insensitive, whole-word occurrence of a phrase from
   `PHRASE_TO_ACRONYM` becomes its acronym. Phrases are tried longest first.
2. **Synonym substituter.** Each alphabetic token of length at least three is selected behind a
   probability gate. A selected token may be replaced by a WordNet synonym drawn from its
   de-duplicated candidate list, in the token's case.
3. **Typo injector.** Each alphabetic token is selected behind a gate. In a selected word, each
   letter with an entry in `QWERTY_NEIGHBORS` may be replaced, behind a second gate, by a
   neighbouring key in the same case.
4. **Filler inserter.** The text is split into sentences at runs of `.`, `!` and `?`.
   - A sentence may be prefixed with a slang filler phrase and `", "`.
   - A slang token may be inserted before each intensity word ("very", "really", …).
   - The sentences are joined with single spaces.

Modules, one file each:
- `Text` (`text.dfy`): the ASCII character and string operations the stages use. These are
  `isalpha`, `isupper`, `lower`, `upper`, `capitalize`, `split`, `" ".join` and the
  order-preserving case-insensitive de-duplication.
- `Oracle` (`oracle.dfy`): the random source.
- `Acronyms` (`acronyms.dfy`), `Synonyms` (`synonyms.dfy`), `Typos` (`typos.dfy`) and
  `Fillers` (`fillers.dfy`): the four stages.
- `Pipeline` (`pipeline.dfy`): `example_transform`, and `custom_transform` as the composition of
  the stages.

**Randomness.** The program draws from Python's global generator in two ways:
`random.random() < P` (a gate) and `random.choice(xs)` (a pick). The model takes the outcomes of
those calls as an explicit stream of draws, `Oracle.Stream`. Every stage reads the stream in
exactly the order and under exactly the conditions the code calls the generator, including the
short-circuit in `word_clean in intensity_words and random.random() < …`. A stage returns the
rest of the stream for the next stage. The probabilities themselves (0.25, 0.30, 0.5, 0.40,
0.25) live in the stream: a stream whose gates all fail is what setting a probability to 0
produces.

**State.** The three stages that work by loops are methods with loops, proved equal to a
specification function:
- `Synonyms.ReplaceSynonyms`, with its helper loops `CollectSynonyms` and `UniqueSynonyms`;
- `Typos.IntroduceTypos`, whose letter loop `TypoCharacters` edits a `word_chars` buffer in
  place, as an array;
- `Fillers.AddFillerPhrases`, with the pairing loop `PairSentences` and the per-sentence loops
  `TransformSentence` and `InsertSlang`.

The properties are proved about those specification functions. The acronym rewriter is a
single regular-expression substitution and is modelled as functions.

**Collaborators.**
- NLTK's `word_tokenize` and `TreebankWordDetokenizer().detokenize` are parameters of the
  pipeline (`Pipeline.Tokenizer`, `Pipeline.Detokenizer`).
- WordNet is a parameter `Synonyms.Lexicon`. It maps a lower-cased word to its synsets, each
  given as the list of its lemma names.

**Sentences after the last punctuation run.** The comments at utils.py:283 and utils.py:285
say the text is split "but keep the punctuation" and the sentences are recombined "with their
punctuation". The code does something narrower, and the model follows the code.
`re.split(r'([.!?]+)', text)` followed by `range(0, len(sentences) - 1, 2)` pairs every segment
that is followed by punctuation. The final segment after the last punctuation run is never
paired, so it is dropped from the output, and a text with no `.`, `!` or `?` comes out empty.
`Fillers.SentencePairsOfText` and `Fillers.FillerPassWithoutTerminators` state this behaviour.
The `else` branch of the pairing loop (utils.py:290-291) is unreachable; it is modelled as a dead
branch.

## Model

| member | source | states |
|---|---|---|
| Pipeline.ExampleTransform | utils.py:21-23 | only upper-case letters change, each to its lower-case form; no upper-case letter is left; the text is unchanged up to case; the label is kept |
| Pipeline.CustomTransform | utils.py:38-336 | the four stages run in order on the example's text, each reading the text and the stream the previous one left; the label is unchanged; the output holds exactly the terminal punctuation of the text the filler stage received |
| Pipeline.TransformWithoutGates | utils.py:117-332 | with every gate failing, the synonym and typo stages pass their tokens on unchanged, so the filler stage reads the rewritten text after two tokenize/detokenize round trips |
| Oracle.NextPick | utils.py:158 | a pick always gives a valid index into the list it chooses from |
| Text.Capitalize | utils.py:160-161 | `str.capitalize`: same length, first character upper-cased, the rest lower-cased, equal to the input ignoring case |
| Text.Split | utils.py:313 | `str.split()`: every word is non-empty, holds no whitespace and is made of characters of the input |
| Text.SplitSpec | utils.py:313 | `str.split()` pinned down: the words, interleaved with whitespace-only gaps that are non-empty between words (and before the first word when the text starts with whitespace), rebuild the text exactly, so the words are its maximal non-whitespace runs in order |
| Text.DedupByLowerSpec | utils.py:148-154 | the de-duplicated list draws only from its input, holds no two elements equal ignoring case, covers every lower-cased form of the input, keeps the first element of each case-insensitive group, and keeps first-seen order (de-duplicating any prefix of the input gives a prefix of the result) |
| Text.DedupByLowerPrefix | utils.py:148-154 | the loop only appends: de-duplicating a prefix of the input gives a prefix of the de-duplicated list |
| Acronyms.SortByLengthDescSpec | utils.py:103-104 | the phrase keys sorted by non-increasing length, as a permutation of the keys |
| Acronyms.LowerMapKeys | utils.py:100-101 | every phrase of the table, lower-cased, is a key of the lower-cased dictionary, and the last entry with that lower-cased phrase supplies its value |
| Acronyms.LowerMapLastEntry | utils.py:100-101 | every key of the lower-cased dictionary comes from a table entry, the last one with that lower-cased phrase |
| Acronyms.SortedKeysMapped | utils.py:101-104 | each sorted key has a value in the lower-cased dictionary |
| Acronyms.SortedKeysFromTable | utils.py:101-104 | every sorted key is the lower-cased phrase of some table entry |
| Acronyms.SortedKeysCoverTable | utils.py:101-104 | every table phrase, lower-cased, is among the sorted keys |
| Acronyms.FirstMatch | utils.py:105-110 | a phrase is reported only if it is one of the keys and occurs at the position ignoring case with a word boundary (`\b`) on both sides |
| Acronyms.FirstMatchNone | utils.py:105-110 | nothing is reported exactly when no key matches at the position |
| Acronyms.LongestKeyWins | utils.py:103-110 | when several phrases match at one position, the alternation picks one at least as long as any of them; one of equal length can only be the same phrase up to case |
| Acronyms.FirstMatchIgnoresCase | utils.py:107-110 | matching is case-insensitive: texts equal up to case match the same phrase at every position |
| Acronyms.MatchBecomesStoredValue | utils.py:112-117 | a match is replaced by the stored value of its lower-cased phrase whatever the casing of the matched text, and the scan resumes right after the match |
| Acronyms.RewriteWithoutMatch | utils.py:117 | where no phrase matches at any later position the text is copied unchanged |
| Acronyms.SubstituteWithoutPhrase | utils.py:100-117 | a text in which no table phrase occurs at word boundaries, in any casing, is a fixed point of the rewrite |
| Acronyms.TablePhraseBecomesAcronym | utils.py:100-117 | where a table phrase occurs at word boundaries in any casing, the rewrite emits the value of a table entry whose phrase matches there and is at least as long as every matching table phrase (the last entry with that phrase up to case), and resumes right after that phrase |
| Synonyms.LemmaSynonymsSpec | utils.py:142-146 | the synonyms of one synset are its lemma names with `_` read as a space, each differing from the word ignoring case and a single word; every admissible lemma is collected |
| Synonyms.CollectedSynonymsSpec | utils.py:140-146 | every collected synonym is admissible and comes from one of the word's synsets, and every admissible lemma of every synset is collected |
| Synonyms.CollectedSynonymsComplete | utils.py:140-146 | the nested loops miss no admissible lemma of any synset |
| Synonyms.CandidatesSpec | utils.py:140-154 | the candidates come from the synsets, differ from the word, are single words and are pairwise distinct ignoring case; every admissible lemma is among them up to case; the first of each case-insensitive group is kept, in first-seen order |
| Synonyms.SynonymWordSpec | utils.py:126-165 | a token that is not alphabetic or is shorter than three letters passes through without a draw; a failed gate keeps the word; a passed gate with candidates replaces the word by one of them in the word's case; the result is always the word or such a candidate |
| Synonyms.SynonymPassSpec | utils.py:126-165 | the stage keeps the token count and order; each output token is its input token or one of that token's candidates; ineligible tokens are unchanged |
| Synonyms.SynonymPassWithoutGates | utils.py:120-133 | with no gate passing the stage is the identity on tokens |
| Synonyms.CollectSynonyms | utils.py:140-146 | the nested loop builds exactly the collected synonym list |
| Synonyms.UniqueSynonyms | utils.py:148-154 | the loop with its `seen` set builds exactly the de-duplicated list |
| Synonyms.ReplaceSynonyms | utils.py:122-165 | the token loop computes the synonym stage and consumes exactly its draws |
| Typos.NeighborTableKeys | utils.py:176-203 | the table has an entry for exactly the letters a to z |
| Typos.NeighborTableEntry | utils.py:176-203 | every entry is non-empty, made of lower-case letters and never lists its own key |
| Typos.NeighborReplacement | utils.py:230-240 | a picked neighbour, in the letter's case, is a keyboard typo of the letter and differs from it |
| Typos.TypoLettersShape | utils.py:227-241 | each position of a selected word keeps its letter or holds a keyboard neighbour of it in the same case; a character without a table entry is never touched |
| Typos.TypoLettersFlag | utils.py:224-241 | `has_typo` is set exactly when the word changed |
| Typos.TypoLettersSpec | utils.py:223-247 | the two properties above together: a selected word comes out as a typo of itself, and as the word itself when nothing was replaced |
| Typos.TypoWordSpec | utils.py:215-249 | every token comes out as a typo of itself; a non-alphabetic token is unchanged and costs no draw; an alphabetic word whose gate fails is unchanged and costs that one draw |
| Typos.TypoPassSpec | utils.py:215-249 | the stage keeps the token count and order; each output token is a typo of its input token; non-alphabetic tokens are unchanged |
| Typos.TypoPassWithoutGates | utils.py:206-231 | with no gate passing the stage is the identity on tokens |
| Typos.TypoCharacters | utils.py:223-241 | the letter loop, editing the character buffer in place, computes the letters, the `has_typo` flag and the draws of the specification |
| Typos.IntroduceTypos | utils.py:210-249 | the token loop computes the typo stage and consumes exactly its draws |
| Fillers.SplitPieces | utils.py:284 | `re.split` with one capturing group yields an odd number of pieces |
| Fillers.SplitPiecesConcat | utils.py:284 | the pieces concatenate back to the text |
| Fillers.SplitPiecesShape | utils.py:284 | segments hold no terminal punctuation; delimiters are non-empty runs of it; the last piece is a segment |
| Fillers.SentencePairsOfPieces | utils.py:286-291 | the pairs are the even-indexed segments with the delimiter after each, and they concatenate to all pieces but the last |
| Fillers.SentencePairsOfText | utils.py:284-291 | the text is the paired sentences followed by a final segment without terminal punctuation, which belongs to no pair |
| Fillers.PairSentences | utils.py:286-291 | the stepping loop builds exactly those pairs; its `else` branch is never taken |
| Fillers.SlangWordsSpec | utils.py:313-326 | the word loop only inserts slang tokens, each immediately before an intensity word; removing them gives the words back in order |
| Fillers.FillSentenceSpec | utils.py:295-327 | a blank sentence passes through with its delimiter and without a draw; otherwise it becomes its words, possibly led by a filler phrase (capitalised when the sentence starts upper case) and with slang inserted, joined by single spaces and followed by the delimiter |
| Fillers.PrefixWords | utils.py:306-313 | a filler prefix splits into its own words followed by the sentence's words |
| Fillers.FillSentenceTerminators | utils.py:295-327 | a transformed sentence holds exactly the terminal punctuation of its delimiter |
| Fillers.FillSentencesTerminators | utils.py:293-329 | the joined transformed sentences hold exactly the delimiters, in order |
| Fillers.UnsplitTerminators | utils.py:284-291 | the paired sentences hold exactly the delimiters, in order |
| Fillers.FillerPassKeepsTerminators | utils.py:280-329 | the stage keeps every terminal punctuation character of the text, in order, and adds none |
| Fillers.FillerPassWithoutTerminators | utils.py:284-291 | a text without terminal punctuation comes out empty |
| Fillers.SlangWordsWithoutGates | utils.py:320-322 | with no gate passing the word loop inserts nothing |
| Fillers.FillSentenceWithoutGates | utils.py:295-327 | with no gate passing a sentence only has its whitespace normalised, and a blank one is kept whole |
| Fillers.AddFillerPhrases | utils.py:280-329 | the stage's loops compute the filler stage and consume exactly its draws |
| Fillers.TransformSentence | utils.py:295-327 | the loop body for one sentence computes its transformation |
| Fillers.InsertSlang | utils.py:313-326 | the word loop computes the slang insertion |

## Left out

- NLTK's `word_tokenize` and `TreebankWordDetokenizer().detokenize` are not modelled. They are
  arbitrary parameters, so nothing is claimed about how tokens are re-joined, and the pipeline
  lemmas speak of the tokens the stages see.
- WordNet is not modelled. `wordnet.synsets` and `lemma.name()` are the parameter
  `Synonyms.Lexicon`, and nothing is assumed about what it returns.
- The generator, its seed (`random.seed(0)`) and the floating-point probabilities are replaced by
  the explicit draw stream. A gate read from an exhausted stream, or where a pick was supplied,
  counts as failed. A pick read where a gate was supplied gives index 0. A pick's index is
  reduced modulo the list length.
- Characters are ASCII. `isalpha`, `isupper`, `lower`, `upper`, `capitalize`, whitespace and
  `\w` follow their ASCII meaning; Unicode letters, case mappings and whitespace are not modelled.
- The end-to-end example "The United States is a Sport Utility Vehicle haven." is not evaluated.
  Computing the rewrite means sorting the whole 39-entry table inside the verifier, which is too
  costly. The table itself is transcribed entry by entry, in source order.
- Acronyms.SortByLengthDescSpec: proves sortedness and permutation, but not that Python's `sorted`
  is stable among phrases of equal length. Stability does not change the result: two distinct
  keys of equal length never match at the same position (Acronyms.LongestKeyWins).
- Pipeline.CustomTransform: the source updates the example's `text` entry in place and returns the
  same dictionary; the model returns a new example with the same label.
- The dataset, model-training and optimiser imports of `utils.py` (lines 1-17) and
  `inspect_dataset.py`, which prints dataset examples, are not part of this model.
