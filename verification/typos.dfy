/** Stage 3 of `custom_transform`: keyboard typos. Every alphabetic token is selected by a
    gate; in a selected word every letter that has an entry in the QWERTY table is, behind a
    second gate, replaced by one of its neighbours, keeping upper or lower case. */
module Typos {
  import opened Text
  import opened Oracle

  /** `QWERTY_NEIGHBORS`: each lower-case letter with its neighbouring keys, in table order. */
  const QwertyNeighbors: map<char, string> := map[
    'a' := "qwsz", 'b' := "vghn", 'c' := "xdfv", 'd' := "serfcx", 'e' := "wrds",
    'f' := "drtgvc", 'g' := "ftyhbv", 'h' := "gyujnb", 'i' := "uokj", 'j' := "huikmn",
    'k' := "jiolm", 'l' := "kop", 'm' := "njkl", 'n' := "bhjm", 'o' := "iplk",
    'p' := "ol", 'q' := "wa", 'r' := "etfd", 's' := "awedxz", 't' := "rygf",
    'u' := "yijh", 'v' := "cfgb", 'w' := "qesa", 'x' := "zsdc", 'y' := "tuhg",
    'z' := "asx"
  ]

  /** The table has an entry for exactly the letters a to z. */
  lemma NeighborTableKeys()
    ensures forall c :: c in QwertyNeighbors <==> IsLowerLetter(c)
  {
  }

  /** Every entry is non-empty, made of lower-case letters only, and never lists its own key. */
  lemma NeighborTableEntry(c: char)
    requires c in QwertyNeighbors
    ensures GoodEntry(c, QwertyNeighbors[c])
  {
    if c <= 'm' {
      FirstHalfEntry(c);
    } else {
      SecondHalfEntry(c);
    }
  }

  /** `ns` is a usable neighbour list for the key `c`. */
  predicate GoodEntry(c: char, ns: string) {
    |ns| > 0 && forall j | 0 <= j < |ns| :: IsLowerLetter(ns[j]) && ns[j] != c
  }

  lemma FirstHalfEntry(c: char)
    requires c in QwertyNeighbors && c <= 'm'
    ensures GoodEntry(c, QwertyNeighbors[c])
  {
  }

  lemma SecondHalfEntry(c: char)
    requires c in QwertyNeighbors && 'm' < c
    ensures GoodEntry(c, QwertyNeighbors[c])
  {
  }

  /** The inner loop's test for a character it may replace. */
  predicate Replaceable(c: char) {
    IsAlpha(Lower(c)) && Lower(c) in QwertyNeighbors
  }

  /** `v` is a keyboard typo of the character `c`: a neighbour of its lower-cased form, upper
      case exactly when `c` is. */
  predicate NeighborSwap(c: char, v: char) {
    Replaceable(c) && Lower(v) in QwertyNeighbors[Lower(c)] && IsUpper(v) == IsUpper(c)
  }

  /** `v` is `w` with some of its letters replaced by keyboard typos. */
  predicate TypoOf(w: string, v: string) {
    |v| == |w| && forall j | 0 <= j < |w| :: v[j] == w[j] || NeighborSwap(w[j], v[j])
  }

  /** The character loop over a selected word: the new characters, the `has_typo` flag and the
      rest of the stream, for the characters of `w` in order. */
  function TypoLetters(w: string, rng: Stream): (string, bool, Stream)
    decreases |w|
  {
    if w == [] then ([], false, rng)
    else
      var (done, hasTypo, r) := TypoLetters(w[..|w| - 1], rng);
      var c := w[|w| - 1];
      if !Replaceable(c) then (done + [c], hasTypo, r)
      else
        var (hit, r1) := NextGate(r);
        if !hit then (done + [c], hasTypo, r1)
        else
          var ns := QwertyNeighbors[Lower(c)];
          if |ns| == 0 then (done + [c], hasTypo, r1)
          else
            var (k, r2) := NextPick(r1, |ns|);
            (done + [if IsUpper(c) then Upper(ns[k]) else ns[k]], true, r2)
  }

  /** One token through the typo stage. */
  function TypoWord(w: string, rng: Stream): (string, Stream)
  {
    if !IsAlphaWord(w) then (w, rng)
    else
      var (selected, r1) := NextGate(rng);
      if !selected then (w, r1)
      else
        var (chars, hasTypo, r2) := TypoLetters(w, r1);
        (if hasTypo then chars else w, r2)
  }

  /** The typo stage over a token list. */
  function TypoPass(words: seq<string>, rng: Stream): (seq<string>, Stream)
    decreases |words|
  {
    if words == [] then ([], rng)
    else
      var (done, r) := TypoPass(words[..|words| - 1], rng);
      var (w, r') := TypoWord(words[|words| - 1], r);
      (done + [w], r')
  }

  /** The neighbour picked for a replaceable letter, in the letter's case, is a keyboard typo of
      it and differs from it. */
  lemma NeighborReplacement(c: char, k: nat)
    requires Replaceable(c) && k < |QwertyNeighbors[Lower(c)]|
    ensures var ns := QwertyNeighbors[Lower(c)];
      var v := if IsUpper(c) then Upper(ns[k]) else ns[k];
      NeighborSwap(c, v) && v != c
  {
    var ns := QwertyNeighbors[Lower(c)];
    NeighborTableEntry(Lower(c));
    assert IsLowerLetter(ns[k]) && ns[k] != Lower(c);
  }

  /** Every position of the output holds the original letter or a keyboard typo of it, and a
      letter without a table entry is never touched. */
  lemma {:induction false} TypoLettersShape(w: string, rng: Stream)
    ensures TypoOf(w, TypoLetters(w, rng).0)
    ensures forall j | 0 <= j < |w| && !Replaceable(w[j]) :: TypoLetters(w, rng).0[j] == w[j]
    decreases |w|
  {
    if w != [] {
      var n := |w| - 1;
      var init := w[..n];
      var c := w[n];
      TypoLettersShape(init, rng);
      var (done, _, r) := TypoLetters(init, rng);
      assert w == init + [c];
      if Replaceable(c) && NextGate(r).0 && |QwertyNeighbors[Lower(c)]| > 0 {
        NeighborReplacement(c, NextPick(NextGate(r).1, |QwertyNeighbors[Lower(c)]|).0);
      }
    }
  }

  /** `has_typo` is set exactly when some letter was replaced. */
  lemma {:induction false} TypoLettersFlag(w: string, rng: Stream)
    ensures |TypoLetters(w, rng).0| == |w|
    ensures TypoLetters(w, rng).1 <==> TypoLetters(w, rng).0 != w
    decreases |w|
  {
    if w != [] {
      var n := |w| - 1;
      var init := w[..n];
      var c := w[n];
      TypoLettersFlag(init, rng);
      var (done, hasTypo, r) := TypoLetters(init, rng);
      var out := TypoLetters(w, rng).0;
      assert w == init + [c];
      if Replaceable(c) && NextGate(r).0 && |QwertyNeighbors[Lower(c)]| > 0 {
        var ns := QwertyNeighbors[Lower(c)];
        NeighborReplacement(c, NextPick(NextGate(r).1, |ns|).0);
        assert out[n] != w[n];
      } else {
        assert out == done + [c];
        if hasTypo {
          var j :| 0 <= j < n && done[j] != init[j];
          assert out[j] != w[j];
        }
      }
    }
  }

  /** A replaced letter is a neighbour of the original, keeps its case and differs from it;
      letters without a table entry are never touched; and `has_typo` is set exactly when the
      word changed. */
  lemma TypoLettersSpec(w: string, rng: Stream)
    ensures TypoOf(w, TypoLetters(w, rng).0)
    ensures forall j | 0 <= j < |w| && !Replaceable(w[j]) :: TypoLetters(w, rng).0[j] == w[j]
    ensures TypoLetters(w, rng).1 <==> TypoLetters(w, rng).0 != w
  {
    TypoLettersShape(w, rng);
    TypoLettersFlag(w, rng);
  }

  /** A token leaves the stage as a typo of itself; a non-alphabetic token passes unchanged and
      without a draw; an alphabetic word whose gate fails is unchanged and costs that one draw. */
  lemma TypoWordSpec(w: string, rng: Stream)
    ensures TypoOf(w, TypoWord(w, rng).0)
    ensures !IsAlphaWord(w) ==> TypoWord(w, rng) == (w, rng)
    ensures IsAlphaWord(w) && !NextGate(rng).0 ==> TypoWord(w, rng) == (w, NextGate(rng).1)
  {
    if IsAlphaWord(w) {
      TypoLettersSpec(w, NextGate(rng).1);
    }
  }

  /** The stage keeps the token count and order; every output token is a typo of the input token
      in its place, and every non-alphabetic token comes out unchanged. */
  lemma {:induction false} TypoPassSpec(words: seq<string>, rng: Stream)
    ensures |TypoPass(words, rng).0| == |words|
    ensures forall i | 0 <= i < |words| :: TypoOf(words[i], TypoPass(words, rng).0[i])
    ensures forall i | 0 <= i < |words| && !IsAlphaWord(words[i]) :: TypoPass(words, rng).0[i] == words[i]
    decreases |words|
  {
    if words != [] {
      var init := words[..|words| - 1];
      var last := words[|words| - 1];
      TypoPassSpec(init, rng);
      var (done, r) := TypoPass(init, rng);
      TypoWordSpec(last, r);
      var out := TypoPass(words, rng).0;
      assert out == done + [TypoWord(last, r).0];
      forall i | 0 <= i < |words|
        ensures TypoOf(words[i], out[i])
        ensures !IsAlphaWord(words[i]) ==> out[i] == words[i]
      {
        if i < |init| {
          assert words[i] == init[i] && out[i] == done[i];
        }
      }
    }
  }

  /** With no gate passing (typo probability 0) the stage leaves every token as it was. */
  lemma {:induction false} TypoPassWithoutGates(words: seq<string>, rng: Stream)
    requires NoGatePasses(rng)
    ensures TypoPass(words, rng).0 == words
    ensures NoGatePasses(TypoPass(words, rng).1)
    decreases |words|
  {
    if words != [] {
      var init := words[..|words| - 1];
      TypoPassWithoutGates(init, rng);
      var r := TypoPass(init, rng).1;
      AdvanceKeepsNoGatePasses(r);
      assert words == init + [words[|words| - 1]];
    }
  }

  /** The buffer before and after position `i` is settled. */
  lemma BufferStep(done: string, word: string, i: nat, v: char)
    requires |done| == i < |word|
    ensures (done + word[i..])[i := v] == (done + [v]) + word[i + 1..]
    ensures done + word[i..] == (done + [word[i]]) + word[i + 1..]
  {
  }

  /** The character loop of `introduce_typos` over a selected word: the word is copied into a
      character buffer (`word_chars`), which is edited in place, one gate per letter with a table
      entry and one pick per passed gate. */
  method TypoCharacters(word: string, rng: Stream) returns (chars: string, hasTypo: bool, rest: Stream)
    ensures (chars, hasTypo, rest) == TypoLetters(word, rng)
  {
    var buffer := new char[|word|](j requires 0 <= j < |word| => word[j]);
    hasTypo, rest := false, rng;
    for i := 0 to |word|
      invariant buffer[..] == TypoLetters(word[..i], rng).0 + word[i..]
      invariant hasTypo == TypoLetters(word[..i], rng).1 && rest == TypoLetters(word[..i], rng).2
    {
      assert word[..i + 1][..i] == word[..i];
      ghost var done := TypoLetters(word[..i], rng).0;
      ghost var before := buffer[..];
      var c := buffer[i];
      BufferStep(done, word, i, c);
      var lower := Lower(c);
      if IsAlpha(lower) && lower in QwertyNeighbors {
        var (hit, afterHit) := NextGate(rest);
        rest := afterHit;
        if hit {
          var neighbors := QwertyNeighbors[lower];
          if |neighbors| > 0 {
            var (k, afterPick) := NextPick(rest, |neighbors|);
            rest := afterPick;
            var replacement := neighbors[k];
            if IsUpper(c) {
              replacement := Upper(replacement);
            }
            buffer[i] := replacement;
            hasTypo := true;
            assert buffer[..] == before[i := replacement];
            BufferStep(done, word, i, replacement);
          }
        }
      }
    }
    assert word[..|word|] == word && word[|word|..] == [];
    chars := buffer[..];
    assert chars == TypoLetters(word, rng).0;
  }

  /** `introduce_typos` on the token list: a gate per alphabetic token; a selected word goes
      through the character loop and is replaced only when `has_typo` is set. */
  method IntroduceTypos(words: seq<string>, rng: Stream) returns (out: seq<string>, rest: Stream)
    ensures (out, rest) == TypoPass(words, rng)
  {
    out, rest := [], rng;
    for n := 0 to |words|
      invariant (out, rest) == TypoPass(words[..n], rng)
    {
      assert words[..n + 1][..n] == words[..n];
      var word := words[n];
      if !IsAlphaWord(word) {
        out := out + [word];
      } else {
        var (selected, afterGate) := NextGate(rest);
        rest := afterGate;
        if selected {
          var chars, hasTypo;
          chars, hasTypo, rest := TypoCharacters(word, rest);
          if hasTypo {
            out := out + [chars];
          } else {
            out := out + [word];
          }
        } else {
          out := out + [word];
        }
      }
    }
    assert words[..|words|] == words;
  }
}
