/** ASCII stand-ins for the Python string operations the transforms rely on:
    `isalpha`, `isupper`, `lower`, `upper`, `capitalize`, `strip`, `split`,
    `" ".join` and the regular-expression class `\w`. */
module Text {

  predicate IsAlpha(c: char) { 'a' <= c <= 'z' || 'A' <= c <= 'Z' }

  predicate IsUpper(c: char) { 'A' <= c <= 'Z' }

  predicate IsLowerLetter(c: char) { 'a' <= c <= 'z' }

  /** Python's `\w` restricted to ASCII: letters, digits and underscore. */
  predicate IsWordChar(c: char) { IsAlpha(c) || '0' <= c <= '9' || c == '_' }

  /** The ASCII characters for which Python's `str.isspace` holds; `strip()` and
      `split()` with no argument use the same set. */
  predicate IsSpace(c: char) {
    c == ' ' || '\t' <= c <= '\r' || 28 <= c as int <= 31
  }

  function Lower(c: char): (r: char)
    ensures !IsUpper(r)
    ensures IsAlpha(r) == IsAlpha(c) && IsWordChar(r) == IsWordChar(c) && IsSpace(r) == IsSpace(c)
    ensures IsUpper(c) || r == c
  {
    if IsUpper(c) then (c as int + 32) as char else c
  }

  function Upper(c: char): (r: char)
    ensures IsLowerLetter(c) ==> IsUpper(r) && Lower(r) == c
    ensures !IsLowerLetter(c) ==> r == c
  {
    if IsLowerLetter(c) then (c as int - 32) as char else c
  }

  function LowerStr(s: string): (r: string)
    ensures |r| == |s|
    ensures forall i | 0 <= i < |s| :: r[i] == Lower(s[i])
  {
    seq(|s|, i requires 0 <= i < |s| => Lower(s[i]))
  }

  lemma LowerStrIdempotent(s: string)
    ensures LowerStr(LowerStr(s)) == LowerStr(s)
  {
  }

  /** `str.capitalize()`: first character upper case, all others lower case. */
  function Capitalize(s: string): (r: string)
    ensures |r| == |s|
    ensures s != [] ==> r[0] == Upper(s[0]) && r[1..] == LowerStr(s[1..])
    ensures LowerStr(r) == LowerStr(s)
  {
    if s == [] then [] else [Upper(s[0])] + LowerStr(s[1..])
  }

  /** `str.isalpha()`: non-empty and every character a letter. */
  predicate IsAlphaWord(w: string) {
    |w| > 0 && forall i | 0 <= i < |w| :: IsAlpha(w[i])
  }

  /** `not s.strip()`: the string is empty or all whitespace. */
  predicate IsBlank(s: string) {
    forall i | 0 <= i < |s| :: IsSpace(s[i])
  }

  /** The index just past the run of non-whitespace characters starting at `i`. */
  function WordEnd(s: string, i: nat): (j: nat)
    requires i <= |s|
    ensures i <= j <= |s|
    ensures forall k | i <= k < j :: !IsSpace(s[k])
    ensures j < |s| ==> IsSpace(s[j])
    decreases |s| - i
  {
    if i == |s| || IsSpace(s[i]) then i else WordEnd(s, i + 1)
  }

  /** `str.split()` with no separator: the maximal runs of non-whitespace, in order. */
  function Split(s: string): (ws: seq<string>)
    ensures forall i | 0 <= i < |ws| :: ws[i] != [] && forall j | 0 <= j < |ws[i]| :: !IsSpace(ws[i][j]) && ws[i][j] in s
    decreases |s|
  {
    if s == [] then []
    else if IsSpace(s[0]) then Split(s[1..])
    else
      var j := WordEnd(s, 0);
      [s[..j]] + Split(s[j..])
  }

  /** The whitespace around and between the words of `Split(s)`: the run before the first word,
      the runs between consecutive words, and the run after the last. */
  function SplitGaps(s: string): (gs: seq<string>)
    ensures |gs| == |Split(s)| + 1
    decreases |s|
  {
    if s == [] then [[]]
    else if IsSpace(s[0]) then
      var gs := SplitGaps(s[1..]);
      [[s[0]] + gs[0]] + gs[1..]
    else [[]] + SplitGaps(s[WordEnd(s, 0)..])
  }

  /** `gaps[0] + words[0] + gaps[1] + … + words[n - 1] + gaps[n]`. */
  function Interleave(gaps: seq<string>, words: seq<string>): string
    requires |gaps| == |words| + 1
    decreases |words|
  {
    if words == [] then gaps[0] else gaps[0] + words[0] + Interleave(gaps[1..], words[1..])
  }

  /** Every gap is whitespace only. */
  lemma {:induction false} SplitGapsBlank(s: string)
    ensures forall k | 0 <= k < |SplitGaps(s)| :: IsBlank(SplitGaps(s)[k])
    decreases |s|
  {
    if s != [] {
      if IsSpace(s[0]) {
        var gs := SplitGaps(s[1..]);
        SplitGapsBlank(s[1..]);
        var g0 := [s[0]] + gs[0];
        assert forall i | 1 <= i < |g0| :: g0[i] == gs[0][i - 1];
        assert forall k | 1 <= k < |gs| :: SplitGaps(s)[k] == gs[k];
      } else {
        SplitGapsBlank(s[WordEnd(s, 0)..]);
      }
    }
  }

  /** The gaps between words are non-empty, and so is the leading gap of text that starts with
      whitespace. */
  lemma {:induction false} SplitGapsSeparate(s: string)
    ensures forall k | 0 < k < |Split(s)| :: SplitGaps(s)[k] != []
    ensures s != [] && IsSpace(s[0]) ==> SplitGaps(s)[0] != []
    decreases |s|
  {
    if s != [] {
      if IsSpace(s[0]) {
        SplitGapsSeparate(s[1..]);
        assert forall k | 1 <= k < |Split(s)| :: SplitGaps(s)[k] == SplitGaps(s[1..])[k];
      } else {
        var j := WordEnd(s, 0);
        var rest := s[j..];
        SplitGapsSeparate(rest);
        assert forall k | 1 <= k <= |Split(rest)| :: SplitGaps(s)[k] == SplitGaps(rest)[k - 1];
        if Split(rest) != [] {
          assert j < |s| && IsSpace(rest[0]);
        }
      }
    }
  }

  /** Leading whitespace belongs to the first gap. */
  lemma InterleaveSpace(c: char, gs: seq<string>, ws: seq<string>)
    requires |gs| == |ws| + 1
    ensures Interleave([[c] + gs[0]] + gs[1..], ws) == [c] + Interleave(gs, ws)
  {
    var g := [[c] + gs[0]] + gs[1..];
    assert g[1..] == gs[1..];
  }

  /** A leading word comes after an empty first gap. */
  lemma InterleaveWord(w: string, gs: seq<string>, ws: seq<string>)
    requires |gs| == |ws| + 1
    ensures Interleave([[]] + gs, [w] + ws) == w + Interleave(gs, ws)
  {
    assert ([[]] + gs)[1..] == gs;
    assert ([w] + ws)[1..] == ws;
  }

  /** The words and the gaps, interleaved, rebuild the string. */
  lemma {:induction false} SplitRebuilds(s: string)
    ensures Interleave(SplitGaps(s), Split(s)) == s
    decreases |s|
  {
    if s != [] {
      if IsSpace(s[0]) {
        SplitRebuilds(s[1..]);
        InterleaveSpace(s[0], SplitGaps(s[1..]), Split(s[1..]));
        assert s == [s[0]] + s[1..];
      } else {
        var j := WordEnd(s, 0);
        SplitRebuilds(s[j..]);
        InterleaveWord(s[..j], SplitGaps(s[j..]), Split(s[j..]));
        assert s == s[..j] + s[j..];
      }
    }
  }

  /** `str.split()` pinned down: the words, separated by non-empty whitespace runs and framed by
      possibly empty ones, rebuild the string. Since words are non-empty and hold no whitespace,
      they are exactly the maximal non-whitespace runs, in order. */
  lemma SplitSpec(s: string)
    ensures forall k | 0 <= k < |SplitGaps(s)| :: IsBlank(SplitGaps(s)[k])
    ensures forall k | 0 < k < |Split(s)| :: SplitGaps(s)[k] != []
    ensures s != [] && IsSpace(s[0]) ==> SplitGaps(s)[0] != []
    ensures Interleave(SplitGaps(s), Split(s)) == s
  {
    SplitGapsBlank(s);
    SplitGapsSeparate(s);
    SplitRebuilds(s);
  }

  /** Splitting text that ends in whitespace and then more text splits the two parts separately. */
  lemma {:induction false} SplitAfterSpace(x: string, y: string)
    requires x != [] && IsSpace(x[|x| - 1])
    ensures Split(x + y) == Split(x) + Split(y)
    decreases |x|
  {
    if IsSpace(x[0]) {
      assert (x + y)[1..] == x[1..] + y;
      if |x| == 1 {
        assert x[1..] + y == y;
      } else {
        SplitAfterSpace(x[1..], y);
      }
    } else {
      var j := WordEnd(x, 0);
      assert j < |x|;
      WordEndAppend(x, y, 0);
      assert (x + y)[..j] == x[..j];
      assert (x + y)[j..] == x[j..] + y;
      SplitAfterSpace(x[j..], y);
    }
  }

  lemma {:induction false} WordEndAppend(x: string, y: string, i: nat)
    requires i <= |x| && WordEnd(x, i) < |x|
    ensures WordEnd(x + y, i) == WordEnd(x, i)
    decreases |x| - i
  {
    if !IsSpace(x[i]) {
      WordEndAppend(x, y, i + 1);
    }
  }

  /** `sep.join(parts)`. */
  function Join(sep: string, parts: seq<string>): string
  {
    if parts == [] then []
    else if |parts| == 1 then parts[0]
    else parts[0] + sep + Join(sep, parts[1..])
  }

  /** The concatenation of `parts`, in order (`"".join(parts)`). */
  function Concat(parts: seq<string>): string
  {
    if parts == [] then [] else parts[0] + Concat(parts[1..])
  }

  /** The set of lower-cased forms of the strings in `xs`. */
  function LowerSet(xs: seq<string>): set<string>
  {
    set i | 0 <= i < |xs| :: LowerStr(xs[i])
  }

  /** Case-insensitive de-duplication keeping the first occurrence of each lower-cased form,
      in first-seen order. */
  function DedupByLower(xs: seq<string>): (r: seq<string>)
    decreases |xs|
  {
    if xs == [] then []
    else
      var init := xs[..|xs| - 1];
      var x := xs[|xs| - 1];
      if LowerStr(x) in LowerSet(init) then DedupByLower(init) else DedupByLower(init) + [x]
  }

  lemma InLowerSet(xs: seq<string>, x: string)
    requires x in xs
    ensures LowerStr(x) in LowerSet(xs)
  {
    var i :| 0 <= i < |xs| && xs[i] == x;
  }

  lemma LowerSetSnoc(xs: seq<string>, x: string)
    ensures LowerSet(xs + [x]) == LowerSet(xs) + {LowerStr(x)}
  {
    var ys := xs + [x];
    forall l | l in LowerSet(ys) ensures l in LowerSet(xs) + {LowerStr(x)} {
      var i :| 0 <= i < |ys| && l == LowerStr(ys[i]);
      if i < |xs| { assert ys[i] == xs[i]; }
    }
    forall l | l in LowerSet(xs) ensures l in LowerSet(ys) {
      var i :| 0 <= i < |xs| && l == LowerStr(xs[i]);
      assert ys[i] == xs[i];
    }
    assert LowerStr(x) == LowerStr(ys[|xs|]);
  }

  /** De-duplication only ever appends: de-duplicating a prefix gives a prefix of the result. */
  lemma {:induction false} DedupByLowerPrefix(xs: seq<string>)
    ensures forall i | 0 <= i <= |xs| :: DedupByLower(xs[..i]) <= DedupByLower(xs)
    decreases |xs|
  {
    if xs != [] {
      var init := xs[..|xs| - 1];
      DedupByLowerPrefix(init);
      assert DedupByLower(init) <= DedupByLower(xs);
      forall i | 0 <= i <= |xs| ensures DedupByLower(xs[..i]) <= DedupByLower(xs) {
        if i < |xs| {
          assert xs[..i] == init[..i];
        } else {
          assert xs[..i] == xs;
        }
      }
    }
  }

  lemma {:induction false} DedupByLowerContents(xs: seq<string>)
    ensures forall i | 0 <= i < |DedupByLower(xs)| :: DedupByLower(xs)[i] in xs
    ensures forall i, j | 0 <= i < j < |DedupByLower(xs)| ::
      LowerStr(DedupByLower(xs)[i]) != LowerStr(DedupByLower(xs)[j])
    ensures LowerSet(DedupByLower(xs)) == LowerSet(xs)
    ensures forall i | 0 <= i < |xs| && LowerStr(xs[i]) !in LowerSet(xs[..i]) :: xs[i] in DedupByLower(xs)
    decreases |xs|
  {
    if xs != [] {
      var init := xs[..|xs| - 1];
      var x := xs[|xs| - 1];
      assert xs == init + [x];
      DedupByLowerContents(init);
      var d := DedupByLower(init);
      LowerSetSnoc(init, x);
      if LowerStr(x) in LowerSet(init) {
        assert DedupByLower(xs) == d;
        forall i | 0 <= i < |xs| && LowerStr(xs[i]) !in LowerSet(xs[..i]) ensures xs[i] in d {
          if i < |xs| - 1 {
            assert xs[..i] == init[..i];
            assert xs[i] == init[i];
          }
        }
      } else {
        assert DedupByLower(xs) == d + [x];
        LowerSetSnoc(d, x);
        forall i, j | 0 <= i < j < |d + [x]| ensures LowerStr((d + [x])[i]) != LowerStr((d + [x])[j]) {
          if j == |d| {
            assert (d + [x])[i] == d[i];
            assert LowerStr(d[i]) in LowerSet(d);
          }
        }
        forall i | 0 <= i < |xs| && LowerStr(xs[i]) !in LowerSet(xs[..i]) ensures xs[i] in d + [x] {
          if i < |xs| - 1 {
            assert xs[..i] == init[..i];
            assert xs[i] == init[i];
          }
        }
      }
    }
  }

  /** The de-duplicated list takes its elements from the input, holds no two entries that are
      equal case-insensitively, covers every lower-cased form of the input, keeps the first
      occurrence of each, and keeps them in first-seen order: the de-duplicated prefixes of the
      input are prefixes of it. */
  lemma DedupByLowerSpec(xs: seq<string>)
    ensures forall i | 0 <= i < |DedupByLower(xs)| :: DedupByLower(xs)[i] in xs
    ensures forall i, j | 0 <= i < j < |DedupByLower(xs)| ::
      LowerStr(DedupByLower(xs)[i]) != LowerStr(DedupByLower(xs)[j])
    ensures LowerSet(DedupByLower(xs)) == LowerSet(xs)
    ensures forall i | 0 <= i < |xs| && LowerStr(xs[i]) !in LowerSet(xs[..i]) :: xs[i] in DedupByLower(xs)
    ensures forall i | 0 <= i <= |xs| :: DedupByLower(xs[..i]) <= DedupByLower(xs)
  {
    DedupByLowerContents(xs);
    DedupByLowerPrefix(xs);
  }
}
