/** Stage 1 of `custom_transform`: phrase-to-acronym rewriting. Every case-insensitive,
    whole-word occurrence of a phrase of the table is replaced by the table's stored value;
    phrases are tried longest first and the scan runs left to right over the original text. */
module Acronyms {
  import opened Text

  datatype Option<T> = None | Some(value: T)

  /** `PHRASE_TO_ACRONYM`, in the order the dictionary is written. */
  const PhraseToAcronym: seq<(string, string)> := [
    ("united states", "US"),
    ("new york city", "NYC"),
    ("new mexico", "NM"),
    ("public broadcasting service", "PBS"),
    ("hallmark channel", "HMC"),
    ("hallmark movie channel", "HMC"),
    ("lifetime movie network", "LMN"),
    ("brain damage films", "BDF"),
    ("general certificate of secondary education", "GCSE"),
    ("video home system", "VHS"),
    ("digital versatile disc", "DVD"),
    ("three dimensional", "3D"),
    ("two dimensional", "2D"),
    ("sport utility vehicle", "SUV"),
    ("special effects", "SFX"),
    ("visual effects", "VFX"),
    ("computer generated imagery", "CGI"),
    ("original soundtrack", "OST"),
    ("background music", "BGM"),
    ("romantic comedy", "ROM-COM"),
    ("science fiction", "sci-fi"),
    ("point of view", "POV"),
    ("the zombie chronicles", "TZC"),
    ("camp blood", "CB"),
    ("love's abiding joy", "LAJ"),
    ("love come softly", "LCS"),
    ("the return", "TR"),
    ("star 80", "S80"),
    ("death of a centerfold: the dorothy stratten story", "DOC"),
    ("the last picture show", "TLPS"),
    ("paper moon", "PM"),
    ("what's up, doc", "WUD"),
    ("breakfast at tiffany's", "BAT"),
    ("my fair lady", "MFL"),
    ("love among thieves", "LAT"),
    ("mystery science theater 3000", "MST3K"),
    ("close encounters of the third kind", "CE3K"),
    ("final justice", "FJ"),
    ("satan's cheerleaders", "SC")
  ]

  /** `{k.lower(): v for k, v in table.items()}`: a later entry wins for a repeated key. */
  function LowerMap(table: seq<(string, string)>): map<string, string>
    decreases |table|
  {
    if table == [] then map[]
    else LowerMap(table[..|table| - 1])[LowerStr(table[|table| - 1].0) := table[|table| - 1].1]
  }

  /** The keys of that dictionary in insertion order: each lower-cased key at its first occurrence. */
  function LowerKeys(table: seq<(string, string)>): seq<string>
  {
    DedupByLower(seq(|table|, i requires 0 <= i < |table| => LowerStr(table[i].0)))
  }

  predicate SortedByLengthDesc(keys: seq<string>) {
    forall i, j | 0 <= i < j < |keys| :: |keys[i]| >= |keys[j]|
  }

  /** Places `k` after every element at least as long, keeping the sort stable. */
  function InsertByLength(k: string, sorted: seq<string>): seq<string>
    decreases |sorted|
  {
    if sorted == [] || |sorted[0]| < |k| then [k] + sorted
    else [sorted[0]] + InsertByLength(k, sorted[1..])
  }

  /** `sorted(keys, key=len, reverse=True)`. */
  function SortByLengthDesc(keys: seq<string>): seq<string>
    decreases |keys|
  {
    if keys == [] then []
    else InsertByLength(keys[|keys| - 1], SortByLengthDesc(keys[..|keys| - 1]))
  }

  lemma {:induction false} InsertByLengthKeeps(k: string, sorted: seq<string>)
    ensures multiset(InsertByLength(k, sorted)) == multiset(sorted) + multiset{k}
    decreases |sorted|
  {
    if sorted != [] && |sorted[0]| >= |k| {
      InsertByLengthKeeps(k, sorted[1..]);
      assert sorted == [sorted[0]] + sorted[1..];
    }
  }

  lemma {:induction false} InsertByLengthSorted(k: string, sorted: seq<string>)
    requires SortedByLengthDesc(sorted)
    ensures SortedByLengthDesc(InsertByLength(k, sorted))
    ensures forall x | x in InsertByLength(k, sorted) :: x == k || x in sorted
    decreases |sorted|
  {
    var r := InsertByLength(k, sorted);
    if sorted == [] || |sorted[0]| < |k| {
      assert r == [k] + sorted;
      assert forall j | 0 < j < |r| :: r[j] == sorted[j - 1];
    } else {
      var rest := InsertByLength(k, sorted[1..]);
      InsertByLengthSorted(k, sorted[1..]);
      assert r == [sorted[0]] + rest;
      forall i, j | 0 <= i < j < |r| ensures |r[i]| >= |r[j]| {
        if i == 0 {
          assert r[j] == rest[j - 1];
          assert rest[j - 1] in rest;
          if r[j] != k {
            var m :| 0 <= m < |sorted[1..]| && sorted[1..][m] == r[j];
            assert sorted[m + 1] == r[j];
          }
        } else {
          assert r[i] == rest[i - 1] && r[j] == rest[j - 1];
        }
      }
    }
  }

  /** The sort orders the keys by non-increasing length and keeps every key. */
  lemma {:induction false} SortByLengthDescSpec(keys: seq<string>)
    ensures SortedByLengthDesc(SortByLengthDesc(keys))
    ensures multiset(SortByLengthDesc(keys)) == multiset(keys)
    decreases |keys|
  {
    if keys != [] {
      var init := keys[..|keys| - 1];
      SortByLengthDescSpec(init);
      InsertByLengthKeeps(keys[|keys| - 1], SortByLengthDesc(init));
      InsertByLengthSorted(keys[|keys| - 1], SortByLengthDesc(init));
      assert keys == init + [keys[|keys| - 1]];
    }
  }

  /** `\b` at position `p`: a word character on exactly one side. */
  predicate WordBoundary(s: string, p: nat)
    requires p <= |s|
  {
    (p > 0 && IsWordChar(s[p - 1])) != (p < |s| && IsWordChar(s[p]))
  }

  /** The pattern `\b(k)\b` with `re.IGNORECASE` matches at `p`. (Every key of the table is
      non-empty; an empty key is never taken to match.) */
  predicate MatchesAt(s: string, p: nat, k: string)
    requires p <= |s|
  {
    0 < |k| && p + |k| <= |s| && WordBoundary(s, p) &&
    LowerStr(s[p..p + |k|]) == LowerStr(k) && WordBoundary(s, p + |k|)
  }

  /** The alternation tries the keys in order and takes the first that matches at `p`. */
  function FirstMatch(s: string, p: nat, keys: seq<string>): (r: Option<string>)
    requires p <= |s|
    ensures r.Some? ==> r.value in keys && MatchesAt(s, p, r.value)
    decreases |keys|
  {
    if keys == [] then None
    else if MatchesAt(s, p, keys[0]) then Some(keys[0])
    else FirstMatch(s, p, keys[1..])
  }

  /** The alternation fails exactly when no key matches at `p`. */
  lemma {:induction false} FirstMatchNone(s: string, p: nat, keys: seq<string>)
    requires p <= |s|
    ensures FirstMatch(s, p, keys).None? <==> forall i | 0 <= i < |keys| :: !MatchesAt(s, p, keys[i])
    decreases |keys|
  {
    if keys != [] {
      FirstMatchNone(s, p, keys[1..]);
      assert forall i | 1 <= i < |keys| :: keys[i] == keys[1..][i - 1];
    }
  }

  /** Every key has its lower-cased form in the dictionary. */
  predicate KeysMapped(keys: seq<string>, m: map<string, string>) {
    forall i | 0 <= i < |keys| :: LowerStr(keys[i]) in m
  }

  /** `pattern.sub(_repl, s)` from position `p` on: at each position the first key that matches
      is replaced by `_lower_map[match.lower()]` and the scan resumes after the match in the
      original text; otherwise the character is kept. */
  function RewriteFrom(s: string, p: nat, keys: seq<string>, m: map<string, string>): string
    requires p <= |s|
    requires KeysMapped(keys, m)
    decreases |s| - p
  {
    if p == |s| then []
    else
      match FirstMatch(s, p, keys)
      case Some(k) => m[LowerStr(s[p..p + |k|])] + RewriteFrom(s, p + |k|, keys, m)
      case None => [s[p]] + RewriteFrom(s, p + 1, keys, m)
  }

  /** Entry `i` is the last one with its lower-cased phrase: the one whose value the dictionary
      comprehension keeps. */
  predicate LastOfKey(table: seq<(string, string)>, i: nat)
    requires i < |table|
  {
    forall j | i < j < |table| :: LowerStr(table[j].0) != LowerStr(table[i].0)
  }

  /** Every phrase of the table, lower-cased, is a key of the dictionary, and the value stored
      under it is that of the last entry with that lower-cased phrase. */
  lemma {:induction false} LowerMapKeys(table: seq<(string, string)>)
    ensures forall i | 0 <= i < |table| :: LowerStr(table[i].0) in LowerMap(table)
    ensures forall i | 0 <= i < |table| && LastOfKey(table, i) :: LowerMap(table)[LowerStr(table[i].0)] == table[i].1
    decreases |table|
  {
    if table != [] {
      var n := |table| - 1;
      var init := table[..n];
      LowerMapKeys(init);
      assert forall i | 0 <= i < n :: table[i] == init[i];
      forall i | 0 <= i < n && LastOfKey(table, i)
        ensures LowerMap(table)[LowerStr(table[i].0)] == table[i].1
      {
        assert LowerStr(table[n].0) != LowerStr(table[i].0);
        assert LastOfKey(init, i);
      }
    }
  }

  /** Every key of the dictionary comes from a last entry of the table. */
  lemma {:induction false} LowerMapLastEntry(table: seq<(string, string)>, key: string)
    requires key in LowerMap(table)
    ensures exists i | 0 <= i < |table| :: LowerStr(table[i].0) == key && LastOfKey(table, i)
    decreases |table|
  {
    var n := |table| - 1;
    if LowerStr(table[n].0) != key {
      var init := table[..n];
      LowerMapLastEntry(init, key);
      var i :| 0 <= i < |init| && LowerStr(init[i].0) == key && LastOfKey(init, i);
      assert table[i] == init[i];
      assert LastOfKey(table, i);
    }
  }

  /** A sorted key sits somewhere in the unsorted keys. */
  lemma SortedKeyOrigin(keys: seq<string>, i: nat) returns (k: nat)
    requires i < |SortByLengthDesc(keys)|
    ensures k < |keys| && keys[k] == SortByLengthDesc(keys)[i]
  {
    SortByLengthDescSpec(keys);
    assert SortByLengthDesc(keys)[i] in multiset(keys);
    k :| 0 <= k < |keys| && keys[k] == SortByLengthDesc(keys)[i];
  }

  /** A dictionary key is the lower-cased phrase of some entry. */
  lemma LowerKeyOrigin(table: seq<(string, string)>, k: nat) returns (j: nat)
    requires k < |LowerKeys(table)|
    ensures j < |table| && LowerKeys(table)[k] == LowerStr(table[j].0)
  {
    var lowered := seq(|table|, i requires 0 <= i < |table| => LowerStr(table[i].0));
    DedupByLowerSpec(lowered);
    assert LowerKeys(table)[k] in lowered;
    j :| 0 <= j < |table| && lowered[j] == LowerKeys(table)[k];
  }

  /** One sorted key is a lower-cased table phrase with a value in the dictionary. */
  lemma SortedKeyFromTable(table: seq<(string, string)>, i: nat) returns (j: nat)
    requires i < |SortByLengthDesc(LowerKeys(table))|
    ensures j < |table| && SortByLengthDesc(LowerKeys(table))[i] == LowerStr(table[j].0)
    ensures LowerStr(SortByLengthDesc(LowerKeys(table))[i]) in LowerMap(table)
  {
    var k := SortedKeyOrigin(LowerKeys(table), i);
    j := LowerKeyOrigin(table, k);
    LowerStrIdempotent(table[j].0);
    LowerMapKeys(table);
  }

  /** One lower-cased table phrase is among the sorted keys. */
  lemma TableKeySorted(table: seq<(string, string)>, j: nat) returns (q: nat)
    requires j < |table|
    ensures q < |SortByLengthDesc(LowerKeys(table))|
    ensures SortByLengthDesc(LowerKeys(table))[q] == LowerStr(table[j].0)
  {
    var i := TableKeyIndex(table, j);
    q := KeySorted(LowerKeys(table), i);
  }

  /** A key keeps a place in the sorted keys. */
  lemma KeySorted(keys: seq<string>, i: nat) returns (q: nat)
    requires i < |keys|
    ensures q < |SortByLengthDesc(keys)| && SortByLengthDesc(keys)[q] == keys[i]
  {
    SortByLengthDescSpec(keys);
    assert keys[i] in multiset(SortByLengthDesc(keys));
    q :| 0 <= q < |SortByLengthDesc(keys)| && SortByLengthDesc(keys)[q] == keys[i];
  }

  /** One lower-cased table phrase is a dictionary key. */
  lemma TableKeyIndex(table: seq<(string, string)>, j: nat) returns (i: nat)
    requires j < |table|
    ensures i < |LowerKeys(table)| && LowerKeys(table)[i] == LowerStr(table[j].0)
  {
    var lowered := seq(|table|, i requires 0 <= i < |table| => LowerStr(table[i].0));
    var keys := LowerKeys(table);
    DedupByLowerSpec(lowered);
    var key := lowered[j];
    LowerStrIdempotent(table[j].0);
    InLowerSet(lowered, key);
    assert LowerStr(key) in LowerSet(keys);
    i :| 0 <= i < |keys| && LowerStr(keys[i]) == key;
    assert keys[i] in lowered;
    var m :| 0 <= m < |lowered| && lowered[m] == keys[i];
    LowerStrIdempotent(table[m].0);
  }

  /** Every sorted key has its lower-cased form in the dictionary. */
  lemma SortedKeysMapped(table: seq<(string, string)>)
    ensures KeysMapped(SortByLengthDesc(LowerKeys(table)), LowerMap(table))
  {
    forall i | 0 <= i < |SortByLengthDesc(LowerKeys(table))|
      ensures LowerStr(SortByLengthDesc(LowerKeys(table))[i]) in LowerMap(table)
    {
      var j := SortedKeyFromTable(table, i);
    }
  }

  /** Every sorted key is a lower-cased phrase of the table. */
  lemma SortedKeysFromTable(table: seq<(string, string)>)
    ensures forall i | 0 <= i < |SortByLengthDesc(LowerKeys(table))| ::
      exists j | 0 <= j < |table| :: SortByLengthDesc(LowerKeys(table))[i] == LowerStr(table[j].0)
  {
    var sorted := SortByLengthDesc(LowerKeys(table));
    forall i | 0 <= i < |sorted| ensures exists j | 0 <= j < |table| :: sorted[i] == LowerStr(table[j].0) {
      var j := SortedKeyFromTable(table, i);
    }
  }

  /** Conversely, every lower-cased table phrase is among the sorted keys. */
  lemma SortedKeysCoverTable(table: seq<(string, string)>)
    ensures forall j | 0 <= j < |table| :: LowerStr(table[j].0) in SortByLengthDesc(LowerKeys(table))
  {
    forall j | 0 <= j < |table| ensures LowerStr(table[j].0) in SortByLengthDesc(LowerKeys(table)) {
      var q := TableKeySorted(table, j);
    }
  }

  /** The scan of `pattern.sub` from position `p` with a table's dictionary and sorted keys. */
  function TableRewriteFrom(s: string, p: nat, table: seq<(string, string)>): string
    requires p <= |s|
  {
    SortedKeysMapped(table);
    RewriteFrom(s, p, SortByLengthDesc(LowerKeys(table)), LowerMap(table))
  }

  /** Rewriting with a table: one left-to-right substitution from the start. */
  function Substitute(s: string, table: seq<(string, string)>): string
  {
    TableRewriteFrom(s, 0, table)
  }

  /** Stage 1 on the text. */
  function RewriteAcronyms(text: string): string
  {
    Substitute(text, PhraseToAcronym)
  }

  /** When several keys match at the same position the alternation picks one at least as long
      as each of them, and one of the same length can only be the same phrase up to case. */
  lemma {:induction false} LongestKeyWins(s: string, p: nat, keys: seq<string>, k: string)
    requires p <= |s|
    requires SortedByLengthDesc(keys)
    requires k in keys && MatchesAt(s, p, k)
    ensures FirstMatch(s, p, keys).Some?
    ensures |FirstMatch(s, p, keys).value| > |k| || LowerStr(FirstMatch(s, p, keys).value) == LowerStr(k)
    decreases |keys|
  {
    if !MatchesAt(s, p, keys[0]) {
      assert k in keys[1..];
      LongestKeyWins(s, p, keys[1..], k);
    } else {
      var i :| 0 <= i < |keys| && keys[i] == k;
      assert |keys[0]| >= |keys[i]|;
    }
  }

  lemma LowerSlice(s: string, p: nat, q: nat)
    requires p <= q <= |s|
    ensures LowerStr(s[p..q]) == LowerStr(s)[p..q]
  {
  }

  /** Matching ignores case: texts equal up to case match the same key at every position. */
  lemma {:induction false} FirstMatchIgnoresCase(s: string, t: string, p: nat, keys: seq<string>)
    requires p <= |s|
    requires LowerStr(s) == LowerStr(t)
    ensures FirstMatch(s, p, keys) == FirstMatch(t, p, keys)
    decreases |keys|
  {
    assert |s| == |t|;
    assert forall i | 0 <= i < |s| :: IsWordChar(s[i]) == IsWordChar(t[i]) by {
      forall i | 0 <= i < |s| ensures IsWordChar(s[i]) == IsWordChar(t[i]) {
        assert Lower(s[i]) == LowerStr(s)[i] == LowerStr(t)[i] == Lower(t[i]);
      }
    }
    if keys != [] {
      var k := keys[0];
      if p + |k| <= |s| {
        LowerSlice(s, p, p + |k|);
        LowerSlice(t, p, p + |k|);
      }
      assert MatchesAt(s, p, k) == MatchesAt(t, p, k);
      FirstMatchIgnoresCase(s, t, p, keys[1..]);
    }
  }

  /** A match becomes the stored value of its key whatever the casing of the matched text: two
      texts equal up to case get the same value at the same position, and the scan resumes
      right after the match. */
  lemma MatchBecomesStoredValue(s: string, t: string, p: nat, keys: seq<string>, m: map<string, string>)
    requires p < |s|
    requires LowerStr(s) == LowerStr(t)
    requires KeysMapped(keys, m)
    requires FirstMatch(s, p, keys).Some?
    ensures var k := FirstMatch(s, p, keys).value;
      RewriteFrom(s, p, keys, m) == m[LowerStr(k)] + RewriteFrom(s, p + |k|, keys, m) &&
      RewriteFrom(t, p, keys, m) == m[LowerStr(k)] + RewriteFrom(t, p + |k|, keys, m)
  {
    FirstMatchIgnoresCase(s, t, p, keys);
  }

  /** Text in which no key matches at word boundaries comes back unchanged from `p` on. */
  lemma {:induction false} RewriteWithoutMatch(s: string, p: nat, keys: seq<string>, m: map<string, string>)
    requires p <= |s|
    requires KeysMapped(keys, m)
    requires forall q, i | p <= q <= |s| && 0 <= i < |keys| :: !MatchesAt(s, q, keys[i])
    ensures RewriteFrom(s, p, keys, m) == s[p..]
    decreases |s| - p
  {
    if p < |s| {
      RewriteWithoutMatch(s, p + 1, keys, m);
      assert s[p..] == [s[p]] + s[p + 1..];
    }
  }

  /** A text in which no phrase of the table occurs at word boundaries, in any casing, is a fixed
      point of the rewrite. */
  lemma SubstituteWithoutPhrase(s: string, table: seq<(string, string)>)
    requires forall q, j | 0 <= q <= |s| && 0 <= j < |table| :: !MatchesAt(s, q, table[j].0)
    ensures Substitute(s, table) == s
  {
    var keys := SortByLengthDesc(LowerKeys(table));
    SortedKeysMapped(table);
    SortedKeysFromTable(table);
    forall q, i | 0 <= q <= |s| && 0 <= i < |keys| ensures !MatchesAt(s, q, keys[i]) {
      var j :| 0 <= j < |table| && keys[i] == LowerStr(table[j].0);
      LowerStrIdempotent(table[j].0);
      assert !MatchesAt(s, q, table[j].0);
    }
    RewriteWithoutMatch(s, 0, keys, LowerMap(table));
  }

  /** At a match the scan emits the stored value of the picked key and resumes after it. */
  lemma RewriteAtMatch(s: string, p: nat, keys: seq<string>, m: map<string, string>, r: string)
    requires p <= |s|
    requires KeysMapped(keys, m)
    requires FirstMatch(s, p, keys) == Some(r)
    ensures p + |r| <= |s| && LowerStr(r) in m
    ensures RewriteFrom(s, p, keys, m) == m[LowerStr(r)] + RewriteFrom(s, p + |r|, keys, m)
  {
    var i :| 0 <= i < |keys| && keys[i] == r;
  }

  /** The dictionary entry for a key: the last table entry with that lower-cased phrase. */
  lemma LowerMapEntry(table: seq<(string, string)>, key: string) returns (i: nat)
    requires key in LowerMap(table)
    ensures i < |table| && LowerStr(table[i].0) == key && LastOfKey(table, i)
    ensures LowerMap(table)[key] == table[i].1
  {
    LowerMapLastEntry(table, key);
    i :| 0 <= i < |table| && LowerStr(table[i].0) == key && LastOfKey(table, i);
    LowerMapKeys(table);
  }

  /** A phrase equal up to case to a matching key matches too, with the same length. */
  lemma SamePhraseMatches(s: string, p: nat, key: string, phrase: string)
    requires p <= |s| && MatchesAt(s, p, key) && LowerStr(phrase) == LowerStr(key)
    ensures |phrase| == |key| && MatchesAt(s, p, phrase)
  {
  }

  /** Where a phrase matches and its lower-cased form is a key, the alternation over keys
      sorted longest first picks a key at least as long. */
  lemma PickedKey(s: string, p: nat, keys: seq<string>, phrase: string, q: nat) returns (r: string)
    requires p <= |s| && SortedByLengthDesc(keys)
    requires MatchesAt(s, p, phrase) && q < |keys| && keys[q] == LowerStr(phrase)
    ensures FirstMatch(s, p, keys) == Some(r) && |r| >= |phrase|
  {
    var key := LowerStr(phrase);
    LowerStrIdempotent(phrase);
    SamePhraseMatches(s, p, phrase, key);
    LongestKeyWins(s, p, keys, key);
    r := FirstMatch(s, p, keys).value;
  }

  /** The scan step at a match, written with a phrase as long as the picked key and the value
      stored under the key. */
  lemma PhraseStep(s: string, p: nat, keys: seq<string>, m: map<string, string>,
                   r: string, phrase: string, value: string)
    requires p <= |s| && KeysMapped(keys, m)
    requires FirstMatch(s, p, keys) == Some(r)
    requires |phrase| == |r| && LowerStr(r) in m && m[LowerStr(r)] == value
    ensures p + |phrase| <= |s|
    ensures RewriteFrom(s, p, keys, m) == value + RewriteFrom(s, p + |phrase|, keys, m)
  {
    RewriteAtMatch(s, p, keys, m, r);
  }

  lemma MatchedEntryStep(s: string, p: nat, keys: seq<string>, m: map<string, string>,
                         table: seq<(string, string)>, j: nat, q: nat)
    returns (i: nat, phrase: string, value: string)
    requires m == LowerMap(table)
    requires p <= |s| && SortedByLengthDesc(keys) && KeysMapped(keys, m)
    requires j < |table| && MatchesAt(s, p, table[j].0) && q < |keys| && keys[q] == LowerStr(table[j].0)
    ensures i < |table| && table[i] == (phrase, value) && LastOfKey(table, i)
    ensures MatchesAt(s, p, phrase)
    ensures forall k | 0 <= k < |keys| && MatchesAt(s, p, keys[k]) :: |keys[k]| <= |phrase|
    ensures RewriteFrom(s, p, keys, m) == value + RewriteFrom(s, p + |phrase|, keys, m)
  {
    var r := PickedKey(s, p, keys, table[j].0, q);
    PickedIsLongest(s, p, keys, r);
    i := LowerMapEntry(table, LowerStr(r));
    phrase, value := table[i].0, table[i].1;
    SamePhraseMatches(s, p, r, phrase);
    PhraseStep(s, p, keys, m, r, phrase, value);
  }

  /** The picked key is at least as long as every key matching at the position. */
  lemma PickedIsLongest(s: string, p: nat, keys: seq<string>, r: string)
    requires p <= |s| && SortedByLengthDesc(keys) && FirstMatch(s, p, keys) == Some(r)
    ensures forall k | 0 <= k < |keys| && MatchesAt(s, p, keys[k]) :: |keys[k]| <= |r|
  {
    forall k | 0 <= k < |keys| && MatchesAt(s, p, keys[k]) ensures |keys[k]| <= |r| {
      LongestKeyWins(s, p, keys, keys[k]);
    }
  }

  /** A phrase at least as long as every matching sorted key is at least as long as every
      matching table phrase. */
  lemma LongestOverTable(s: string, p: nat, table: seq<(string, string)>, n: nat)
    requires p <= |s|
    requires forall k | 0 <= k < |SortByLengthDesc(LowerKeys(table))| &&
      MatchesAt(s, p, SortByLengthDesc(LowerKeys(table))[k]) :: |SortByLengthDesc(LowerKeys(table))[k]| <= n
    ensures forall k | 0 <= k < |table| && MatchesAt(s, p, table[k].0) :: |table[k].0| <= n
  {
    forall k | 0 <= k < |table| && MatchesAt(s, p, table[k].0) ensures |table[k].0| <= n {
      var q := TableKeySorted(table, k);
      SamePhraseMatches(s, p, table[k].0, SortByLengthDesc(LowerKeys(table))[q]);
    }
  }

  /** Where a phrase of the table occurs at word boundaries, in any casing, the rewrite emits
      the stored value of a longest matching phrase (the last entry with that phrase, as the
      dictionary keeps it) and resumes right after that phrase. */
  lemma TablePhraseBecomesAcronym(s: string, p: nat, table: seq<(string, string)>, j: nat)
    requires p <= |s|
    requires j < |table| && MatchesAt(s, p, table[j].0)
    ensures exists i, phrase, value | 0 <= i < |table| && table[i] == (phrase, value) ::
      MatchesAt(s, p, phrase) && LastOfKey(table, i) &&
      (forall k | 0 <= k < |table| && MatchesAt(s, p, table[k].0) :: |table[k].0| <= |phrase|) &&
      TableRewriteFrom(s, p, table) == value + TableRewriteFrom(s, p + |phrase|, table)
  {
    SortedKeysMapped(table);
    SortByLengthDescSpec(LowerKeys(table));
    var q := TableKeySorted(table, j);
    var i, phrase, value := MatchedEntryStep(s, p, SortByLengthDesc(LowerKeys(table)), LowerMap(table), table, j, q);
    LongestOverTable(s, p, table, |phrase|);
  }
}
