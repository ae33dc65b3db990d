/** `SpellChecker.corrections`: every string one simple edit away from a word that
    the dictionary accepts, collected in a `TreeSet`. */
module Corrector {
  import opened Strings
  import opened TreeSets

  // ---------------------------------------------------------------------------
  // The five edits, each written with the same substrings as the source.

  /** Remove the character at `i`. */
  function Delete(w: string, i: nat): string
    requires i < |w|
  {
    w[..i] + w[i + 1..]
  }

  /** Replace the character at `i` by `c`. */
  function Substitute(w: string, i: nat, c: char): string
    requires i < |w|
  {
    w[..i] + [c] + w[i + 1..]
  }

  /** Put `c` in front of position `i` (`i == |w|` appends). */
  function InsertAt(w: string, i: nat, c: char): string
    requires i <= |w|
  {
    w[..i] + [c] + w[i..]
  }

  /** Exchange the characters at `i` and `i + 1`. */
  function Swap(w: string, i: nat): string
    requires i + 1 < |w|
  {
    w[..i] + [w[i + 1]] + [w[i]] + w[i + 2..]
  }

  /** The two-word phrase made by putting a space before position `i`. */
  function Split(w: string, i: nat): string
    requires i <= |w|
  {
    w[..i] + " " + w[i..]
  }

  // ---------------------------------------------------------------------------
  // The accepted candidates of each pass. `n` (and `ch`) say how far the pass has
  // got: positions before `n` are done, and in a pass over letters, position `n`
  // is done for the letters before `ch`.

  function Deletions(w: string, dict: set<string>, n: nat): set<string> {
    set i | 0 <= i < n && i < |w| && Delete(w, i) in dict :: Delete(w, i)
  }

  function Substitutions(w: string, dict: set<string>, n: nat, ch: char): set<string> {
    set i, c | 0 <= i < |w| && 'a' <= c <= 'z' && (i < n || (i == n && c < ch))
                 && Substitute(w, i, c) in dict :: Substitute(w, i, c)
  }

  function Insertions(w: string, dict: set<string>, n: nat, ch: char): set<string> {
    set i, c | 0 <= i <= |w| && 'a' <= c <= 'z' && (i < n || (i == n && c < ch))
                 && InsertAt(w, i, c) in dict :: InsertAt(w, i, c)
  }

  function Transpositions(w: string, dict: set<string>, n: nat): set<string> {
    set i | 0 <= i < n && i + 1 < |w| && Swap(w, i) in dict :: Swap(w, i)
  }

  function Splits(w: string, dict: set<string>, n: nat): set<string> {
    set i | 1 <= i < n && i < |w| && w[..i] in dict && w[i..] in dict :: Split(w, i)
  }

  /** What `corrections(w, dict)` holds when it returns: the single-edit variants of
      `w` that the dictionary accepts, and the splits whose halves it accepts. */
  function Candidates(w: string, dict: set<string>): set<string> {
    Deletions(w, dict, |w|)
    + Substitutions(w, dict, |w|, 'a')
    + Insertions(w, dict, |w| + 1, 'a')
    + Transpositions(w, dict, |w|)
    + Splits(w, dict, |w|)
  }

  // ---------------------------------------------------------------------------
  // The imperative generator.

  /** The successor of `ch` in the `ch++` of a `for` loop over letters. */
  function NextChar(ch: char): char
    requires 'a' <= ch <= 'z'
  {
    (ch as int + 1) as char
  }

  /** `corrections(badWord, dictionary)`: returns the `TreeSet` as its iteration
      order, which is strictly ascending and holds exactly `Candidates`. Defined for
      every string, including the empty one. The five passes run in the source's
      order over the one accumulating result. */
  method Corrections(badWord: string, dictionary: set<string>) returns (result: seq<string>)
    ensures StrictlySorted(result)
    ensures Elements(result) == Candidates(badWord, dictionary)
  {
    result := [];
    result := AddDeletions(badWord, dictionary, result);
    result := AddSubstitutions(badWord, dictionary, result);
    result := AddInsertions(badWord, dictionary, result);
    result := AddTranspositions(badWord, dictionary, result);
    result := AddSplits(badWord, dictionary, result);
  }

  /** Pass 1 (lines 94-100): each string that drops exactly one position of the
      word, kept when the dictionary holds it. */
  method AddDeletions(badWord: string, dictionary: set<string>, start: seq<string>)
    returns (result: seq<string>)
    requires StrictlySorted(start)
    ensures StrictlySorted(result)
    ensures Elements(result) == Elements(start) + Deletions(badWord, dictionary, |badWord|)
  {
    result := start;
    var i := 0;
    while i < |badWord|
      invariant 0 <= i <= |badWord|
      invariant StrictlySorted(result)
      invariant Elements(result) == Elements(start) + Deletions(badWord, dictionary, i)
    {
      var s := badWord[..i] + badWord[i + 1..];
      if s in dictionary {
        result := Insert(result, s);
      }
      DeletionsStep(badWord, dictionary, i);
      i := i + 1;
    }
  }

  /** Pass 2 (lines 102-110): each string that puts one of `a`..`z` in place of one
      position, kept when the dictionary holds it. The letter already at that
      position is tried as well, so the word itself can come back. */
  method AddSubstitutions(badWord: string, dictionary: set<string>, start: seq<string>)
    returns (result: seq<string>)
    requires StrictlySorted(start)
    ensures StrictlySorted(result)
    ensures Elements(result) == Elements(start) + Substitutions(badWord, dictionary, |badWord|, 'a')
  {
    result := start;
    var i := 0;
    while i < |badWord|
      invariant 0 <= i <= |badWord|
      invariant StrictlySorted(result)
      invariant Elements(result) == Elements(start) + Substitutions(badWord, dictionary, i, 'a')
    {
      var ch := 'a';
      while ch <= 'z'
        invariant 'a' <= ch <= '{'
        invariant StrictlySorted(result)
        invariant Elements(result) == Elements(start) + Substitutions(badWord, dictionary, i, ch)
        decreases 'z' as int - ch as int
      {
        var s := badWord[..i] + [ch] + badWord[i + 1..];
        if s in dictionary {
          result := Insert(result, s);
        }
        SubstitutionsStep(badWord, dictionary, i, ch);
        ch := NextChar(ch);
      }
      SubstitutionsRow(badWord, dictionary, i);
      i := i + 1;
    }
  }

  /** Pass 3 (lines 112-120): each string one letter `a`..`z` longer, the letter
      placed before any position or after the last one, kept when the dictionary
      holds it. */
  method AddInsertions(badWord: string, dictionary: set<string>, start: seq<string>)
    returns (result: seq<string>)
    requires StrictlySorted(start)
    ensures StrictlySorted(result)
    ensures Elements(result) == Elements(start) + Insertions(badWord, dictionary, |badWord| + 1, 'a')
  {
    result := start;
    var i := 0;
    while i <= |badWord|
      invariant 0 <= i <= |badWord| + 1
      invariant StrictlySorted(result)
      invariant Elements(result) == Elements(start) + Insertions(badWord, dictionary, i, 'a')
    {
      var ch := 'a';
      while ch <= 'z'
        invariant 'a' <= ch <= '{'
        invariant StrictlySorted(result)
        invariant Elements(result) == Elements(start) + Insertions(badWord, dictionary, i, ch)
        decreases 'z' as int - ch as int
      {
        var s := badWord[..i] + [ch] + badWord[i..];
        if s in dictionary {
          result := Insert(result, s);
        }
        InsertionsStep(badWord, dictionary, i, ch);
        ch := NextChar(ch);
      }
      InsertionsRow(badWord, dictionary, i);
      i := i + 1;
    }
  }

  /** Pass 4 (lines 122-128): each string with two adjacent positions exchanged,
      kept when the dictionary holds it. The upper bound is one less than the
      length, which is negative for the empty word, so then nothing is tried. */
  method AddTranspositions(badWord: string, dictionary: set<string>, start: seq<string>)
    returns (result: seq<string>)
    requires StrictlySorted(start)
    ensures StrictlySorted(result)
    ensures Elements(result) == Elements(start) + Transpositions(badWord, dictionary, |badWord|)
  {
    result := start;
    var i := 0;
    while i < |badWord| - 1
      invariant 0 <= i <= |badWord|
      invariant StrictlySorted(result)
      invariant Elements(result) == Elements(start) + Transpositions(badWord, dictionary, i)
    {
      var s := badWord[..i] + [badWord[i + 1]] + [badWord[i]] + badWord[i + 2..];
      if s in dictionary {
        result := Insert(result, s);
      }
      TranspositionsStep(badWord, dictionary, i);
      i := i + 1;
    }
    TranspositionsDone(badWord, dictionary, i);
  }

  /** Pass 5 (lines 130-137): each cut of the word into a non-empty front and a
      non-empty back; the two joined by a space are kept when the dictionary holds
      each of them. */
  method AddSplits(badWord: string, dictionary: set<string>, start: seq<string>)
    returns (result: seq<string>)
    requires StrictlySorted(start)
    ensures StrictlySorted(result)
    ensures Elements(result) == Elements(start) + Splits(badWord, dictionary, |badWord|)
  {
    result := start;
    var i := 1;
    while i < |badWord|
      invariant 1 <= i
      invariant i <= |badWord| || i == 1
      invariant StrictlySorted(result)
      invariant Elements(result) == Elements(start) + Splits(badWord, dictionary, i)
    {
      var part1 := badWord[..i];
      var part2 := badWord[i..];
      if part1 in dictionary && part2 in dictionary {
        result := Insert(result, part1 + " " + part2);
      }
      SplitsStep(badWord, dictionary, i);
      i := i + 1;
    }
    SplitsDone(badWord, dictionary, i);
  }

  // ---------------------------------------------------------------------------
  // One iteration of each loop adds at most the one string it tests.

  lemma DeletionsStep(w: string, dict: set<string>, i: nat)
    requires i < |w|
    ensures Deletions(w, dict, i + 1)
            == Deletions(w, dict, i) + (if Delete(w, i) in dict then {Delete(w, i)} else {})
  {
  }

  lemma SubstitutionsStep(w: string, dict: set<string>, i: nat, ch: char)
    requires i < |w| && 'a' <= ch <= 'z'
    ensures Substitutions(w, dict, i, NextChar(ch))
            == Substitutions(w, dict, i, ch)
               + (if Substitute(w, i, ch) in dict then {Substitute(w, i, ch)} else {})
  {
  }

  lemma SubstitutionsRow(w: string, dict: set<string>, i: nat)
    requires i < |w|
    ensures Substitutions(w, dict, i, '{') == Substitutions(w, dict, i + 1, 'a')
  {
  }

  lemma InsertionsStep(w: string, dict: set<string>, i: nat, ch: char)
    requires i <= |w| && 'a' <= ch <= 'z'
    ensures Insertions(w, dict, i, NextChar(ch))
            == Insertions(w, dict, i, ch)
               + (if InsertAt(w, i, ch) in dict then {InsertAt(w, i, ch)} else {})
  {
  }

  lemma InsertionsRow(w: string, dict: set<string>, i: nat)
    requires i <= |w|
    ensures Insertions(w, dict, i, '{') == Insertions(w, dict, i + 1, 'a')
  {
  }

  lemma TranspositionsStep(w: string, dict: set<string>, i: nat)
    requires i + 1 < |w|
    ensures Transpositions(w, dict, i + 1)
            == Transpositions(w, dict, i) + (if Swap(w, i) in dict then {Swap(w, i)} else {})
  {
  }

  lemma TranspositionsDone(w: string, dict: set<string>, i: nat)
    requires i + 1 >= |w| && i <= |w|
    ensures Transpositions(w, dict, i) == Transpositions(w, dict, |w|)
  {
  }

  lemma SplitsStep(w: string, dict: set<string>, i: nat)
    requires 1 <= i < |w|
    ensures Splits(w, dict, i + 1)
            == Splits(w, dict, i)
               + (if w[..i] in dict && w[i..] in dict then {w[..i] + " " + w[i..]} else {})
  {
  }

  lemma SplitsDone(w: string, dict: set<string>, i: nat)
    requires i >= |w| && (i <= |w| || i == 1)
    ensures Splits(w, dict, i) == Splits(w, dict, |w|)
  {
  }
}

/** What `corrections` promises about its result, stated against an edit relation
    that mentions neither loop bounds nor the dictionary. */
module CorrectorProperties {
  import opened Strings
  import opened TreeSets
  import opened Corrector

  /** `s` is reachable from `w` by one deletion, one substitution or insertion of a
      letter `a`..`z`, or one swap of neighbours. */
  predicate OneEdit(w: string, s: string) {
    || (exists i :: 0 <= i < |w| && s == Delete(w, i))
    || (exists i, c :: 0 <= i < |w| && IsLowerLetter(c) && s == Substitute(w, i, c))
    || (exists i, c :: 0 <= i <= |w| && IsLowerLetter(c) && s == InsertAt(w, i, c))
    || (exists i :: 0 <= i && i + 1 < |w| && s == Swap(w, i))
  }

  /** `s` is `p + " " + q` for non-empty `p`, `q` with `p + q == w`, both accepted. */
  predicate AcceptedSplit(w: string, dict: set<string>, s: string) {
    exists i :: 1 <= i < |w| && s == Split(w, i) && w[..i] in dict && w[i..] in dict
  }

  /** Dictionary words are single words: `Scanner.next()` never returns whitespace. */
  predicate NoSpaces(dict: set<string>) {
    forall x | x in dict :: ' ' !in x
  }

  /** Soundness and completeness together: the result is exactly the one-edit
      variants the dictionary accepts, plus the accepted splits. */
  lemma CandidatesExactly(w: string, dict: set<string>, s: string)
    ensures s in Candidates(w, dict) <==> (s in dict && OneEdit(w, s)) || AcceptedSplit(w, dict, s)
  {
  }

  /** The completeness half of `CandidatesExactly`, restated pass by pass and for all
      indices at once: every accepted variant the five loops test is in the result. */
  lemma CandidatesComplete(w: string, dict: set<string>)
    ensures forall i | 0 <= i < |w| && Delete(w, i) in dict :: Delete(w, i) in Candidates(w, dict)
    ensures forall i, c | 0 <= i < |w| && IsLowerLetter(c) && Substitute(w, i, c) in dict ::
              Substitute(w, i, c) in Candidates(w, dict)
    ensures forall i, c | 0 <= i <= |w| && IsLowerLetter(c) && InsertAt(w, i, c) in dict ::
              InsertAt(w, i, c) in Candidates(w, dict)
    ensures forall i | 0 <= i && i + 1 < |w| && Swap(w, i) in dict :: Swap(w, i) in Candidates(w, dict)
    ensures forall i | 1 <= i < |w| && w[..i] in dict && w[i..] in dict ::
              w[..i] + " " + w[i..] in Candidates(w, dict)
  {
  }

  /** A split contains a space; with a dictionary of single words every other
      candidate is a dictionary word and contains none. */
  lemma CandidateShape(w: string, dict: set<string>, s: string)
    requires s in Candidates(w, dict)
    ensures s in dict || AcceptedSplit(w, dict, s)
    ensures AcceptedSplit(w, dict, s) ==> ' ' in s
    ensures NoSpaces(dict) ==> (' ' !in s <==> s in dict)
    ensures NoSpaces(dict) ==> (' ' in s <==> AcceptedSplit(w, dict, s))
  {
  }

  /** Deletion shortens by one, substitution and swapping keep the length, insertion
      and splitting lengthen by one. */
  lemma CandidateLength(w: string, dict: set<string>, s: string)
    requires s in Candidates(w, dict)
    ensures |w| - 1 <= |s| <= |w| + 1
    ensures AcceptedSplit(w, dict, s) ==> |s| == |w| + 1
  {
  }

  /** Only substitution and insertion bring in new characters, and those are letters
      `a`..`z`; a space comes only from a split. */
  lemma CandidateAlphabet(w: string, dict: set<string>, s: string)
    requires s in Candidates(w, dict)
    ensures forall k | 0 <= k < |s| ::
              s[k] in w || IsLowerLetter(s[k]) || (s[k] == ' ' && AcceptedSplit(w, dict, s))
  {
  }

  /** The word itself is offered only if the dictionary accepts it and one pass
      reproduces it: substituting a lower-case letter by itself, or swapping two
      equal neighbours. No other pass keeps the word unchanged. */
  lemma SelfCorrectionOnlyIf(w: string, dict: set<string>)
    requires w in Candidates(w, dict)
    ensures w in dict
    ensures (exists i :: 0 <= i < |w| && IsLowerLetter(w[i]))
            || (exists i :: 0 <= i && i + 1 < |w| && w[i] == w[i + 1])
  {
    if w in Substitutions(w, dict, |w|, 'a') {
      var i, c :| 0 <= i < |w| && 'a' <= c <= 'z' && Substitute(w, i, c) in dict && w == Substitute(w, i, c);
      assert w[i] == Substitute(w, i, c)[i];
    } else if w in Transpositions(w, dict, |w|) {
      var i :| 0 <= i < |w| && i + 1 < |w| && Swap(w, i) in dict && w == Swap(w, i);
      assert w[i] == Swap(w, i)[i];
    }
  }

  /** Conversely, a dictionary word with a lower-case letter, or with two equal
      neighbours, is offered as its own correction. */
  lemma SelfCorrectionIf(w: string, dict: set<string>)
    requires w in dict
    requires (exists i :: 0 <= i < |w| && IsLowerLetter(w[i]))
             || (exists i :: 0 <= i && i + 1 < |w| && w[i] == w[i + 1])
    ensures w in Candidates(w, dict)
  {
    if exists i :: 0 <= i < |w| && IsLowerLetter(w[i]) {
      var i :| 0 <= i < |w| && IsLowerLetter(w[i]);
      assert Substitute(w, i, w[i]) == w;
      assert w in Substitutions(w, dict, |w|, 'a');
    } else {
      var i :| 0 <= i && i + 1 < |w| && w[i] == w[i + 1];
      assert Swap(w, i) == w;
      assert w in Transpositions(w, dict, |w|);
    }
  }

  /** For the empty word only the insertion pass at position 0 runs, so the result
      is the single-letter dictionary words. */
  lemma EmptyWord(dict: set<string>)
    ensures Candidates("", dict) == set c | 'a' <= c <= 'z' && [c] in dict :: [c]
  {
    var lhs := Candidates("", dict);
    var rhs := set c | 'a' <= c <= 'z' && [c] in dict :: [c];
    forall s | s in lhs ensures s in rhs {
      assert s in Insertions("", dict, 1, 'a');
      var c :| 'a' <= c <= 'z' && InsertAt("", 0, c) in dict && s == InsertAt("", 0, c);
      assert InsertAt("", 0, c) == [c];
    }
    forall s | s in rhs ensures s in lhs {
      var c :| 'a' <= c <= 'z' && [c] in dict && s == [c];
      assert InsertAt("", 0, c) == s;
    }
  }
}
