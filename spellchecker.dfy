/** The two loops of `SpellChecker.main` that carry logic: filling the dictionary
    with lower-cased words, and scanning the document's tokens, reporting each
    unknown word once with its corrections. Reading files and printing are not
    modelled: the words and the tokens arrive as sequences, and the reports are
    returned. */
module SpellChecker {
  import opened Strings
  import opened TreeSets
  import opened Corrector
  import opened CorrectorProperties

  /** The loading loop of lines 21-23: every word of the list goes into the
      dictionary in lower case. */
  method LoadDictionary(words: seq<string>) returns (dictionary: set<string>)
    ensures forall x :: x in dictionary <==> exists j :: 0 <= j < |words| && x == Lower(words[j])
    ensures forall x | x in dictionary :: NoUpperCase(x)
    ensures (forall j | 0 <= j < |words| :: ' ' !in words[j]) ==> NoSpaces(dictionary)
  {
    dictionary := {};
    var i := 0;
    while i < |words|
      invariant 0 <= i <= |words|
      invariant forall x :: x in dictionary <==> exists j :: 0 <= j < i && x == Lower(words[j])
    {
      dictionary := dictionary + {Lower(words[i])};
      i := i + 1;
    }
    forall x | x in dictionary ensures NoUpperCase(x) && (' ' in x ==> exists j :: 0 <= j < |words| && ' ' in words[j]) {
      var j :| 0 <= j < |words| && x == Lower(words[j]);
      LowerProperties(words[j]);
    }
  }

  /** One line of output: an unknown word and its corrections in `TreeSet` order. */
  datatype Report = Report(word: string, corrections: seq<string>)

  /** The words reported for a token sequence, in the order they are reported: each
      token is lower-cased, and reported when neither the dictionary nor the earlier
      reports hold it. */
  function Reported(tokens: seq<string>, dictionary: set<string>): seq<string>
    decreases |tokens|
  {
    if tokens == [] then []
    else
      var earlier := Reported(tokens[..|tokens| - 1], dictionary);
      var word := Lower(tokens[|tokens| - 1]);
      if word !in dictionary && word !in earlier then earlier + [word] else earlier
  }

  /** The scan loop: `misspelledWords` starts empty and grows by exactly the reported
      words; every report carries the corrections of its word. */
  method ScanTokens(tokens: seq<string>, dictionary: set<string>)
    returns (reports: seq<Report>, misspelledWords: set<string>)
    ensures |reports| == |Reported(tokens, dictionary)|
    ensures forall k | 0 <= k < |reports| :: reports[k].word == Reported(tokens, dictionary)[k]
    ensures forall k | 0 <= k < |reports| ::
              StrictlySorted(reports[k].corrections)
              && Elements(reports[k].corrections) == Candidates(reports[k].word, dictionary)
    ensures misspelledWords == Elements(Reported(tokens, dictionary))
  {
    reports, misspelledWords := [], {};
    var i := 0;
    while i < |tokens|
      invariant 0 <= i <= |tokens|
      invariant |reports| == |Reported(tokens[..i], dictionary)|
      invariant forall k | 0 <= k < |reports| :: reports[k].word == Reported(tokens[..i], dictionary)[k]
      invariant forall k | 0 <= k < |reports| ::
                  StrictlySorted(reports[k].corrections)
                  && Elements(reports[k].corrections) == Candidates(reports[k].word, dictionary)
      invariant misspelledWords == Elements(Reported(tokens[..i], dictionary))
    {
      assert tokens[..i + 1][..i] == tokens[..i];
      var word := Lower(tokens[i]);
      if word !in dictionary && word !in misspelledWords {
        misspelledWords := misspelledWords + {word};
        var corrections := Corrections(word, dictionary);
        reports := reports + [Report(word, corrections)];
      }
      i := i + 1;
    }
    assert tokens[..i] == tokens;
  }

  /** Every reported word is a lower-cased token that the dictionary does not hold. */
  lemma {:induction false} ReportedSound(tokens: seq<string>, dictionary: set<string>)
    ensures forall k | 0 <= k < |Reported(tokens, dictionary)| ::
              var word := Reported(tokens, dictionary)[k];
              word !in dictionary && NoUpperCase(word)
              && exists j :: 0 <= j < |tokens| && word == Lower(tokens[j])
    decreases |tokens|
  {
    if tokens != [] {
      var front := tokens[..|tokens| - 1];
      ReportedSound(front, dictionary);
      LowerProperties(tokens[|tokens| - 1]);
      var r := Reported(tokens, dictionary);
      forall k | 0 <= k < |r|
        ensures r[k] !in dictionary && NoUpperCase(r[k])
        ensures exists j :: 0 <= j < |tokens| && r[k] == Lower(tokens[j])
      {
        if k < |Reported(front, dictionary)| {
          var j :| 0 <= j < |front| && r[k] == Lower(front[j]);
          assert front[j] == tokens[j];
        } else {
          assert r[k] == Lower(tokens[|tokens| - 1]);
        }
      }
    }
  }

  /** No word is reported twice. */
  lemma {:induction false} ReportedDistinct(tokens: seq<string>, dictionary: set<string>)
    ensures forall k, l | 0 <= k < l < |Reported(tokens, dictionary)| ::
              Reported(tokens, dictionary)[k] != Reported(tokens, dictionary)[l]
    decreases |tokens|
  {
    if tokens != [] {
      ReportedDistinct(tokens[..|tokens| - 1], dictionary);
    }
  }

  /** Every token whose lower-cased form the dictionary lacks gets reported. */
  lemma {:induction false} ReportedComplete(tokens: seq<string>, dictionary: set<string>)
    ensures forall j | 0 <= j < |tokens| && Lower(tokens[j]) !in dictionary ::
              Lower(tokens[j]) in Reported(tokens, dictionary)
    decreases |tokens|
  {
    if tokens != [] {
      var front := tokens[..|tokens| - 1];
      ReportedComplete(front, dictionary);
      forall j | 0 <= j < |tokens| && Lower(tokens[j]) !in dictionary
        ensures Lower(tokens[j]) in Reported(tokens, dictionary)
      {
        if j < |front| {
          assert front[j] == tokens[j];
        }
      }
    }
  }

  /** The reports for a prefix of the document come first and are never revised:
      `misspelledWords` only grows as the scan goes on. */
  lemma {:induction false} ReportedPrefix(tokens: seq<string>, dictionary: set<string>, i: nat)
    requires i <= |tokens|
    ensures Reported(tokens[..i], dictionary) <= Reported(tokens, dictionary)
    decreases |tokens|
  {
    if i < |tokens| {
      var front := tokens[..|tokens| - 1];
      assert front[..i] == tokens[..i];
      ReportedPrefix(front, dictionary, i);
    } else {
      assert tokens[..i] == tokens;
    }
  }

  /** Reports come in order of first occurrence: the first token that lower-cases to
      an unknown word produces the next report. */
  lemma ReportedFirstOccurrence(tokens: seq<string>, dictionary: set<string>, j: nat)
    requires j < |tokens| && Lower(tokens[j]) !in dictionary
    requires forall i | 0 <= i < j :: Lower(tokens[i]) != Lower(tokens[j])
    ensures var n := |Reported(tokens[..j], dictionary)|;
            n < |Reported(tokens, dictionary)| && Reported(tokens, dictionary)[n] == Lower(tokens[j])
  {
    var prefix := tokens[..j + 1];
    assert prefix[..j] == tokens[..j];
    ReportedSound(tokens[..j], dictionary);
    var word := Lower(tokens[j]);
    assert word !in Reported(tokens[..j], dictionary);
    assert Reported(prefix, dictionary) == Reported(tokens[..j], dictionary) + [word];
    ReportedPrefix(tokens, dictionary, j + 1);
  }
}
