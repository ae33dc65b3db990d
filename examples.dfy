/** Worked cases of `corrections`, proved about `Candidates` and, for ordering,
    about the sorted view every `Corrections` result has. */
module CorrectorExamples {
  import opened Strings
  import opened TreeSets
  import opened Corrector
  import opened CorrectorProperties

  /** Deleting the trailing `s` of "cats" is the only way to reach "cat". */
  lemma DeletionExample()
    ensures Candidates("cats", {"cat"}) == {"cat"}
  {
    var d := {"cat"};
    assert Delete("cats", 3) == "cat";
    assert "cat" in Deletions("cats", d, 4);
    forall s | s in Candidates("cats", d) ensures s == "cat" {
      CandidateShape("cats", d, s);
    }
  }

  lemma SubstitutionExample()
    ensures "bat" in Candidates("cat", {"bat"})
  {
    assert Substitute("cat", 0, 'b') == "bat";
    assert "bat" in Substitutions("cat", {"bat"}, 3, 'a');
  }

  lemma InsertionExample()
    ensures "cats" in Candidates("cat", {"cats"})
  {
    assert InsertAt("cat", 3, 's') == "cats";
    assert "cats" in Insertions("cat", {"cats"}, 4, 'a');
  }

  lemma TranspositionExample()
    ensures "cat" in Candidates("cta", {"cat"})
  {
    assert Swap("cta", 1) == "cat";
    assert "cat" in Transpositions("cta", {"cat"}, 3);
  }

  lemma SplitExample()
    ensures "a cat" in Candidates("acat", {"a", "cat"})
  {
    assert "acat"[..1] == "a" && "acat"[1..] == "cat";
    assert Split("acat", 1) == "a cat";
    assert "a cat" in Splits("acat", {"a", "cat"}, 4);
  }

  /** "dog" is more than one edit away from "xyz", so nothing is offered. */
  lemma NoMatchExample()
    ensures Candidates("xyz", {"dog"}) == {}
  {
    var d := {"dog"};
    forall i: nat, c | i < 3 ensures Substitute("xyz", i, c) != "dog" {
      var k := if i == 0 then 1 else 0;
      assert Substitute("xyz", i, c)[k] == "xyz"[k];
    }
    forall i: nat | i + 1 < 3 ensures Swap("xyz", i) != "dog" {
      assert Swap("xyz", i)[0] in "xyz";
    }
    assert "dog" !in Candidates("xyz", d);
    forall s | s in Candidates("xyz", d) ensures s in d {
      CandidateShape("xyz", d, s);
    }
  }

  /** Three substitutions at position 0, returned in ascending order. */
  lemma OrderingExample(result: seq<string>)
    requires StrictlySorted(result)
    requires Elements(result) == Candidates("aat", {"bat", "cat", "eat"})
    ensures result == ["bat", "cat", "eat"]
  {
    var d := {"bat", "cat", "eat"};
    assert Substitute("aat", 0, 'b') == "bat";
    assert Substitute("aat", 0, 'c') == "cat";
    assert Substitute("aat", 0, 'e') == "eat";
    assert d <= Substitutions("aat", d, 3, 'a');
    forall s | s in Candidates("aat", d) ensures s in d {
      CandidateShape("aat", d, s);
    }
    var sorted := ["bat", "cat", "eat"];
    assert Less("bat", "cat") && Less("cat", "eat") && Less("bat", "eat");
    assert Elements(sorted) == d;
    SortedUnique(result, sorted);
  }
}
