# Spelling checker: a verified model of the correction generator

The program loads a word list into a dictionary of lower-cased words. It then
reads a document's tokens. Each lower-cased token that the dictionary lacks is
reported once, with its suggested corrections. A correction is any string one
simple edit away from the token that the dictionary accepts:

- delete one character;
- replace one character by a letter `a`..`z`;
- insert a letter `a`..`z` at any position, both ends included;
- swap two neighbouring characters;
- split the token into two non-empty halves joined by a space, if the dictionary
  accepts both halves.

The corrections are collected in a `TreeSet<String>`, so they come out without
repeats and in ascending `compareTo` order.

In the table below, `len(w)` is the length of the word `w`. The model has five modules:

- `Strings` (strings.dfy): ASCII lower-casing, and `Less`, which is the order of
  `String.compareTo`. It proves that `Less` is a strict total order.
- `TreeSets` (treesets.dfy): a `TreeSet` seen as a strictly ascending sequence.
  `Insert` is `add`. `SortedUnique` proves that the iteration order is fixed by
  the contents alone.
- `Corrector` and `CorrectorProperties` (corrector.dfy):
  - `Corrections` is `corrections`. Each of its five loops is its own method.
    They run in the source's order and add to the same result.
  - `Candidates` is the set those loops build, written declaratively. It is the
    specification the methods are proved against.
  - The lemmas state what that set is: its exact membership, its shape, lengths,
    alphabet, the self-correction case and the empty word.
- `CorrectorExamples` (examples.dfy): worked cases of `corrections`, one per
  pass, an empty result and an ordering case, proved.
- `SpellChecker` (spellchecker.dfy): the dictionary-filling loop, and the
  token-scan loop that threads `misspelledWords`. Each is proved against a pure
  function (`Lower`, `Reported`).

The dictionary is a `set<string>` value. Nothing in the model writes to it, so
"the dictionary is left unchanged" holds by construction.

`corrections` can return the word itself when the dictionary holds it:

- Replacing a lower-case letter by itself (lines 103-109) gives the word back.
  So does swapping two equal neighbours (line 124).
- `SelfCorrectionOnlyIf` and `SelfCorrectionIf` state exactly when this happens.
- The scan loop only calls `corrections` on words outside the dictionary. There
  the case never arises.

## Model

| member | source | states |
|---|---|---|
| Corrector.Corrections | SpellChecker.java:91-140 | for every string (the empty one included) and every dictionary, the result is strictly ascending with no repeats, and its elements are exactly `Candidates` |
| Corrector.AddDeletions | SpellChecker.java:94-100 | the deletion loop adds exactly the accepted one-character deletions to a sorted result, keeping it sorted |
| Corrector.AddSubstitutions | SpellChecker.java:102-110 | the nested loop over positions and letters `a`..`z` adds exactly the accepted substitutions, keeping the result sorted |
| Corrector.AddInsertions | SpellChecker.java:112-120 | the nested loop over positions `0..len(w)` and letters `a`..`z` adds exactly the accepted insertions, keeping the result sorted |
| Corrector.AddTranspositions | SpellChecker.java:122-128 | the loop over `i < len(w) - 1` adds exactly the accepted neighbour swaps, so it adds nothing for words shorter than two characters |
| Corrector.AddSplits | SpellChecker.java:130-137 | the loop over split points `1 <= i < len(w)` adds `p + " " + q` exactly when both halves are accepted |
| CorrectorProperties.CandidatesExactly | SpellChecker.java:95-137 | soundness and completeness: `s` is a correction if and only if it is an accepted one-edit variant (deletion, letter substitution, letter insertion, neighbour swap) or an accepted split |
| CorrectorProperties.CandidatesComplete | SpellChecker.java:95-137 | the completeness direction of `CandidatesExactly` in pass-by-pass form: every accepted variant at every index the five loops visit (deletion `i < len(w)`, substitution `i < len(w)`, insertion `i <= len(w)`, swap `i < len(w) - 1`, split `1 <= i < len(w)`) is in the result |
| CorrectorProperties.CandidateShape | SpellChecker.java:97-135 | every correction is a dictionary word or an accepted split; a split contains a space; if dictionary words contain no space, then a correction is a dictionary word exactly when it has no space |
| CorrectorProperties.CandidateLength | SpellChecker.java:96-135 | every correction has length between `len(w) - 1` and `len(w) + 1`, and a split has length `len(w) + 1` |
| CorrectorProperties.CandidateAlphabet | SpellChecker.java:104-135 | every character of a correction is a character of `w`, a letter `a`..`z`, or the space of a split |
| CorrectorProperties.SelfCorrectionOnlyIf | SpellChecker.java:102-128 | if `w` is among its own corrections, then `w` is in the dictionary and has a lower-case letter or two equal neighbours |
| CorrectorProperties.SelfCorrectionIf | SpellChecker.java:102-128 | a dictionary word with a lower-case letter (the substitution no-op) or two equal neighbours (the swap no-op) is among its own corrections |
| CorrectorProperties.EmptyWord | SpellChecker.java:95-137 | for the empty word, the corrections are exactly the single-letter dictionary words (only the insertion at position 0 runs) |
| CorrectorExamples.DeletionExample | SpellChecker.java:94-100 | with dictionary `{"cat"}`, the corrections of "cats" are exactly `{"cat"}` |
| CorrectorExamples.SubstitutionExample | SpellChecker.java:102-110 | "bat" is a correction of "cat" with dictionary `{"bat"}` |
| CorrectorExamples.InsertionExample | SpellChecker.java:112-120 | "cats" is a correction of "cat" with dictionary `{"cats"}` |
| CorrectorExamples.TranspositionExample | SpellChecker.java:122-128 | "cat" is a correction of "cta" with dictionary `{"cat"}` |
| CorrectorExamples.SplitExample | SpellChecker.java:130-137 | "a cat" is a correction of "acat" with dictionary `{"a", "cat"}` |
| CorrectorExamples.NoMatchExample | SpellChecker.java:91-140 | with dictionary `{"dog"}`, the word "xyz" has no corrections at all |
| CorrectorExamples.OrderingExample | SpellChecker.java:61-63 | every sorted view of the corrections of "aat" with dictionary `{"bat", "cat", "eat"}` is exactly `["bat", "cat", "eat"]` |
| TreeSets.Insert | SpellChecker.java:98 | `TreeSet.add`: the result holds the old elements plus the new one, stays strictly ascending, and is unchanged when the element was already there |
| TreeSets.SortedUnique | SpellChecker.java:61-63 | two strictly ascending sequences with the same elements are equal, so the iteration order depends only on the set's contents |
| Strings.LessIrreflexive | SpellChecker.java:92 | no string sorts before itself |
| Strings.LessTransitive | SpellChecker.java:92 | the `compareTo` order is transitive |
| Strings.LessTotal | SpellChecker.java:92 | of two different strings exactly one sorts first, and equal strings sort neither way |
| Strings.LowerProperties | SpellChecker.java:22 | lower-casing leaves no upper-case letter, is idempotent, leaves lower-case text unchanged, maps letters to lower-case letters, and neither adds nor removes spaces |
| SpellChecker.LoadDictionary | SpellChecker.java:21-23 | the dictionary holds exactly the lower-cased words; none has an upper-case letter; if no word has a space, no dictionary word has one |
| SpellChecker.ScanTokens | SpellChecker.java:52-66 | the reports are exactly `Reported(tokens)`, in that order, each with its corrections in sorted order; `misspelledWords` ends as exactly the set of reported words |
| SpellChecker.ReportedSound | SpellChecker.java:53-54 | every reported word is a lower-cased token, has no upper-case letter, and is not in the dictionary |
| SpellChecker.ReportedDistinct | SpellChecker.java:54-55 | no word is reported twice |
| SpellChecker.ReportedComplete | SpellChecker.java:52-55 | every token whose lower-cased form the dictionary lacks is reported |
| SpellChecker.ReportedPrefix | SpellChecker.java:52-55 | the reports for a prefix of the tokens are a prefix of the reports for all of them, so `misspelledWords` only grows |
| SpellChecker.ReportedFirstOccurrence | SpellChecker.java:52-56 | the first token that lower-cases to an unknown word produces the report that comes next after those of the earlier tokens |

## Left out

- Reading `./words.txt` and the input file with `Scanner`, and both `FileNotFoundException` paths (lines 19-24, 34-37, 47-48, 68-71). These are file I/O. `LoadDictionary` and `ScanTokens` take the word and token sequences as parameters.
- Splitting the document with the delimiter `[^a-zA-Z]+` (line 50). This is a library regular-expression scanner. The tokens arrive already split, and the model places no condition on them.
- The dictionary size and the "the/be/of/and" membership printout (lines 25-33). This is console output only.
- `getInputFileNameFromUser` and the Swing file chooser, with its "No file selected." exit (lines 40-44, 74-82). This is user interface.
- Printing each report as `word: c1, c2, ` or `word: (no suggestions)` (lines 57-64). `ScanTokens` returns the reports instead.
- How `HashSet` and `TreeSet` work inside (hashing, the red-black tree). The dictionary is a `set<string>`. The `TreeSet` is its sorted sequence view.
- Strings.Lower: it lowers the ASCII letters `A`..`Z` only and leaves every other character alone. The no-argument `toLowerCase` at lines 22 and 53 uses the default locale and full Unicode case mapping, so the two differ in two ways:
  - In a Turkish or Azerbaijani locale, Java lowers `I` to the dotless `ı` (U+0131). The token "In" becomes "ın" there, but "in" in the model.
  - Dictionary words come from the whitespace-delimited scanner at lines 20-22 and are not limited to ASCII. Java lowers non-ASCII capitals in them (the Kelvin sign U+212A becomes `k`), and the model does not. `LoadDictionary` therefore matches the source only for ASCII word lists in a locale other than Turkish or Azerbaijani.
- Strings.Less: it compares Unicode scalar values. Java compares UTF-16 code units. The two orders differ only for characters outside the Basic Multilingual Plane.
- Corrector.Corrections: the model's strings are sequences of Unicode code points, not of UTF-16 code units. Java's `length`, `substring` and `charAt` at lines 95-135 count UTF-16 units. For a word with a character outside the Basic Multilingual Plane, the two differ. For example, with dictionary {"a"}, the model substitutes "a" for the one-character word "😀". Java's substitutions each leave half of a surrogate pair behind, so its result is empty. Tokens of ASCII letters never reach this case.
- Corrector.Corrections: the five loops of `corrections` sit in five methods called one after another, not in one method body. The result is the same and is built in the same order.
