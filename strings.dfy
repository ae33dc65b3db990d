/** The two pieces of java.lang.String behaviour the spelling checker relies on:
    lower-casing (`toLowerCase`) and the natural ordering (`compareTo`) that a
    `TreeSet<String>` iterates in. */
module Strings {

  /** A letter of the alphabet the corrector substitutes and inserts. */
  predicate IsLowerLetter(c: char) {
    'a' <= c <= 'z'
  }

  predicate IsUpperLetter(c: char) {
    'A' <= c <= 'Z'
  }

  /** A string with no upper-case ASCII letter left in it. */
  predicate NoUpperCase(s: string) {
    forall k | 0 <= k < |s| :: !IsUpperLetter(s[k])
  }

  /** `Character.toLowerCase` restricted to ASCII: upper-case letters move down by 32,
      every other character is left alone. */
  function LowerChar(c: char): (r: char)
    ensures !IsUpperLetter(r)
  {
    if IsUpperLetter(c) then (c as int + 32) as char else c
  }

  /** `String.toLowerCase` on ASCII text. */
  function Lower(s: string): string {
    seq(|s|, k requires 0 <= k < |s| => LowerChar(s[k]))
  }

  /** Lower-casing leaves no upper-case letter, keeps every letter a letter, and does
      not change a string that is already lower case. */
  lemma LowerProperties(s: string)
    ensures NoUpperCase(Lower(s))
    ensures Lower(Lower(s)) == Lower(s)
    ensures NoUpperCase(s) ==> Lower(s) == s
    ensures (forall k | 0 <= k < |s| :: IsLowerLetter(s[k]) || IsUpperLetter(s[k])) ==>
              forall k | 0 <= k < |s| :: IsLowerLetter(Lower(s)[k])
    ensures ' ' in Lower(s) <==> ' ' in s
  {
    if ' ' in s {
      var k :| 0 <= k < |s| && s[k] == ' ';
      assert Lower(s)[k] == ' ';
    }
    if ' ' in Lower(s) {
      var k :| 0 <= k < |s| && Lower(s)[k] == ' ';
      assert s[k] == ' ';
    }
  }

  /** `a.compareTo(b) < 0`: the first differing character decides, and a proper
      prefix comes before the longer string. */
  predicate Less(a: string, b: string)
    decreases |a|
  {
    if a == [] then b != []
    else if b == [] then false
    else if a[0] != b[0] then a[0] < b[0]
    else Less(a[1..], b[1..])
  }

  lemma {:induction false} LessIrreflexive(a: string)
    ensures !Less(a, a)
    decreases |a|
  {
    if a != [] {
      LessIrreflexive(a[1..]);
    }
  }

  lemma {:induction false} LessTransitive(a: string, b: string, c: string)
    requires Less(a, b) && Less(b, c)
    ensures Less(a, c)
    decreases |a|
  {
    if a != [] && b != [] && c != [] && a[0] == b[0] && b[0] == c[0] {
      LessTransitive(a[1..], b[1..], c[1..]);
    }
  }

  /** Any two different strings are ordered one way round, and never both ways. */
  lemma {:induction false} LessTotal(a: string, b: string)
    ensures a != b <==> Less(a, b) || Less(b, a)
    ensures !(Less(a, b) && Less(b, a))
    decreases |a|
  {
    if a == [] || b == [] {
    } else if a[0] != b[0] {
    } else {
      LessTotal(a[1..], b[1..]);
      assert a == [a[0]] + a[1..] && b == [b[0]] + b[1..];
    }
  }
}
