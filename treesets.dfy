/** A `TreeSet<String>` seen from outside: the set of strings it holds, and the
    strictly ascending sequence in which it is iterated. The red-black tree inside
    is not modelled; `Insert` is `add` on the sorted view. */
module TreeSets {
  import opened Strings

  /** Ascending in `compareTo` order with no repeats: the iteration order of a
      `TreeSet`. */
  predicate StrictlySorted(xs: seq<string>) {
    forall i, j | 0 <= i < j < |xs| :: Less(xs[i], xs[j])
  }

  function Elements(xs: seq<string>): set<string> {
    set x | x in xs
  }

  lemma ElementsEmpty(xs: seq<string>)
    ensures Elements(xs) == {} <==> xs == []
  {
    if xs != [] { assert xs[0] in Elements(xs); }
  }

  lemma SortedCons(x: string, xs: seq<string>)
    requires StrictlySorted(xs)
    requires forall y | y in xs :: Less(x, y)
    ensures StrictlySorted([x] + xs)
  {
  }

  /** `TreeSet.add`: the new view holds exactly the old elements and `x`, still
      strictly ascending; adding an element already present changes nothing. */
  function Insert(xs: seq<string>, x: string): (r: seq<string>)
    requires StrictlySorted(xs)
    ensures StrictlySorted(r)
    ensures Elements(r) == Elements(xs) + {x}
    ensures x in xs ==> r == xs
    ensures x !in xs ==> |r| == |xs| + 1
    decreases |xs|
  {
    if xs == [] then [x]
    else if x == xs[0] then xs
    else if Less(x, xs[0]) then
      FirstIsLeast(xs);
      LessIrreflexive(x);
      forall y | y in xs ensures Less(x, y) {
        if y != xs[0] { LessTransitive(x, xs[0], y); }
      }
      SortedCons(x, xs);
      [x] + xs
    else
      LessTotal(x, xs[0]);
      var rest := Insert(xs[1..], x);
      FirstIsLeast(xs);
      forall y | y in rest ensures Less(xs[0], y) {
        assert y in Elements(rest);
      }
      SortedCons(xs[0], rest);
      assert xs == [xs[0]] + xs[1..];
      [xs[0]] + rest
  }

  lemma FirstIsLeast(xs: seq<string>)
    requires StrictlySorted(xs) && xs != []
    ensures StrictlySorted(xs[1..])
    ensures forall y | y in xs[1..] :: Less(xs[0], y)
    ensures xs[0] !in xs[1..]
  {
    LessIrreflexive(xs[0]);
  }

  /** The iteration order is determined by the contents alone: two strictly sorted
      views of the same set are the same sequence. */
  lemma {:induction false} SortedUnique(xs: seq<string>, ys: seq<string>)
    requires StrictlySorted(xs) && StrictlySorted(ys)
    requires Elements(xs) == Elements(ys)
    ensures xs == ys
    decreases |xs|
  {
    if xs == [] {
      ElementsEmpty(ys);
    } else {
      assert xs[0] in Elements(ys);
      assert ys != [];
      FirstIsLeast(xs);
      FirstIsLeast(ys);
      assert ys[0] in Elements(xs);
      if xs[0] != ys[0] {
        assert Less(ys[0], xs[0]) by { assert xs[0] in ys[1..]; }
        assert Less(xs[0], ys[0]) by { assert ys[0] in xs[1..]; }
        LessTotal(xs[0], ys[0]);
        assert false;
      }
      assert xs == [xs[0]] + xs[1..] && ys == [ys[0]] + ys[1..];
      assert Elements(xs[1..]) == Elements(xs) - {xs[0]};
      assert Elements(ys[1..]) == Elements(ys) - {ys[0]};
      SortedUnique(xs[1..], ys[1..]);
    }
  }
}
