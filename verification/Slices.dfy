/** Parts of a sequence at known places. */
module Slices {
  /** `part` stands in `s` at `p`. */
  ghost predicate Placed<T>(s: seq<T>, p: nat, part: seq<T>) {
    p + |part| <= |s| && s[p..p + |part|] == part
  }

  lemma AtSplit<T>(s: seq<T>, p: nat, a: seq<T>, b: seq<T>)
    requires Placed(s, p, a + b)
    ensures Placed(s, p, a) && Placed(s, p + |a|, b)
  {
    assert s[p..p + |a|] == (a + b)[..|a|] == a;
    assert s[p + |a|..p + |a| + |b|] == (a + b)[|a|..] == b;
  }

  lemma AtPrefix<T>(s: seq<T>, a: seq<T>, b: seq<T>)
    requires a + b <= s
    ensures Placed(s, |a|, b)
  {
    assert s[|a|..|a| + |b|] == (a + b)[|a|..] == b;
  }

  lemma AtIndex<T>(s: seq<T>, p: nat, part: seq<T>, i: nat)
    requires Placed(s, p, part) && i < |part|
    ensures s[p + i] == part[i]
  {
    assert s[p..p + |part|][i] == s[p + i];
  }
}
