/** Reasoning about what stands at a position of a sequence. */
module Slices {

  predicate At<T(==)>(d: seq<T>, pos: nat, s: seq<T>) {
    pos + |s| <= |d| && d[pos..pos + |s|] == s
  }

  lemma AtConcat<T>(d: seq<T>, pos: nat, a: seq<T>, b: seq<T>)
    ensures At(d, pos, a + b) <==> At(d, pos, a) && At(d, pos + |a|, b)
  {
    var n := |a| + |b|;
    if pos + n <= |d| {
      var w := d[pos..pos + n];
      assert w[..|a|] == d[pos..pos + |a|];
      assert w[|a|..] == d[pos + |a|..pos + n];
      assert (a + b)[..|a|] == a && (a + b)[|a|..] == b;
      if w[..|a|] == a && w[|a|..] == b {
        assert w == w[..|a|] + w[|a|..];
      }
    }
  }

  lemma AtFirst<T>(d: seq<T>, pos: nat, s: seq<T>)
    requires At(d, pos, s) && s != []
    ensures pos < |d| && d[pos] == s[0] && At(d, pos + 1, s[1..])
  {
  }
}
