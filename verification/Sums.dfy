/** Sums of a weight over a sequence. */
module Sums {

  function Sum<B>(s: seq<B>, w: B -> nat): nat {
    if s == [] then 0 else Sum(s[..|s| - 1], w) + w(s[|s| - 1])
  }

  lemma {:induction false} SumUpdate<B>(s: seq<B>, w: B -> nat, i: nat, b: B)
    requires i < |s|
    ensures Sum(s[i := b], w) == Sum(s, w) - w(s[i]) + w(b)
    ensures w(s[i]) <= Sum(s, w)
  {
    var n := |s| - 1;
    if i == n {
      assert s[i := b][..n] == s[..n];
    } else {
      assert s[i := b][..n] == s[..n][i := b];
      SumUpdate(s[..n], w, i, b);
    }
  }

  lemma SumAppend<B>(s: seq<B>, w: B -> nat, b: B)
    ensures Sum(s + [b], w) == Sum(s, w) + w(b)
  {
    assert (s + [b])[..|s|] == s;
  }

  lemma {:induction false} SumLe<B>(s: seq<B>, v: B -> nat, w: B -> nat)
    requires forall i :: 0 <= i < |s| ==> v(s[i]) <= w(s[i])
    ensures Sum(s, v) <= Sum(s, w)
  {
    if s != [] { SumLe(s[..|s| - 1], v, w); }
  }

  lemma {:induction false} SumConcat<B>(s: seq<B>, t: seq<B>, w: B -> nat)
    ensures Sum(s + t, w) == Sum(s, w) + Sum(t, w)
  {
    if t == [] {
      assert s + t == s;
    } else {
      var n := |t| - 1;
      assert (s + t)[..|s + t| - 1] == s + t[..n];
      SumConcat(s, t[..n], w);
    }
  }
}
