/** The trial (construction) probability of a walk: the product of the
    reciprocals of the logged branching factors, in exact rationals. */
module Probability {

  /** The logged branching factors are all positive. */
  predicate Positive(ks: seq<int>) {
    forall t :: 0 <= t < |ks| ==> ks[t] >= 1
  }

  /** Reference definition: the product of `1 / k` over the log. */
  function Product(ks: seq<int>): real
    requires Positive(ks)
  {
    if ks == [] then 1.0 else (1.0 / ks[0] as real) * Product(ks[1..])
  }

  /** `(1 / np.array(ks)).cumprod()`: entry `t` is the product of the
      reciprocals of the first `t + 1` factors. */
  function CumProd(ks: seq<int>): (g: seq<real>)
    requires Positive(ks)
    ensures |g| == |ks|
  {
    if ks == [] then []
    else
      var prev := CumProd(ks[..|ks| - 1]);
      var before := if prev == [] then 1.0 else prev[|prev| - 1];
      prev + [before * (1.0 / ks[|ks| - 1] as real)]
  }

  lemma {:induction false} ProductSnoc(ks: seq<int>, v: int)
    requires Positive(ks) && v >= 1
    ensures Positive(ks + [v])
    ensures Product(ks + [v]) == Product(ks) * (1.0 / v as real)
  {
    if ks != [] {
      assert (ks + [v])[1..] == ks[1..] + [v];
      ProductSnoc(ks[1..], v);
      var a, b, c := 1.0 / ks[0] as real, Product(ks[1..]), 1.0 / v as real;
      assert Product(ks + [v]) == a * (b * c);
      assert a * (b * c) == (a * b) * c;
    }
  }

  /** Each entry of the cumulative product is the product over that prefix. */
  lemma {:induction false} CumProdIsPrefixProduct(ks: seq<int>, t: nat)
    requires Positive(ks) && t < |ks|
    ensures CumProd(ks)[t] == Product(ks[..t + 1])
    decreases |ks|
  {
    var init := ks[..|ks| - 1];
    if t < |ks| - 1 {
      assert init[..t + 1] == ks[..t + 1];
      CumProdIsPrefixProduct(init, t);
    } else {
      assert ks[..t + 1] == init + [ks[t]];
      ProductSnoc(init, ks[t]);
      if t > 0 {
        CumProdIsPrefixProduct(init, t - 1);
        assert init[..t] == init;
      } else {
        assert init == [];
      }
    }
  }

  /** A product of reciprocals of positive integers lies in (0, 1]. */
  lemma {:induction false} ProductBounds(ks: seq<int>)
    requires Positive(ks)
    ensures 0.0 < Product(ks) <= 1.0
  {
    if ks != [] {
      ProductBounds(ks[1..]);
      var f := 1.0 / ks[0] as real;
      assert 0.0 < f <= 1.0;
      assert f * Product(ks[1..]) <= 1.0 * Product(ks[1..]);
    }
  }

  /** `SAW.trial_probability`: the last entry of the cumulative product.
      It equals the product of `1 / k` over the whole log and lies in (0, 1]. */
  function TrialProbability(ks: seq<int>): (r: real)
    requires |ks| > 0 && Positive(ks)
    ensures r == Product(ks)
    ensures 0.0 < r <= 1.0
  {
    var g := CumProd(ks);
    CumProdIsPrefixProduct(ks, |ks| - 1);
    assert ks[..|ks|] == ks;
    ProductBounds(ks);
    g[|g| - 1]
  }

  /** The log [3, 2, 1] gives 1/6. */
  lemma TrialProbabilityExample()
    ensures TrialProbability([3, 2, 1]) == 1.0 / 6.0
  {
    var ks := [3, 2, 1];
    assert ks[1..] == [2, 1] && ks[1..][1..] == [1] && ks[1..][1..][1..] == [];
  }
}
