/**
 `MSC.kernel`, `MSC.S` and the `np.mean` aggregation.

 The Gaussian kernel x ↦ exp(-0.5·x²/s²) with s = 1 is not computed: it is a
 parameter `k` constrained by the laws the scores depend on. Scores are exact
 reals, and numpy's NaN (the mean of nothing) is a separate value.
 */
module Kernel {

  /**
   The laws of exp(-x²/2) on integer arguments: values in (0, 1], the peak 1 at
   0, evenness, and strict decrease as |x| grows.
   */
  ghost predicate IsKernel(k: int -> real)
  {
    && (forall x :: 0.0 < k(x) <= 1.0)
    && k(0) == 1.0
    && (forall x :: k(-x) == k(x))
    && (forall x, y :: 0 <= x < y ==> k(y) < k(x))
  }

  /** The laws are consistent: x ↦ 1/(1+|x|) obeys them all. */
  lemma KernelExists()
    ensures exists k :: IsKernel(k)
  {
    var k := (x: int) => Reciprocal(if x < 0 then -x else x);
    forall x ensures 0.0 < k(x) <= 1.0 {
      ReciprocalFacts(if x < 0 then -x else x);
    }
    forall x, y | 0 <= x < y ensures k(y) < k(x) {
      ReciprocalDecreases(x, y);
    }
    assert k(0) == 1.0;
    assert IsKernel(k);
  }

  function Reciprocal(n: nat): real
  {
    1.0 / (1 + n) as real
  }

  lemma ReciprocalFacts(n: nat)
    ensures 0.0 < Reciprocal(n) <= 1.0
  {
  }

  lemma ReciprocalDecreases(m: nat, n: nat)
    requires m < n
    ensures Reciprocal(n) < Reciprocal(m)
  {
    var a := (1 + m) as real;
    var b := (1 + n) as real;
    assert a < b;
    assert 1.0 / b < 1.0 / a by {
      assert (1.0 / b) * a < (1.0 / b) * b;
    }
  }

  /** A kernel value is 1 exactly at 0. */
  lemma KernelOne(k: int -> real, x: int)
    requires IsKernel(k)
    ensures k(x) == 1.0 <==> x == 0
  {
    if x > 0 {
      assert k(x) < k(0);
    } else if x < 0 {
      assert k(-x) < k(0);
    }
  }

  /** A score: a real number, or numpy's NaN. */
  datatype Score = Num(value: real) | NaN

  /** `np.sum(kernel(z))`; `KernelSumBounds` gives its range. */
  function KernelSum(k: int -> real, z: seq<int>): real
  {
    if |z| == 0 then 0.0 else k(z[0]) + KernelSum(k, z[1..])
  }

  function Negate(z: seq<int>): (r: seq<int>)
    ensures |r| == |z|
  {
    seq(|z|, i requires 0 <= i < |z| => -z[i])
  }

  predicate AllZero(z: seq<int>)
  {
    forall i :: 0 <= i < |z| ==> z[i] == 0
  }

  lemma {:induction false} KernelSumBounds(k: int -> real, z: seq<int>)
    requires IsKernel(k)
    ensures 0.0 <= KernelSum(k, z) <= |z| as real
    ensures |z| > 0 ==> 0.0 < KernelSum(k, z)
    ensures KernelSum(k, z) == |z| as real <==> AllZero(z)
  {
    if |z| > 0 {
      KernelSumBounds(k, z[1..]);
      KernelOne(k, z[0]);
      assert AllZero(z) <==> z[0] == 0 && AllZero(z[1..]) by {
        assert forall i :: 1 <= i < |z| ==> z[i] == z[1..][i - 1];
      }
    }
  }

  lemma {:induction false} KernelSumNegate(k: int -> real, z: seq<int>)
    requires IsKernel(k)
    ensures KernelSum(k, Negate(z)) == KernelSum(k, z)
  {
    if |z| > 0 {
      assert Negate(z)[1..] == Negate(z[1..]);
      KernelSumNegate(k, z[1..]);
      assert k(-z[0]) == k(z[0]);
    }
  }

  /**
   `MSC.S`: the mean of the kernel over `z`. It is NaN exactly when `z` is
   empty, otherwise in (0, 1], and it is 1 exactly when every entry is 0.
   */
  function S(k: int -> real, z: seq<int>): (r: Score)
    requires IsKernel(k)
    ensures r.NaN? <==> |z| == 0
    ensures r.Num? ==> 0.0 < r.value <= 1.0
    ensures r == Num(1.0) <==> |z| > 0 && AllZero(z)
  {
    if |z| == 0 then NaN
    else
      KernelSumBounds(k, z);
      var n := |z| as real;
      var sum := KernelSum(k, z);
      assert sum / n <= 1.0 by {
        assert sum <= n;
      }
      assert sum / n == 1.0 <==> sum == n;
      Num(sum / n)
  }

  /** The sign of every difference does not matter to `S`. */
  lemma SNegate(k: int -> real, z: seq<int>)
    requires IsKernel(k)
    ensures S(k, Negate(z)) == S(k, z)
  {
    KernelSumNegate(k, z);
  }

  /* ---------------------------------------------------------------------
     np.mean over a list of scores
     --------------------------------------------------------------------- */

  predicate AllNum(xs: seq<Score>)
  {
    forall i :: 0 <= i < |xs| ==> xs[i].Num?
  }

  predicate AllInUnit(xs: seq<Score>)
  {
    forall i :: 0 <= i < |xs| ==> xs[i].Num? && 0.0 < xs[i].value <= 1.0
  }

  predicate AllOne(xs: seq<Score>)
  {
    forall i :: 0 <= i < |xs| ==> xs[i] == Num(1.0)
  }

  function SumValues(xs: seq<Score>): real
    requires AllNum(xs)
  {
    if |xs| == 0 then 0.0 else xs[0].value + SumValues(xs[1..])
  }

  lemma {:induction false} SumValuesBounds(xs: seq<Score>)
    requires AllInUnit(xs)
    ensures 0.0 <= SumValues(xs) <= |xs| as real
    ensures |xs| > 0 ==> 0.0 < SumValues(xs)
    ensures SumValues(xs) == |xs| as real <==> AllOne(xs)
  {
    if |xs| > 0 {
      SumValuesBounds(xs[1..]);
      assert AllOne(xs) <==> xs[0] == Num(1.0) && AllOne(xs[1..]) by {
        assert forall i :: 1 <= i < |xs| ==> xs[i] == xs[1..][i - 1];
      }
    }
  }

  /**
   `np.mean`: NaN for an empty list or a list holding a NaN; otherwise the
   arithmetic mean. A mean of values in (0, 1] lies in (0, 1], and it is 1
   exactly when every value is 1.
   */
  function Mean(xs: seq<Score>): (r: Score)
    ensures r.Num? <==> |xs| > 0 && AllNum(xs)
    ensures |xs| > 0 && AllInUnit(xs) ==> r.Num? && 0.0 < r.value <= 1.0
    ensures |xs| > 0 && AllInUnit(xs) ==> (r == Num(1.0) <==> AllOne(xs))
  {
    if |xs| == 0 || !AllNum(xs) then NaN
    else
      MeanOfUnitValues(xs);
      Num(SumValues(xs) / |xs| as real)
  }

  lemma MeanOfUnitValues(xs: seq<Score>)
    requires |xs| > 0 && AllNum(xs)
    ensures AllInUnit(xs) ==> 0.0 < SumValues(xs) / |xs| as real <= 1.0
    ensures AllInUnit(xs) ==> (SumValues(xs) / |xs| as real == 1.0 <==> AllOne(xs))
  {
    if AllInUnit(xs) {
      SumValuesBounds(xs);
      var n := |xs| as real;
      var sum := SumValues(xs);
      assert sum / n <= 1.0 by {
        assert sum <= n;
      }
      assert sum / n == 1.0 <==> sum == n;
    }
  }

  /** Every value that is a number lies in (0, 1]. */
  predicate NumsInUnit(xs: seq<Score>)
  {
    forall i :: 0 <= i < |xs| ==> xs[i].Num? ==> 0.0 < xs[i].value <= 1.0
  }

  /** The three outcomes of `Mean` over scores whose numbers lie in (0, 1]. */
  lemma MeanCases(xs: seq<Score>)
    requires NumsInUnit(xs)
    ensures Mean(xs).Num? ==> 0.0 < Mean(xs).value <= 1.0
    ensures Mean(xs).NaN? <==> |xs| == 0 || exists i :: 0 <= i < |xs| && xs[i].NaN?
    ensures Mean(xs) == Num(1.0) <==> |xs| > 0 && AllOne(xs)
  {
    assert AllNum(xs) ==> AllInUnit(xs);
  }
}
