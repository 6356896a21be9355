/**
 What prediction leaves of a block, said without the predictors: order k of the fixed ones leaves the k-th differences
 of the samples, a linear one leaves each sample less the rounded-down weighted sum of those before it.  Residuals are
 32-bit words, so all of it holds modulo 2^32.
 */
module FlacPrediction {
  import opened Basics
  import opened FlacBits
  import opened FlacFormat

  /** What each number differs by from the one before it. */
  function Diff(s: seq<int>): (d: seq<int>)
    requires s != []
    ensures |d| == |s| - 1
  {
    seq(|s| - 1, i requires 0 <= i < |s| - 1 => s[i + 1] - s[i])
  }

  /** The k-th differences. */
  function Diffs(s: seq<int>, k: nat): (d: seq<int>)
    requires k <= |s|
    ensures |d| == |s| - k
  {
    if k == 0 then s else Diff(Diffs(s, k - 1))
  }

  function Sum(s: seq<int>): int {
    if s == [] then 0 else Sum(s[..|s| - 1]) + s[|s| - 1]
  }

  /** The samples before `at`, the latest first, each by its coefficient. */
  function Weighted(coefs: seq<int>, s: seq<int>, at: nat): (w: seq<int>)
    requires |coefs| <= at <= |s|
    ensures |w| == |coefs|
  {
    seq(|coefs|, j requires 0 <= j < |coefs| => coefs[j] * s[at - 1 - j])
  }

  /** What is left behind the warm-up, as exact numbers. */
  function Leaves(p: Predictor, s: seq<int>): (d: seq<int>)
    requires p.Order() <= |s|
    ensures |d| == |s| - p.Order()
  {
    match p
    case Fixed(k) => Diffs(s, k)
    case Linear(coefs, shift) =>
      var n := |coefs|;
      seq(|s| - n, i requires 0 <= i < |s| - n => s[n + i] - Sum(Weighted(coefs, s, n + i)) / Pow2(shift))
  }

  /** The same as 32-bit words. */
  function Residuals(p: Predictor, s: seq<int32>): (r: seq<int32>)
    requires p.Order() <= |s|
    ensures |r| == |s| - p.Order()
  {
    var d := Leaves(p, s);
    seq(|d|, i requires 0 <= i < |d| => ToInt32(d[i]))
  }

  // ---- the program's predictions ----------------------------------------------------------------------

  lemma DiffsStep(s: seq<int>, k: nat, i: nat)
    requires k < |s| && i < |s| - k - 1
    ensures Diffs(s, k + 1)[i] == Diffs(s, k)[i + 1] - Diffs(s, k)[i]
  {
    var d := Diffs(s, k);
    assert Diffs(s, k + 1) == Diff(d);
  }

  lemma NoDifference(s: seq<int>)
    ensures Diffs(s, 0) == s
  {
  }

  lemma FirstDifference(s: seq<int>, i: nat)
    requires i + 1 < |s|
    ensures Diffs(s, 0) == s && Diffs(s, 1)[i] == s[i + 1] - s[i]
  {
    DiffsStep(s, 0, i);
  }

  lemma SecondDifference(s: seq<int>, i: nat)
    requires i + 2 < |s|
    ensures Diffs(s, 2)[i] == s[i + 2] - 2 * s[i + 1] + s[i]
  {
    hide Diffs;
    FirstDifference(s, i);
    FirstDifference(s, i + 1);
    DiffsStep(s, 1, i);
  }

  lemma FourthDifference(s: seq<int>, i: nat)
    requires i + 4 < |s|
    ensures Diffs(s, 4)[i] == s[i + 4] - 4 * s[i + 3] + 6 * s[i + 2] - 4 * s[i + 1] + s[i]
  {
    hide Diffs;
    ThirdDifference(s, i);
    ThirdDifference(s, i + 1);
    DiffsStep(s, 3, i);
  }

  lemma ThirdDifference(s: seq<int>, i: nat)
    requires i + 3 < |s|
    ensures Diffs(s, 3)[i] == s[i + 3] - 3 * s[i + 2] + 3 * s[i + 1] - s[i]
  {
    hide Diffs;
    SecondDifference(s, i);
    SecondDifference(s, i + 1);
    DiffsStep(s, 2, i);
  }

  lemma PredictsByDifferences(k: nat, s: seq<int32>, i: nat)
    requires k <= 4 && k <= i < |s|
    ensures Diffs(s, k)[i - k] == s[i] - Predict(Fixed(k), s[..i])
  {
    hide Diffs, Predict, Polynomial;
    PredictsByPolynomial(k, s, i);
    LeavesPolynomial(k, s, i);
  }

  lemma LeavesPolynomial(k: nat, s: seq<int>, i: nat)
    requires k <= 4 && k <= i < |s|
    ensures Diffs(s, k)[i - k] == s[i] - Polynomial(k, s, i)
  {
    hide Diffs;
    match k
    case 0 => NoDifference(s);
    case 1 => FirstDifference(s, i - 1);
    case 2 => SecondDifference(s, i - 2);
    case 3 => ThirdDifference(s, i - 3);
    case 4 => FourthDifference(s, i - 4);
  }

  lemma PredictsByPolynomial(k: nat, s: seq<int32>, i: nat)
    requires k <= 4 && k <= i < |s|
    ensures Predict(Fixed(k), s[..i]) == Polynomial(k, s, i)
  {
  }

  /** The value at i of the polynomial of degree k - 1 through the k values before it. */
  function Polynomial(k: nat, s: seq<int>, i: nat): int
    requires k <= 4 && k <= i < |s|
  {
    match k
    case 0 => 0
    case 1 => s[i - 1]
    case 2 => 2 * s[i - 1] - s[i - 2]
    case 3 => 3 * s[i - 1] - 3 * s[i - 2] + s[i - 3]
    case 4 => 4 * s[i - 1] - 6 * s[i - 2] + 4 * s[i - 3] - s[i - 4]
  }

  lemma {:induction false} PredictsByWeights(coefs: seq<int>, s: seq<int32>, at: nat, n: nat)
    requires n <= |coefs| <= at <= |s|
    ensures Dot(coefs, s[..at], n) == Sum(Weighted(coefs, s, at)[..n])
    decreases n
  {
    var w := Weighted(coefs, s, at);
    if n > 0 {
      PredictsByWeights(coefs, s, at, n - 1);
      assert w[..n][..n - 1] == w[..n - 1];
    }
  }

  /** A sample differs from its prediction by what the differences or the weighted sum leave of it. */
  lemma PredictsAt(p: Predictor, s: seq<int32>, i: nat)
    requires p.Order() <= i < |s| && (p.Fixed? ==> p.order <= 4)
    ensures Leaves(p, s)[i - p.Order()] == s[i] - Predict(p, s[..i])
  {
    hide Diffs, Dot, Sum, Pow2;
    match p
    case Fixed(k) => PredictsByDifferences(k, s, i);
    case Linear(coefs, shift) =>
      PredictsByWeights(coefs, s, i, |coefs|);
      var w := Weighted(coefs, s, i);
      assert w[..|coefs|] == w;
  }

  // ---- restoring ----------------------------------------------------------------------------------------

  /** A word is determined by its value modulo 2^32. */
  lemma WordIs(a: int32, b: int)
    requires (a - b) % 0x1_0000_0000 == 0
    ensures ToInt32(b) == a
  {
    var r := ToInt32(b);
    hide ToInt32;
    var j, k := (a - b) / 0x1_0000_0000, (r - b) / 0x1_0000_0000;
    assert a - r == 0x1_0000_0000 * (j - k);
  }

  lemma Opposite(x: int)
    requires x % 0x1_0000_0000 == 0
    ensures -x % 0x1_0000_0000 == 0
  {
  }

  lemma WrapsBack(v: int32, x: int)
    ensures ToInt32(x + ToInt32(v - x)) == v
  {
    hide ToInt32;
    var y: int := ToInt32(v - x);
    Opposite(y - (v - x));
    assert v - (x + y) == -(y - (v - x));
    WordIs(v, x + y);
  }

  lemma WrapsForth(r: int32, x: int)
    ensures ToInt32(ToInt32(x + r) - x) == r
  {
    hide ToInt32;
    var y: int := ToInt32(x + r);
    Opposite(y - (x + r));
    assert r - (y - x) == -(y - (x + r));
    WordIs(r, y - x);
  }

  /** Each residual in turn gives the next sample. */
  lemma {:induction false} RestoreOnwards(p: Predictor, s: seq<int32>, i: nat, res: seq<int32>)
    requires p.Order() <= i <= |s| && (p.Fixed? ==> p.order <= 4) && |res| == |s| - i
    requires forall j :: i <= j < |s| ==> res[j - i] == ToInt32(s[j] - Predict(p, s[..j]))
    ensures Restore(p, s[..i], res) == s
    decreases |s| - i
  {
    hide Predict, ToInt32;
    if i == |s| {
      assert s[..i] == s;
    } else {
      assert res[i - i] == ToInt32(s[i] - Predict(p, s[..i]));
      WrapsBack(s[i], Predict(p, s[..i]));
      assert s[..i] + [s[i]] == s[..i + 1];
      forall j | i + 1 <= j < |s|
        ensures res[1..][j - (i + 1)] == ToInt32(s[j] - Predict(p, s[..j]))
      {
        assert res[1..][j - (i + 1)] == res[j - i];
      }
      RestoreOnwards(p, s, i + 1, res[1..]);
    }
  }

  /** Restoring undoes taking residuals, even where the residual had to wrap. */
  lemma RestoreResiduals(p: Predictor, s: seq<int32>)
    requires p.Order() <= |s| && (p.Fixed? ==> p.order <= 4)
    ensures Restore(p, s[..p.Order()], Residuals(p, s)) == s
  {
    hide Predict, ToInt32, Leaves, Restore;
    var n := p.Order();
    forall j | n <= j < |s|
      ensures Residuals(p, s)[j - n] == ToInt32(s[j] - Predict(p, s[..j]))
    {
      PredictsAt(p, s, j);
    }
    RestoreOnwards(p, s, n, Residuals(p, s));
  }

  lemma {:induction false} RestoredFrom(p: Predictor, hist: seq<int32>, res: seq<int32>)
    requires p.Order() <= |hist| && (p.Fixed? ==> p.order <= 4)
    ensures var s := Restore(p, hist, res);
            && s[..|hist|] == hist
            && forall j :: |hist| <= j < |s| ==> s[j] == ToInt32(Predict(p, s[..j]) + res[j - |hist|])
    decreases |res|
  {
    hide Predict, ToInt32;
    var n := |hist|;
    if res != [] {
      var more := hist + [ToInt32(Predict(p, hist) + res[0])];
      RestoredFrom(p, more, res[1..]);
      var s := Restore(p, hist, res);
      assert s[..n] == s[..n + 1][..n] == hist;
      forall j | n <= j < |s|
        ensures s[j] == ToInt32(Predict(p, s[..j]) + res[j - n])
      {
        if j == n {
          assert s[n] == s[..n + 1][n];
        } else {
          assert res[1..][j - (n + 1)] == res[j - n];
        }
      }
    }
  }

  /**
   Taking residuals undoes restoring: modulo 2^32 the k-th differences of what a fixed predictor restored are the
   residuals it was given, and likewise what the weighted sum leaves.
   */
  lemma ResidualsOfRestored(p: Predictor, warm: seq<int32>, res: seq<int32>)
    requires p.Order() == |warm| && (p.Fixed? ==> p.order <= 4)
    ensures var s := Restore(p, warm, res); s[..|warm|] == warm && Residuals(p, s) == res
  {
    hide Predict, ToInt32, Leaves, Restore;
    var s := Restore(p, warm, res);
    var n := |warm|;
    RestoredFrom(p, warm, res);
    forall i | 0 <= i < |res|
      ensures Residuals(p, s)[i] == res[i]
    {
      PredictsAt(p, s, n + i);
      WrapsForth(res[i], Predict(p, s[..n + i]));
    }
  }
}
