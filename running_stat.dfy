/**
 * `RunningStat`: Welford's streaming estimate of the element-wise mean and
 * variance of a stream of equally shaped arrays, idealised over exact reals.
 * An array of shape `shape` is held flattened, as a sequence of
 * `Size(shape)` reals.
 */
module RunningStats {
  import opened Lists

  /** Number of elements of an array of the given shape (1 for shape `()`). */
  function Size(shape: seq<nat>): nat
  {
    if |shape| == 0 then 1 else shape[0] * Size(shape[1..])
  }

  function Sum(xs: seq<real>): real
  {
    if |xs| == 0 then 0.0 else Sum(xs[..|xs| - 1]) + xs[|xs| - 1]
  }

  function SumSq(xs: seq<real>): real
  {
    if |xs| == 0 then 0.0 else SumSq(xs[..|xs| - 1]) + xs[|xs| - 1] * xs[|xs| - 1]
  }

  /** The sum of squared deviations of `xs` from `m`. */
  function SqDev(xs: seq<real>, m: real): real
  {
    if |xs| == 0 then 0.0 else SqDev(xs[..|xs| - 1], m) + (xs[|xs| - 1] - m) * (xs[|xs| - 1] - m)
  }

  /** Element `j` of every pushed array, in push order. */
  function Column(h: seq<seq<real>>, j: nat): (c: seq<real>)
    requires forall i :: 0 <= i < |h| ==> j < |h[i]|
    ensures |c| == |h|
  {
    seq(|h|, i requires 0 <= i < |h| => h[i][j])
  }

  lemma ColumnAppend(h: seq<seq<real>>, x: seq<real>, j: nat)
    requires forall i :: 0 <= i < |h| ==> j < |h[i]|
    requires j < |x|
    ensures Column(h + [x], j) == Column(h, j) + [x[j]]
  {
  }

  lemma ColumnInit(h: seq<seq<real>>, x: seq<real>, j: nat)
    requires forall i :: 0 <= i < |h| ==> j < |h[i]|
    requires j < |x|
    ensures Column(h + [x], j)[..|h|] == Column(h, j)
    ensures Column(h + [x], j)[|h|] == x[j]
  {
  }

  lemma SumsAppend(xs: seq<real>, x: real)
    ensures Sum(xs + [x]) == Sum(xs) + x
    ensures SumSq(xs + [x]) == SumSq(xs) + x * x
  {
    assert (xs + [x])[..|xs|] == xs;
  }

  lemma SqDevAppend(xs: seq<real>, x: real, m: real)
    ensures SqDev(xs + [x], m) == SqDev(xs, m) + (x - m) * (x - m)
  {
    assert (xs + [x])[..|xs|] == xs;
  }

  /** Sum of squared deviations = sum of squares - 2 m sum + n m^2. */
  lemma {:induction false} SqDevExpand(xs: seq<real>, m: real)
    ensures SqDev(xs, m) == SumSq(xs) - 2.0 * m * Sum(xs) + (|xs| as real) * m * m
  {
    if |xs| > 0 {
      var init, x := xs[..|xs| - 1], xs[|xs| - 1];
      assert xs == init + [x];
      SqDevExpand(init, m);
      SumsAppend(init, x);
      SqDevAppend(init, x, m);
    }
  }

  /**
   * When m is the mean of xs (k * m is their sum), the squared deviation from
   * m is the sum of squares less k * m^2.
   */
  lemma SqDevFromMoments(xs: seq<real>, m: real)
    requires (|xs| as real) * m == Sum(xs)
    ensures SqDev(xs, m) == SumSq(xs) - (|xs| as real) * m * m
  {
    SqDevExpand(xs, m);
    MomentsAlgebra(SqDev(xs, m), SumSq(xs), Sum(xs), |xs| as real, m);
  }

  lemma MomentsAlgebra(d: real, q: real, s: real, k: real, m: real)
    requires k * m == s
    requires d == q - 2.0 * m * s + k * m * m
    ensures d == q - k * m * m
  {
  }

  /**
   * Python's update of one element when an array x joins the k = |h| > 0
   * arrays already pushed: the new mean m' = m + (x[j] - m) / (k + 1) is the
   * mean of the longer column, and adding (x[j] - m) * (x[j] - m') to the
   * running `_S` keeps it equal to the sum of squares less (k + 1) m'^2.
   */
  lemma PushElement(h: seq<seq<real>>, x: seq<real>, j: nat, k: real, m: real, s: real, n: real, m': real)
    requires |h| > 0 && k == |h| as real
    requires forall i :: 0 <= i < |h| ==> j < |h[i]|
    requires j < |x|
    requires k * m == Sum(Column(h, j))
    requires s == SumSq(Column(h, j)) - k * m * m
    requires n == k + 1.0 && m' == m + (x[j] - m) / n
    ensures (|h + [x]| as real) * m' == Sum(Column(h + [x], j))
    ensures s + (x[j] - m) * (x[j] - m') == SumSq(Column(h + [x], j)) - (|h + [x]| as real) * m' * m'
  {
    assert n == |h + [x]| as real;
    var init := Column(h, j);
    ColumnInit(h, x, j);
    MeanStep(k, m, m', x[j]);
    StepAlgebra(k, n, x[j], m, m', s, SumSq(init));
  }

  lemma StepAlgebra(k: real, n: real, x: real, m: real, m': real, s: real, q: real)
    requires n == k + 1.0 && n * m' == k * m + x
    requires s == q - k * m * m
    ensures s + (x - m) * (x - m') == (q + x * x) - n * m' * m'
  {
    assert x == n * m' - k * m;
  }

  /** The mean update `oldM + (x - oldM) / n` keeps n * mean equal to the sum. */
  lemma MeanStep(k: real, m: real, m': real, x: real)
    requires k > 0.0
    requires m' == m + (x - m) / (k + 1.0)
    ensures (k + 1.0) * m' == k * m + x
  {
    var d := (x - m) / (k + 1.0);
    DivCancel(x - m, k + 1.0);
    assert (k + 1.0) * (m + d) == (k + 1.0) * m + (k + 1.0) * d;
  }

  lemma DivCancel(a: real, k: real)
    requires k != 0.0
    ensures a == k * (a / k)
  {
  }

  /** A single pushed value is its own mean, with no deviation. */
  lemma SingletonStats(x: real)
    ensures Sum([x]) == x
    ensures SumSq([x]) == x * x
  {
  }

  /**
   * `mean` and `s` are the running values Welford's algorithm keeps for the
   * arrays `h` (each flattened to `size` reals): element-wise, |h| times the
   * mean is the sum, and `s` is the sum of squares less |h| times the squared
   * mean, which for |h| > 0 is the squared deviation from the mean
   * (SqDevFromMoments).
   */
  ghost predicate Tracks(h: seq<seq<real>>, size: nat, mean: seq<real>, s: seq<real>)
  {
    && |mean| == size
    && |s| == size
    && (forall i :: 0 <= i < |h| ==> |h[i]| == size)
    && forall j :: 0 <= j < size ==>
         (|h| as real) * mean[j] == Sum(Column(h, j))
         && s[j] == SumSq(Column(h, j)) - (|h| as real) * mean[j] * mean[j]
  }

  /** The first push: the array itself is the mean, and `_S` stays zero. */
  lemma FirstPush(x: seq<real>, s: seq<real>)
    requires s == ZeroRow(|x|)
    ensures Tracks([x], |x|, x, s)
  {
    forall j | 0 <= j < |x|
      ensures Sum(Column([x], j)) == x[j] && SumSq(Column([x], j)) == x[j] * x[j]
    {
      assert Column([x], j) == [x[j]];
      SingletonStats(x[j]);
    }
  }

  /**
   * Every later push: with n = |h| + 1 arrays, the update
   * M' = M + (x - M) / n and S' = S + (x - M) * (x - M') keeps tracking.
   */
  lemma LaterPush(h: seq<seq<real>>, x: seq<real>, n: real, m: seq<real>, s: seq<real>,
                  m': seq<real>, s': seq<real>)
    requires |h| > 0 && Tracks(h, |x|, m, s)
    requires n == |h| as real + 1.0
    requires |m'| == |x| && |s'| == |x|
    requires forall j :: 0 <= j < |x| ==> m'[j] == m[j] + (x[j] - m[j]) / n
    requires forall j :: 0 <= j < |x| ==> s'[j] == s[j] + (x[j] - m[j]) * (x[j] - m'[j])
    ensures Tracks(h + [x], |x|, m', s')
  {
    forall j | 0 <= j < |x|
      ensures (|h + [x]| as real) * m'[j] == Sum(Column(h + [x], j))
      ensures s'[j] == SumSq(Column(h + [x], j)) - (|h + [x]| as real) * m'[j] * m'[j]
    {
      PushElement(h, x, j, |h| as real, m[j], s[j], n, m'[j]);
    }
  }

  /** Every element divided by `d`. */
  function Scaled(s: seq<real>, d: real): (r: seq<real>)
    requires d != 0.0
    ensures |r| == |s| && forall j :: 0 <= j < |s| ==> r[j] == s[j] / d
  {
    seq(|s|, j requires 0 <= j < |s| => s[j] / d)
  }

  /** Every element squared. */
  function Squares(m: seq<real>): (r: seq<real>)
    ensures |r| == |m| && forall j :: 0 <= j < |m| ==> r[j] == m[j] * m[j]
  {
    seq(|m|, j requires 0 <= j < |m| => m[j] * m[j])
  }

  class RunningStat {
    /** The shape every pushed array must have. */
    const shape: seq<nat>
    /** Python's `_n`: how many arrays were pushed. */
    var count: nat
    /** Python's `_M`: the running mean. */
    var mean: seq<real>
    /** Python's `_S`: the running sum of squared deviations from the mean. */
    var sumSqDev: seq<real>
    /** Every array pushed so far, in order. */
    ghost var pushed: seq<seq<real>>

    /** The running values track everything pushed. */
    ghost predicate Valid()
      reads this
    {
      && count == |pushed|
      && Tracks(pushed, Size(shape), mean, sumSqDev)
      && (count == 0 ==> mean == ZeroRow(Size(shape)) && sumSqDev == ZeroRow(Size(shape)))
    }

    constructor (shape: seq<nat>)
      ensures Valid()
      ensures this.shape == shape && pushed == []
      ensures mean == ZeroRow(Size(shape)) && sumSqDev == ZeroRow(Size(shape))
    {
      this.shape := shape;
      count := 0;
      mean := ZeroRow(Size(shape));
      sumSqDev := ZeroRow(Size(shape));
      pushed := [];
    }

    /**
     * Pushes one array, given flattened with its shape. A shape other than
     * `shape` fails the assertion and changes nothing; the first push sets
     * the mean to the array itself.
     */
    method Push(xShape: seq<nat>, x: seq<real>) returns (r: Result<()>)
      requires Valid()
      requires |x| == Size(xShape)
      modifies this
      ensures Valid()
      ensures r == if xShape == shape then Success(()) else Failure(AssertionError)
      ensures r.Success? ==> pushed == old(pushed) + [x]
      ensures r.Success? && |pushed| == 1 ==> mean == x && sumSqDev == old(sumSqDev)
      ensures r.Failure? ==> unchanged(this)
    {
      if xShape != shape {
        return Failure(AssertionError);
      }
      if count == 0 {
        assert [] + [x] == [x];
        FirstPush(x, sumSqDev);
        count, mean, pushed := 1, x, pushed + [x];
      } else {
        var oldM, oldS, n := mean, sumSqDev, (count + 1) as real;
        var newM := seq(|x|, j requires 0 <= j < |x| => oldM[j] + (x[j] - oldM[j]) / n);
        var newS := seq(|x|, j requires 0 <= j < |x| => oldS[j] + (x[j] - oldM[j]) * (x[j] - newM[j]));
        LaterPush(pushed, x, n, oldM, oldS, newM, newS);
        count, mean, sumSqDev, pushed := count + 1, newM, newS, pushed + [x];
      }
      r := Success(());
    }

    /** `sumSqDev` is the squared deviation of each element from its mean. */
    lemma SumSqDevIsSqDev()
      requires Valid()
      ensures forall j :: 0 <= j < Size(shape) ==> sumSqDev[j] == SqDev(Column(pushed, j), mean[j])
    {
      forall j | 0 <= j < Size(shape)
        ensures sumSqDev[j] == SqDev(Column(pushed, j), mean[j])
      {
        SqDevFromMoments(Column(pushed, j), mean[j]);
      }
    }

    /** Python's `n`: the number of arrays pushed. */
    function N(): (n: nat)
      reads this
      requires Valid()
      ensures n == |pushed|
    {
      count
    }

    /**
     * Python's `mean`: the element-wise arithmetic average of everything
     * pushed (n * mean is the sum), and zeros before any push.
     */
    function Mean(): (m: seq<real>)
      reads this
      requires Valid()
      ensures |m| == Size(shape)
      ensures |pushed| == 0 ==> m == ZeroRow(Size(shape))
      ensures forall j :: 0 <= j < |m| ==> (|pushed| as real) * m[j] == Sum(Column(pushed, j))
    {
      mean
    }

    /**
     * Python's `var`: the element-wise sample variance once more than one
     * array was pushed (the squared deviation from the mean over n - 1), and
     * by convention the square of the mean before that.
     */
    function Var(): (v: seq<real>)
      reads this
      requires Valid()
      ensures |v| == Size(shape)
      ensures |pushed| > 1 ==> forall j :: 0 <= j < |v| ==>
                v[j] == SqDev(Column(pushed, j), Mean()[j]) / ((|pushed| - 1) as real)
      ensures |pushed| <= 1 ==> forall j :: 0 <= j < |v| ==> v[j] == Mean()[j] * Mean()[j]
    {
      SumSqDevIsSqDev();
      if count > 1 then Scaled(sumSqDev, (count - 1) as real) else Squares(Mean())
    }

    /** Python's `shape`. */
    function Shape(): (s: seq<nat>)
      reads this
      requires Valid()
      ensures Size(s) == |Mean()|
    {
      shape
    }
  }
}
