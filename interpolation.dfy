/**
 * The linear interpolation `add` uses to fill a gap in an agent's track:
 * `np.interp` between the two points (x0, y0) and (x1, y1), and the rows it
 * produces for the missing integer timesteps, feature by feature.
 */
module Interpolation {
  import opened Lists

  /**
   * `np.interp(x, [x0, x1], [y0, y1])` for one point: clamped to y0 at or
   * before x0 and to y1 at or after x1, on the straight line in between.
   */
  function InterpAt(x0: int, x1: int, y0: real, y1: real, x: int): (y: real)
    requires x0 < x1
    ensures x <= x0 ==> y == y0
    ensures x >= x1 ==> y == y1
    ensures y0 <= y1 ==> y0 <= y <= y1
    ensures y1 <= y0 ==> y1 <= y <= y0
  {
    if x <= x0 then y0
    else if x >= x1 then y1
    else (y1 - y0) / ((x1 - x0) as real) * ((x - x0) as real) + y0
  }

  /** `np.interp(xs, [x0, x1], [y0, y1])`, point by point. */
  function Interp(xs: seq<int>, x0: int, x1: int, y0: real, y1: real): (r: seq<real>)
    requires x0 < x1 || |xs| == 0
    ensures |r| == |xs|
    ensures forall k :: 0 <= k < |xs| ==> x0 < x1 && r[k] == InterpAt(x0, x1, y0, y1, xs[k])
  {
    seq(|xs|, k requires 0 <= k < |xs| => InterpAt(x0, x1, y0, y1, xs[k]))
  }

  /**
   * The rows that fill the gap between the row `last` at timestep `lastT`
   * and the row `next` at timestep `t`: one row per timestep lastT+1 .. t-1,
   * each feature interpolated on its own.
   */
  function GapRows(last: Row, next: Row, lastT: int, t: int): (rows: Block)
    requires |last| == |next|
    ensures |rows| == Max(t - lastT - 1, 0)
    ensures forall k :: 0 <= k < |rows| ==> |rows[k]| == |next|
  {
    seq(Max(t - lastT - 1, 0), k requires 0 <= k < Max(t - lastT - 1, 0) =>
      seq(|next|, j requires 0 <= j < |next| => InterpAt(lastT, t, last[j], next[j], lastT + 1 + k)))
  }

  /**
   * The gap filled in: the row before the gap, the filled rows, then the new
   * row, one per timestep lastT .. t.
   */
  function Track(last: Row, next: Row, lastT: int, t: int): (track: Block)
    requires |last| == |next|
    ensures |track| == Max(t - lastT - 1, 0) + 2
  {
    [last] + GapRows(last, next, lastT, t) + [next]
  }

  /** The value k/n of the way from a to b. */
  function Lerp(a: real, b: real, k: int, n: int): real
    requires n != 0
  {
    a + (b - a) * (k as real) / (n as real)
  }

  /**
   * The filled track lies on the straight line from `last` to `next`: the row
   * at timestep lastT + k is last + (next - last) * k / (t - lastT), feature
   * by feature, for every k from 0 (the row before the gap) to t - lastT (the
   * new row).
   */
  lemma TrackIsLinear(last: Row, next: Row, lastT: int, t: int)
    requires |last| == |next| && lastT < t
    ensures forall k, j :: 0 <= k <= t - lastT && 0 <= j < |next| ==>
      Track(last, next, lastT, t)[k][j] == Lerp(last[j], next[j], k, t - lastT)
  {
    var gap, track := GapRows(last, next, lastT, t), Track(last, next, lastT, t);
    var n := (t - lastT) as real;
    forall k, j | 0 <= k <= t - lastT && 0 <= j < |next|
      ensures track[k][j] == last[j] + (next[j] - last[j]) * (k as real) / n
    {
      var d := next[j] - last[j];
      if k == 0 {
        assert track[k] == last;
        ZeroSlope(d, n);
      } else if k == t - lastT {
        assert track[k] == next;
        WholeSlope(d, n);
      } else {
        assert track[k] == gap[k - 1];
        assert gap[k - 1][j] == InterpAt(lastT, t, last[j], next[j], lastT + k);
        assert InterpAt(lastT, t, last[j], next[j], lastT + k) == d / n * (k as real) + last[j];
        SlopeTimes(d, n, k as real);
      }
    }
  }

  lemma SlopeTimes(d: real, n: real, k: real)
    requires n != 0.0
    ensures d / n * k == d * k / n
  {
  }

  lemma ZeroSlope(d: real, n: real)
    requires n != 0.0
    ensures d * 0.0 / n == 0.0
  {
  }

  lemma WholeSlope(d: real, n: real)
    requires n != 0.0
    ensures d * n / n == d
  {
  }
}
