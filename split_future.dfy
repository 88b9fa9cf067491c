/**
 * `split_future`: for every row i of an ego trajectory (a time-by-feature
 * array), the window of the `future_steps` rows starting at i, zero-padded
 * at the end of the trajectory, and a mask of 1s for the real rows and 0s
 * for the padding.
 */
module SplitFutures {
  import opened Lists

  /** The trajectory is a numpy array of `width` columns. */
  predicate HasWidth(egos: Block, width: nat) {
    forall k :: 0 <= k < |egos| ==> |egos[k]| == width
  }

  /** `egos[i:i+future_steps]`, with Python's slicing. */
  function Ahead(egos: Block, i: int, futureSteps: int): (r: Block)
    ensures 0 <= i <= |egos| && futureSteps >= 0 ==> r == egos[i..i + Min(futureSteps, |egos| - i)]
  {
    Slice(egos, i, i + futureSteps)
  }

  /** The window of row i, with zero rows after it up to `future_steps` rows. */
  function Line(egos: Block, width: nat, i: int, futureSteps: int): (r: Block)
    ensures 0 <= i <= |egos| && futureSteps >= 0 ==> |r| == futureSteps
    ensures |Ahead(egos, i, futureSteps)| <= |r| && r[..|Ahead(egos, i, futureSteps)|] == Ahead(egos, i, futureSteps)
    ensures forall k :: |Ahead(egos, i, futureSteps)| <= k < |r| ==> r[k] == ZeroRow(width)
  {
    var line := Ahead(egos, i, futureSteps);
    if |line| < futureSteps then line + ZeroRows(futureSteps - |line|, width) else line
  }

  /** The mask of row i: a 1 per row of the window, then a 0 per zero row. */
  function Mask(egos: Block, i: int, futureSteps: int): (m: seq<int>)
    ensures 0 <= i <= |egos| && futureSteps >= 0 ==> |m| == futureSteps
    ensures forall k :: 0 <= k < |m| ==> (m[k] == 1 <==> k < |Ahead(egos, i, futureSteps)|) && 0 <= m[k] <= 1
  {
    var n := |Ahead(egos, i, futureSteps)|;
    Copies(n, 1) + Copies(futureSteps - n, 0)
  }

  /** The windows of all the rows. */
  function Lines(egos: Block, width: nat, futureSteps: int): (lines: seq<Block>)
    ensures |lines| == |egos|
  {
    seq(|egos|, i requires 0 <= i < |egos| => Line(egos, width, i, futureSteps))
  }

  /** The masks of all the rows. */
  function Masks(egos: Block, futureSteps: int): (masks: seq<seq<int>>)
    ensures |masks| == |egos|
  {
    seq(|egos|, i requires 0 <= i < |egos| => Mask(egos, i, futureSteps))
  }

  /**
   * The two arrays `split_future` returns, or the ValueError numpy raises
   * when the windows are not all of one length.
   */
  function Split(egos: Block, width: nat, futureSteps: int): (r: Result<(seq<Block>, seq<seq<int>>)>)
    ensures r.Success? ==> |r.value.0| == |r.value.1| == |egos| && Stackable(r.value.0)
    ensures r.Failure? ==> r.error == ValueError
  {
    var lines := Lines(egos, width, futureSteps);
    if Stackable(lines) then Success((lines, Masks(egos, futureSteps))) else Failure(ValueError)
  }

  method SplitFuture(egos: Block, width: nat, futureSteps: int) returns (r: Result<(seq<Block>, seq<seq<int>>)>)
    requires HasWidth(egos, width)
    ensures r == Split(egos, width, futureSteps)
  {
    var res: seq<Block> := [];
    var masks: seq<seq<int>> := [];
    for i := 0 to |egos|
      invariant res == Lines(egos, width, futureSteps)[..i]
      invariant masks == Masks(egos, futureSteps)[..i]
    {
      var line := Slice(egos, i, i + futureSteps);
      var mask := Copies(|line|, 1) + Copies(futureSteps - |line|, 0);
      assert line == Ahead(egos, i, futureSteps) && mask == Mask(egos, i, futureSteps);
      if |line| < futureSteps {
        line := line + ZeroRows(futureSteps - |line|, width);
      }
      assert line == Line(egos, width, i, futureSteps);
      res, masks := res + [line], masks + [mask];
    }
    assert res == Lines(egos, width, futureSteps) && masks == Masks(egos, futureSteps);
    if !Stackable(res) {
      return Failure(ValueError);
    }
    r := Success((res, masks));
  }

  /**
   * For a non-negative `future_steps`, one window per row, each of exactly
   * `future_steps` rows: row k of window i is row i+k of the trajectory
   * while there is one, a zero row after the end, and the mask says which.
   */
  lemma SplitFutureWindows(egos: Block, width: nat, futureSteps: int)
    requires HasWidth(egos, width) && futureSteps >= 0
    ensures var r := Split(egos, width, futureSteps);
      && r.Success?
      && |r.value.0| == |r.value.1| == |egos|
      && (forall i :: 0 <= i < |egos| ==> |r.value.0[i]| == |r.value.1[i]| == futureSteps)
      && (forall i, k :: 0 <= i < |egos| && 0 <= k < futureSteps ==>
            |r.value.0[i]| == |r.value.1[i]| == futureSteps
            && (r.value.1[i][k] == 1 <==> i + k < |egos|)
            && (r.value.1[i][k] == 0 <==> i + k >= |egos|)
            && r.value.0[i][k] == (if i + k < |egos| then egos[i + k] else ZeroRow(width)))
  {
    var lines := Lines(egos, width, futureSteps);
    forall i | 0 <= i < |egos|
      ensures |lines[i]| == |Mask(egos, i, futureSteps)| == futureSteps
      ensures forall k :: 0 <= k < futureSteps ==>
        && (Mask(egos, i, futureSteps)[k] == 1 <==> i + k < |egos|)
        && (Mask(egos, i, futureSteps)[k] == 0 <==> i + k >= |egos|)
        && lines[i][k] == (if i + k < |egos| then egos[i + k] else ZeroRow(width))
    {
      RowWindow(egos, width, i, futureSteps);
    }
    assert Stackable(lines) by {
      if |egos| > 0 {
        forall a, r | 0 <= a < |lines| && 0 <= r < |lines[a]|
          ensures |lines[a][r]| == |lines[0][0]|
        {
          assert |lines[a][r]| == width by { RowWindow(egos, width, a, futureSteps); }
          assert |lines[0][0]| == width by { RowWindow(egos, width, 0, futureSteps); }
        }
      }
    }
  }

  /** Window i of a non-negative `future_steps`, row by row. */
  lemma RowWindow(egos: Block, width: nat, i: int, futureSteps: int)
    requires HasWidth(egos, width) && futureSteps >= 0 && 0 <= i < |egos|
    ensures var line, mask := Line(egos, width, i, futureSteps), Mask(egos, i, futureSteps);
      && |line| == |mask| == futureSteps
      && forall k :: 0 <= k < futureSteps ==>
           && |line[k]| == width
           && (mask[k] == 1 <==> i + k < |egos|)
           && (mask[k] == 0 <==> i + k >= |egos|)
           && line[k] == (if i + k < |egos| then egos[i + k] else ZeroRow(width))
  {
    var n := Min(futureSteps, |egos| - i);
    var ahead := Ahead(egos, i, futureSteps);
    assert ahead == egos[i..i + n];
    var mask := Mask(egos, i, futureSteps);
    assert forall k :: 0 <= k < n ==> mask[k] == 1;
    assert forall k :: n <= k < futureSteps ==> mask[k] == Copies(futureSteps - n, 0)[k - n];
  }

  /**
   * A negative `future_steps` cuts windows that count back from the end of
   * the trajectory: they are all empty, and numpy stacks them, exactly when
   * `future_steps` is at most minus the number of rows; otherwise the first
   * window has rows and the last has none, and numpy refuses them.
   */
  lemma NegativeFutureSteps(egos: Block, width: nat, futureSteps: int)
    requires HasWidth(egos, width) && futureSteps < 0
    ensures Split(egos, width, futureSteps).Success? <==> futureSteps <= -|egos|
  {
    var lines := Lines(egos, width, futureSteps);
    if |egos| >= 2 && futureSteps > -|egos| {
      assert |lines[0]| == |egos| + futureSteps > 0;
      assert |lines[|egos| - 1]| == 0;
    }
  }
}
