/**
 * `pad_fut` and `pad_hist`: bring a block of rows up to `pad_length` rows by
 * adding zero rows after it (future) or before it (history). Both first
 * assert that numpy sees the block as a two-dimensional array: a ragged
 * block is refused by `np.array` itself with ValueError (numpy 1.24 and
 * later), and an empty one fails the assertion.
 */
module Padding {
  import opened Lists

  /** `pad_fut`: zero rows as wide as the last row, appended at the end. */
  function PadFut(line: Block, padLength: int): (r: Result<Block>)
    ensures r.Success? <==> Rank2(line)
    ensures r.Failure? ==> r.error == if Rectangular(line) then AssertionError else ValueError
    ensures r.Success? ==> && |r.value| == Max(|line|, padLength)
                           && r.value[..|line|] == line
                           && forall k :: |line| <= k < |r.value| ==> r.value[k] == ZeroRow(|line[0]|)
  {
    if !Rectangular(line) then Failure(ValueError)
    else if |line| == 0 then Failure(AssertionError)
    else Success(line + ZeroRows(padLength - Min(padLength, |line|), |line[|line| - 1]|))
  }

  /** `pad_hist`: zero rows as wide as the first row, put in front. */
  function PadHist(line: Block, padLength: int): (r: Result<Block>)
    ensures r.Success? <==> Rank2(line)
    ensures r.Failure? ==> r.error == if Rectangular(line) then AssertionError else ValueError
    ensures r.Success? ==> && |r.value| == Max(|line|, padLength)
                           && r.value[|r.value| - |line|..] == line
                           && forall k :: 0 <= k < |r.value| - |line| ==> r.value[k] == ZeroRow(|line[0]|)
  {
    if !Rectangular(line) then Failure(ValueError)
    else if |line| == 0 then Failure(AssertionError)
    else ZeroRowsPrefix(padLength - Min(padLength, |line|), |line[0]|, line);
         Success(ZeroRows(padLength - Min(padLength, |line|), |line[0]|) + line)
  }

  lemma ZeroRowsPrefix(count: int, width: nat, line: Block)
    ensures var r := ZeroRows(count, width) + line;
      r[|r| - |line|..] == line && forall k :: 0 <= k < |r| - |line| ==> r[k] == ZeroRow(width)
  {
    var r := ZeroRows(count, width) + line;
    assert r[|r| - |line|..] == line;
  }

  /**
   * The two paddings mirror each other: padding the history is reversing
   * the rows, padding them as a future, and reversing back.
   */
  lemma PadHistMirrorsPadFut(line: Block, padLength: int)
    ensures PadFut(Reverse(line), padLength).Success? == PadHist(line, padLength).Success?
    ensures PadHist(line, padLength).Failure? ==>
      PadFut(Reverse(line), padLength).error == PadHist(line, padLength).error
    ensures PadHist(line, padLength).Success? ==>
      PadHist(line, padLength).value == Reverse(PadFut(Reverse(line), padLength).value)
  {
    var rev := Reverse(line);
    assert Rectangular(rev) <==> Rectangular(line) by {
      if |line| > 0 && Rectangular(line) {
        assert forall k :: 0 <= k < |rev| ==> |rev[k]| == |line[|line| - 1 - k]| == |line[0]|;
      }
      if |line| > 0 && Rectangular(rev) {
        assert forall k :: 0 <= k < |line| ==> |line[k]| == |rev[|line| - 1 - k]| == |rev[0]|;
      }
    }
    if Rank2(line) {
      var h, f := PadHist(line, padLength).value, PadFut(rev, padLength).value;
      assert |h| == |Reverse(f)|;
      forall k | 0 <= k < |h|
        ensures h[k] == Reverse(f)[k]
      {
        if k < |h| - |line| {
          assert h[k] == ZeroRow(|line[0]|);
        } else {
          assert h[k] == line[k - (|h| - |line|)];
        }
      }
    }
  }
}
