/**
 * The window a query cuts out of one agent's record around the query time
 * `curr`: `hist_t` steps up to and including `curr`, `fut_t` steps after it,
 * and the integer arithmetic that turns them into slice bounds.
 */
module Windows {
  import opened Lists
  import opened Records

  /** `hist_t`: the number of timesteps from the first one up to `curr`. */
  function HistT(rec: Record, curr: int): (h: int)
    requires |rec.timesteps| > 0
    ensures |Range(rec.timesteps[0], curr + 1)| == Max(h, 0)
    ensures h > 0 <==> rec.timesteps[0] <= curr
  {
    curr - rec.timesteps[0] + 1
  }

  /** `fut_t`: the number of timesteps after `curr` up to the last one. */
  function FutT(rec: Record, curr: int): (f: int)
    requires |rec.timesteps| > 0
    ensures |Range(curr + 1, LastTime(rec) + 1)| == Max(f, 0)
    ensures f > 0 <==> curr < LastTime(rec)
  {
    LastTime(rec) - curr
  }

  /** A well-formed record has one entry for each of its hist_t + fut_t timesteps. */
  lemma Span(rec: Record, curr: int)
    requires WellFormed(rec)
    ensures HistT(rec, curr) + FutT(rec, curr) == |rec.values|
    ensures forall i :: 0 <= i < |rec.timesteps| ==> rec.timesteps[i] == curr - HistT(rec, curr) + 1 + i
  {
    ContiguousClosedForm(rec.timesteps);
  }

  /**
   * The slice bounds: the history is `values[n:n+l]` and the future is
   * `values[n+l:n+l+f]`.
   */
  datatype Window = Window(n: int, l: int, f: int)

  /** `n`, `l` and `f` from hist_t, fut_t and the configured lengths. */
  function WindowOf(histT: int, futT: int, histLength: int, futureLength: int): (w: Window)
    ensures w.n >= 0
    ensures w.l <= histLength && w.l <= histT && w.f <= futureLength && w.f <= futT
    ensures w.n + w.l == histT
    ensures histT >= 0 && histLength >= 0 ==> w.l == Min(histT, histLength) >= 0
  {
    Window(Max(histT - histLength, 0), Min(histT, histLength), Min(futT, futureLength))
  }

  /** The window of one record: the history ends at hist_t, the future holds at most fut_t entries. */
  function WindowAt(rec: Record, curr: int, histLength: int, futureLength: int): (w: Window)
    requires |rec.timesteps| > 0
    ensures w.n >= 0 && w.n + w.l == HistT(rec, curr)
    ensures w.l <= histLength && w.f <= futureLength && w.f <= FutT(rec, curr)
  {
    WindowOf(HistT(rec, curr), FutT(rec, curr), histLength, futureLength)
  }

  /** `values[n:n+l]`, with Python's slicing. */
  function History(values: seq<Row>, w: Window): (h: seq<Row>)
    ensures w.n >= 0 && w.l >= 0 ==> |h| <= w.l
    ensures 0 <= w.n <= w.n + w.l <= |values| ==> h == values[w.n..w.n + w.l]
  {
    Slice(values, w.n, w.n + w.l)
  }

  /** `values[n+l:n+l+f]`, with Python's slicing. */
  function Future(values: seq<Row>, w: Window): (f: seq<Row>)
    ensures w.n + w.l >= 0 && w.f >= 0 ==> |f| <= w.f
    ensures 0 <= w.n + w.l <= w.n + w.l + w.f <= |values| ==> f == values[w.n + w.l..w.n + w.l + w.f]
  {
    Slice(values, w.n + w.l, w.n + w.l + w.f)
  }

  /**
   * When the record spans `curr` (first timestep <= curr <= last), the
   * history window holds the last min(hist_t, hist_length) entries, those
   * of the timesteps up to and including `curr`.
   */
  lemma HistoryEndsAtCurr(rec: Record, curr: int, histLength: int, futureLength: int)
    requires WellFormed(rec) && histLength >= 0
    requires rec.timesteps[0] <= curr <= LastTime(rec)
    ensures var h, l := HistT(rec, curr), Min(HistT(rec, curr), histLength);
      && 0 <= h - l <= h <= |rec.values|
      && History(rec.values, WindowAt(rec, curr, histLength, futureLength)) == rec.values[h - l..h]
      && rec.timesteps[h - l..h] == Range(curr - l + 1, curr + 1)
  {
    var h, l := HistT(rec, curr), Min(HistT(rec, curr), histLength);
    Span(rec, curr);
    assert rec.timesteps[h - l..h] == Range(curr - l + 1, curr + 1);
  }

  /**
   * When the record starts no later than curr + 1 and ends no earlier than
   * `curr`, the future window holds the entries of the timesteps
   * curr+1 .. curr+f, with f = min(fut_t, future_length).
   */
  lemma FutureStartsAfterCurr(rec: Record, curr: int, histLength: int, futureLength: int)
    requires WellFormed(rec) && histLength >= 0 && futureLength >= 0
    requires rec.timesteps[0] <= curr + 1 && curr <= LastTime(rec)
    ensures var h, f := HistT(rec, curr), Min(FutT(rec, curr), futureLength);
      && 0 <= h <= h + f <= |rec.values|
      && Future(rec.values, WindowAt(rec, curr, histLength, futureLength)) == rec.values[h..h + f]
      && rec.timesteps[h..h + f] == Range(curr + 1, curr + 1 + f)
  {
    var h, f := HistT(rec, curr), Min(FutT(rec, curr), futureLength);
    Span(rec, curr);
    assert rec.timesteps[h..h + f] == Range(curr + 1, curr + 1 + f);
  }

  /**
   * The worked example beside the window code: a record of timesteps
   * 8 .. 16 queried at 10 with a history of 10 and a future of 30 has
   * hist_t = 3 and fut_t = 6, so its history is 8, 9, 10 and its future is
   * 11 .. 16.
   */
  lemma WorkedExample()
    ensures var data := [8, 9, 10, 11, 12, 13, 14, 15, 16];
      var w := WindowOf(10 - data[0] + 1, data[|data| - 1] - 10, 10, 30);
      && w == Window(0, 3, 6)
      && Slice(data, w.n, w.n + w.l) == [8, 9, 10]
      && Slice(data, w.n + w.l, w.n + w.l + w.f) == [11, 12, 13, 14, 15, 16]
  {
    var data := [8, 9, 10, 11, 12, 13, 14, 15, 16];
    assert data[0..3] == [8, 9, 10];
    assert data[3..9] == [11, 12, 13, 14, 15, 16];
  }
}
