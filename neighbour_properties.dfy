/**
 * What the two queries of the neighbour buffer deliver: which candidates
 * `query_neighbours` keeps and how many blocks it returns, and which rows
 * each block holds in either query.
 */
module NeighbourProperties {
  import opened Lists
  import opened Records
  import opened Windows
  import opened Padding
  import opened NeighbourBuffer

  /**
   * A candidate the mode lets through: one with at least one step of history
   * in history-only mode, one with at least `future_length` steps of future
   * in full-future mode.
   */
  predicate Eligible(rec: Record, mode: QueryMode, curr: int, futureLength: int)
    requires |rec.timesteps| > 0
  {
    || (mode == HistoryOnly && HistT(rec, curr) > 0)
    || (mode == FullFuture && FutT(rec, curr) >= futureLength)
  }

  /** The eligible (id, index) pairs, in their order. */
  function EligiblePairs<Id(==)>(buffer: map<Id, Record>, pairs: seq<(Id, int)>, mode: QueryMode,
                                 curr: int, futureLength: int): (e: seq<(Id, int)>)
    requires AllWellFormed(buffer)
    requires forall p :: p in pairs ==> p.0 in buffer
    ensures |e| <= |pairs|
    ensures forall p :: p in e ==> p in pairs && Eligible(buffer[p.0], mode, curr, futureLength)
    ensures forall p {:trigger p in e} :: p in pairs && Eligible(buffer[p.0], mode, curr, futureLength) ==> p in e
  {
    if |pairs| == 0 then []
    else
      assert forall p :: p in pairs ==> p == pairs[0] || p in pairs[1..];
      var rest := EligiblePairs(buffer, pairs[1..], mode, curr, futureLength);
      if Eligible(buffer[pairs[0].0], mode, curr, futureLength) then [pairs[0]] + rest else rest
  }

  /**
   * A candidate's block is skipped exactly when the mode finds it
   * ineligible, and otherwise fails only in the padding: with ValueError
   * when its history window is ragged, on the assertion when it is empty.
   */
  lemma CandidateOutcome(rec: Record, mode: QueryMode, curr: int, histLength: int, futureLength: int,
                         padLength: int)
    requires WellFormed(rec) && mode != Default
    ensures var c, w := Candidate(rec, mode, curr, histLength, futureLength, padLength),
                       WindowAt(rec, curr, histLength, futureLength);
      && (c == Success(None) <==> !Eligible(rec, mode, curr, futureLength))
      && (c.Failure? <==> Eligible(rec, mode, curr, futureLength) && !Rank2(History(rec.values, w)))
      && (c.Failure? ==> c.error == if Rectangular(History(rec.values, w)) then AssertionError else ValueError)
  {
  }

  /**
   * The selection from `pairs`, `accepted` blocks having been kept before,
   * is the first max(keep_top - accepted, 1) eligible candidates, in order,
   * with their indices in history-only mode and none in full-future mode.
   */
  ghost predicate TakesFirstEligible<Id>(
    buffer: map<Id, Record>, pairs: seq<(Id, int)>, mode: QueryMode, curr: int,
    histLength: int, futureLength: int, keepTop: int, padLength: int, accepted: int)
    requires AllWellFormed(buffer)
    requires forall p :: p in pairs ==> p.0 in buffer
  {
    var s := Select(buffer, pairs, mode, curr, histLength, futureLength, keepTop, padLength, accepted);
    var e := EligiblePairs(buffer, pairs, mode, curr, futureLength);
    var m := Min(|e|, Max(keepTop - accepted, 1));
    && s.Success?
    && |s.value.blocks| == m
    && (forall k :: 0 <= k < m ==>
          Candidate(buffer[e[k].0], mode, curr, histLength, futureLength, padLength) == Success(Some(s.value.blocks[k])))
    && (mode == HistoryOnly ==> s.value.indices == seq(m, k requires 0 <= k < m => e[k].1))
    && (mode == FullFuture ==> s.value.indices == [])
  }

  /**
   * A reference for `query_neighbours`' loop: when every id is in the
   * buffer and no eligible candidate trips the padding's assertion, the
   * selection is the first max(keep_top - accepted, 1) eligible candidates.
   */
  lemma {:induction false} SelectTakesFirstEligible<Id>(
    buffer: map<Id, Record>, pairs: seq<(Id, int)>, mode: QueryMode, curr: int,
    histLength: int, futureLength: int, keepTop: int, padLength: int, accepted: int)
    requires AllWellFormed(buffer) && mode != Default
    requires forall p :: p in pairs ==> p.0 in buffer
    requires forall p :: p in pairs && Eligible(buffer[p.0], mode, curr, futureLength) ==>
      Rank2(History(buffer[p.0].values, WindowAt(buffer[p.0], curr, histLength, futureLength)))
    ensures TakesFirstEligible(buffer, pairs, mode, curr, histLength, futureLength, keepTop, padLength, accepted)
  {
    if |pairs| > 0 {
      var rec := buffer[pairs[0].0];
      assert forall p :: p in pairs[1..] ==> p in pairs;
      CandidateOutcome(rec, mode, curr, histLength, futureLength, padLength);
      if !Eligible(rec, mode, curr, futureLength) {
        SelectTakesFirstEligible(buffer, pairs[1..], mode, curr, histLength, futureLength, keepTop,
                                 padLength, accepted);
      } else if accepted + 1 < keepTop {
        SelectTakesFirstEligible(buffer, pairs[1..], mode, curr, histLength, futureLength, keepTop,
                                 padLength, accepted + 1);
        KeepAndGoOn(buffer, pairs, mode, curr, histLength, futureLength, keepTop, padLength, accepted);
      }
    }
  }

  /** The inductive step of `SelectTakesFirstEligible` for a kept candidate that does not end the loop. */
  lemma KeepAndGoOn<Id>(
    buffer: map<Id, Record>, pairs: seq<(Id, int)>, mode: QueryMode, curr: int,
    histLength: int, futureLength: int, keepTop: int, padLength: int, accepted: int)
    requires AllWellFormed(buffer) && mode != Default && |pairs| > 0 && accepted + 1 < keepTop
    requires forall p :: p in pairs ==> p.0 in buffer
    requires Eligible(buffer[pairs[0].0], mode, curr, futureLength)
    requires Candidate(buffer[pairs[0].0], mode, curr, histLength, futureLength, padLength).Success?
    requires TakesFirstEligible(buffer, pairs[1..], mode, curr, histLength, futureLength, keepTop, padLength,
                                accepted + 1)
    ensures TakesFirstEligible(buffer, pairs, mode, curr, histLength, futureLength, keepTop, padLength, accepted)
  {
    var (id, ind) := pairs[0];
    var e := EligiblePairs(buffer, pairs, mode, curr, futureLength);
    var e' := EligiblePairs(buffer, pairs[1..], mode, curr, futureLength);
    var s' := Select(buffer, pairs[1..], mode, curr, histLength, futureLength, keepTop, padLength,
                     accepted + 1).value;
    var s := Select(buffer, pairs, mode, curr, histLength, futureLength, keepTop, padLength,
                    accepted).value;
    var m' := Min(|e'|, Max(keepTop - accepted - 1, 1));
    KeptHead(buffer, pairs, mode, curr, histLength, futureLength, keepTop, padLength, accepted);
    forall k | 0 < k < m' + 1
      ensures Candidate(buffer[e[k].0], mode, curr, histLength, futureLength, padLength)
              == Success(Some(s.blocks[k]))
    {
      ShiftedEntry(e, e', s.blocks, s'.blocks, k);
    }
    if mode == HistoryOnly {
      ShiftedIndices(e, e', s'.indices, m');
    }
  }

  /** How one kept candidate at the head of `pairs` extends the selection and the eligible pairs. */
  lemma KeptHead<Id>(
    buffer: map<Id, Record>, pairs: seq<(Id, int)>, mode: QueryMode, curr: int,
    histLength: int, futureLength: int, keepTop: int, padLength: int, accepted: int)
    requires AllWellFormed(buffer) && mode != Default && |pairs| > 0 && accepted + 1 < keepTop
    requires forall p :: p in pairs ==> p.0 in buffer
    requires Eligible(buffer[pairs[0].0], mode, curr, futureLength)
    requires Candidate(buffer[pairs[0].0], mode, curr, histLength, futureLength, padLength).Success?
    requires Select(buffer, pairs[1..], mode, curr, histLength, futureLength, keepTop, padLength,
                    accepted + 1).Success?
    ensures var c := Candidate(buffer[pairs[0].0], mode, curr, histLength, futureLength, padLength);
      var s := Select(buffer, pairs, mode, curr, histLength, futureLength, keepTop, padLength, accepted);
      var s' := Select(buffer, pairs[1..], mode, curr, histLength, futureLength, keepTop, padLength,
                       accepted + 1).value;
      && c.value.Some? && s.Success?
      && s.value.blocks == [c.value.value] + s'.blocks
      && (mode == HistoryOnly ==> s.value.indices == [pairs[0].1] + s'.indices)
      && (mode == FullFuture ==> s.value.indices == s'.indices)
      && EligiblePairs(buffer, pairs, mode, curr, futureLength)
         == [pairs[0]] + EligiblePairs(buffer, pairs[1..], mode, curr, futureLength)
  {
    CandidateOutcome(buffer[pairs[0].0], mode, curr, histLength, futureLength, padLength);
  }

  lemma ShiftedIndices<A>(e: seq<(A, int)>, e': seq<(A, int)>, tail: seq<int>, m: nat)
    requires |e| > 0 && e == [e[0]] + e' && m <= |e'|
    requires tail == seq(m, k requires 0 <= k < m => e'[k].1)
    ensures [e[0].1] + tail == seq(m + 1, k requires 0 <= k < m + 1 => e[k].1)
  {
    assert forall k :: 0 < k < m + 1 ==> e[k] == e'[k - 1];
  }

  lemma ShiftedEntry<A, B>(e: seq<A>, e': seq<A>, s: seq<B>, s': seq<B>, k: int)
    requires 0 < k < |e| && 0 < k < |s| && |e| > 0 && |s| > 0
    requires e == [e[0]] + e' && s == [s[0]] + s'
    ensures e[k] == e'[k - 1] && s[k] == s'[k - 1]
  {
  }

  /**
   * `query_neighbours` returns exactly `keep_top` blocks when `keep_top` is
   * at least one (the kept ones, then zero blocks of min(max(curr+1, 0),
   * state_shape[1]) rows of state_shape[2] zeros), and at most one block
   * otherwise; the indices match the kept blocks in history-only mode and
   * are empty in full-future mode.
   */
  lemma NeighboursCount<Id>(buffer: map<Id, Record>, mode: QueryMode, shape: StateShape, curr: int,
                            ids: seq<Id>, inds: seq<int>, histLength: int, futureLength: int,
                            keepTop: int, padLength: int)
    requires AllWellFormed(buffer)
    requires Neighbours(buffer, mode, shape, curr, ids, inds, histLength, futureLength, keepTop, padLength).Success?
    ensures var (blocks, indices) := Neighbours(buffer, mode, shape, curr, ids, inds, histLength, futureLength,
                                                keepTop, padLength).value;
      var s := Select(buffer, Zip(ids, inds), mode, curr, histLength, futureLength, keepTop, padLength, 0).value;
      && |s.blocks| <= |blocks|
      && blocks[..|s.blocks|] == s.blocks
      && (keepTop >= 1 ==> |blocks| == keepTop)
      && (keepTop <= 0 ==> |blocks| <= 1)
      && (forall k :: |s.blocks| <= k < |blocks| ==>
            |blocks[k]| == Clip(curr + 1, 0, shape.steps) && blocks[k] == PadBlock(curr, shape))
      && (mode == HistoryOnly ==> |indices| == |s.blocks|)
      && (mode == FullFuture ==> indices == [])
  {
    var pairs := Zip(ids, inds);
    SelectBounds(buffer, pairs, mode, curr, histLength, futureLength, keepTop, padLength, 0);
    var s := Select(buffer, pairs, mode, curr, histLength, futureLength, keepTop, padLength, 0).value;
    var blocks := Neighbours(buffer, mode, shape, curr, ids, inds, histLength, futureLength, keepTop, padLength).value.0;
    assert blocks[..|s.blocks|] == s.blocks;
  }

  /** Any mode other than the two implemented ones raises on the first candidate in the buffer. */
  lemma DefaultModeRaises<Id>(buffer: map<Id, Record>, pairs: seq<(Id, int)>, curr: int, histLength: int,
                              futureLength: int, keepTop: int, padLength: int, accepted: int)
    requires AllWellFormed(buffer) && |pairs| > 0 && pairs[0].0 in buffer
    ensures Select(buffer, pairs, Default, curr, histLength, futureLength, keepTop, padLength, accepted)
         == Failure(NotImplementedError)
  {
  }

  /**
   * The loop of `query_neighbours` stops once `keep_top` blocks are kept,
   * and keeps at least one whenever one is eligible; the indices follow the
   * mode.
   */
  lemma {:induction false} SelectBounds<Id>(
    buffer: map<Id, Record>, pairs: seq<(Id, int)>, mode: QueryMode, curr: int,
    histLength: int, futureLength: int, keepTop: int, padLength: int, accepted: int)
    requires AllWellFormed(buffer)
    requires Select(buffer, pairs, mode, curr, histLength, futureLength, keepTop, padLength, accepted).Success?
    ensures var s := Select(buffer, pairs, mode, curr, histLength, futureLength, keepTop, padLength, accepted).value;
      && |s.blocks| <= |pairs|
      && |s.blocks| <= Max(keepTop - accepted, 1)
      && (keepTop - accepted >= 1 ==> |s.blocks| <= keepTop - accepted)
      && (mode == HistoryOnly ==> |s.indices| == |s.blocks|)
      && (mode == FullFuture ==> s.indices == [])
  {
    if |pairs| > 0 {
      var id := pairs[0].0;
      var c := Candidate(buffer[id], mode, curr, histLength, futureLength, padLength);
      if c == Success(None) {
        SelectBounds(buffer, pairs[1..], mode, curr, histLength, futureLength, keepTop, padLength, accepted);
      } else if accepted + 1 < keepTop {
        SelectBounds(buffer, pairs[1..], mode, curr, histLength, futureLength, keepTop, padLength, accepted + 1);
      }
    }
  }

  /**
   * Once the selection from `pairs` has reached the cut-off (max(keep_top -
   * accepted, 1) kept blocks), the loop has stopped: pairs after them are
   * never looked at, so unknown ids or failing candidates among them change
   * nothing.
   */
  lemma {:induction false} SelectStopsAtCutoff<Id>(
    buffer: map<Id, Record>, pairs: seq<(Id, int)>, rest: seq<(Id, int)>, mode: QueryMode, curr: int,
    histLength: int, futureLength: int, keepTop: int, padLength: int, accepted: int)
    requires AllWellFormed(buffer)
    requires var s := Select(buffer, pairs, mode, curr, histLength, futureLength, keepTop, padLength, accepted);
      s.Success? && |s.value.blocks| == Max(keepTop - accepted, 1)
    ensures Select(buffer, pairs + rest, mode, curr, histLength, futureLength, keepTop, padLength, accepted)
         == Select(buffer, pairs, mode, curr, histLength, futureLength, keepTop, padLength, accepted)
  {
    assert |pairs| > 0;
    assert (pairs + rest)[0] == pairs[0] && (pairs + rest)[1..] == pairs[1..] + rest;
    var c := Candidate(buffer[pairs[0].0], mode, curr, histLength, futureLength, padLength);
    if c == Success(None) {
      SelectStopsAtCutoff(buffer, pairs[1..], rest, mode, curr, histLength, futureLength, keepTop, padLength,
                          accepted);
    } else if accepted + 1 < keepTop {
      SelectStopsAtCutoff(buffer, pairs[1..], rest, mode, curr, histLength, futureLength, keepTop, padLength,
                          accepted + 1);
    }
  }

  /**
   * A kept full-future block, for a candidate whose record spans `curr`:
   * the last min(hist_t, hist_length) rows up to and including `curr`,
   * zero-padded in front to `pad_length`, then exactly `future_length` rows,
   * those of the timesteps curr+1 .. curr+future_length.
   */
  lemma FullFutureBlock(rec: Record, curr: int, histLength: int, futureLength: int, padLength: int)
    requires WellFormed(rec) && Rectangular(rec.values)
    requires histLength >= 1 && futureLength >= 0
    requires rec.timesteps[0] <= curr && FutT(rec, curr) >= futureLength
    ensures var c := Candidate(rec, FullFuture, curr, histLength, futureLength, padLength);
      var h, l := HistT(rec, curr), Min(HistT(rec, curr), histLength);
      && 0 < l <= h && h + futureLength <= |rec.values|
      && c.Success? && c.value.Some?
      && |c.value.value| == Max(l, padLength) + futureLength
      && c.value.value[Max(l, padLength) - l..Max(l, padLength)] == rec.values[h - l..h]
      && rec.timesteps[h - l..h] == Range(curr - l + 1, curr + 1)
      && (forall k :: 0 <= k < Max(l, padLength) - l ==> c.value.value[k] == ZeroRow(|rec.values[0]|))
      && c.value.value[Max(l, padLength)..] == rec.values[h..h + futureLength]
      && rec.timesteps[h..h + futureLength] == Range(curr + 1, curr + 1 + futureLength)
  {
    var w := WindowAt(rec, curr, histLength, futureLength);
    var h, l := HistT(rec, curr), Min(HistT(rec, curr), histLength);
    HistoryEndsAtCurr(rec, curr, histLength, futureLength);
    FutureStartsAfterCurr(rec, curr, histLength, futureLength);
    var hist := History(rec.values, w);
    assert |hist| == l && hist[0] == rec.values[h - l];
    var padded := PadHist(hist, padLength).value;
    var b := padded + Future(rec.values, w);
    assert b[..|padded|] == padded && b[|padded|..] == Future(rec.values, w);
    assert b[Max(l, padLength) - l..Max(l, padLength)] == padded[|padded| - |hist|..];
  }

  /**
   * A kept history-only block, for a candidate whose record spans `curr`:
   * the last min(hist_t, hist_length) rows up to and including `curr`,
   * zero-padded in front to `pad_length`.
   */
  lemma HistoryOnlyBlock(rec: Record, curr: int, histLength: int, futureLength: int, padLength: int)
    requires WellFormed(rec) && Rectangular(rec.values) && histLength >= 1
    requires rec.timesteps[0] <= curr <= LastTime(rec)
    ensures var c := Candidate(rec, HistoryOnly, curr, histLength, futureLength, padLength);
      var h, l := HistT(rec, curr), Min(HistT(rec, curr), histLength);
      && 0 < l <= h <= |rec.values|
      && c.Success? && c.value.Some?
      && |c.value.value| == Max(l, padLength)
      && c.value.value[Max(l, padLength) - l..] == rec.values[h - l..h]
      && rec.timesteps[h - l..h] == Range(curr - l + 1, curr + 1)
      && (forall k :: 0 <= k < Max(l, padLength) - l ==> c.value.value[k] == ZeroRow(|rec.values[0]|))
  {
    var h, l := HistT(rec, curr), Min(HistT(rec, curr), histLength);
    HistoryEndsAtCurr(rec, curr, histLength, futureLength);
    var hist := History(rec.values, WindowAt(rec, curr, histLength, futureLength));
    assert |hist| == l && hist[0] == rec.values[h - l];
  }

  /**
   * A full-future candidate whose record starts after `curr` (hist_t <= 0)
   * gets no history up to `curr`: with hist_t = 0 its history window is
   * empty, so the history padding's assertion fails, and with hist_t < 0
   * Python reads the negative slice bound from the end of the list, so the
   * "history" is the record's leading rows, all of them after `curr`.
   */
  lemma LateNeighbourHistory(rec: Record, curr: int, histLength: int, futureLength: int, padLength: int)
    requires WellFormed(rec) && histLength >= 1 && rec.timesteps[0] > curr
    ensures var h, w := HistT(rec, curr), WindowAt(rec, curr, histLength, futureLength);
      && h <= 0
      && (h == 0 ==> History(rec.values, w) == [])
      && (h < 0 ==> History(rec.values, w) == rec.values[..Max(|rec.values| + h, 0)])
      && (forall k :: 0 <= k < |rec.timesteps| ==> rec.timesteps[k] > curr)
      && (h == 0 && FutT(rec, curr) >= futureLength ==>
            Candidate(rec, FullFuture, curr, histLength, futureLength, padLength) == Failure(AssertionError))
  {
    ContiguousClosedForm(rec.timesteps);
    var h, w := HistT(rec, curr), WindowAt(rec, curr, histLength, futureLength);
    assert w.n == 0 && w.l == h;
    if h == 0 {
      assert History(rec.values, w) == [];
    }
  }

  /**
   * A full-future candidate whose record starts after `curr` with hist_t < 0,
   * and has more than -hist_t rows, is kept: its history slice is the
   * record's first |values| + hist_t rows and its future slice continues
   * from there, so the block is zero rows followed by the record's leading
   * rows, all of them after `curr` (`LateNeighbourHistory`), rather than the
   * rows of timesteps curr+1 .. curr+future_length.
   */
  lemma LateNeighbourKept(rec: Record, curr: int, histLength: int, futureLength: int, padLength: int)
    requires WellFormed(rec) && Rectangular(rec.values) && histLength >= 1
    requires HistT(rec, curr) < 0 < |rec.values| + HistT(rec, curr) && FutT(rec, curr) >= futureLength
    ensures var s, w := |rec.values| + HistT(rec, curr), WindowAt(rec, curr, histLength, futureLength);
      var m := s + |Future(rec.values, w)|;
      && m <= |rec.values|
      && Candidate(rec, FullFuture, curr, histLength, futureLength, padLength)
         == Success(Some(ZeroRows(padLength - Min(padLength, s), |rec.values[0]|) + rec.values[..m]))
  {
    var s, w := |rec.values| + HistT(rec, curr), WindowAt(rec, curr, histLength, futureLength);
    NegativeWindow(rec.values, w);
    var hist, fut := History(rec.values, w), Future(rec.values, w);
    assert Rectangular(hist) by {
      assert forall k :: 0 <= k < |hist| ==> |hist[k]| == |rec.values[0]|;
    }
    var zeros := ZeroRows(padLength - Min(padLength, s), |rec.values[0]|);
    assert PadHist(hist, padLength) == Success(zeros + hist);
    JoinedPrefix(zeros, rec.values, s, fut);
  }

  /** The window of a negative hist_t: a prefix, then the rows right after it. */
  lemma NegativeWindow(values: seq<Row>, w: Window)
    requires w.n == 0 && w.l < 0 < |values| + w.l
    ensures var s := |values| + w.l;
      && History(values, w) == values[..s]
      && s + |Future(values, w)| <= |values|
      && Future(values, w) == values[s..s + |Future(values, w)|]
  {
    assert SliceBound(w.n + w.l, |values|) == |values| + w.l;
  }

  lemma JoinedPrefix<T>(zeros: seq<T>, values: seq<T>, s: nat, fut: seq<T>)
    requires s + |fut| <= |values| && fut == values[s..s + |fut|]
    ensures zeros + values[..s] + fut == zeros + values[..s + |fut|]
  {
    assert values[..s] + fut == values[..s + |fut|];
  }

  /**
   * A history-only candidate whose last timestep is before the history
   * window curr-hist_length+1 .. curr passes the hist_t test, but its
   * history window is empty, so the history padding's assertion fails.
   */
  lemma GoneNeighbourFails(rec: Record, curr: int, histLength: int, futureLength: int, padLength: int)
    requires WellFormed(rec) && histLength >= 1 && curr - histLength + 1 > LastTime(rec)
    ensures HistT(rec, curr) > 0
    ensures Candidate(rec, HistoryOnly, curr, histLength, futureLength, padLength) == Failure(AssertionError)
  {
    Span(rec, curr);
  }

  /**
   * A history-only candidate whose record ended shortly before `curr`
   * (last timestep < curr < last timestep + hist_length) passes the hist_t
   * test, and Python clamps the slice end n + l = hist_t to the end of the
   * list: the history is the record's rows from timestep
   * max(first, curr - hist_length + 1) up to its last one, fewer than the
   * min(hist_t, hist_length) rows of the window, and the padding puts them
   * at the end of the block, as though they ended at `curr`.
   */
  lemma StaleNeighbourHistory(rec: Record, curr: int, histLength: int, futureLength: int, padLength: int)
    requires WellFormed(rec) && Rectangular(rec.values)
    requires LastTime(rec) < curr < LastTime(rec) + histLength
    ensures var h, n := HistT(rec, curr), Max(HistT(rec, curr) - histLength, 0);
      var c := Candidate(rec, HistoryOnly, curr, histLength, futureLength, padLength);
      && h > 0 && 0 <= n < |rec.values|
      && |rec.values| - n < Min(h, histLength)
      && rec.timesteps[n] == Max(rec.timesteps[0], curr - histLength + 1)
      && History(rec.values, WindowAt(rec, curr, histLength, futureLength)) == rec.values[n..]
      && c.Success? && c.value.Some?
      && |c.value.value| == Max(|rec.values| - n, padLength)
      && c.value.value[|c.value.value| - (|rec.values| - n)..] == rec.values[n..]
  {
    var n := Max(HistT(rec, curr) - histLength, 0);
    Span(rec, curr);
    var hist := History(rec.values, WindowAt(rec, curr, histLength, futureLength));
    assert hist == rec.values[n..];
    assert Rectangular(hist) by {
      assert forall k :: 0 <= k < |hist| ==> |hist[k]| == |rec.values[0]|;
    }
  }

  /**
   * `query_futures`, when it succeeds, has one block per id, in order: the
   * padded future window of that id's record, all of them of one shape.
   */
  lemma {:induction false} FuturesPerId<Id>(buffer: map<Id, Record>, curr: int, ids: seq<Id>,
                                        histLength: int, futureLength: int, padLength: int)
    requires AllWellFormed(buffer)
    requires FutureBlocks(buffer, curr, ids, histLength, futureLength, padLength).Success?
    ensures var blocks := FutureBlocks(buffer, curr, ids, histLength, futureLength, padLength).value;
      && |blocks| == |ids|
      && forall k :: 0 <= k < |ids| ==>
           (ids[k] in buffer && FutureBlock(buffer[ids[k]], curr, histLength, futureLength, padLength) == Success(blocks[k]))
  {
    if |ids| > 0 {
      FuturesPerId(buffer, curr, ids[1..], histLength, futureLength, padLength);
      var blocks := FutureBlocks(buffer, curr, ids, histLength, futureLength, padLength).value;
      var rest := FutureBlocks(buffer, curr, ids[1..], histLength, futureLength, padLength).value;
      assert blocks == [blocks[0]] + rest;
      forall k | 0 < k < |ids|
        ensures ids[k] in buffer
             && FutureBlock(buffer[ids[k]], curr, histLength, futureLength, padLength) == Success(blocks[k])
      {
        assert ids[k] == ids[1..][k - 1] && blocks[k] == rest[k - 1];
      }
    }
  }

  /**
   * One id's future block, for a record that reaches past `curr` and starts
   * no later than curr + 1: the rows of the timesteps curr+1 .. curr+f with
   * f = min(fut_t, future_length), then zero rows up to `pad_length`.
   */
  lemma FutureBlockContents(rec: Record, curr: int, histLength: int, futureLength: int, padLength: int)
    requires WellFormed(rec) && Rectangular(rec.values)
    requires histLength >= 0 && futureLength >= 1
    requires rec.timesteps[0] <= curr + 1 && curr < LastTime(rec)
    ensures var b, h, f := FutureBlock(rec, curr, histLength, futureLength, padLength),
                          HistT(rec, curr), Min(FutT(rec, curr), futureLength);
      && 0 <= h < h + f <= |rec.values|
      && b.Success?
      && |b.value| == Max(f, padLength)
      && b.value[..f] == rec.values[h..h + f]
      && rec.timesteps[h..h + f] == Range(curr + 1, curr + 1 + f)
      && (forall k :: f <= k < |b.value| ==> b.value[k] == ZeroRow(|rec.values[0]|))
  {
    var h := HistT(rec, curr);
    FutureStartsAfterCurr(rec, curr, histLength, futureLength);
    var fut := Future(rec.values, WindowAt(rec, curr, histLength, futureLength));
    assert fut[0] == rec.values[h];
  }

  /**
   * `query_futures` for a record that starts after curr + 1 (hist_t < 0):
   * Python reads the negative start n + l = hist_t from the end of the list,
   * so the block does not begin with the row of curr + 1. With
   * s = max(len + hist_t, 0) and e the end bound `LateFutureEnd` it holds
   * the record's rows s .. e-1, the first of them at timestep
   * first + s > curr + 1, then zero rows up to `pad_length`; when s >= e the
   * slice is empty and the padding's assertion fails.
   */
  lemma LateFutureBlock(rec: Record, curr: int, histLength: int, futureLength: int, padLength: int)
    requires WellFormed(rec) && Rectangular(rec.values) && histLength >= 0
    requires HistT(rec, curr) < 0
    ensures var b, h := FutureBlock(rec, curr, histLength, futureLength, padLength), HistT(rec, curr);
      var s, e := Max(|rec.values| + h, 0), LateFutureEnd(|rec.values|, h, futureLength);
      && (s < e ==>
            && b.Success? && |b.value| == Max(e - s, padLength)
            && b.value[..e - s] == rec.values[s..e]
            && rec.timesteps[s] == rec.timesteps[0] + s > curr + 1
            && forall k :: e - s <= k < |b.value| ==> b.value[k] == ZeroRow(|rec.values[0]|))
      && (e <= s ==> b == Failure(AssertionError))
  {
    var h, w := HistT(rec, curr), WindowAt(rec, curr, histLength, futureLength);
    var s, e := Max(|rec.values| + h, 0), LateFutureEnd(|rec.values|, h, futureLength);
    assert w.n == 0 && w.l == h && w.f == Min(|rec.values| - h, futureLength) by {
      Span(rec, curr);
    }
    NegativeStartFuture(rec.values, w, futureLength);
    assert FutureBlock(rec, curr, histLength, futureLength, padLength) == PadFut(Future(rec.values, w), padLength);
    if s < e {
      PaddedSlice(rec.values, s, e, padLength);
      assert rec.timesteps[s] == rec.timesteps[0] + s by {
        ContiguousClosedForm(rec.timesteps);
      }
    }
  }

  /** `pad_fut` of a non-empty slice of rectangular rows: the slice, then zero rows as wide. */
  lemma PaddedSlice(values: seq<Row>, s: nat, e: nat, padLength: int)
    requires s < e <= |values| && Rectangular(values)
    ensures var b := PadFut(values[s..e], padLength);
      && b.Success? && |b.value| == Max(e - s, padLength) && b.value[..e - s] == values[s..e]
      && forall k :: e - s <= k < |b.value| ==> b.value[k] == ZeroRow(|values[0]|)
  {
    var rows := values[s..e];
    assert Rectangular(rows) by {
      assert forall k :: 0 <= k < |rows| ==> |rows[k]| == |values[0]|;
    }
    assert |rows[0]| == |values[0]|;
  }

  /**
   * The future window `values[h:h+f]` for a negative start h = n + l, where
   * f = min(len - h, F): rows s .. e-1, or nothing when s >= e. Both bounds
   * are read from the end when negative: s = max(len + h, 0), and e is
   * min(len, h + F) or, when h + F < 0, max(len + h + F, 0).
   */
  lemma NegativeStartFuture(values: seq<Row>, w: Window, futureLength: int)
    requires w.n == 0 && w.l < 0 && w.f == Min(|values| - w.l, futureLength)
    ensures var s, e := Max(|values| + w.l, 0), LateFutureEnd(|values|, w.l, futureLength);
      s < e ==> Future(values, w) == values[s..e]
    ensures LateFutureEnd(|values|, w.l, futureLength) <= Max(|values| + w.l, 0) ==> Future(values, w) == []
  {
    var h := w.l;
    var s, e := Max(|values| + h, 0), LateFutureEnd(|values|, h, futureLength);
    assert Future(values, w) == Slice(values, h, h + w.f);
    assert SliceBound(h, |values|) == s;
    assert SliceBound(h + w.f, |values|) == e;
  }

  /** Python's end bound of `values[h:h+f]` for h < 0 and f = min(len - h, F), once clamped. */
  function LateFutureEnd(len: nat, h: int, futureLength: int): (e: nat)
    ensures e <= len
  {
    if h + futureLength >= 0 then Min(len, h + futureLength) else Max(len + h + futureLength, 0)
  }

  /**
   * `query_futures` fails as soon as one of the ids has no future after
   * `curr`: its future window is empty, and the padding asserts that it is
   * two-dimensional.
   */
  lemma {:induction false} NoFutureFails<Id>(buffer: map<Id, Record>, curr: int, ids: seq<Id>,
                                           histLength: int, futureLength: int, padLength: int, k: nat)
    requires AllWellFormed(buffer)
    requires k < |ids| && ids[k] in buffer
    requires curr >= LastTime(buffer[ids[k]])
    ensures Futures(buffer, curr, ids, histLength, futureLength, padLength).Failure?
  {
    FutureEmpty(buffer[ids[k]], curr, histLength, futureLength, padLength);
    BlocksFail(buffer, curr, ids, histLength, futureLength, padLength, k);
  }

  lemma FutureEmpty(rec: Record, curr: int, histLength: int, futureLength: int, padLength: int)
    requires WellFormed(rec) && curr >= LastTime(rec)
    ensures FutureBlock(rec, curr, histLength, futureLength, padLength) == Failure(AssertionError)
  {
    Span(rec, curr);
  }

  lemma {:induction false} BlocksFail<Id>(buffer: map<Id, Record>, curr: int, ids: seq<Id>,
                                          histLength: int, futureLength: int, padLength: int, k: nat)
    requires AllWellFormed(buffer)
    requires k < |ids| && ids[k] in buffer
    requires FutureBlock(buffer[ids[k]], curr, histLength, futureLength, padLength).Failure?
    ensures FutureBlocks(buffer, curr, ids, histLength, futureLength, padLength).Failure?
  {
    if k > 0 && ids[0] in buffer {
      var head := FutureBlock(buffer[ids[0]], curr, histLength, futureLength, padLength);
      var rest := FutureBlocks(buffer, curr, ids[1..], histLength, futureLength, padLength);
      assert FutureBlocks(buffer, curr, ids, histLength, futureLength, padLength)
          == if head.Failure? then Failure(head.error) else Prepend(head.value, rest);
      if head.Success? {
        assert ids[1..][k - 1] == ids[k];
        BlocksFail(buffer, curr, ids[1..], histLength, futureLength, padLength, k - 1);
      }
    }
  }
}
