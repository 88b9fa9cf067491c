/**
 * `NeighbourAgentBuffer`: a store of every agent's trajectory, keyed by the
 * agent's id, that `add` extends one observation at a time and the two
 * queries cut windows out of around a query time.
 */
module NeighbourBuffer {
  import opened Lists
  import opened Interpolation
  import opened Records
  import opened Windows
  import opened Padding

  /**
   * `query_mode`. The constructor's assertion that the mode is one of these
   * three holds by construction here.
   */
  datatype QueryMode = FullFuture | Default | HistoryOnly

  /** `state_shape`: the queries read its second and third entries. */
  datatype StateShape = StateShape(batch: nat, steps: nat, features: nat)

  /** The blocks `query_neighbours` accepted and the indices it recorded. */
  datatype Selection = Selection(blocks: seq<Block>, indices: seq<int>)

  /** Every record in the buffer is well formed. */
  ghost predicate AllWellFormed<Id>(buffer: map<Id, Record>) {
    forall id :: id in buffer ==> WellFormed(buffer[id])
  }

  /** One id's part of `query_futures`: its future window, padded. */
  function FutureBlock(rec: Record, curr: int, histLength: int, futureLength: int, padLength: int): (r: Result<Block>)
    requires |rec.timesteps| > 0
    ensures r.Success? ==> 0 < |r.value| && padLength <= |r.value|
    ensures r.Failure? ==> r.error == AssertionError || r.error == ValueError
  {
    PadFut(Future(rec.values, WindowAt(rec, curr, histLength, futureLength)), padLength)
  }

  /** The padded future windows of `ids`, in order; the first failure wins. */
  function FutureBlocks<Id(==)>(buffer: map<Id, Record>, curr: int, ids: seq<Id>,
                                histLength: int, futureLength: int, padLength: int): (r: Result<seq<Block>>)
    requires AllWellFormed(buffer)
    ensures r.Success? ==> |r.value| == |ids| && forall k :: 0 <= k < |ids| ==> ids[k] in buffer
    ensures r.Failure? ==> r.error != NotImplementedError
  {
    if |ids| == 0 then Success([])
    else if ids[0] !in buffer then Failure(KeyError)
    else match FutureBlock(buffer[ids[0]], curr, histLength, futureLength, padLength)
      case Failure(e) => Failure(e)
      case Success(b) => Prepend(b, FutureBlocks(buffer, curr, ids[1..], histLength, futureLength, padLength))
  }

  function Prepend<T>(x: T, r: Result<seq<T>>): Result<seq<T>>
  {
    match r
    case Failure(e) => Failure(e)
    case Success(xs) => Success([x] + xs)
  }

  /** `query_futures`: the blocks, once numpy has stacked them. */
  function Futures<Id(==)>(buffer: map<Id, Record>, curr: int, ids: seq<Id>,
                           histLength: int, futureLength: int, padLength: int): (r: Result<seq<Block>>)
    requires AllWellFormed(buffer)
    ensures r.Success? ==> |r.value| == |ids| && Stackable(r.value)
  {
    match FutureBlocks(buffer, curr, ids, histLength, futureLength, padLength)
    case Failure(e) => Failure(e)
    case Success(blocks) => if Stackable(blocks) then Success(blocks) else Failure(ValueError)
  }

  /**
   * One candidate of `query_neighbours`: skipped (None) when the mode finds it
   * ineligible, its block otherwise. History-only mode wants at least one
   * step of history, full-future mode a full `future_length` of future, and
   * any other mode raises.
   */
  function Candidate(rec: Record, mode: QueryMode, curr: int, histLength: int, futureLength: int,
                     padLength: int): (r: Result<Option<Block>>)
    requires |rec.timesteps| > 0
    ensures mode == Default <==> r == Failure(NotImplementedError)
    ensures r.Success? && r.value.Some? ==> 0 < |r.value.value| && padLength <= |r.value.value|
  {
    var w := WindowAt(rec, curr, histLength, futureLength);
    match mode
    case HistoryOnly =>
      if HistT(rec, curr) <= 0 then Success(None)
      else (match PadHist(History(rec.values, w), padLength)
            case Failure(e) => Failure(e)
            case Success(h) => Success(Some(h)))
    case FullFuture =>
      if FutT(rec, curr) < futureLength then Success(None)
      else (match PadHist(History(rec.values, w), padLength)
            case Failure(e) => Failure(e)
            case Success(h) => Success(Some(h + Future(rec.values, w))))
    case Default => Failure(NotImplementedError)
  }

  /**
   * The candidates `query_neighbours` accepts from `pairs`, `accepted` of
   * them having been accepted before: it stops right after the one that
   * brings the count to `keep_top`. Skipped candidates do not reach that
   * test, so even a `keep_top` of zero or less accepts one.
   */
  function Select<Id(==)>(buffer: map<Id, Record>, pairs: seq<(Id, int)>, mode: QueryMode, curr: int,
                          histLength: int, futureLength: int, keepTop: int, padLength: int,
                          accepted: int): (r: Result<Selection>)
    requires AllWellFormed(buffer)
    ensures r.Success? ==> |r.value.indices| <= |r.value.blocks| <= |pairs|
  {
    if |pairs| == 0 then Success(Selection([], []))
    else
      var (id, ind) := pairs[0];
      if id !in buffer then Failure(KeyError)
      else match Candidate(buffer[id], mode, curr, histLength, futureLength, padLength)
        case Failure(e) => Failure(e)
        case Success(None) =>
          Select(buffer, pairs[1..], mode, curr, histLength, futureLength, keepTop, padLength, accepted)
        case Success(Some(b)) =>
          var first := Selection([b], if mode == HistoryOnly then [ind] else []);
          if accepted + 1 >= keepTop then Success(first)
          else Then(first, Select(buffer, pairs[1..], mode, curr, histLength, futureLength, keepTop,
                                  padLength, accepted + 1))
  }

  /** The selection `first` followed by the outcome `rest`. */
  function Then(first: Selection, rest: Result<Selection>): Result<Selection>
  {
    match rest
    case Failure(e) => Failure(e)
    case Success(s) => Success(Selection(first.blocks + s.blocks, first.indices + s.indices))
  }

  /** The zero block `query_neighbours` pads with. */
  function PadBlock(curr: int, shape: StateShape): (b: Block)
    ensures |b| == Clip(curr + 1, 0, shape.steps)
    ensures forall k :: 0 <= k < |b| ==> |b[k]| == shape.features && b[k] == ZeroRow(shape.features)
  {
    ZeroRows(Clip(curr + 1, 0, shape.steps), shape.features)
  }

  /**
   * `query_neighbours`: the accepted blocks, topped up with zero blocks to
   * `keep_top` of them, and the recorded indices.
   */
  function Neighbours<Id(==)>(buffer: map<Id, Record>, mode: QueryMode, shape: StateShape, curr: int,
                              ids: seq<Id>, inds: seq<int>, histLength: int, futureLength: int,
                              keepTop: int, padLength: int): (r: Result<(seq<Block>, seq<int>)>)
    requires AllWellFormed(buffer)
    ensures r.Success? ==> keepTop <= |r.value.0| && |r.value.1| <= |r.value.0|
  {
    match Select(buffer, Zip(ids, inds), mode, curr, histLength, futureLength, keepTop, padLength, 0)
    case Failure(e) => Failure(e)
    case Success(s) =>
      var padNum := keepTop - Min(|s.blocks|, keepTop);
      Success((s.blocks + Copies(padNum, PadBlock(curr, shape)), s.indices))
  }

  /**
   * The steps of `add` on one agent's record: the gap after its last
   * timestep is filled first, then the row at `t` is appended, failing as
   * `Appended` says.
   */
  method AppendRow(rec: Record, v: Row, t: int) returns (r: Result<Record>)
    requires |rec.values| == |rec.timesteps|
    ensures r == Appended(rec, v, t)
  {
    var values, timesteps := rec.values, rec.timesteps;
    if |timesteps| > 0 && t != timesteps[|timesteps| - 1] + 1 {
      var filled := FillGap(values[|values| - 1], v, timesteps[|timesteps| - 1], t);
      if filled.Failure? {
        return Failure(filled.error);
      }
      values, timesteps := values + filled.value.0, timesteps + filled.value.1;
      if t != timesteps[|timesteps| - 1] + 1 {
        return Failure(AssertionError);
      }
    }
    r := Success(Record(values + [v], timesteps + [t]));
  }

  /**
   * The gap filling of `add`: the rows `np.interp` gives each feature at the
   * timesteps strictly between `lastT` and `t`, paired with those timesteps.
   * `np.array([last, v])` refuses rows of different widths, and an empty
   * `np.arange(lastT, t + 1)` has no first element to index.
   */
  method FillGap(last: Row, v: Row, lastT: int, t: int) returns (r: Result<(Block, seq<int>)>)
    ensures |last| != |v| ==> r == Failure(ValueError)
    ensures |last| == |v| && |v| > 0 && t < lastT ==> r == Failure(IndexError)
    ensures |last| == |v| && |v| > 0 && lastT <= t ==> r == Success((GapRows(last, v, lastT, t), Range(lastT + 1, t)))
    ensures |last| == |v| == 0 ==> r == Success(([], []))
  {
    var idArr := Range(lastT, t + 1);
    if |last| != |v| {
      return Failure(ValueError);
    }
    var cols := InterpColumns(last, v, lastT, t, idArr);
    if cols.Failure? {
      return Failure(cols.error);
    }
    var steps := Interior(idArr);
    GapFromColumns(cols.value, steps, last, v, lastT, t);
    var res := Transpose(cols.value);
    // `zip(id_arr[1:-1], res)`: each filled row with its timestep.
    var rows, ts := Unzip(res, steps);
    if |v| > 0 {
      assert rows == res;
      assert ts == Range(lastT + 1, t);
    }
    r := Success((rows, ts));
  }

  /**
   * One column of interpolated values per feature, at the timesteps
   * strictly inside `idArr` = `np.arange(lastT, t + 1)`; indexing the first
   * element of an empty `idArr` raises.
   */
  method InterpColumns(last: Row, v: Row, lastT: int, t: int, idArr: seq<int>) returns (r: Result<seq<seq<real>>>)
    requires |last| == |v| && idArr == Range(lastT, t + 1)
    ensures |v| > 0 && t < lastT ==> r == Failure(IndexError)
    ensures |v| == 0 || lastT <= t ==>
      && r.Success? && |r.value| == |v|
      && (lastT < t || |Interior(idArr)| == 0)
      && forall c :: 0 <= c < |v| ==> r.value[c] == Interp(Interior(idArr), lastT, t, last[c], v[c])
  {
    var steps := Interior(idArr);
    assert lastT < t || |steps| == 0;
    var cols: seq<seq<real>> := [];
    var i := 0;
    while i < |v|
      invariant 0 <= i <= |v| && |cols| == i
      invariant i > 0 ==> lastT <= t
      invariant forall c :: 0 <= c < i ==> cols[c] == Interp(steps, lastT, t, last[c], v[c])
    {
      if |idArr| == 0 {
        return Failure(IndexError);
      }
      cols := cols + [Interp(steps, idArr[0], idArr[|idArr| - 1], last[i], v[i])];
      i := i + 1;
    }
    r := Success(cols);
  }

  /**
   * The loop `for t, v in zip(ts, rows)` appending to two lists: what it
   * appends are the first min(|rows|, |ts|) entries of each.
   */
  method Unzip(rows: Block, ts: seq<int>) returns (rows': Block, ts': seq<int>)
    ensures rows' == rows[..Min(|rows|, |ts|)] && ts' == ts[..Min(|rows|, |ts|)]
  {
    rows', ts' := [], [];
    var k := 0;
    while k < Min(|rows|, |ts|)
      invariant 0 <= k <= Min(|rows|, |ts|)
      invariant rows' == rows[..k] && ts' == ts[..k]
    {
      rows', ts' := rows' + [rows[k]], ts' + [ts[k]];
      k := k + 1;
    }
  }

  /** The per-feature columns of interpolated values, transposed, are the gap rows. */
  lemma GapFromColumns(cols: seq<seq<real>>, steps: seq<int>, last: Row, v: Row, lastT: int, t: int)
    requires |cols| == |v| == |last|
    requires steps == Interior(Range(lastT, t + 1)) && (lastT < t || |steps| == 0)
    requires forall c :: 0 <= c < |cols| ==> cols[c] == Interp(steps, lastT, t, last[c], v[c])
    ensures Rectangular(cols)
    ensures |v| > 0 ==> |Transpose(cols)| == |steps| && Transpose(cols) == GapRows(last, v, lastT, t)
  {
    if |v| > 0 {
      var res, gap := Transpose(cols), GapRows(last, v, lastT, t);
      assert |res| == |gap|;
      forall k | 0 <= k < |res|
        ensures res[k] == gap[k]
      {
        assert steps[k] == lastT + 1 + k;
      }
    }
  }

  class NeighbourAgentBuffer<Id(==)> {
    const stateShape: StateShape
    const histLength: int
    const futureLength: int
    const queryMode: QueryMode
    /** Each agent's record. */
    var buffer: map<Id, Record>

    ghost predicate Valid()
      reads this
    {
      AllWellFormed(buffer)
    }

    /** Python's defaults are a history and a future of 5 in full-future mode. */
    constructor (stateShape: StateShape, histLength: int, futureLength: int, queryMode: QueryMode)
      ensures Valid()
      ensures this.stateShape == stateShape && this.histLength == histLength
      ensures this.futureLength == futureLength && this.queryMode == queryMode
      ensures buffer == map[]
    {
      this.stateShape := stateShape;
      this.histLength := histLength;
      this.futureLength := futureLength;
      this.queryMode := queryMode;
      buffer := map[];
    }

    /**
     * `add`: records the row `v` observed at timestep `t` for agent `id`,
     * first filling any gap after the agent's last timestep by linear
     * interpolation. The outcome is `Appended` on the agent's record (the
     * empty one for a new agent); a failure changes nothing, and the other
     * agents' records never change.
     */
    method Add(id: Id, v: Row, t: int) returns (r: Result<()>)
      requires Valid()
      modifies this
      ensures Valid()
      ensures var rec := if id in old(buffer) then old(buffer)[id] else Empty;
        match Appended(rec, v, t)
        case Success(rec') => r == Success(()) && buffer == old(buffer)[id := rec']
        case Failure(e) => r == Failure(e) && buffer == old(buffer)
    {
      var rec := if id in buffer then buffer[id] else Empty;
      var appended := AppendRow(rec, v, t);
      if appended.Failure? {
        return Failure(appended.error);
      }
      buffer := buffer[id := appended.value];
      r := Success(());
      AppendedWellFormed(rec, v, t);
    }

    /**
     * `query_futures`: for each id in turn, the padded window of its
     * `min(fut_t, future_length)` steps after `curr_timestep`.
     */
    method QueryFutures(curr: int, ids: seq<Id>, padLength: int) returns (r: Result<seq<Block>>)
      requires Valid()
      ensures r == Futures(buffer, curr, ids, histLength, futureLength, padLength)
    {
      var blocks: seq<Block> := [];
      var k := 0;
      ghost var whole := FutureBlocks(buffer, curr, ids, histLength, futureLength, padLength);
      assert ids[k..] == ids;
      PrependAllNothing(whole);
      while k < |ids|
        invariant 0 <= k <= |ids|
        invariant whole == PrependAll(blocks, FutureBlocks(buffer, curr, ids[k..], histLength, futureLength, padLength))
      {
        if ids[k] !in buffer {
          return Failure(KeyError);
        }
        var rec := buffer[ids[k]];
        var histT, futT := HistT(rec, curr), FutT(rec, curr);
        var w := WindowOf(histT, futT, histLength, futureLength);
        var padded := PadFut(Future(rec.values, w), padLength);
        assert padded == FutureBlock(rec, curr, histLength, futureLength, padLength);
        if padded.Failure? {
          return Failure(padded.error);
        }
        assert ids[k..][1..] == ids[k + 1..];
        PrependAllStep(blocks, padded.value, FutureBlocks(buffer, curr, ids[k + 1..], histLength, futureLength, padLength));
        blocks := blocks + [padded.value];
        k := k + 1;
      }
      assert blocks + [] == blocks;
      if !Stackable(blocks) {
        return Failure(ValueError);
      }
      r := Success(blocks);
    }

    /**
     * `query_neighbours`: the blocks of the candidates the loop keeps,
     * topped up with zero blocks to `keep_top` of them, and the recorded
     * indices.
     */
    method QueryNeighbours(curr: int, ids: seq<Id>, inds: seq<int>, keepTop: int, padLength: int)
      returns (r: Result<(seq<Block>, seq<int>)>)
      requires Valid()
      ensures r == Neighbours(buffer, queryMode, stateShape, curr, ids, inds, histLength, futureLength,
                              keepTop, padLength)
    {
      var kept := Collect(curr, Zip(ids, inds), keepTop, padLength);
      if kept.Failure? {
        return Failure(kept.error);
      }
      var neighbours, bufInd := kept.value.blocks, kept.value.indices;
      var padNum := keepTop - Min(|neighbours|, keepTop);
      var padVal := ZeroRows(Clip(curr + 1, 0, stateShape.steps), stateShape.features);
      r := Success((neighbours + Copies(padNum, padVal), bufInd));
    }

    /**
     * One candidate of the loop of `query_neighbours`: the mode's
     * eligibility test (None when it says `continue`), then the candidate's
     * padded window.
     */
    method Consider(curr: int, rec: Record, padLength: int) returns (c: Result<Option<Block>>)
      requires WellFormed(rec)
      ensures c == Candidate(rec, queryMode, curr, histLength, futureLength, padLength)
    {
      var histT, futT := HistT(rec, curr), FutT(rec, curr);
      var w := WindowOf(histT, futT, histLength, futureLength);
      if queryMode == HistoryOnly {
        if histT <= 0 {
          return Success(None);
        }
        var val := PadHist(History(rec.values, w), padLength);
        if val.Failure? {
          return Failure(val.error);
        }
        c := Success(Some(val.value));
      } else if queryMode == FullFuture {
        if futT < futureLength {
          return Success(None);
        }
        var hist := PadHist(History(rec.values, w), padLength);
        var fut := Future(rec.values, w);
        if hist.Failure? {
          return Failure(hist.error);
        }
        c := Success(Some(hist.value + fut));
      } else {
        c := Failure(NotImplementedError);
      }
    }

    /**
     * The loop of `query_neighbours`: walks the (id, index) pairs in order
     * and keeps the eligible candidates' blocks until `keep_top` are kept.
     */
    method Collect(curr: int, pairs: seq<(Id, int)>, keepTop: int, padLength: int) returns (r: Result<Selection>)
      requires Valid()
      ensures r == Select(buffer, pairs, queryMode, curr, histLength, futureLength, keepTop, padLength, 0)
    {
      var neighbours: seq<Block> := [];
      var bufInd: seq<int> := [];
      var i := 0;
      var k := 0;
      ghost var whole := Select(buffer, pairs, queryMode, curr, histLength, futureLength, keepTop, padLength, 0);
      assert pairs[k..] == pairs;
      ThenNothing(whole);
      while k < |pairs|
        invariant 0 <= k <= |pairs| && i == |neighbours|
        invariant whole == Then(Selection(neighbours, bufInd),
                                Select(buffer, pairs[k..], queryMode, curr, histLength, futureLength,
                                       keepTop, padLength, i))
      {
        var (id, ind) := pairs[k];
        ghost var rest := Select(buffer, pairs[k + 1..], queryMode, curr, histLength, futureLength,
                                 keepTop, padLength, i + 1);
        ghost var here := Select(buffer, pairs[k..], queryMode, curr, histLength, futureLength,
                                 keepTop, padLength, i);
        assert pairs[k..][0] == (id, ind) && pairs[k..][1..] == pairs[k + 1..];
        if id !in buffer {
          return Failure(KeyError);
        }
        var cand := Consider(curr, buffer[id], padLength);
        if cand.Failure? {
          return Failure(cand.error);
        }
        if cand.value.None? {
          assert here == Select(buffer, pairs[k + 1..], queryMode, curr, histLength, futureLength,
                                keepTop, padLength, i);
          k := k + 1;
          continue;
        }
        ghost var sel := Selection(neighbours, bufInd);
        var accepted := Selection([cand.value.value], if queryMode == HistoryOnly then [ind] else []);
        neighbours, bufInd, i := neighbours + accepted.blocks, bufInd + accepted.indices, i + 1;
        assert here == if i >= keepTop then Success(accepted) else Then(accepted, rest);
        ThenStep(sel, accepted, rest);
        k := k + 1;
        if i >= keepTop {
          return Success(Selection(neighbours, bufInd));
        }
      }
      assert neighbours + [] == neighbours && bufInd + [] == bufInd;
      r := Success(Selection(neighbours, bufInd));
    }

    /** `clear`: forgets every agent. */
    method Clear()
      modifies this
      ensures Valid()
      ensures buffer == map[]
    {
      buffer := map[];
    }
  }

  /** The blocks `blocks` followed by the outcome `rest`. */
  function PrependAll<T>(blocks: seq<T>, rest: Result<seq<T>>): Result<seq<T>>
  {
    match rest
    case Failure(e) => Failure(e)
    case Success(xs) => Success(blocks + xs)
  }

  lemma PrependAllNothing<T>(rest: Result<seq<T>>)
    ensures PrependAll([], rest) == rest
  {
    if rest.Success? {
      assert [] + rest.value == rest.value;
    }
  }

  lemma PrependAllStep<T>(blocks: seq<T>, x: T, rest: Result<seq<T>>)
    ensures PrependAll(blocks, Prepend(x, rest)) == PrependAll(blocks + [x], rest)
  {
    if rest.Success? {
      assert blocks + ([x] + rest.value) == blocks + [x] + rest.value;
    }
  }

  lemma ThenNothing(rest: Result<Selection>)
    ensures Then(Selection([], []), rest) == rest
  {
    if rest.Success? {
      assert [] + rest.value.blocks == rest.value.blocks;
      assert [] + rest.value.indices == rest.value.indices;
    }
  }

  lemma ThenStep(sel: Selection, first: Selection, rest: Result<Selection>)
    ensures Then(sel, Then(first, rest))
         == Then(Selection(sel.blocks + first.blocks, sel.indices + first.indices), rest)
    ensures Then(sel, Success(first)) == Success(Selection(sel.blocks + first.blocks, sel.indices + first.indices))
  {
    if rest.Success? {
      assert sel.blocks + (first.blocks + rest.value.blocks) == sel.blocks + first.blocks + rest.value.blocks;
      assert sel.indices + (first.indices + rest.value.indices) == sel.indices + first.indices + rest.value.indices;
    }
  }
}
