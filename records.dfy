/**
 * One agent's entry in the trajectory buffer: two parallel lists, the
 * feature rows and the integer timesteps they were observed at, and what
 * `add` does to it.
 */
module Records {
  import opened Lists
  import opened Interpolation

  datatype Record = Record(values: seq<Row>, timesteps: seq<int>)

  /** Each timestep is the one before it plus one. */
  predicate Contiguous(ts: seq<int>) {
    forall i :: 0 < i < |ts| ==> ts[i] == ts[i - 1] + 1
  }

  /**
   * What every record in the buffer satisfies once `add` has returned: the
   * two lists are equally long, non-empty, and the timesteps are contiguous.
   */
  predicate WellFormed(rec: Record) {
    && |rec.values| == |rec.timesteps|
    && |rec.timesteps| > 0
    && Contiguous(rec.timesteps)
  }

  /** The record a new agent starts from. */
  const Empty := Record([], [])

  function LastTime(rec: Record): int
    requires |rec.timesteps| > 0
  {
    rec.timesteps[|rec.timesteps| - 1]
  }

  /** Contiguous timesteps are the first one plus the index. */
  lemma {:induction false} ContiguousClosedForm(ts: seq<int>)
    requires Contiguous(ts)
    ensures forall i :: 0 <= i < |ts| ==> ts[i] == ts[0] + i
  {
    if |ts| > 1 {
      var init := ts[..|ts| - 1];
      assert Contiguous(init);
      ContiguousClosedForm(init);
      forall i | 0 <= i < |ts|
        ensures ts[i] == ts[0] + i
      {
        if i < |init| {
          assert ts[i] == init[i];
        } else {
          assert ts[i - 1] == init[i - 1];
        }
      }
    }
  }

  /**
   * The outcome of `add(values=v, timesteps=t)` on the record `rec` (the
   * empty one for a new agent):
   * - an empty record, or t right after the last timestep: v is appended;
   * - otherwise the gap is filled by interpolation first, which fails with
   *   ValueError when v and the last row differ in width (numpy 1.24 and
   *   later refuses the ragged pair) and with IndexError when the rows have
   *   a feature and t is before the last timestep (`np.arange` is empty);
   *   if nothing was filled in (t is at or before the last timestep, or the
   *   rows have no features) the contiguity assertion fails.
   */
  function Appended(rec: Record, v: Row, t: int): (r: Result<Record>)
    requires |rec.values| == |rec.timesteps|
    ensures r.Failure? ==> |rec.timesteps| > 0 && t != LastTime(rec) + 1
    ensures r.Success? ==> && |r.value.values| == |r.value.timesteps| > |rec.values|
                           && r.value.values[..|rec.values|] == rec.values
                           && r.value.timesteps[..|rec.timesteps|] == rec.timesteps
                           && LastTime(r.value) == t
                           && r.value.values[|r.value.values| - 1] == v
  {
    if |rec.timesteps| == 0 || t == LastTime(rec) + 1 then
      Success(Record(rec.values + [v], rec.timesteps + [t]))
    else
      var lastT, last := LastTime(rec), rec.values[|rec.values| - 1];
      if |last| != |v| then Failure(ValueError)
      else if |v| > 0 && t < lastT then Failure(IndexError)
      else if |v| == 0 || t <= lastT then Failure(AssertionError)
      else Success(Record(rec.values + GapRows(last, v, lastT, t) + [v],
                          rec.timesteps + Range(lastT + 1, t) + [t]))
  }

  /**
   * A successful `add` keeps the record well formed, ends it at t with the
   * new row, and keeps every entry it had before.
   */
  lemma AppendedWellFormed(rec: Record, v: Row, t: int)
    requires rec == Empty || WellFormed(rec)
    requires Appended(rec, v, t).Success?
    ensures var rec' := Appended(rec, v, t).value;
      && WellFormed(rec')
      && LastTime(rec') == t
      && rec'.values[|rec'.values| - 1] == v
      && |rec'.values| > |rec.values|
      && rec'.values[..|rec.values|] == rec.values
      && rec'.timesteps[..|rec.timesteps|] == rec.timesteps
  {
    var rec' := Appended(rec, v, t).value;
    var ts, ts' := rec.timesteps, rec'.timesteps;
    assert ts'[..|ts|] == ts;
    forall i | 0 < i < |ts'|
      ensures ts'[i] == ts'[i - 1] + 1
    {
      if i < |ts| {
        assert ts'[i] == ts[i] && ts'[i - 1] == ts[i - 1];
      }
    }
  }

  /**
   * A gap of missing timesteps lastT+1 .. t-1 is filled, in increasing order,
   * with the rows last + (v - last) * (k - lastT) / (t - lastT) for each
   * missing timestep k, before v itself is appended at t; the entries already
   * there stay as they were.
   */
  lemma AppendedFillsGap(rec: Record, v: Row, t: int)
    requires WellFormed(rec) && t > LastTime(rec) + 1
    requires Appended(rec, v, t).Success?
    ensures var rec', last, lastT := Appended(rec, v, t).value, rec.values[|rec.values| - 1], LastTime(rec);
      && |rec'.values| == |rec'.timesteps| == |rec.values| + (t - lastT)
      && rec'.values[..|rec.values|] == rec.values
      && rec'.timesteps[..|rec.values|] == rec.timesteps
      && rec'.timesteps[|rec.values|..] == Range(lastT + 1, t + 1)
      && (forall i, j :: 0 <= i < t - lastT && 0 <= j < |v| ==>
            |rec'.values[|rec.values|..][i]| == |v|
            && rec'.values[|rec.values|..][i][j]
               == Lerp(last[j], v[j], i + 1, t - lastT))
  {
    var rec', last, lastT := Appended(rec, v, t).value, rec.values[|rec.values| - 1], LastTime(rec);
    GapLayout(rec, v, t);
    FilledRowsAreLinear(last, v, lastT, t);
    var filled := Track(last, v, lastT, t)[1..];
    assert rec'.values[|rec.values|..] == filled;
  }

  /** The rows after the row before the gap, from `TrackIsLinear` shifted by one. */
  lemma FilledRowsAreLinear(last: Row, v: Row, lastT: int, t: int)
    requires |last| == |v| && lastT < t
    ensures var filled := Track(last, v, lastT, t)[1..];
      forall i, j :: 0 <= i < t - lastT && 0 <= j < |v| ==>
        |filled[i]| == |v|
        && filled[i][j] == Lerp(last[j], v[j], i + 1, t - lastT)
  {
    var track := Track(last, v, lastT, t);
    TrackIsLinear(last, v, lastT, t);
    forall i, j | 0 <= i < t - lastT && 0 <= j < |v|
      ensures |track[1..][i]| == |v|
      ensures track[1..][i][j] == Lerp(last[j], v[j], i + 1, t - lastT)
    {
      assert track[1..][i] == track[i + 1];
    }
  }

  lemma GapLayout(rec: Record, v: Row, t: int)
    requires WellFormed(rec) && t > LastTime(rec) + 1
    requires Appended(rec, v, t).Success?
    ensures var rec', last, lastT := Appended(rec, v, t).value, rec.values[|rec.values| - 1], LastTime(rec);
      && |last| == |v|
      && |rec'.values| == |rec'.timesteps| == |rec.values| + (t - lastT)
      && rec'.values[..|rec.values|] == rec.values
      && rec'.timesteps[..|rec.values|] == rec.timesteps
      && rec'.values[|rec.values|..] == Track(last, v, lastT, t)[1..]
      && rec'.timesteps[|rec.values|..] == Range(lastT + 1, t + 1)
  {
    var rec', lastT := Appended(rec, v, t).value, LastTime(rec);
    assert rec'.timesteps[|rec.values|..] == Range(lastT + 1, t + 1);
  }

  /** `add` at a timestep that is not after the last one always fails. */
  lemma StaleAppendFails(rec: Record, v: Row, t: int)
    requires WellFormed(rec) && t <= LastTime(rec)
    ensures Appended(rec, v, t).Failure?
  {
  }

  /**
   * Exactly when `add` succeeds: on an empty record, right after the last
   * timestep, or after a gap when the new row is as wide as the last one and
   * has at least one feature.
   */
  lemma AppendedSucceeds(rec: Record, v: Row, t: int)
    requires |rec.values| == |rec.timesteps|
    ensures Appended(rec, v, t).Success? <==>
      || |rec.timesteps| == 0
      || t == LastTime(rec) + 1
      || (t > LastTime(rec) + 1 && |rec.values[|rec.values| - 1]| == |v| > 0)
  {
  }
}
