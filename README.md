# Trajectory utilities of a SAC agent for SMARTS, in Dafny

This project models the trajectory utilities in `utils.py` of an autonomous-driving
reinforcement-learning code base:

- `NeighbourAgentBuffer`: a store of every surrounding agent's trajectory, keyed by agent id.
  Each agent has a record of two parallel lists, feature rows and integer timesteps.
  - `add` appends one observation. If timesteps were skipped, it first fills the gap by linear interpolation.
  - `query_futures` cuts each agent's future window after a query time and zero-pads it.
  - `query_neighbours` picks the first `keep_top` eligible neighbours under the query mode, cuts their windows, and tops the list up with zero blocks.
  - `clear` empties the store.
- `pad_fut` and `pad_hist`: the two zero-padding helpers.
- `split_future`: turns an ego trajectory into one fixed-length future window per row, with a 0/1 validity mask.
- `RunningStat`: Welford's streaming element-wise mean and variance, over exact reals.

Modules, one per file:

- `Lists` (`lists.dfy`): Python list slicing with its exact bound rules, `np.arange`, zero rows, `np.transpose`, `zip`, the "rank-2 array" and "stackable" tests, and the exceptions.
- `Interpolation`: `np.interp` between two points, and the rows that fill a gap.
- `Records`: one agent's record, its well-formedness, and the outcome of `add` on it (`Appended`).
- `Windows`: `hist_t`, `fut_t` and the `n`/`l`/`f` slice arithmetic.
- `Padding`: `pad_fut` and `pad_hist`.
- `NeighbourBuffer`: the class, with a specification function for every query.
- `NeighbourProperties`: what the queries deliver.
- `SplitFutures`: `split_future`.
- `RunningStats`: the `RunningStat` class.

The code that changes state is modelled as such:

- `NeighbourAgentBuffer` is a class whose `buffer` field is a `map` from ids to records.
- `add` is a method that updates the `buffer` field. Its per-record steps are a method (`AppendRow`), and the loops inside them (the per-feature interpolation and the zip-and-append of the filled rows) are methods with loops.
- The loops of `query_futures`, `query_neighbours` and `split_future` are methods with loops.
- `RunningStat` is a class whose `push` updates the count, mean and squared-deviation fields.

Each method is proved against a specification function or a ghost invariant, and the lemmas state what those specifications mean.

Python raises in several places. Each raise is an outcome of type `Result`:

- `KeyError`: an unknown id.
- `IndexError`: `np.arange` gives an empty range and `add` indexes its first element inside the per-feature loop, so only when the rows have a feature.
- `ValueError`: numpy refuses to build an array from ragged rows. The model follows numpy 1.24 and later, which raises here. This applies to the pair of rows in `add`, the block in `pad_fut`/`pad_hist`, and the stacked results of `query_futures` and `split_future`.
- `AssertionError`: one of the assertions fails. In `pad_fut`/`pad_hist` this happens for an empty block, which numpy turns into shape `(0,)`.
- `NotImplementedError`: an unknown query mode.

Python's slicing is modelled exactly, negative bounds included (`Lists.Slice`). The queries are therefore defined for every query time. The lemmas that describe the windows state the conditions under which the windows mean what they are meant to mean, such as "the record starts no later than `curr`". Five lemmas show what happens outside those conditions:

- `LateNeighbourHistory`: a full-future neighbour whose record starts after the query time either fails the history assertion, or gets as its "history" leading rows that all come after the query time, because Python reads the negative slice bound from the end of the list.
- `LateNeighbourKept`: such a neighbour with more rows than that negative bound, and enough future steps, is kept. Its block is zero rows followed by the record's own leading rows, all of them after the query time. For example, timesteps 13..22 with `curr` 10, history and future lengths 5 and pad length 3 give the record's first 8 rows.
- `GoneNeighbourFails`: a history-only neighbour whose track ended before the history window fails the padding assertion.
- `LateFutureBlock`: in `query_futures`, a record that starts after `curr + 1` has a negative hist_t, so its future slice starts that many rows from the end of the list rather than at the row of `curr + 1`. Both slice bounds can be negative, and each is read from the end. For example, timesteps 13 and 14 with `curr` 10 and history and future lengths 5 give `values[-2:2]`, both rows. With pad length 3 the block is those two rows and one zero row, so the rows of 13 and 14 sit where 11 and 12 belong. When the slice is empty, the padding assertion fails.
- `StaleNeighbourHistory`: a history-only neighbour whose track ended after the start of the history window, but before the query time, is kept. Python clamps the slice end to the end of the list, so its block holds fewer rows than the window, and the padding places them at the end of the block, as though they ended at the query time.

## Model

| member | source | states |
|---|---|---|
| Lists.Slice | utils.py:165 | Python's `s[a:b]`: the plain slice when 0 <= a <= b <= len, empty when 0 <= b <= a or a >= len, never longer than `s` |
| Lists.Range | utils.py:137 | `np.arange(a, b)` has max(b-a, 0) elements a, a+1, … |
| Lists.Interior | utils.py:142 | `s[1:-1]` drops the first and the last element |
| Lists.Transpose | utils.py:144 | `np.transpose` of equally long columns: row r, column i is column i's entry r; no columns give no rows |
| Lists.Zip | utils.py:176 | `zip` pairs entries up to the shorter list |
| Lists.Clip | utils.py:212 | `np.clip(a, lo, hi)` lies in [lo, hi]: a itself inside the range, the nearer bound outside |
| Lists.ZeroRows | utils.py:225 | `[[0]*width]*count`: max(count, 0) rows, each a row of `width` zeros |
| Lists.Copies | utils.py:216 | `count * [x]`: max(count, 0) entries, each x |
| Interpolation.Interp | utils.py:142 | `np.interp` between two points: one value per query point, clamped outside [x0, x1], on the line inside |
| Interpolation.InterpAt | utils.py:142 | `np.interp` at one point: y0 at or before x0, y1 at or after x1, and always between y0 and y1 |
| Interpolation.GapRows | utils.py:137-148 | one filled row per missing timestep lastT+1 .. t-1, as wide as the new row |
| Interpolation.TrackIsLinear | utils.py:137-148 | the filled track from the last row to the new one lies on the straight line: row k is last + (next - last) * k / (t - lastT) |
| Records.FilledRowsAreLinear | utils.py:137-148 | the filled rows after the last stored row: row i is last + (v - last) * (i + 1) / (t - lastT), as wide as v |
| Records.ContiguousClosedForm | utils.py:152 | contiguous timesteps are the first timestep plus the index |
| Records.Appended | utils.py:125-154 | the outcome of `add` on one record: a failure only when the record is non-empty and t is not right after its last timestep; a success keeps every earlier entry, has equally many rows and timesteps, and ends with v at t |
| Records.AppendedWellFormed | utils.py:125-154 | a successful `add` keeps the record well formed (equal lengths, contiguous), ends it at t with the new row, and keeps every earlier entry |
| Records.AppendedFillsGap | utils.py:134-154 | after a gap, the new entries are the timesteps lastT+1 .. t with rows last + (v - last) * (k - lastT) / (t - lastT) for each timestep k, in increasing order |
| Records.StaleAppendFails | utils.py:135-152 | `add` at a timestep not after the last stored one always fails |
| Records.AppendedSucceeds | utils.py:125-154 | `add` succeeds exactly on an empty record, right after the last timestep, or after a gap when the new row is as wide as the last and has a feature |
| Windows.Span | utils.py:161 | hist_t + fut_t is the record's length, and timestep i is curr - hist_t + 1 + i |
| Windows.HistT | utils.py:161 | `hist_t` counts the timesteps from the first one to curr (max(hist_t, 0) of them), and is positive exactly when the record starts by curr |
| Windows.FutT | utils.py:161 | `fut_t` counts the timesteps after curr up to the last one (max(fut_t, 0) of them), and is positive exactly when the record ends after curr |
| Windows.WindowOf | utils.py:162-164 | n >= 0, l <= hist_length, l <= hist_t, f <= future_length and f <= fut_t; n + l = hist_t for every hist_t and hist_length; l = min(hist_t, hist_length) when both are non-negative |
| Windows.WindowAt | utils.py:161-164 | a record's window: n >= 0 and n + l = hist_t, l <= hist_length, and f at most both future_length and fut_t |
| Windows.History | utils.py:186 | `values[n:n+l]`: at most l rows for n, l >= 0, exactly the rows n .. n+l-1 when they are in range |
| Windows.Future | utils.py:165 | `values[n+l:n+l+f]`: at most f rows for n+l, f >= 0, exactly the rows n+l .. n+l+f-1 when they are in range |
| Windows.HistoryEndsAtCurr | utils.py:178-186 | for a record spanning curr, `values[n:n+l]` holds the last min(hist_t, hist_length) entries, those of timesteps curr-l+1 .. curr |
| Windows.FutureStartsAfterCurr | utils.py:161-165 | for a record starting by curr+1 and reaching curr, `values[n+l:n+l+f]` holds the entries of timesteps curr+1 .. curr+f |
| Windows.WorkedExample | utils.py:252-260 | timesteps 8 .. 16 at time 10 with lengths 10 and 30 give history 8, 9, 10 and future 11 .. 16 |
| Padding.PadFut | utils.py:222-226 | ValueError for a ragged block, AssertionError for an empty one; otherwise max(len, pad_length) rows: the block, then zero rows as wide as its rows |
| Padding.PadHist | utils.py:228-232 | ValueError for a ragged block, AssertionError for an empty one; otherwise max(len, pad_length) rows: zero rows, then the block |
| Padding.PadHistMirrorsPadFut | utils.py:222-232 | padding the history is reversing, padding as a future, and reversing back; both fail together, with the same exception |
| NeighbourBuffer.FillGap | utils.py:137-148 | the gap fill of `add`: ValueError for rows of different widths; IndexError for a timestep before the last when the rows have a feature; otherwise the interpolated gap rows paired with timesteps lastT+1 .. t-1 (nothing at all for rows without features) |
| NeighbourBuffer.InterpColumns | utils.py:140-143 | one interpolated column per feature at the interior timesteps; IndexError when the timestep range is empty (t before the last time) and the rows have a feature; no columns when they have none |
| NeighbourBuffer.Unzip | utils.py:146-148 | the zip loop appends the first min(len) entries of both lists |
| NeighbourBuffer.GapFromColumns | utils.py:141-144 | the transposed per-feature columns are exactly the gap rows |
| NeighbourBuffer.FutureBlock | utils.py:160-166 | one id's padded future window: at least pad_length rows and at least one; failing only with the padding's AssertionError or ValueError |
| NeighbourBuffer.FutureBlocks | utils.py:158-168 | the loop's blocks: on success one per id, every id in the buffer; never NotImplementedError |
| NeighbourBuffer.Futures | utils.py:156-170 | `query_futures`' result: on success one block per id, all of one shape (numpy stacks them) |
| NeighbourBuffer.Candidate | utils.py:177-204 | one candidate's outcome: NotImplementedError exactly in a mode other than the two implemented ones; a kept block has at least pad_length rows and at least one |
| NeighbourBuffer.Select | utils.py:173-207 | the loop's outcome: on success at most one kept block per pair, and at most one index per kept block |
| NeighbourBuffer.PadBlock | utils.py:212 | the zero block: clip(curr+1, 0, state_shape[1]) rows of state_shape[2] zeros |
| NeighbourBuffer.Neighbours | utils.py:209-220 | `query_neighbours`' result: on success at least keep_top blocks and no more indices than blocks |
| NeighbourBuffer.NeighbourAgentBuffer.constructor | utils.py:113-122 | stores the configuration, starts with an empty buffer |
| NeighbourBuffer.NeighbourAgentBuffer.Add | utils.py:125-154 | the outcome is `Appended` on the agent's record (the empty one for a new agent): on success only that agent's record changes; on failure the same exception and nothing changes; every record stays well formed |
| NeighbourBuffer.AppendRow | utils.py:134-154 | the steps of `add` on one record (fill the gap, check the last timestep, append) yield exactly `Appended`: the same record or the same exception |
| NeighbourBuffer.NeighbourAgentBuffer.Consider | utils.py:177-204 | one pass of the loop body on one record: the mode's test and the padded window, exactly `Candidate` |
| NeighbourBuffer.NeighbourAgentBuffer.QueryFutures | utils.py:156-170 | the result is `Futures`: the padded future block of each id in order, KeyError for an unknown id, the first padding failure, or ValueError when the blocks do not stack |
| NeighbourBuffer.NeighbourAgentBuffer.QueryNeighbours | utils.py:172-220 | the result is `Neighbours`: the kept blocks topped up with `keep_top - min(kept, keep_top)` zero blocks, and the recorded indices |
| NeighbourBuffer.NeighbourAgentBuffer.Collect | utils.py:173-207 | the loop's outcome is `Select` over the zipped (id, index) pairs |
| NeighbourBuffer.NeighbourAgentBuffer.Clear | utils.py:234-235 | empties the buffer |
| NeighbourProperties.EligiblePairs | utils.py:176-197 | the eligible pairs: every one is an input pair that is eligible, and every eligible input pair is among them |
| NeighbourProperties.CandidateOutcome | utils.py:183-204 | a candidate is skipped exactly when the mode finds it ineligible (hist_t <= 0, or fut_t < future_length); otherwise it fails only in the padding: ValueError when its history is ragged, AssertionError when it is empty |
| NeighbourProperties.SelectTakesFirstEligible | utils.py:176-207 | when every id is known and no eligible history is empty or ragged, the loop keeps the first max(keep_top, 1) eligible candidates in input order, with their indices in history-only mode and none in full-future mode |
| NeighbourProperties.KeepAndGoOn | utils.py:192-207 | a kept candidate that does not reach `keep_top` is followed by the selection from the rest |
| NeighbourProperties.DefaultModeRaises | utils.py:203-204 | any other mode raises NotImplementedError on the first known candidate |
| NeighbourProperties.SelectStopsAtCutoff | utils.py:176-207 | once the kept blocks reach max(keep_top - accepted, 1), the loop has broken out: appending any pairs after them, even unknown ids or failing candidates, leaves the outcome unchanged, so the premises of SelectTakesFirstEligible need only hold for the pairs up to the cut-off |
| NeighbourProperties.SelectBounds | utils.py:173-207 | the loop keeps at most max(keep_top, 1) candidates and at most one per pair; history-only mode records one index per kept block, full-future mode none |
| NeighbourProperties.NeighboursCount | utils.py:206-220 | for keep_top >= 1 exactly keep_top blocks, at most one otherwise; the kept blocks come first, then zero blocks of clip(curr+1, 0, state_shape[1]) rows of state_shape[2] zeros |
| NeighbourProperties.FullFutureBlock | utils.py:195-201 | a kept full-future block of a record spanning curr: zero rows, the last min(hist_t, hist_length) rows up to curr, then exactly future_length rows of timesteps curr+1 .. curr+future_length |
| NeighbourProperties.HistoryOnlyBlock | utils.py:183-194 | a kept history-only block of a record spanning curr: zero rows, then the last min(hist_t, hist_length) rows up to curr |
| NeighbourProperties.LateNeighbourHistory | utils.py:178-200 | for a record starting after curr, the history window is empty (hist_t = 0, and the padding fails) or holds leading rows, all after curr (hist_t < 0) |
| NeighbourProperties.GoneNeighbourFails | utils.py:183-190 | a history-only record ending before curr-hist_length+1 passes the hist_t test but fails the padding assertion |
| NeighbourProperties.LateNeighbourKept | utils.py:178-201 | a full-future record starting after curr with hist_t < 0 < len+hist_t and fut_t >= future_length is kept: the block is zero rows, then the record's first len+hist_t rows and the future rows right after them |
| NeighbourProperties.StaleNeighbourHistory | utils.py:178-194 | a history-only record ending after curr-hist_length+1 but before curr is kept: its history is the rows from timestep max(first, curr-hist_length+1) to its end, fewer than min(hist_t, hist_length), and they end the padded block |
| NeighbourProperties.FuturesPerId | utils.py:158-168 | a successful `query_futures` has one block per id, in order, each that id's padded future |
| NeighbourProperties.FutureBlockContents | utils.py:160-166 | one id's block: the rows of timesteps curr+1 .. curr+min(fut_t, future_length), then zero rows up to pad_length |
| NeighbourProperties.LateFutureBlock | utils.py:160-166 | one id's block when the record starts after curr+1 (hist_t < 0): the record's rows s .. e-1, where s = max(len+hist_t, 0) and e is Python's end bound hist_t+f read from the end when negative; the first of them is at timestep first+s > curr+1; then zero rows up to pad_length; AssertionError when s >= e |
| NeighbourProperties.NoFutureFails | utils.py:156-170 | `query_futures` fails when some id's record ends at or before curr |
| NeighbourProperties.FutureEmpty | utils.py:164-166 | a record ending at or before curr has an empty future, which the padding rejects |
| NeighbourProperties.BlocksFail | utils.py:157-168 | one failing id makes the whole loop fail |
| SplitFutures.Lines | utils.py:240-247 | one window per row |
| SplitFutures.Masks | utils.py:240-248 | one mask per row |
| SplitFutures.Ahead | utils.py:241 | `egos[i:i+future_steps]`: for 0 <= i <= R and future_steps >= 0, the rows i .. i+min(future_steps, R-i)-1 |
| SplitFutures.Line | utils.py:241-245 | window i: the rows ahead, then zero rows; exactly future_steps rows for 0 <= i <= R and future_steps >= 0 |
| SplitFutures.Mask | utils.py:242 | mask i: entries 0 or 1, with 1 exactly at the positions of the rows ahead; future_steps entries for 0 <= i <= R and future_steps >= 0 |
| SplitFutures.Split | utils.py:237-250 | on success as many windows as masks as rows, and the windows stack; the only failure is ValueError |
| SplitFutures.SplitFuture | utils.py:237-250 | the result is `Split`: the windows and masks, or ValueError when numpy cannot stack the windows |
| SplitFutures.SplitFutureWindows | utils.py:237-250 | for future_steps >= 0: R windows and masks of future_steps entries; row k of window i is row i+k while i+k < R and a zero row after; the mask is 1 exactly for those real rows, 0 otherwise |
| SplitFutures.RowWindow | utils.py:241-245 | one window, row by row, with its mask |
| SplitFutures.NegativeFutureSteps | utils.py:241-250 | a negative future_steps succeeds exactly when it is at most -R (all windows empty) |
| RunningStats.SqDevFromMoments | utils.py:15-24 | with n·m the sum, the squared deviation from m is the sum of squares less n·m² |
| RunningStats.PushElement | utils.py:22-24 | one element's Welford update keeps n·M the sum and S the sum of squares less n·M² |
| RunningStats.FirstPush | utils.py:19-21 | the first push makes the array itself the mean, with S zero |
| RunningStats.LaterPush | utils.py:22-24 | every later push keeps the running values tracking all pushed arrays |
| RunningStats.RunningStat.constructor | utils.py:11-14 | count 0, mean and S zero arrays of the shape |
| RunningStats.RunningStat.Push | utils.py:15-24 | AssertionError and no change for a wrongly shaped array; otherwise the array joins the pushed ones, the first push sets the mean, and the running values keep tracking |
| RunningStats.RunningStat.SumSqDevIsSqDev | utils.py:15-24 | S is each element's squared deviation from its mean |
| RunningStats.RunningStat.N | utils.py:25-27 | the number of arrays pushed |
| RunningStats.RunningStat.Mean | utils.py:28-30 | n times the mean is the element-wise sum of everything pushed; zeros before any push |
| RunningStats.RunningStat.Var | utils.py:31-33 | for n > 1 the squared deviation from the mean over n - 1; the square of the mean otherwise |
| RunningStats.RunningStat.Shape | utils.py:37-39 | the shape whose size is the mean's length |

## Left out

- `RunningStat.std`, `ZFilter` and `Identity`: they need square roots, an epsilon and float clipping, and have nothing to verify beyond that.
- `test_r`, `test_df` and the map-processing functions: they print, plot, or call the simulator libraries. `test_df`'s numbers are stated as `Windows.WorkedExample`.
- Floating point: rows are exact reals, and the `float32` conversion at the end of `query_futures` is not modelled. `RunningStat` is the exact-arithmetic idealisation of its numpy floats.
- Array shapes: `RunningStat` holds every array flattened, with its shape as a list of dimensions. `split_future`'s two-dimensional input is a list of rows of one given width.
- `NeighbourBuffer.NeighbourAgentBuffer.Add`: Python first stores an empty record for a new agent and appends the filled rows directly to the stored lists. The model builds the new record locally and stores it once. The two coincide because appending to an empty record cannot fail, and no failure can occur after the first append.
- numpy before 1.24: the model follows numpy 1.24 and later, where building an array from ragged rows raises ValueError. Older numpy builds an object array instead. There, `add` would raise IndexError at `fp.shape[1]` for rows of different widths (`Records.Appended`, `NeighbourBuffer.FillGap`). `pad_fut`/`pad_hist` would fail their assertion for a ragged block (`Padding.PadFut`, `Padding.PadHist`). `split_future` would return an object array for windows of different lengths (`SplitFutures.Split`). That behaviour is not modelled. `query_futures` passes `dtype=np.float32`, so it raises ValueError for ragged blocks under every numpy version.
- `NeighbourBuffer.NeighbourAgentBuffer.constructor`: the assertion that the mode is one of three strings holds by typing, because the mode is a datatype. The `state_shape` argument is a triple of naturals, because the queries read only its second and third entries. Default argument values are not modelled, so every call states them: the constructor's `hist_length=5`, `future_length=5` and `query_mode='full_future'`; `query_futures`' `pad_length=10`; `query_neighbours`' `keep_top=5` and `pad_length=10`; and `split_future`'s `future_steps=10`.
- Agent ids are an arbitrary type with equality. The integer timesteps are unbounded, with no overflow.
- `RunningStats.PushElement`: it states Welford's update through the moments form (n·M is the sum, S is the sum of squares less n·M²). It does not state directly that S grows by exactly (x - M)(x - M') at each step.
