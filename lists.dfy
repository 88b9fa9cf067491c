/**
 * The small part of Python and numpy that the trajectory utilities lean on:
 * list slicing with Python's bound rules, `np.arange`, zero rows, the
 * "is a rank-2 array" test, `np.transpose` of a list of columns, and the
 * exceptions the utilities can raise.
 */
module Lists {

  /** One feature vector (a row of a time-by-feature array), over exact reals. */
  type Row = seq<real>

  /** A list of rows: a time-by-feature block. */
  type Block = seq<Row>

  /** The Python exceptions the modelled code can raise. */
  datatype Exception =
    | KeyError             // a dictionary lookup of an absent key
    | IndexError           // indexing an empty numpy array
    | ValueError           // numpy (1.24 or later) refusing to build an array from ragged rows
    | AssertionError       // a failed `assert`
    | NotImplementedError  // an unimplemented query mode

  datatype Result<+T> = Success(value: T) | Failure(error: Exception)

  datatype Option<+T> = None | Some(value: T)

  function Min(a: int, b: int): int { if a <= b then a else b }

  function Max(a: int, b: int): int { if a >= b then a else b }

  /** `np.clip(a, lo, hi)` for lo <= hi. */
  function Clip(a: int, lo: int, hi: int): (r: int)
    requires lo <= hi
    ensures lo <= r <= hi
    ensures lo <= a <= hi ==> r == a
    ensures a < lo ==> r == lo
    ensures hi < a ==> r == hi
  {
    Min(Max(a, lo), hi)
  }

  /** How Python reads one bound `i` of a slice of a list of length `len`. */
  function SliceBound(i: int, len: nat): (r: nat)
    ensures r <= len
    ensures 0 <= i <= len ==> r == i
    ensures i < 0 && 0 <= i + len ==> r == i + len
  {
    if i < 0 then (if i + len < 0 then 0 else i + len)
    else if i > len then len else i
  }

  /**
   * Python's `s[a:b]`: a negative bound counts from the end, a bound out of
   * range is clamped, and an empty range gives the empty list.
   */
  function Slice<T>(s: seq<T>, a: int, b: int): (r: seq<T>)
    ensures |r| <= |s|
    ensures 0 <= a <= b <= |s| ==> r == s[a..b]
    ensures 0 <= b <= a ==> r == []
    ensures |s| <= a ==> r == []
  {
    var i, j := SliceBound(a, |s|), SliceBound(b, |s|);
    if i < j then s[i..j] else []
  }

  /** `np.arange(a, b)`: the integers a, a+1, ..., b-1. */
  function Range(a: int, b: int): (r: seq<int>)
    ensures |r| == Max(b - a, 0)
    ensures forall k :: 0 <= k < |r| ==> r[k] == a + k
  {
    seq(Max(b - a, 0), k => a + k)
  }

  /** Python's `s[1:-1]`: everything but the first and the last element. */
  function Interior<T>(s: seq<T>): (r: seq<T>)
    ensures |r| == Max(|s| - 2, 0)
    ensures forall k :: 0 <= k < |r| ==> r[k] == s[k + 1]
  {
    if |s| < 2 then [] else s[1..|s| - 1]
  }

  /** `[0]*width`: a row of zeros. */
  function ZeroRow(width: nat): (r: Row)
    ensures |r| == width
    ensures forall j :: 0 <= j < width ==> r[j] == 0.0
  {
    seq(width, _ => 0.0)
  }

  /** `[[0]*width]*count`, equivalently `np.zeros((count, width))`. */
  function ZeroRows(count: int, width: nat): (r: Block)
    ensures |r| == Max(count, 0)
    ensures forall k :: 0 <= k < |r| ==> r[k] == ZeroRow(width)
  {
    seq(Max(count, 0), _ => ZeroRow(width))
  }

  /** `count * [x]`: the list holding `count` copies of x. */
  function Copies<T>(count: int, x: T): (r: seq<T>)
    ensures |r| == Max(count, 0)
    ensures forall k :: 0 <= k < |r| ==> r[k] == x
  {
    seq(Max(count, 0), _ => x)
  }

  /** Every row (or, for a list of columns, every column) is as long as the first one. */
  predicate Rectangular(b: Block) {
    forall k :: 0 <= k < |b| ==> |b[k]| == |b[0]|
  }

  /**
   * `len(np.array(b).shape) == 2`: numpy builds a two-dimensional array from
   * a list of rows exactly when the list is non-empty and not ragged. An
   * empty list becomes shape `(0,)`; a ragged one is refused with ValueError
   * (numpy 1.24 and later) before any shape exists.
   */
  predicate Rank2(b: Block) {
    |b| > 0 && Rectangular(b)
  }

  /**
   * `np.array(blocks)` can build a regular three-dimensional array (rather
   * than refusing a ragged list): every block has as many rows as the first,
   * and every row is as wide as the first.
   */
  predicate Stackable(blocks: seq<Block>) {
    && (forall a :: 0 <= a < |blocks| ==> |blocks[a]| == |blocks[0]|)
    && (forall a, r :: 0 <= a < |blocks| && 0 <= r < |blocks[a]| ==> |blocks[a][r]| == |blocks[0][0]|)
  }

  /**
   * `np.transpose` of a list of equally long columns: the rows. An empty list
   * of columns transposes to an empty array, with no rows at all.
   */
  function Transpose(cols: seq<seq<real>>): (rows: Block)
    requires Rectangular(cols)
    ensures |cols| == 0 ==> rows == []
    ensures |cols| > 0 ==> |rows| == |cols[0]|
    ensures forall r :: 0 <= r < |rows| ==> |rows[r]| == |cols|
    ensures forall r, i :: 0 <= r < |rows| && 0 <= i < |cols| ==> rows[r][i] == cols[i][r]
  {
    if |cols| == 0 then []
    else seq(|cols[0]|, r requires 0 <= r < |cols[0]| =>
           seq(|cols|, i requires 0 <= i < |cols| => cols[i][r]))
  }

  /** Python's `zip`: pairs up to the shorter of the two lists. */
  function Zip<A, B>(xs: seq<A>, ys: seq<B>): (r: seq<(A, B)>)
    ensures |r| == Min(|xs|, |ys|)
    ensures forall k :: 0 <= k < |r| ==> r[k] == (xs[k], ys[k])
  {
    seq(Min(|xs|, |ys|), k requires 0 <= k < Min(|xs|, |ys|) => (xs[k], ys[k]))
  }

  function Reverse<T>(s: seq<T>): (r: seq<T>)
    ensures |r| == |s|
    ensures forall k :: 0 <= k < |s| ==> r[k] == s[|s| - 1 - k]
  {
    seq(|s|, k requires 0 <= k < |s| => s[|s| - 1 - k])
  }
}
