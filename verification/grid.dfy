/**
 The sample body as numpy holds it: a flat, row-major buffer of
 `nspec * nchan` elements, reshaped to one row per spectrum and one column
 per channel, and the column slice `data[:, start:stop]` taken from it.
 */
module SampleGrid {

  /**
   `a * b` on naturals, by repeated addition. Index arithmetic is written with
   it so that its proofs stay linear; `MulIsProduct` ties it to `*`.
   */
  function Mul(a: nat, b: nat): nat {
    if a == 0 then 0 else b + Mul(a - 1, b)
  }

  lemma {:induction false} MulIsProduct(a: nat, b: nat)
    ensures Mul(a, b) == a * b
  {
    if a > 0 {
      MulIsProduct(a - 1, b);
      assert a * b == b + (a - 1) * b;
    }
  }

  /** Every row of `m` has `ncols` elements. */
  ghost predicate IsGrid<T>(m: seq<seq<T>>, ncols: nat) {
    forall i :: 0 <= i < |m| ==> |m[i]| == ncols
  }

  /** The row-major layout of a matrix: its rows one after another. */
  function Flatten<T>(m: seq<seq<T>>): seq<T> {
    if |m| == 0 then [] else m[0] + Flatten(m[1..])
  }

  lemma {:induction false} FlattenLength<T>(m: seq<seq<T>>, ncols: nat)
    requires IsGrid(m, ncols)
    ensures |Flatten(m)| == Mul(|m|, ncols)
  {
    if |m| > 0 {
      FlattenLength(m[1..], ncols);
    }
  }

  /** Element `(row, col)` of a matrix sits at flat index `row * ncols + col` of its layout. */
  lemma {:induction false} FlattenIndex<T>(m: seq<seq<T>>, ncols: nat, row: nat, col: nat)
    requires IsGrid(m, ncols) && row < |m| && col < ncols
    ensures Mul(row, ncols) + col < |Flatten(m)|
    ensures Flatten(m)[Mul(row, ncols) + col] == m[row][col]
  {
    FlattenLength(m, ncols);
    FlattenLength(m[1..], ncols);
    if row > 0 {
      FlattenIndex(m[1..], ncols, row - 1, col);
    }
  }

  /** `np.reshape(nrows, ncols)` of a flat buffer holding exactly `nrows * ncols` elements. */
  function Reshape<T>(flat: seq<T>, nrows: nat, ncols: nat): (m: seq<seq<T>>)
    requires |flat| == Mul(nrows, ncols)
    ensures |m| == nrows && IsGrid(m, ncols)
    ensures Flatten(m) == flat
    decreases nrows
  {
    if nrows == 0 then []
    else
      var m := [flat[..ncols]] + Reshape(flat[ncols..], nrows - 1, ncols);
      assert m[1..] == Reshape(flat[ncols..], nrows - 1, ncols);
      assert flat == flat[..ncols] + flat[ncols..];
      m
  }

  /** Reshaping the layout of a matrix gives the matrix back. */
  lemma {:induction false} ReshapeFlatten<T>(m: seq<seq<T>>, ncols: nat)
    requires IsGrid(m, ncols)
    ensures |Flatten(m)| == Mul(|m|, ncols)
    ensures Reshape(Flatten(m), |m|, ncols) == m
  {
    FlattenLength(m, ncols);
    if |m| > 0 {
      ReshapeFlatten(m[1..], ncols);
      var flat := Flatten(m);
      assert flat[..ncols] == m[0];
      assert flat[ncols..] == Flatten(m[1..]);
    }
  }

  /** Element `(row, col)` of the reshaped buffer is flat element `row * ncols + col`. */
  lemma ReshapeIndex<T>(flat: seq<T>, nrows: nat, ncols: nat, row: nat, col: nat)
    requires |flat| == Mul(nrows, ncols) && row < nrows && col < ncols
    ensures Mul(row, ncols) + col < |flat|
    ensures Reshape(flat, nrows, ncols)[row][col] == flat[Mul(row, ncols) + col]
  {
    FlattenIndex(Reshape(flat, nrows, ncols), ncols, row, col);
  }

  function MinNat(a: nat, b: nat): nat {
    if a < b then a else b
  }

  /**
   The number of columns numpy's `[:, start:stop]` keeps of `ncols` columns:
   both ends are clamped to `ncols` and a reversed range is empty.
   */
  function SliceWidth(ncols: nat, start: nat, stop: nat): (w: nat)
    ensures start <= stop <= ncols ==> w == stop - start
    ensures start <= ncols && start <= stop ==> w == MinNat(stop, ncols) - start
    ensures w <= ncols
    ensures w > 0 ==> start + w <= ncols
    ensures w == 0 <==> stop <= start || ncols <= start
  {
    var s, e := MinNat(start, ncols), MinNat(stop, ncols);
    if e > s then e - s else 0
  }

  /** numpy's `m[:, start:stop]`: every row keeps the columns `start` up to `stop`, clamped to the row. */
  function SliceColumns<T>(m: seq<seq<T>>, ncols: nat, start: nat, stop: nat): (r: seq<seq<T>>)
    requires IsGrid(m, ncols)
    ensures |r| == |m| && IsGrid(r, SliceWidth(ncols, start, stop))
    ensures forall i, j :: 0 <= i < |r| && 0 <= j < |r[i]| ==> start + j < ncols && r[i][j] == m[i][start + j]
  {
    var w := SliceWidth(ncols, start, stop);
    var s := if w == 0 then 0 else start;
    seq(|m|, i requires 0 <= i < |m| => m[i][s..s + w])
  }

  /** Taking every column keeps the matrix. */
  lemma SliceAllColumns<T>(m: seq<seq<T>>, ncols: nat)
    requires IsGrid(m, ncols)
    ensures SliceColumns(m, ncols, 0, ncols) == m
  {
    var r := SliceColumns(m, ncols, 0, ncols);
    forall i | 0 <= i < |m|
      ensures r[i] == m[i]
    {
    }
  }

  /**
   In row-major layouts, element `(row, col)` of a column slice starting at
   column `start` is element `(row, start + col)` of the sliced matrix.
   */
  lemma SliceFlatIndex<T>(m: seq<seq<T>>, ncols: nat, start: nat, stop: nat, row: nat, col: nat)
    requires IsGrid(m, ncols) && row < |m| && col < SliceWidth(ncols, start, stop)
    ensures
      var w, cut := SliceWidth(ncols, start, stop), SliceColumns(m, ncols, start, stop);
      && Mul(row, w) + col < |Flatten(cut)|
      && Mul(row, ncols) + (start + col) < |Flatten(m)|
      && Flatten(cut)[Mul(row, w) + col] == Flatten(m)[Mul(row, ncols) + (start + col)]
  {
    var w, cut := SliceWidth(ncols, start, stop), SliceColumns(m, ncols, start, stop);
    FlattenIndex(cut, w, row, col);
    FlattenIndex(m, ncols, row, start + col);
  }
}
