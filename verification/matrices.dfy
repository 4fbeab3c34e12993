/** Count matrices (rows of per-bucket counts) and the two whole-matrix
    operations of scripts/prep_data.py: `SliceMerge` and the column filter
    of `main`. */
module Matrices {
  import opened Results
  import opened Arith

  /** A numpy 2-d array of non-negative counts: `rows`, each `width` long. */
  datatype Matrix = Matrix(rows: seq<seq<nat>>, width: nat) {
    predicate Valid() {
      forall r | 0 <= r < |rows| :: |rows[r]| == width
    }
  }

  // ---------------------------------------------------------------------
  // Bitwise OR of counts

  /** `a | b` on non-negative integers. */
  function BitOr(a: nat, b: nat): nat
    decreases a + b
  {
    if a == 0 then b
    else if b == 0 then a
    else 2 * BitOr(a / 2, b / 2) + (if a % 2 == 1 || b % 2 == 1 then 1 else 0)
  }

  /** OR keeps every bit of both operands, so it dominates both and is
      non-zero exactly when one of them is. */
  lemma {:induction false} BitOrBounds(a: nat, b: nat)
    ensures a <= BitOr(a, b) && b <= BitOr(a, b)
    ensures BitOr(a, b) <= a + b
    ensures BitOr(a, b) > 0 <==> a > 0 || b > 0
    decreases a + b
  {
    if a != 0 && b != 0 {
      BitOrBounds(a / 2, b / 2);
    }
  }

  lemma {:induction false} BitOrIdempotent(a: nat)
    ensures BitOr(a, a) == a
    decreases a
  {
    if a != 0 {
      BitOrIdempotent(a / 2);
    }
  }

  // ---------------------------------------------------------------------
  // SliceMerge

  /** `len(range(b, n, k))`: the number of rows of `X[b::k]`. */
  function StrideLen(n: nat, b: nat, k: nat): nat
    requires k > 0
  {
    if b >= n then 0 else (n - b - 1) / k + 1
  }

  /** Starting later never yields more rows. */
  lemma StrideLenAntitone(n: nat, b1: nat, b2: nat, k: nat)
    requires k > 0 && b1 <= b2
    ensures StrideLen(n, b2, k) <= StrideLen(n, b1, k)
  {
    if b2 < n {
      DivMonotone(n - b2 - 1, n - b1 - 1, k);
    }
  }

  /** The shortest stride, the one starting at `k - 1`, has `n // k` rows. */
  lemma StrideLenLast(n: nat, k: nat)
    requires k > 0
    ensures StrideLen(n, k - 1, k) == n / k
  {
    if k - 1 < n {
      var q, r := (n - k) / k, (n - k) % k;
      assert n == (q + 1) * k + r;
      DivModUnique(n, k, q + 1, r);
    } else {
      DivModUnique(n, k, 0, n);
    }
  }

  /** Reference: the OR of column `c` over the `j` rows from `start`,
      folded from zero in row order. */
  function GroupOr(rows: seq<seq<nat>>, start: nat, j: nat, c: nat): nat
    requires start + j <= |rows|
    requires forall r | start <= r < start + j :: c < |rows[r]|
  {
    if j == 0 then 0 else BitOr(GroupOr(rows, start, j - 1, c), rows[start + j - 1][c])
  }

  /** A merged cell dominates every cell of its group and is non-zero exactly
      when some cell of the group is. */
  lemma {:induction false} GroupOrBounds(rows: seq<seq<nat>>, start: nat, j: nat, c: nat)
    requires start + j <= |rows|
    requires forall r | start <= r < start + j :: c < |rows[r]|
    ensures forall r | start <= r < start + j :: rows[r][c] <= GroupOr(rows, start, j, c)
    ensures GroupOr(rows, start, j, c) > 0 <==> exists r | start <= r < start + j :: rows[r][c] > 0
  {
    if j > 0 {
      GroupOrBounds(rows, start, j - 1, c);
      BitOrBounds(GroupOr(rows, start, j - 1, c), rows[start + j - 1][c]);
    }
  }

  /** Reference result of `SliceMerge(X, k)` for `k > 0`: `n // k` rows,
      row `i` being the OR of rows `i*k .. i*k + k - 1`. */
  function Merged(x: Matrix, k: nat): (m: Matrix)
    requires x.Valid() && k > 0
    ensures m.Valid() && m.width == x.width
    ensures |m.rows| == |x.rows| / k
  {
    var h := |x.rows| / k;
    AllRowGroupsInBounds(|x.rows|, k);
    Matrix(seq(h, i requires 0 <= i < h =>
                 seq(x.width, c requires 0 <= c < x.width => GroupOr(x.rows, i * k, k, c))),
           x.width)
  }

  lemma RowGroupInBounds(n: nat, k: nat, i: nat)
    requires k > 0 && i < n / k
    ensures i * k + k <= n
  {
    assert (i + 1) * k <= (n / k) * k;
  }

  lemma AllRowGroupsInBounds(n: nat, k: nat)
    requires k > 0
    ensures forall i | 0 <= i < n / k :: i * k + k <= n
  {
    forall i | 0 <= i < n / k
      ensures i * k + k <= n
    {
      RowGroupInBounds(n, k, i);
    }
  }

  /** Merging single rows changes nothing. */
  lemma MergedByOne(x: Matrix)
    requires x.Valid()
    ensures Merged(x, 1) == x
  {
    var m := Merged(x, 1);
    assert |m.rows| == |x.rows|;
    forall i | 0 <= i < |x.rows|
      ensures m.rows[i] == x.rows[i]
    {
      forall c | 0 <= c < x.width
        ensures m.rows[i][c] == x.rows[i][c]
      {
        assert m.rows[i][c] == GroupOr(x.rows, i, 1, c);
      }
    }
  }

  /** Each merged cell is non-zero iff some cell it merges is, and is at
      least as large as each of them. */
  lemma MergedCells(x: Matrix, k: nat, i: nat, c: nat)
    requires x.Valid() && k > 0 && i < |x.rows| / k && c < x.width
    ensures i * k + k <= |x.rows|
    ensures forall r | i * k <= r < i * k + k :: x.rows[r][c] <= Merged(x, k).rows[i][c]
    ensures Merged(x, k).rows[i][c] > 0 <==> exists r | i * k <= r < i * k + k :: x.rows[r][c] > 0
  {
    RowGroupInBounds(|x.rows|, k, i);
    GroupOrBounds(x.rows, i * k, k, c);
  }

  /** `tmpx | X[b::k][:min_col]`: row `i` of `tmp` ORed with row `i*k + b`. */
  function OrStride(tmp: seq<seq<nat>>, x: Matrix, k: nat, b: nat): (t: seq<seq<nat>>)
    requires x.Valid() && k > 0 && b < k
    requires |tmp| == |x.rows| / k && forall i | 0 <= i < |tmp| :: |tmp[i]| == x.width
    ensures |t| == |tmp| && forall i | 0 <= i < |t| :: |t[i]| == x.width
    ensures forall i, c | 0 <= i < |t| && 0 <= c < x.width ::
              i * k + b < |x.rows| && t[i][c] == BitOr(tmp[i][c], x.rows[i * k + b][c])
  {
    AllRowGroupsInBounds(|x.rows|, k);
    seq(|tmp|, i requires 0 <= i < |tmp| =>
          seq(x.width, c requires 0 <= c < x.width => BitOr(tmp[i][c], x.rows[i * k + b][c])))
  }

  /** After ORing the first `b` strided views, every cell holds the OR of
      the first `b` rows of its group. */
  ghost predicate MergedUpTo(x: Matrix, k: nat, b: nat, tmp: seq<seq<nat>>)
    requires x.Valid() && k > 0 && b <= k
  {
    AllRowGroupsInBounds(|x.rows|, k);
    && |tmp| == |x.rows| / k
    && (forall i | 0 <= i < |tmp| :: |tmp[i]| == x.width)
    && forall i, c | 0 <= i < |tmp| && 0 <= c < x.width :: tmp[i][c] == GroupOr(x.rows, i * k, b, c)
  }

  /** `SliceMerge(X, slice_block)`: the row count is the minimum length of
      the `k` strided views `X[b::k]`, and the views are ORed into a zero
      matrix one after another. A non-positive `slice_block` raises
      ValueError (an empty `min()` or a zero slice step). */
  method SliceMerge(x: Matrix, k: int) returns (r: Result<Matrix>)
    requires x.Valid()
    ensures k <= 0 <==> r == Raise(ValueError)
    ensures k > 0 ==> r == Ok(Merged(x, k))
  {
    if k <= 0 {
      return Raise(ValueError);
    }
    var n := |x.rows|;
    var minCol := StrideLen(n, 0, k);
    var b := 1;
    while b < k
      invariant 1 <= b <= k
      invariant minCol == StrideLen(n, b - 1, k)
    {
      StrideLenAntitone(n, b - 1, b, k);
      var len := StrideLen(n, b, k);
      if len < minCol {
        minCol := len;
      }
      b := b + 1;
    }
    StrideLenLast(n, k);
    var tmp: seq<seq<nat>> := seq(minCol, _ => seq(x.width, _ => 0));
    b := 0;
    while b < k
      invariant 0 <= b <= k
      invariant MergedUpTo(x, k, b, tmp)
    {
      tmp := OrStride(tmp, x, k, b);
      b := b + 1;
    }
    var merged := Merged(x, k);
    forall i | 0 <= i < |tmp|
      ensures tmp[i] == merged.rows[i]
    {
      assert forall c | 0 <= c < x.width :: tmp[i][c] == merged.rows[i][c];
    }
    assert |tmp| == |merged.rows|;
    assert tmp == merged.rows;
    assert Matrix(tmp, x.width) == merged;
    return Ok(Matrix(tmp, x.width));
  }

  // ---------------------------------------------------------------------
  // Column filter of main()

  /** Every row of every matrix is `w` entries long. */
  predicate Uniform(xl: seq<Matrix>, w: nat) {
    forall i, r | 0 <= i < |xl| && 0 <= r < |xl[i].rows| :: |xl[i].rows[r]| == w
  }

  /** `np.sum(X, axis=0)[c]`: the total of column `c` of one matrix. */
  function ColumnSum(rows: seq<seq<nat>>, c: nat): nat
    requires forall r | 0 <= r < |rows| :: c < |rows[r]|
  {
    if rows == [] then 0 else ColumnSum(rows[..|rows| - 1], c) + rows[|rows| - 1][c]
  }

  /** `all_sum[c]`: the total of column `c` over all matrices. */
  function ColumnTotal(xl: seq<Matrix>, w: nat, c: nat): nat
    requires Uniform(xl, w) && c < w
  {
    if xl == [] then 0 else ColumnTotal(xl[..|xl| - 1], w, c) + ColumnSum(xl[|xl| - 1].rows, c)
  }

  /** A sum of counts is positive iff one of the counts is. */
  lemma {:induction false} ColumnSumPositive(rows: seq<seq<nat>>, c: nat)
    requires forall r | 0 <= r < |rows| :: c < |rows[r]|
    ensures ColumnSum(rows, c) > 0 <==> exists r | 0 <= r < |rows| :: rows[r][c] > 0
  {
    if rows != [] {
      var init := rows[..|rows| - 1];
      ColumnSumPositive(init, c);
      assert forall r | 0 <= r < |init| :: init[r] == rows[r];
    }
  }

  lemma {:induction false} ColumnTotalPositive(xl: seq<Matrix>, w: nat, c: nat)
    requires Uniform(xl, w) && c < w
    ensures ColumnTotal(xl, w, c) > 0 <==>
            exists i, r | 0 <= i < |xl| && 0 <= r < |xl[i].rows| :: xl[i].rows[r][c] > 0
  {
    if xl != [] {
      var init := xl[..|xl| - 1];
      ColumnTotalPositive(init, w, c);
      ColumnSumPositive(xl[|xl| - 1].rows, c);
      assert forall i | 0 <= i < |init| :: init[i] == xl[i];
    }
  }

  /** The indices of the kept columns, in increasing order. */
  function KeptColumns(mask: seq<bool>): (cols: seq<nat>)
    ensures forall j | 0 <= j < |cols| :: cols[j] < |mask| && mask[cols[j]]
    ensures forall c | 0 <= c < |mask| && mask[c] :: c in cols
    ensures forall j1, j2 | 0 <= j1 < j2 < |cols| :: cols[j1] < cols[j2]
  {
    if mask == [] then []
    else
      var init := KeptColumns(mask[..|mask| - 1]);
      if mask[|mask| - 1] then init + [|mask| - 1] else init
  }

  /** `row[select_nz]`: the entries of the kept columns, in column order. */
  function SelectColumns(row: seq<nat>, cols: seq<nat>): (r: seq<nat>)
    requires forall j | 0 <= j < |cols| :: cols[j] < |row|
    ensures |r| == |cols|
    ensures forall j | 0 <= j < |cols| :: r[j] == row[cols[j]]
  {
    seq(|cols|, j requires 0 <= j < |cols| => row[cols[j]])
  }

  /** `X[:, select_nz]` for one matrix. */
  function Restrict(x: Matrix, cols: seq<nat>): (r: Matrix)
    requires x.Valid() && forall j | 0 <= j < |cols| :: cols[j] < x.width
    ensures r.Valid() && |r.rows| == |x.rows| && r.width == |cols|
    ensures forall row, j | 0 <= row < |x.rows| && 0 <= j < |cols| :: r.rows[row][j] == x.rows[row][cols[j]]
  {
    Matrix(seq(|x.rows|, row requires 0 <= row < |x.rows| => SelectColumns(x.rows[row], cols)), |cols|)
  }

  /** `all_sum > 0`: a column is kept iff some matrix has a positive entry in it. */
  function NonZeroMask(xl: seq<Matrix>, w: nat): (mask: seq<bool>)
    requires Uniform(xl, w)
    ensures |mask| == w
    ensures forall c | 0 <= c < w ::
              mask[c] <==> exists i, row | 0 <= i < |xl| && 0 <= row < |xl[i].rows| :: xl[i].rows[row][c] > 0
    ensures forall c | 0 <= c < w :: mask[c] <==> ColumnTotal(xl, w, c) > 0
  {
    var mask := seq(w, c requires 0 <= c < w => ColumnTotal(xl, w, c) > 0);
    forall c | 0 <= c < w
      ensures mask[c] <==> exists i, row | 0 <= i < |xl| && 0 <= row < |xl[i].rows| :: xl[i].rows[row][c] > 0
    {
      ColumnTotalPositive(xl, w, c);
    }
    mask
  }

  /** Matrices all `w` wide have rows all `w` long. */
  lemma UniformOfWidths(xl: seq<Matrix>, w: nat)
    requires forall i | 0 <= i < |xl| :: xl[i].Valid() && xl[i].width == w
    ensures Uniform(xl, w)
  {
    forall i, r | 0 <= i < |xl| && 0 <= r < |xl[i].rows|
      ensures |xl[i].rows[r]| == w
    {
      assert xl[i].Valid();
    }
  }

  /** The filtered data set of `main`: the mask `all_sum > 0` and every
      matrix restricted to the masked columns (`XL[i][:, select_nz]`).
      With no matrix `XL[0]` raises IndexError; a matrix whose width
      differs from the first one's fails the in-place sum with ValueError. */
  function FilterColumns(xl: seq<Matrix>): (r: Result<(seq<Matrix>, seq<bool>)>)
    requires forall i | 0 <= i < |xl| :: xl[i].Valid()
    ensures xl == [] ==> r == Raise(IndexError)
    ensures r.Ok? <==> xl != [] && forall i | 0 <= i < |xl| :: xl[i].width == xl[0].width
    ensures r.Ok? ==> Uniform(xl, xl[0].width)
    ensures r.Ok? ==> |r.value.0| == |xl| && |r.value.1| == xl[0].width
    ensures r.Ok? ==> forall c | 0 <= c < xl[0].width ::
              r.value.1[c] <==> exists i, row | 0 <= i < |xl| && 0 <= row < |xl[i].rows| :: xl[i].rows[row][c] > 0
    ensures r.Ok? ==> forall i | 0 <= i < |xl| ::
              && r.value.0[i].Valid()
              && |r.value.0[i].rows| == |xl[i].rows|
              && r.value.0[i].width == |KeptColumns(r.value.1)|
  {
    if xl == [] then Raise(IndexError)
    else if exists i | 0 <= i < |xl| :: xl[i].width != xl[0].width then Raise(ValueError)
    else
      var w := xl[0].width;
      UniformOfWidths(xl, w);
      var mask := NonZeroMask(xl, w);
      var cols := KeptColumns(mask);
      Ok((seq(|xl|, i requires 0 <= i < |xl| => Restrict(xl[i], cols)), mask))
  }

  /** Filtering keeps exactly the non-zero columns, in order: every entry of
      a filtered row is the original entry of a kept column. */
  lemma FilteredEntries(xl: seq<Matrix>, i: nat, row: nat, j: nat)
    requires forall k | 0 <= k < |xl| :: xl[k].Valid()
    requires FilterColumns(xl).Ok?
    requires i < |xl| && row < |xl[i].rows|
    requires j < FilterColumns(xl).value.0[i].width
    ensures var cols := KeptColumns(FilterColumns(xl).value.1);
            && j < |cols| && cols[j] < xl[0].width
            && FilterColumns(xl).value.0[i].rows[row][j] == xl[i].rows[row][cols[j]]
            && ColumnTotal(xl, xl[0].width, cols[j]) > 0
  {
    var w := xl[0].width;
    var mask := NonZeroMask(xl, w);
    var cols := KeptColumns(mask);
    assert FilterColumns(xl).value == (seq(|xl|, k requires 0 <= k < |xl| => Restrict(xl[k], cols)), mask);
    assert mask[cols[j]];
  }
}
