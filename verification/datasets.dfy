/** The dataset views of scripts/prep_data.py — `WindowedDataSet`,
    `BinaryDataSet`, `MizumashiDataSet` and `CombinedDataSet` — as one
    datatype with `Len` (`__len__`) and `GetExample` (`get_example`). */
module DataSets {
  import opened Results
  import opened Arith
  import opened Matrices

  /** What `get_example` returns: a block of rows and its label. */
  datatype Example = Example(x: seq<seq<nat>>, cls: int)

  datatype DataSet =
      /** `WindowedDataSet(X, label, time_window_height, time_window_skip)` */
    | Windowed(x: Matrix, cls: int, wh: int, ws: int)
      /** `BinaryDataSet(dataset)` */
    | Binary(ds: DataSet)
      /** `MizumashiDataSet(org, factor)`, with `ds_len` and `mizumashi_len`
          as computed by its constructor */
    | Mizumashi(org: DataSet, dsLen: nat, mizumashiLen: int)
      /** `CombinedDataSet(datasetL)`, with `lenL` as computed by its constructor */
    | Combined(dsL: seq<DataSet>, lenL: seq<nat>)

  function Sum(xs: seq<nat>): nat {
    if xs == [] then 0 else Sum(xs[..|xs| - 1]) + xs[|xs| - 1]
  }

  /** The total length of the components before component `li`. */
  function Prefix(lenL: seq<nat>, li: nat): nat
    requires li <= |lenL|
  {
    Sum(lenL[..li])
  }

  lemma PrefixStep(lenL: seq<nat>, li: nat)
    requires li < |lenL|
    ensures Prefix(lenL, li + 1) == Prefix(lenL, li) + lenL[li]
  {
    assert lenL[..li + 1][..li] == lenL[..li];
  }

  lemma {:induction false} PrefixMonotone(lenL: seq<nat>, a: nat, b: nat)
    requires a <= b <= |lenL|
    ensures Prefix(lenL, a) + (if a < b then lenL[a] else 0) <= Prefix(lenL, b)
    decreases b - a
  {
    if a < b {
      PrefixStep(lenL, a);
      if a + 1 < b {
        PrefixMonotone(lenL, a + 1, b);
      }
    }
  }

  /** `len(ds)`: Python raises ValueError when `__len__` is negative and
      ZeroDivisionError for a window skip of zero. */
  function Len(ds: DataSet): (r: Result<nat>)
    ensures r.Raise? ==> r.error == ZeroDivisionError || r.error == ValueError
    ensures ds.Combined? ==> r.Ok?
  {
    match ds
    case Windowed(x, _, wh, ws) =>
      if ws == 0 then Raise(ZeroDivisionError)
      else
        var l := FloorDiv(|x.rows| - wh, ws);
        if l < 0 then Raise(ValueError) else Ok(l)
    case Binary(d) => Len(d)
    case Mizumashi(_, _, ml) => if ml < 0 then Raise(ValueError) else Ok(ml)
    case Combined(_, lenL) => Ok(Sum(lenL))
  }

  /** A Python slice index: negative counts from the end, then clamped. */
  function ClampIndex(i: int, n: nat): (j: nat)
    ensures j <= n
  {
    if i < 0 then (if i + n < 0 then 0 else i + n) else if i > n then n else i
  }

  /** `s[lo:hi]` with Python's slice semantics. */
  function PySlice<T>(s: seq<T>, lo: int, hi: int): seq<T> {
    var a := ClampIndex(lo, |s|);
    var b := ClampIndex(hi, |s|);
    if a < b then s[a..b] else []
  }

  /** `(X > 0).astype(np.float32)`: every entry becomes 1 if positive, else 0. */
  function Binarize(x: seq<seq<nat>>): (r: seq<seq<nat>>)
    ensures |r| == |x|
    ensures forall a | 0 <= a < |x| :: |r[a]| == |x[a]|
    ensures forall a, b | 0 <= a < |x| && 0 <= b < |x[a]| :: r[a][b] <= 1 && (r[a][b] == 1 <==> x[a][b] > 0)
  {
    seq(|x|, a requires 0 <= a < |x| =>
          seq(|x[a]|, b requires 0 <= b < |x[a]| => if x[a][b] > 0 then 1 else 0))
  }

  /** The loop of `CombinedDataSet.get_example`, started at component `li`
      with `i` already reduced by the lengths before it: the component the
      index falls into and the offset inside it. */
  function LocateFrom(lenL: seq<nat>, li: nat, i: int): (r: Result<(nat, nat)>)
    requires li <= |lenL|
    ensures r.Raise? ==> r.error == ValueError
    ensures r.Ok? <==> 0 <= i < Sum(lenL) - Prefix(lenL, li)
    ensures r.Ok? ==>
              var (lj, off) := r.value;
              && li <= lj < |lenL|
              && Prefix(lenL, lj) - Prefix(lenL, li) <= i
              && off == i - (Prefix(lenL, lj) - Prefix(lenL, li)) < lenL[lj]
    decreases |lenL| - li
  {
    PrefixMonotone(lenL, li, |lenL|);
    assert lenL[..|lenL|] == lenL;
    if li == |lenL| then Raise(ValueError)
    else if i < 0 then Raise(ValueError)
    else if i < lenL[li] then Ok((li, i))
    else
      PrefixStep(lenL, li);
      LocateFrom(lenL, li + 1, i - lenL[li])
  }

  /** Where index `i` of a combined dataset resolves: component `li` at
      offset `i - Prefix(li)`, for exactly the indices `0 <= i < sum`. */
  function Locate(lenL: seq<nat>, i: int): (r: Result<(nat, nat)>)
    ensures r.Ok? <==> 0 <= i < Sum(lenL)
    ensures r.Raise? ==> r.error == ValueError
    ensures r.Ok? ==>
              var (li, off) := r.value;
              li < |lenL| && Prefix(lenL, li) <= i < Prefix(lenL, li) + lenL[li] && off == i - Prefix(lenL, li)
  {
    assert lenL[..0] == [];
    LocateFrom(lenL, 0, i)
  }

  /** The component intervals do not overlap: an index inside component
      `lj`'s interval resolves to `lj`. */
  lemma LocateUnique(lenL: seq<nat>, lj: nat, i: int)
    requires lj < |lenL| && Prefix(lenL, lj) <= i < Prefix(lenL, lj) + lenL[lj]
    ensures Locate(lenL, i) == Ok((lj, i - Prefix(lenL, lj)))
  {
    PrefixMonotone(lenL, lj, |lenL|);
    assert lenL[..|lenL|] == lenL;
    var (li, off) := Locate(lenL, i).value;
    if li < lj {
      PrefixMonotone(lenL, li, lj);
    } else if lj < li {
      PrefixMonotone(lenL, lj, li);
    }
  }

  /** `ds.get_example(i)`. */
  function GetExample(ds: DataSet, i: int): (r: Result<Example>)
    ensures r.Raise? ==> r.error == ZeroDivisionError || r.error == ValueError || r.error == IndexError
    ensures ds.Windowed? ==> r.Ok? && r.value.cls == ds.cls
    decreases ds
  {
    match ds
    case Windowed(x, cls, wh, ws) =>
      Ok(Example(PySlice(x.rows, ws * i, ws * i + wh), cls))
    case Binary(d) =>
      var e :- GetExample(d, i);
      Ok(Example(Binarize(e.x), e.cls))
    case Mizumashi(org, dsLen, _) =>
      if dsLen == 0 then Raise(ZeroDivisionError) else GetExample(org, i % dsLen)
    case Combined(dsL, lenL) =>
      match Locate(lenL, i)
      case Raise(err) => Raise(err)
      case Ok((li, off)) => if li < |dsL| then GetExample(dsL[li], off) else Raise(IndexError)
  }

  /** `[len(ds) for ds in datasetL]`, raising what the first failing `len` raises. */
  function Lens(dsL: seq<DataSet>): (r: Result<seq<nat>>)
    ensures r.Ok? <==> forall k | 0 <= k < |dsL| :: Len(dsL[k]).Ok?
    ensures r.Raise? ==> r.error == ZeroDivisionError || r.error == ValueError
    ensures r.Ok? ==> |r.value| == |dsL| && forall k | 0 <= k < |dsL| :: r.value[k] == Len(dsL[k]).value
  {
    if dsL == [] then Ok([])
    else
      var l :- Len(dsL[0]);
      var rest :- Lens(dsL[1..]);
      assert forall k | 1 <= k < |dsL| :: dsL[k] == dsL[1..][k - 1];
      Ok([l] + rest)
  }

  /** The constructor `CombinedDataSet(datasetL)`. */
  function MakeCombined(dsL: seq<DataSet>): (r: Result<DataSet>)
    ensures r.Ok? <==> forall k | 0 <= k < |dsL| :: Len(dsL[k]).Ok?
    ensures r.Ok? ==> r.value.Combined? && r.value.dsL == dsL && |r.value.lenL| == |dsL|
    ensures r.Raise? ==> r.error == ZeroDivisionError || r.error == ValueError
    ensures r.Ok? ==> forall k | 0 <= k < |dsL| :: Len(dsL[k]) == Ok(r.value.lenL[k])
  {
    var lenL :- Lens(dsL);
    Ok(Combined(dsL, lenL))
  }

  /** The constructor `MizumashiDataSet(org_dataset, mizumashi_factor)` for
      an integer factor. */
  function MakeMizumashi(org: DataSet, factor: int): (r: Result<DataSet>)
    ensures r.Ok? <==> Len(org).Ok?
    ensures r.Raise? ==> r.error == Len(org).error
    ensures r.Ok? && factor >= 0 ==> Len(r.value) == Ok(Len(org).value * factor)
    ensures r.Ok? && Len(org).value > 0 && factor < 0 ==> Len(r.value) == Raise(ValueError)
  {
    var n :- Len(org);
    Ok(Mizumashi(org, n, n * factor))
  }

  /** A window dataset has `(n - wh) // ws` examples; example `i` is the
      full `wh`-row block starting at row `ws * i`, which ends strictly
      before the last row, with the dataset's cls. */
  lemma WindowedExamples(x: Matrix, cls: int, wh: int, ws: int, i: int)
    requires ws > 0 && wh >= 0
    requires Len(Windowed(x, cls, wh, ws)).Ok? && 0 <= i < Len(Windowed(x, cls, wh, ws)).value
    ensures Len(Windowed(x, cls, wh, ws)).value == (|x.rows| - wh) / ws
    ensures ws * i + wh < |x.rows|
    ensures GetExample(Windowed(x, cls, wh, ws), i) == Ok(Example(x.rows[ws * i..ws * i + wh], cls))
  {
    var n := |x.rows|;
    var l := (n - wh) / ws;
    assert l * ws <= n - wh;
    assert ws * i <= ws * (l - 1) by {
      assert i <= l - 1;
    }
    assert ws * (l - 1) == ws * l - ws;
    assert 0 <= ws * i;
    assert ClampIndex(ws * i, n) == ws * i;
    assert ClampIndex(ws * i + wh, n) == ws * i + wh;
    assert PySlice(x.rows, ws * i, ws * i + wh) == x.rows[ws * i..ws * i + wh];
    assert GetExample(Windowed(x, cls, wh, ws), i) == Ok(Example(PySlice(x.rows, ws * i, ws * i + wh), cls));
  }

  /** The window count is non-negative exactly when the matrix has at least
      `wh` rows (for a positive skip). */
  lemma WindowedLen(x: Matrix, cls: int, wh: int, ws: int)
    requires ws > 0
    ensures Len(Windowed(x, cls, wh, ws)).Ok? <==> |x.rows| >= wh
  {
  }

  /** Binarizing keeps length, shape and cls and maps each entry to 1
      iff it is positive. */
  lemma BinaryExamples(d: DataSet, i: int)
    ensures Len(Binary(d)) == Len(d)
    ensures GetExample(Binary(d), i).Ok? <==> GetExample(d, i).Ok?
    ensures GetExample(d, i).Ok? ==>
              var e := GetExample(d, i).value;
              var b := GetExample(Binary(d), i).value;
              && b.cls == e.cls && |b.x| == |e.x|
              && forall r, c | 0 <= r < |e.x| && 0 <= c < |e.x[r]| ::
                   c < |b.x[r]| && b.x[r][c] == (if e.x[r][c] > 0 then 1 else 0)
  {
  }

  /** An oversampled dataset has `len * factor` examples, example `i` being
      example `i mod len` of the original. */
  lemma MizumashiExamples(org: DataSet, factor: int, i: int)
    requires Len(org).Ok? && Len(org).value > 0 && factor >= 0
    ensures MakeMizumashi(org, factor).Ok?
    ensures Len(MakeMizumashi(org, factor).value) == Ok(Len(org).value * factor)
    ensures GetExample(MakeMizumashi(org, factor).value, i) == GetExample(org, i % Len(org).value)
  {
  }

  /** A combined dataset's length is the sum of the component lengths taken
      at construction; index `i` in range is example `i - Prefix(li)` of the
      component `li` whose interval holds it, and any other index raises
      ValueError. */
  lemma CombinedExamples(dsL: seq<DataSet>, i: int)
    requires MakeCombined(dsL).Ok?
    ensures var c := MakeCombined(dsL).value;
            && c.lenL == Lens(dsL).value
            && Len(c) == Ok(Sum(c.lenL))
            && (!(0 <= i < Sum(c.lenL)) ==> GetExample(c, i) == Raise(ValueError))
            && (0 <= i < Sum(c.lenL) ==>
                  exists li | 0 <= li < |dsL| ::
                    && Prefix(c.lenL, li) <= i < Prefix(c.lenL, li) + Len(dsL[li]).value
                    && GetExample(c, i) == GetExample(dsL[li], i - Prefix(c.lenL, li)))
  {
    var c := MakeCombined(dsL).value;
    assert c == Combined(dsL, c.lenL);
    if 0 <= i < Sum(c.lenL) {
      CombinedHolder(dsL, c.lenL, i);
    } else {
      CombinedOutOfRange(dsL, c.lenL, i);
    }
  }

  /** Some component's interval holds an in-range index. */
  lemma CombinedHolder(dsL: seq<DataSet>, lenL: seq<nat>, i: int)
    requires |lenL| == |dsL| && forall k | 0 <= k < |dsL| :: Len(dsL[k]) == Ok(lenL[k])
    requires 0 <= i < Sum(lenL)
    ensures exists li | 0 <= li < |dsL| ::
              && Prefix(lenL, li) <= i < Prefix(lenL, li) + Len(dsL[li]).value
              && GetExample(Combined(dsL, lenL), i) == GetExample(dsL[li], i - Prefix(lenL, li))
  {
    var li := CombinedInRange(dsL, lenL, i);
  }

  /** An index outside the combined length raises ValueError. */
  lemma CombinedOutOfRange(dsL: seq<DataSet>, lenL: seq<nat>, i: int)
    requires !(0 <= i < Sum(lenL))
    ensures GetExample(Combined(dsL, lenL), i) == Raise(ValueError)
  {
    assert Locate(lenL, i) == Raise(ValueError);
  }

  /** An index in range resolves to the component whose interval holds it. */
  lemma CombinedInRange(dsL: seq<DataSet>, lenL: seq<nat>, i: int) returns (li: nat)
    requires |lenL| == |dsL| && forall k | 0 <= k < |dsL| :: Len(dsL[k]) == Ok(lenL[k])
    requires 0 <= i < Sum(lenL)
    ensures li < |dsL| && Prefix(lenL, li) <= i < Prefix(lenL, li) + Len(dsL[li]).value
    ensures GetExample(Combined(dsL, lenL), i) == GetExample(dsL[li], i - Prefix(lenL, li))
  {
    var loc := Locate(lenL, i).value;
    li := loc.0;
  }

  // ---------------------------------------------------------------------
  // Well-formed datasets and the labels they carry

  /** The cached lengths agree with the components, as the constructors
      leave them. */
  predicate WellFormed(ds: DataSet)
    decreases ds
  {
    match ds
    case Windowed(_, _, _, _) => true
    case Binary(d) => WellFormed(d)
    case Mizumashi(org, n, ml) => WellFormed(org) && Len(org) == Ok(n) && (n == 0 ==> ml == 0)
    case Combined(dsL, lenL) =>
      |dsL| == |lenL| && forall k | 0 <= k < |dsL| :: WellFormed(dsL[k]) && Len(dsL[k]) == Ok(lenL[k])
  }

  lemma MakeCombinedWellFormed(dsL: seq<DataSet>)
    requires forall k | 0 <= k < |dsL| :: WellFormed(dsL[k])
    requires MakeCombined(dsL).Ok?
    ensures WellFormed(MakeCombined(dsL).value)
  {
  }

  lemma MakeMizumashiWellFormed(org: DataSet, factor: int)
    requires WellFormed(org) && MakeMizumashi(org, factor).Ok?
    ensures WellFormed(MakeMizumashi(org, factor).value)
  {
  }

  /** Every index below the length of a well-formed dataset has an example. */
  lemma {:induction false} InRangeExamples(ds: DataSet, i: int)
    requires WellFormed(ds) && Len(ds).Ok? && 0 <= i < Len(ds).value
    ensures GetExample(ds, i).Ok?
    decreases ds
  {
    match ds
    case Windowed(_, _, _, _) =>
    case Binary(d) =>
      InRangeExamples(d, i);
    case Mizumashi(org, n, _) =>
      InRangeExamples(org, i % n);
    case Combined(dsL, lenL) =>
      var (li, off) := Locate(lenL, i).value;
      InRangeExamples(dsL[li], off);
  }

  /** The labels of the window datasets a dataset is assembled from. */
  function Labels(ds: DataSet): set<int>
    decreases ds
  {
    match ds
    case Windowed(_, cls, _, _) => {cls}
    case Binary(d) => Labels(d)
    case Mizumashi(org, _, _) => Labels(org)
    case Combined(dsL, _) => set k, l | 0 <= k < |dsL| && l in Labels(dsL[k]) :: l
  }

  /** An example's label is the label of the window dataset it was cut from. */
  lemma {:induction false} ExampleLabel(ds: DataSet, i: int)
    requires GetExample(ds, i).Ok?
    ensures GetExample(ds, i).value.cls in Labels(ds)
    decreases ds
  {
    match ds
    case Windowed(_, _, _, _) =>
    case Binary(d) =>
      ExampleLabel(d, i);
    case Mizumashi(org, n, _) =>
      ExampleLabel(org, i % n);
    case Combined(dsL, lenL) =>
      var (li, off) := Locate(lenL, i).value;
      ExampleLabel(dsL[li], off);
  }
}
