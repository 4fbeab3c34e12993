/** `prep_windowed_datasets` of scripts/prep_data.py: route each named
    dataset to test, train or nowhere, build window datasets over its
    matrix, balance the two train classes by oversampling, and assemble the
    train and test sets. */
module PrepWindowed {
  import opened Results
  import opened Matrices
  import opened DataSets
  import opened Arith

  /** `s.endswith(suffix)` */
  predicate EndsWith(s: string, suffix: string) {
    |suffix| <= |s| && s[|s| - |suffix|..] == suffix
  }

  /** `any(s.endswith(dsname) for s in test_dataset_names)` */
  predicate IsTest(name: string, testNames: seq<string>) {
    exists j | 0 <= j < |testNames| :: EndsWith(testNames[j], name)
  }

  /** `not train_dataset_names or (dsname in train_dataset_names)`; `None`
      and `[]` are both falsy, so both are the empty sequence here. */
  predicate IsTrain(name: string, trainNames: seq<string>) {
    trainNames == [] || name in trainNames
  }

  /** The four lists a dataset can be appended to, or none. */
  datatype Destination = TestPositive | TestNegative | TrainPositive | TrainNegative | Ignored

  /** Where one (name, label) pair goes: test wins over train, label 0 is
      the negative class and every other label the positive one. `cls` is
      the label after its cast to `int32`. */
  function Route(name: string, cls: int, testNames: seq<string>, trainNames: seq<string>): (d: Destination)
    ensures d in {TestPositive, TestNegative} <==> IsTest(name, testNames)
    ensures d in {TrainPositive, TrainNegative} <==> !IsTest(name, testNames) && IsTrain(name, trainNames)
    ensures d in {TestNegative, TrainNegative} <==> d != Ignored && cls == 0
  {
    if IsTest(name, testNames) then
      (if cls == 0 then TestNegative else TestPositive)
    else if IsTrain(name, trainNames) then
      (if cls == 0 then TrainNegative else TrainPositive)
    else Ignored
  }

  /** The (name, label) list the datasets are described by. */
  type Catalog = seq<(string, int)>

  /** Reference: the `(i, label)` pairs routed to `d`, in index order,
      each label cast to `int32` first. */
  function Routed(datasets: Catalog, testNames: seq<string>, trainNames: seq<string>, d: Destination): seq<(nat, int)> {
    if datasets == [] then []
    else
      var n := |datasets| - 1;
      var cls := WrapInt32(datasets[n].1);
      Routed(datasets[..n], testNames, trainNames, d)
      + (if Route(datasets[n].0, cls, testNames, trainNames) == d then [(n, cls)] else [])
  }

  /** A label lands in a negative list exactly when it is routed somewhere
      and is a multiple of 2^32, since the cast wraps those to 0. */
  lemma RouteCastLabel(name: string, dslabel: int, testNames: seq<string>, trainNames: seq<string>)
    ensures var d := Route(name, WrapInt32(dslabel), testNames, trainNames);
            d in {TestNegative, TrainNegative} <==> d != Ignored && dslabel % 0x1_0000_0000 == 0
  {
    WrapInt32Zero(dslabel);
  }

  /** A pair is in the list for `d` iff it names a dataset routed to `d`
      with that dataset's label cast to `int32`. So every dataset is in exactly one list, or
      in none when ignored. */
  lemma {:induction false} RoutedMembers(datasets: Catalog, testNames: seq<string>, trainNames: seq<string>, d: Destination)
    ensures forall i: nat, l: int :: (i, l) in Routed(datasets, testNames, trainNames, d) <==>
              i < |datasets| && l == WrapInt32(datasets[i].1) && Route(datasets[i].0, l, testNames, trainNames) == d
  {
    if datasets != [] {
      var n := |datasets| - 1;
      var init := datasets[..n];
      RoutedMembers(init, testNames, trainNames, d);
      assert forall i | 0 <= i < n :: init[i] == datasets[i];
    }
  }

  /** Every pair in a positive list has a non-zero label, every pair in a
      negative list label 0. */
  lemma {:induction false} RoutedLabels(datasets: Catalog, testNames: seq<string>, trainNames: seq<string>, d: Destination)
    requires d != Ignored
    ensures forall k | 0 <= k < |Routed(datasets, testNames, trainNames, d)| ::
              (Routed(datasets, testNames, trainNames, d)[k].1 == 0) == (d == TestNegative || d == TrainNegative)
  {
    if datasets != [] {
      var n := |datasets| - 1;
      var init := datasets[..n];
      RoutedLabels(init, testNames, trainNames, d);
      var r0 := Routed(init, testNames, trainNames, d);
      var r := Routed(datasets, testNames, trainNames, d);
      forall k | 0 <= k < |r|
        ensures (r[k].1 == 0) == (d == TestNegative || d == TrainNegative)
      {
        if k < |r0| {
          assert r[k] == r0[k];
        } else {
          assert r[k] == (n, WrapInt32(datasets[n].1));
        }
      }
    }
  }

  /** Each list keeps the datasets' enumeration order. */
  lemma {:induction false} RoutedOrdered(datasets: Catalog, testNames: seq<string>, trainNames: seq<string>, d: Destination)
    ensures forall p | p in Routed(datasets, testNames, trainNames, d) :: p.0 < |datasets|
    ensures forall a, b | 0 <= a < b < |Routed(datasets, testNames, trainNames, d)| ::
              Routed(datasets, testNames, trainNames, d)[a].0 < Routed(datasets, testNames, trainNames, d)[b].0
  {
    if datasets != [] {
      var n := |datasets| - 1;
      var init := datasets[..n];
      RoutedOrdered(init, testNames, trainNames, d);
      var r0 := Routed(init, testNames, trainNames, d);
      var r := Routed(datasets, testNames, trainNames, d);
      assert forall a | 0 <= a < |r0| :: r0[a] in r0 && r0[a].0 < n;
      forall a, b | 0 <= a < b < |r|
        ensures r[a].0 < r[b].0
      {
        assert r[a] == r0[a];
        if b < |r0| {
          assert r[b] == r0[b];
        } else {
          assert r[b].0 == n;
        }
      }
    }
  }

  /** The enumerate loop of `prep_windowed_datasets`: cast each label to
      `int32`, then append `(i, dslabel)` to the list its routing selects. */
  method Partition(datasets: Catalog, testNames: seq<string>, trainNames: seq<string>)
    returns (testPos: seq<(nat, int)>, testNeg: seq<(nat, int)>, trainPos: seq<(nat, int)>, trainNeg: seq<(nat, int)>)
    ensures testPos == Routed(datasets, testNames, trainNames, TestPositive)
    ensures testNeg == Routed(datasets, testNames, trainNames, TestNegative)
    ensures trainPos == Routed(datasets, testNames, trainNames, TrainPositive)
    ensures trainNeg == Routed(datasets, testNames, trainNames, TrainNegative)
  {
    testPos, testNeg, trainPos, trainNeg := [], [], [], [];
    var i := 0;
    while i < |datasets|
      invariant 0 <= i <= |datasets|
      invariant testPos == Routed(datasets[..i], testNames, trainNames, TestPositive)
      invariant testNeg == Routed(datasets[..i], testNames, trainNames, TestNegative)
      invariant trainPos == Routed(datasets[..i], testNames, trainNames, TrainPositive)
      invariant trainNeg == Routed(datasets[..i], testNames, trainNames, TrainNegative)
    {
      var name := datasets[i].0;
      var cls := WrapInt32(datasets[i].1);
      assert datasets[..i + 1][..i] == datasets[..i];
      if IsTest(name, testNames) {
        if cls == 0 {
          testNeg := testNeg + [(i, cls)];
        } else {
          testPos := testPos + [(i, cls)];
        }
      } else if IsTrain(name, trainNames) {
        if cls == 0 {
          trainNeg := trainNeg + [(i, cls)];
        } else {
          trainPos := trainPos + [(i, cls)];
        }
      }
      i := i + 1;
    }
    assert datasets[..i] == datasets;
  }

  /** `[WindowedDataSet(XL[i], label, wh, ws) for (i, label) in entries]`;
      an index past the end of `XL` raises IndexError. */
  function Windows(entries: seq<(nat, int)>, xl: seq<Matrix>, wh: int, ws: int): (r: Result<seq<DataSet>>)
    ensures r.Ok? <==> forall k | 0 <= k < |entries| :: entries[k].0 < |xl|
    ensures r.Raise? ==> r.error == IndexError
    ensures r.Ok? ==> |r.value| == |entries|
    ensures r.Ok? ==> forall k | 0 <= k < |entries| :: r.value[k] == Windowed(xl[entries[k].0], entries[k].1, wh, ws)
  {
    if entries == [] then Ok([])
    else
      var (i, cls) := entries[0];
      if i >= |xl| then Raise(IndexError)
      else
        var rest :- Windows(entries[1..], xl, wh, ws);
        assert forall k | 1 <= k < |entries| :: entries[k] == entries[1..][k - 1];
        Ok([Windowed(xl[i], cls, wh, ws)] + rest)
  }

  /** The lengths after balancing: the smaller class is repeated
      `larger // smaller` times, so its new length is at most the larger
      one and falls short of it by less than one original copy. */
  predicate Balanced(p: nat, n: nat, pos: DataSet, neg: DataSet, pos': DataSet, neg': DataSet) {
    if p == 0 || n == 0 then false
    else if p > n then
      && pos' == pos && neg' == Mizumashi(neg, n, n * (p / n))
      && n * (p / n) <= p && p - n * (p / n) < n
    else if n > p then
      && neg' == neg && pos' == Mizumashi(pos, p, p * (n / p))
      && p * (n / p) <= n && n - p * (n / p) < p
    else pos' == pos && neg' == neg
  }

  /** The `balance_train_samples` step; an empty class fails the assert. */
  function Balance(pos: DataSet, neg: DataSet, balance: bool): (r: Result<(DataSet, DataSet)>)
    ensures !balance ==> r == Ok((pos, neg))
    ensures balance && Len(pos).Ok? && Len(neg).Ok? ==>
              (r.Ok? <==> Len(pos).value > 0 && Len(neg).value > 0)
    ensures balance && r.Ok? ==>
              && Len(pos).Ok? && Len(neg).Ok?
              && Balanced(Len(pos).value, Len(neg).value, pos, neg, r.value.0, r.value.1)
    ensures balance && Len(pos).Ok? && Len(neg).Ok? && r.Raise? ==> r.error == AssertionError
    ensures r.Raise? ==> r.error in {AssertionError, ZeroDivisionError, ValueError}
  {
    if !balance then Ok((pos, neg))
    else
      var p :- Len(pos);
      var n :- Len(neg);
      if !(p > 0 && n > 0) then Raise(AssertionError)
      else if p > n then
        // what MakeMizumashi(neg, p / n) builds, len(neg) being n
        DivBounds(p, n);
        Ok((pos, Mizumashi(neg, n, n * (p / n))))
      else if n > p then
        // what MakeMizumashi(pos, n / p) builds, len(pos) being p
        DivBounds(n, p);
        Ok((Mizumashi(pos, p, p * (n / p)), neg))
      else Ok((pos, neg))
  }

  /** `load_datasets_pickle`'s `SliceMerge(X, slice_merge)` over every
      matrix (the channel reshape is not modelled). */
  function MergeAll(xl: seq<Matrix>, k: int): (r: Result<seq<Matrix>>)
    requires forall i | 0 <= i < |xl| :: xl[i].Valid()
    ensures r.Ok? <==> xl == [] || k > 0
    ensures r.Raise? ==> r.error == ValueError
    ensures r.Ok? ==> |r.value| == |xl| && forall i | 0 <= i < |xl| :: k > 0 && r.value[i] == Merged(xl[i], k)
  {
    if xl == [] then Ok([])
    else if k <= 0 then Raise(ValueError)
    else Ok(seq(|xl|, i requires 0 <= i < |xl| => Merged(xl[i], k)))
  }

  /** `prep_windowed_datasets(...)` after the pickle is loaded: returns
      `(trainds, binaryds)`. */
  function PrepWindowedDatasets(datasets: Catalog, xl: seq<Matrix>, testNames: seq<string>,
                                trainNames: seq<string>, balance: bool, wh: int, ws: int,
                                sliceMerge: int): (r: Result<(DataSet, DataSet)>)
    requires forall i | 0 <= i < |xl| :: xl[i].Valid()
    ensures r.Raise? ==> r.error in {ValueError, IndexError, ZeroDivisionError, AssertionError}
    ensures r.Ok? ==> r.value.0.Binary? && r.value.0.ds.Combined? && |r.value.0.ds.dsL| == 2
    ensures r.Ok? ==> r.value.1.Binary? && r.value.1.ds.Combined?
    ensures r.Ok? ==> |r.value.1.ds.dsL| == |Routed(datasets, testNames, trainNames, TestPositive)|
                                          + |Routed(datasets, testNames, trainNames, TestNegative)|
  {
    var merged :- MergeAll(xl, sliceMerge);
    var testL :- Windows(Routed(datasets, testNames, trainNames, TestPositive)
                         + Routed(datasets, testNames, trainNames, TestNegative), merged, wh, ws);
    var test :- MakeCombined(testL);
    var posL :- Windows(Routed(datasets, testNames, trainNames, TrainPositive), merged, wh, ws);
    var negL :- Windows(Routed(datasets, testNames, trainNames, TrainNegative), merged, wh, ws);
    var pos :- MakeCombined(posL);
    var neg :- MakeCombined(negL);
    var train :- TrainSet(pos, neg, balance);
    Ok((train, Binary(test)))
  }

  /** `BinaryDataSet(CombinedDataSet([trainds_positives, trainds_negatives]))`
      after the optional balancing. */
  function TrainSet(pos: DataSet, neg: DataSet, balance: bool): (r: Result<DataSet>)
    ensures !balance ==> (r.Ok? <==> Len(pos).Ok? && Len(neg).Ok?)
    ensures !balance && r.Ok? ==> r.value.Binary? && r.value.ds.Combined? && r.value.ds.dsL == [pos, neg]
    ensures r.Ok? ==> r.value.Binary? && r.value.ds.Combined? && |r.value.ds.dsL| == 2
    ensures r.Raise? ==> r.error in {AssertionError, ZeroDivisionError, ValueError}
  {
    var balanced :- Balance(pos, neg, balance);
    var pair := [balanced.0, balanced.1];
    assert forall k | 0 <= k < 2 :: pair[k] == balanced.0 || pair[k] == balanced.1;
    assert pair[0] == balanced.0 && pair[1] == balanced.1;
    var c :- MakeCombined(pair);
    Ok(Binary(c))
  }

  // ---------------------------------------------------------------------
  // Shape of the returned data sets

  /** Every label a dataset carries is non-zero (`positive`) or every one is zero. */
  predicate OfClass(ds: DataSet, positive: bool) {
    forall l | l in Labels(ds) :: (l != 0) == positive
  }

  /** The combined dataset of one train class is well formed and carries
      only that class's labels. */
  lemma TrainClass(datasets: Catalog, testNames: seq<string>, trainNames: seq<string>,
                   d: Destination, xl: seq<Matrix>, wh: int, ws: int)
    requires d == TrainPositive || d == TrainNegative
    requires Windows(Routed(datasets, testNames, trainNames, d), xl, wh, ws).Ok?
    requires MakeCombined(Windows(Routed(datasets, testNames, trainNames, d), xl, wh, ws).value).Ok?
    ensures var c := MakeCombined(Windows(Routed(datasets, testNames, trainNames, d), xl, wh, ws).value).value;
            WellFormed(c) && OfClass(c, d == TrainPositive)
  {
    var entries := Routed(datasets, testNames, trainNames, d);
    var dsL := Windows(entries, xl, wh, ws).value;
    RoutedLabels(datasets, testNames, trainNames, d);
    WindowsShape(entries, xl, wh, ws);
    MakeCombinedWellFormed(dsL);
    CombinedOfClass(dsL, MakeCombined(dsL).value.lenL, d == TrainPositive);
  }

  /** Window datasets are well formed and carry their entry's label. */
  lemma WindowsShape(entries: seq<(nat, int)>, xl: seq<Matrix>, wh: int, ws: int)
    requires Windows(entries, xl, wh, ws).Ok?
    ensures var dsL := Windows(entries, xl, wh, ws).value;
            forall k | 0 <= k < |dsL| :: WellFormed(dsL[k]) && Labels(dsL[k]) == {entries[k].1}
  {
  }

  /** Combining datasets of one class gives a dataset of that class. */
  lemma CombinedOfClass(dsL: seq<DataSet>, lenL: seq<nat>, positive: bool)
    requires forall k | 0 <= k < |dsL| :: OfClass(dsL[k], positive)
    ensures OfClass(Combined(dsL, lenL), positive)
  {
    forall l | l in Labels(Combined(dsL, lenL))
      ensures (l != 0) == positive
    {
      var k :| 0 <= k < |dsL| && l in Labels(dsL[k]);
    }
  }

  /** Balancing keeps each class's labels and well-formedness. */
  lemma BalanceKeepsClasses(pos: DataSet, neg: DataSet, balance: bool)
    requires WellFormed(pos) && OfClass(pos, true) && WellFormed(neg) && OfClass(neg, false)
    requires Balance(pos, neg, balance).Ok?
    ensures var (pos', neg') := Balance(pos, neg, balance).value;
            && WellFormed(pos') && OfClass(pos', true)
            && WellFormed(neg') && OfClass(neg', false)
  {
  }

  /** The train set of a positive and a negative class: every index below
      its length has an example, positive exactly when the index falls in
      the first part, which holds the (possibly oversampled) positives. */
  lemma TrainSetShape(pos: DataSet, neg: DataSet, balance: bool)
    requires WellFormed(pos) && OfClass(pos, true) && WellFormed(neg) && OfClass(neg, false)
    requires TrainSet(pos, neg, balance).Ok?
    ensures var train := TrainSet(pos, neg, balance).value;
            && WellFormed(train)
            && train.Binary? && train.ds.Combined? && |train.ds.lenL| == 2
            && Len(train) == Ok(train.ds.lenL[0] + train.ds.lenL[1])
            && forall i | 0 <= i < train.ds.lenL[0] + train.ds.lenL[1] ::
                 GetExample(train, i).Ok? && (GetExample(train, i).value.cls != 0 <==> i < train.ds.lenL[0])
  {
    BalanceKeepsClasses(pos, neg, balance);
    var (pos', neg') := Balance(pos, neg, balance).value;
    MakeCombinedWellFormed([pos', neg']);
    var c := MakeCombined([pos', neg']).value;
    assert TrainSet(pos, neg, balance).value == Binary(c);
    assert c.lenL[..2] == c.lenL;
    PrefixStep(c.lenL, 0);
    PrefixStep(c.lenL, 1);
    forall i | 0 <= i < c.lenL[0] + c.lenL[1]
      ensures GetExample(Binary(c), i).Ok? && (GetExample(Binary(c), i).value.cls != 0 <==> i < c.lenL[0])
    {
      PairExample(pos', neg', i);
    }
  }

  /** Index `i` of the binary view of `[positives, negatives]` has an
      example, positive exactly when `i` falls in the first part. */
  lemma PairExample(pos: DataSet, neg: DataSet, i: int)
    requires WellFormed(pos) && OfClass(pos, true) && WellFormed(neg) && OfClass(neg, false)
    requires MakeCombined([pos, neg]).Ok?
    requires 0 <= i < MakeCombined([pos, neg]).value.lenL[0] + MakeCombined([pos, neg]).value.lenL[1]
    ensures var c := MakeCombined([pos, neg]).value;
            GetExample(Binary(c), i).Ok? && (GetExample(Binary(c), i).value.cls != 0 <==> i < c.lenL[0])
  {
    MakeCombinedWellFormed([pos, neg]);
    var c := MakeCombined([pos, neg]).value;
    assert c.lenL[..0] == [] && c.lenL[..2] == c.lenL;
    PrefixStep(c.lenL, 0);
    PrefixStep(c.lenL, 1);
    InRangeExamples(Binary(c), i);
    var (li, off) := Locate(c.lenL, i).value;
    assert li == 0 <==> i < c.lenL[0];
    ExampleLabel(c.dsL[li], off);
  }

  /** What `prep_windowed_datasets` returns: a well-formed test set and the
      train set of two well-formed classes, positives first. */
  lemma TrainSetLayout(datasets: Catalog, xl: seq<Matrix>, testNames: seq<string>,
                       trainNames: seq<string>, balance: bool, wh: int, ws: int, sliceMerge: int)
    requires forall i | 0 <= i < |xl| :: xl[i].Valid()
    requires PrepWindowedDatasets(datasets, xl, testNames, trainNames, balance, wh, ws, sliceMerge).Ok?
    ensures var (train, test) := PrepWindowedDatasets(datasets, xl, testNames, trainNames, balance, wh, ws, sliceMerge).value;
            && WellFormed(test)
            && exists pos, neg ::
                 && WellFormed(pos) && OfClass(pos, true) && WellFormed(neg) && OfClass(neg, false)
                 && TrainSet(pos, neg, balance) == Ok(train)
  {
    var merged := MergeAll(xl, sliceMerge).value;
    var testL := Windows(Routed(datasets, testNames, trainNames, TestPositive)
                         + Routed(datasets, testNames, trainNames, TestNegative), merged, wh, ws).value;
    MakeCombinedWellFormed(testL);
    var test := MakeCombined(testL).value;
    var posL := Windows(Routed(datasets, testNames, trainNames, TrainPositive), merged, wh, ws).value;
    var negL := Windows(Routed(datasets, testNames, trainNames, TrainNegative), merged, wh, ws).value;
    TrainClass(datasets, testNames, trainNames, TrainPositive, merged, wh, ws);
    TrainClass(datasets, testNames, trainNames, TrainNegative, merged, wh, ws);
    var pos := MakeCombined(posL).value;
    var neg := MakeCombined(negL).value;
    var train := TrainSet(pos, neg, balance).value;
    assert PrepWindowedDatasets(datasets, xl, testNames, trainNames, balance, wh, ws, sliceMerge).value == (train, Binary(test));
  }
}
