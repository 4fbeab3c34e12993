/** scripts/confusionmatrix.py: the evaluator extension that counts
    (prediction, truth) pairs of a two-class model into a 2x2 matrix and
    reports tp/fp/fn/tn, and the script that prints a log of such reports.
    The predictions are taken as given (the argmax over the network's
    scores is not modelled). */
module ConfusionMatrix {
  import opened Results
  import opened Text

  /** A class of the two-class problem: a prediction or a truth. */
  type Bit = b: int | 0 <= b < 2

  /** A (prediction, truth) pair. */
  type Pair = (Bit, Bit)

  /** `self.count`: cell `(y, t)` counts predictions `y` of truth `t`. */
  datatype Count = Count(c00: nat, c01: nat, c10: nat, c11: nat) {
    function At(y: Bit, t: Bit): nat {
      if y == 0 then (if t == 0 then c00 else c01)
      else (if t == 0 then c10 else c11)
    }
  }

  /** `numpy.zeros((2, 2))`, what `__call__` and `finalize` reset to. */
  const Zero := Count(0, 0, 0, 0)

  /** `finalize`: the count is zero afterwards whatever it was before. */
  function Finalize(c: Count): (c': Count)
    ensures forall y: Bit, t: Bit :: c'.At(y, t) == 0
  {
    Zero
  }

  /** `self.count[y][t] += 1`: exactly one cell grows, by one. */
  function Add(c: Count, y: Bit, t: Bit): (c': Count)
    ensures c'.At(y, t) == c.At(y, t) + 1
    ensures forall y': Bit, t': Bit | y' != y || t' != t :: c'.At(y', t') == c.At(y', t')
  {
    if y == 0 then
      if t == 0 then c.(c00 := c.c00 + 1) else c.(c01 := c.c01 + 1)
    else
      if t == 0 then c.(c10 := c.c10 + 1) else c.(c11 := c.c11 + 1)
  }

  /** Reference: how many of `pairs` are `(y, t)`. */
  function Tally(pairs: seq<Pair>, y: Bit, t: Bit): nat {
    if pairs == [] then 0
    else (if pairs[0] == (y, t) then 1 else 0) + Tally(pairs[1..], y, t)
  }

  /** How many of `pairs` have truth `t`. */
  function TruthCount(pairs: seq<Pair>, t: Bit): nat {
    if pairs == [] then 0
    else (if pairs[0].1 == t then 1 else 0) + TruthCount(pairs[1..], t)
  }

  /** The pairs of all batches, in iteration order. */
  function Flatten(batches: seq<seq<Pair>>): seq<Pair> {
    if batches == [] then [] else Flatten(batches[..|batches| - 1]) + batches[|batches| - 1]
  }

  lemma {:induction false} TallyAppend(a: seq<Pair>, b: seq<Pair>, y: Bit, t: Bit)
    ensures Tally(a + b, y, t) == Tally(a, y, t) + Tally(b, y, t)
  {
    if a == [] {
      assert a + b == b;
    } else {
      assert (a + b)[0] == a[0];
      assert (a + b)[1..] == a[1..] + b;
      TallyAppend(a[1..], b, y, t);
    }
  }

  /** The cells of a truth's column add up to the pairs of that truth. */
  lemma {:induction false} TallyByTruth(pairs: seq<Pair>, t: Bit)
    ensures Tally(pairs, 0, t) + Tally(pairs, 1, t) == TruthCount(pairs, t)
  {
    if pairs != [] {
      TallyByTruth(pairs[1..], t);
    }
  }

  /** Every pair has one of the two truths. */
  lemma {:induction false} TruthsCoverAll(pairs: seq<Pair>)
    ensures TruthCount(pairs, 0) + TruthCount(pairs, 1) == |pairs|
  {
    if pairs != [] {
      TruthsCoverAll(pairs[1..]);
    }
  }

  /** The loop of `evaluate` over the batches and the pairs of each: every
      cell grows by the number of pairs equal to it. */
  method Evaluate(c: Count, batches: seq<seq<Pair>>) returns (c': Count)
    ensures forall y: Bit, t: Bit :: c'.At(y, t) == c.At(y, t) + Tally(Flatten(batches), y, t)
  {
    c' := c;
    var i := 0;
    while i < |batches|
      invariant 0 <= i <= |batches|
      invariant forall y: Bit, t: Bit :: c'.At(y, t) == c.At(y, t) + Tally(Flatten(batches[..i]), y, t)
    {
      var batch := batches[i];
      var j := 0;
      assert Flatten(batches[..i]) + batch[..0] == Flatten(batches[..i]);
      while j < |batch|
        invariant 0 <= j <= |batch|
        invariant forall y: Bit, t: Bit ::
                    c'.At(y, t) == c.At(y, t) + Tally(Flatten(batches[..i]) + batch[..j], y, t)
      {
        var (y, t) := batch[j];
        forall y': Bit, t': Bit
          ensures Tally(Flatten(batches[..i]) + batch[..j + 1], y', t')
                  == Tally(Flatten(batches[..i]) + batch[..j], y', t') + (if (y', t') == (y, t) then 1 else 0)
        {
          assert batch[..j + 1] == batch[..j] + [batch[j]];
          assert Flatten(batches[..i]) + batch[..j + 1] == (Flatten(batches[..i]) + batch[..j]) + [batch[j]];
          TallyAppend(Flatten(batches[..i]) + batch[..j], [batch[j]], y', t');
        }
        c' := Add(c', y, t);
        j := j + 1;
      }
      assert batches[..i + 1][..i] == batches[..i];
      assert Flatten(batches[..i + 1]) == Flatten(batches[..i]) + batch;
      assert batch[..j] == batch;
      i := i + 1;
    }
    assert batches[..i] == batches;
  }

  /** The dictionary `evaluate` returns. */
  datatype Report = Report(tp: nat, fp: nat, fn: nat, tn: nat)

  /** The read-out: a positive prediction of a positive truth is a true
      positive, and so on. */
  function ReadOut(c: Count): (r: Report)
    ensures r.tp == c.At(1, 1) && r.fp == c.At(1, 0) && r.fn == c.At(0, 1) && r.tn == c.At(0, 0)
  {
    Report(c.c11, c.c10, c.c01, c.c00)
  }

  /** `__call__`: reset the count, evaluate, read out. Each figure counts
      its kind of pair; tp and fn together count the positive truths, fp
      and tn the negative ones, and all four every pair. */
  method Call(batches: seq<seq<Pair>>) returns (r: Report)
    ensures r.tp == Tally(Flatten(batches), 1, 1) && r.fp == Tally(Flatten(batches), 1, 0)
    ensures r.fn == Tally(Flatten(batches), 0, 1) && r.tn == Tally(Flatten(batches), 0, 0)
    ensures r.tp + r.fn == TruthCount(Flatten(batches), 1)
    ensures r.fp + r.tn == TruthCount(Flatten(batches), 0)
    ensures r.tp + r.fp + r.fn + r.tn == |Flatten(batches)|
  {
    var c := Evaluate(Zero, batches);
    r := ReadOut(c);
    TallyByTruth(Flatten(batches), 0);
    TallyByTruth(Flatten(batches), 1);
    TruthsCoverAll(Flatten(batches));
  }

  // ---------------------------------------------------------------------
  // The log printer

  /** The header the script prints before the log. */
  const Header: seq<string> := ["\tD+\tD-", "C+:\tTP\tFN", "C-:\tFP\tTN"]

  /** A row of the printed table: its label, then two numbers tab-separated. */
  function Row(prefix: string, a: nat, b: nat): string {
    prefix + Dec(a) + "\t" + Dec(b)
  }

  /** The three lines printed for log entry number `n` (counting from 1). */
  function EntryLines(n: nat, r: Report): seq<string> {
    ["EPOCH " + Dec(n) + "-------------------------", Row("C+:\t", r.tp, r.fn), Row("C-:\t", r.fp, r.tn)]
  }

  /** Three-line blocks laid end to end. */
  function Concat3<T>(blocks: seq<seq<T>>): (r: seq<T>)
    requires forall j | 0 <= j < |blocks| :: |blocks[j]| == 3
    ensures |r| == 3 * |blocks|
    ensures forall i | 0 <= i < |blocks| :: r[3 * i..3 * i + 3] == blocks[i]
  {
    if blocks == [] then []
    else
      var init := blocks[..|blocks| - 1];
      var r := Concat3(init) + blocks[|blocks| - 1];
      forall i | 0 <= i < |blocks|
        ensures r[3 * i..3 * i + 3] == blocks[i]
      {
        if i < |init| {
          assert r[3 * i..3 * i + 3] == Concat3(init)[3 * i..3 * i + 3];
        }
      }
      r
  }

  /** The lines for `log`, numbered from `n`. */
  function LogLines(n: nat, log: seq<Report>): (lines: seq<string>)
    ensures |lines| == 3 * |log|
    ensures forall i | 0 <= i < |log| :: lines[3 * i..3 * i + 3] == EntryLines(n + i, log[i])
  {
    var blocks := seq(|log|, i requires 0 <= i < |log| => EntryLines(n + i, log[i]));
    var lines := Concat3(blocks);
    forall i | 0 <= i < |log|
      ensures lines[3 * i..3 * i + 3] == EntryLines(n + i, log[i])
    {
      assert lines[3 * i..3 * i + 3] == blocks[i];
    }
    lines
  }

  /** A slice that lies past `a` is a slice of `b`. */
  lemma SliceOfConcat<T>(a: seq<T>, b: seq<T>, lo: nat, hi: nat)
    requires |a| <= lo <= hi <= |a| + |b|
    ensures (a + b)[lo..hi] == b[lo - |a|..hi - |a|]
  {
  }

  /** The script's output, one string per printed line: the header, then
      the three lines of each entry, numbered from 1. */
  function Printout(log: seq<Report>): (lines: seq<string>)
    ensures |lines| == 3 + 3 * |log| && lines[..3] == Header
    ensures forall i | 0 <= i < |log| :: lines[3 + 3 * i..3 + 3 * i + 3] == EntryLines(i + 1, log[i])
  {
    var body := LogLines(1, log);
    assert |Header| == 3;
    forall i | 0 <= i < |log|
      ensures (Header + body)[3 + 3 * i..3 + 3 * i + 3] == EntryLines(i + 1, log[i])
    {
      SliceOfConcat(Header, body, 3 + 3 * i, 3 + 3 * i + 3);
      assert body[3 * i..3 * i + 3] == EntryLines(1 + i, log[i]);
    }
    assert (Header + body)[..3] == Header;
    Header + body
  }

  /** Entry `i` is printed as an "EPOCH i+1" rule, a C+ row of its tp and
      fn, and a C- row of its fp and tn. */
  lemma PrintoutEntry(log: seq<Report>, i: nat)
    requires i < |log|
    ensures Printout(log)[3 + 3 * i] == "EPOCH " + Dec(i + 1) + "-------------------------"
    ensures Printout(log)[3 + 3 * i + 1] == Row("C+:\t", log[i].tp, log[i].fn)
    ensures Printout(log)[3 + 3 * i + 2] == Row("C-:\t", log[i].fp, log[i].tn)
  {
    var block := Printout(log)[3 + 3 * i..3 + 3 * i + 3];
    assert block == EntryLines(i + 1, log[i]);
    assert Printout(log)[3 + 3 * i] == block[0];
    assert Printout(log)[3 + 3 * i + 1] == block[1];
    assert Printout(log)[3 + 3 * i + 2] == block[2];
  }

  /** The two numbers of a row with the given label, if it is one. */
  function ReadRow(prefix: string, line: string): Option<(nat, nat)> {
    if |line| < |prefix| || line[..|prefix|] != prefix then None
    else
      var (a, rest) := ReadDigits(line[|prefix|..]);
      if a == [] || rest == [] || rest[0] != '\t' then None
      else
        var (b, end) := ReadDigits(rest[1..]);
        if b == [] || end != [] then None else Some((ParseDec(a), ParseDec(b)))
  }

  lemma ReadRowOfRow(prefix: string, a: nat, b: nat)
    ensures ReadRow(prefix, Row(prefix, a, b)) == Some((a, b))
  {
    var line := Row(prefix, a, b);
    var rest := "\t" + Dec(b);
    assert line[..|prefix|] == prefix;
    assert line[|prefix|..] == Dec(a) + rest;
    ReadDigitsOfDec(a, rest);
    assert rest[1..] == Dec(b) + [];
    ReadDigitsOfDec(b, []);
    ParseDecOfDec(a);
    ParseDecOfDec(b);
  }

  /** The printed log reads back: row `C+` of entry `i` holds its tp and
      fn, row `C-` its fp and tn. */
  lemma PrintoutReadsBack(log: seq<Report>, i: nat)
    requires i < |log|
    ensures ReadRow("C+:\t", Printout(log)[3 + 3 * i + 1]) == Some((log[i].tp, log[i].fn))
    ensures ReadRow("C-:\t", Printout(log)[3 + 3 * i + 2]) == Some((log[i].fp, log[i].tn))
  {
    PrintoutEntry(log, i);
    ReadRowOfRow("C+:\t", log[i].tp, log[i].fn);
    ReadRowOfRow("C-:\t", log[i].fp, log[i].tn);
  }
}
