/** `JsonToVec` of scripts/prep_data.py: a nested access-trace record becomes
    a dense vector of per-bucket access counts. */
module TraceVector {
  import opened Results
  import opened Text
  import opened Arith

  /** One level of a decoded JSON object: its (key, value) pairs in the
      order the dictionary iterates them. */
  type Object<V> = seq<(string, V)>

  /** address key -> access count */
  type Counts = Object<nat>

  /** top-level key -> event -> address key -> count; one of the top-level
      keys must be "SYS_READ". */
  type Trace = Object<Object<Counts>>

  /** The keyword parameters `magic_number`, `magic_start`, `magic_width`. */
  datatype Layout = Layout(magic: nat, start: nat, width: nat)

  /** The defaults, which every caller in the script uses. */
  const DefaultLayout := Layout(0x1000, 11, 3)

  const SysRead := "SYS_READ"

  /** `obj[key]` on a dictionary: the value stored under `key`, if any. */
  function Lookup<V>(obj: Object<V>, key: string): (r: Option<V>)
    ensures r.None? <==> forall i | 0 <= i < |obj| :: obj[i].0 != key
    ensures r.Some? ==> exists i | 0 <= i < |obj| :: obj[i] == (key, r.value)
  {
    if obj == [] then None
    else if obj[0].0 == key then Some(obj[0].1)
    else
      var r := Lookup(obj[1..], key);
      assert forall i | 1 <= i < |obj| :: obj[i] == obj[1..][i - 1];
      r
  }

  /** One innermost (key, count) pair together with the enumeration indices
      `e` (top level) and `ev` (event) under which the loops meet it. */
  datatype Hit = Hit(e: nat, ev: nat, key: string, count: nat)

  function CountHits(e: nat, ev: nat, counts: Counts): seq<Hit> {
    seq(|counts|, i requires 0 <= i < |counts| => Hit(e, ev, counts[i].0, counts[i].1))
  }

  function EventHits(e: nat, events: Object<Counts>): seq<Hit> {
    if events == [] then []
    else EventHits(e, events[..|events| - 1]) + CountHits(e, |events| - 1, events[|events| - 1].1)
  }

  /** The pairs the three nested loops visit, in visiting order. */
  function Hits(trace: Trace): seq<Hit> {
    if trace == [] then []
    else Hits(trace[..|trace| - 1]) + EventHits(|trace| - 1, trace[|trace| - 1].1)
  }

  lemma {:induction false} EventHitsIndexed(e: nat, events: Object<Counts>)
    ensures forall h | h in EventHits(e, events) :: h.e == e && h.ev < |events|
  {
    if events != [] {
      EventHitsIndexed(e, events[..|events| - 1]);
    }
  }

  /** Every visited pair belongs to an existing top-level entry and event. */
  lemma {:induction false} HitsIndexed(trace: Trace)
    ensures forall h | h in Hits(trace) :: h.e < |trace| && h.ev < |trace[h.e].1|
  {
    if trace != [] {
      var init := trace[..|trace| - 1];
      HitsIndexed(init);
      EventHitsIndexed(|trace| - 1, trace[|trace| - 1].1);
      forall h | h in Hits(trace)
        ensures h.e < |trace| && h.ev < |trace[h.e].1|
      {
        if h in Hits(init) {
          assert trace[h.e] == init[h.e];
        }
      }
    }
  }

  /** `k[start:start+width]`, with Python's clamping of slice bounds. */
  function BucketText(key: string, start: nat, width: nat): (t: string)
    ensures |t| <= width
  {
    var lo := if start < |key| then start else |key|;
    var hi := if start + width < |key| then start + width else |key|;
    key[lo..hi]
  }

  /** `int(k[start:start+width], 16)`: the bucket index of an address key. */
  function Bucket(key: string, layout: Layout): (r: Result<nat>)
    ensures r.Ok? ==> r.value < Pow16(layout.width)
    ensures r.Raise? ==> r.error == ValueError
  {
    var t := BucketText(key, layout.start, layout.width);
    if t != [] && IsHexString(t) then
      var v := ParseHex(t);
      assert Pow16(|t|) <= Pow16(layout.width) by { Pow16Monotone(|t|, layout.width); }
      Ok(v)
    else Raise(ValueError)
  }

  lemma {:induction false} Pow16Monotone(a: nat, b: nat)
    requires a <= b
    ensures Pow16(a) <= Pow16(b)
  {
    if a < b {
      Pow16Monotone(a, b - 1);
    }
  }

  /** The vector index a pair is added into:
      `ki + (e * magic_number) + (ev * magic_number)`. */
  function Slot(h: Hit, layout: Layout): Result<nat> {
    var ki :- Bucket(h.key, layout);
    Ok(ki + h.e * layout.magic + h.ev * layout.magic)
  }

  predicate SlotFits(h: Hit, layout: Layout, n: nat) {
    Slot(h, layout).Ok? && Slot(h, layout).value < n
  }

  /** Reference count: the sum of the counts of the pairs whose slot is `s`. */
  function SlotTotal(hits: seq<Hit>, layout: Layout, s: nat): nat {
    if hits == [] then 0
    else (if Slot(hits[0], layout) == Ok(s) then hits[0].count else 0) + SlotTotal(hits[1..], layout, s)
  }

  /** The `+=` loop: each pair adds its count into its slot; an unparsable
      bucket raises ValueError and a slot past the end raises IndexError. */
  function Accumulate(xi: seq<nat>, hits: seq<Hit>, layout: Layout): (r: Result<seq<nat>>)
    ensures r.Ok? <==> forall j | 0 <= j < |hits| :: SlotFits(hits[j], layout, |xi|)
    ensures r.Raise? ==> r.error in {ValueError, IndexError}
    ensures r.Ok? ==> |r.value| == |xi|
    ensures r.Ok? ==> forall s | 0 <= s < |xi| :: r.value[s] == xi[s] + SlotTotal(hits, layout, s)
    decreases |hits|
  {
    if hits == [] then Ok(xi)
    else
      match Slot(hits[0], layout)
      case Raise(err) => Raise(err)
      case Ok(s) =>
        if s < |xi| then
          var r := Accumulate(xi[s := xi[s] + hits[0].count], hits[1..], layout);
          assert forall j | 1 <= j < |hits| :: hits[j] == hits[1..][j - 1];
          r
        else Raise(IndexError)
  }

  /** The vector length `magic_number * len(keys) * len(json_dict['SYS_READ'].keys())`. */
  function Columns(trace: Trace, sys: Object<Counts>, layout: Layout): nat {
    layout.magic * |trace| * |sys|
  }

  /** `JsonToVec(json_dict)`. */
  function JsonToVec(trace: Trace, layout: Layout): (r: Result<seq<nat>>)
    ensures Lookup(trace, SysRead).None? <==> r == Raise(KeyError)
    ensures r.Ok? ==> |r.value| == Columns(trace, Lookup(trace, SysRead).value, layout)
    ensures r.Ok? ==> forall s | 0 <= s < |r.value| :: r.value[s] == SlotTotal(Hits(trace), layout, s)
  {
    match Lookup(trace, SysRead)
    case None => Raise(KeyError)
    case Some(sys) => Accumulate(seq(Columns(trace, sys, layout), _ => 0), Hits(trace), layout)
  }

  /** A bucket read with the default layout is below `magic_number`, as
      three hex digits are below 16^3. */
  lemma DefaultBucketBelowMagic(key: string)
    ensures Bucket(key, DefaultLayout).Ok? ==> Bucket(key, DefaultLayout).value < DefaultLayout.magic
  {
    assert Pow16(3) == 0x1000;
  }

  /** Two pairs share a slot exactly when they share the bucket and the sum
      `e + ev`; so (e, ev) = (0, 1) and (1, 0) land in the same slots. */
  lemma SlotsCoincide(ki: nat, e: nat, ev: nat, ki': nat, e': nat, ev': nat, magic: nat)
    requires ki < magic && ki' < magic
    ensures ki + e * magic + ev * magic == ki' + e' * magic + ev' * magic
            <==> ki == ki' && e + ev == e' + ev'
  {
    var x := ki + e * magic + ev * magic;
    var x' := ki' + e' * magic + ev' * magic;
    assert x == (e + ev) * magic + ki;
    assert x' == (e' + ev') * magic + ki';
    if x == x' {
      DivModUnique(x, magic, e + ev, ki);
      DivModUnique(x, magic, e' + ev', ki');
    }
  }

  lemma SlotBelowColumns(ki: nat, e: nat, ev: nat, magic: nat, t: nat, sn: nat)
    requires ki < magic && e < t && ev < sn
    ensures ki + e * magic + ev * magic < magic * t * sn
  {
    // t * sn - sn == (t - 1) * sn >= t - 1, so e + ev + 1 <= t + sn - 1 <= t * sn
    assert e + ev + 1 <= t * sn by {
      MulDistrib(t, -1, sn);
      MulLeq(1, sn, t - 1);
    }
    MulDistrib(e, ev, magic);
    MulDistrib(e + ev, 1, magic);
    MulLeq(e + ev + 1, t * sn, magic);
    MulAssoc(magic, t, sn);
  }

  /** Every slot is in bounds, so the vector is produced, when every bucket
      parses below `magic_number` and no top-level entry has more events
      than "SYS_READ". */
  lemma JsonToVecInBounds(trace: Trace, layout: Layout)
    requires Lookup(trace, SysRead).Some?
    requires forall h | h in Hits(trace) ::
               Bucket(h.key, layout).Ok? && Bucket(h.key, layout).value < layout.magic
    requires forall e | 0 <= e < |trace| :: |trace[e].1| <= |Lookup(trace, SysRead).value|
    ensures JsonToVec(trace, layout).Ok?
  {
    var sys := Lookup(trace, SysRead).value;
    var hits := Hits(trace);
    HitsIndexed(trace);
    forall j | 0 <= j < |hits|
      ensures SlotFits(hits[j], layout, Columns(trace, sys, layout))
    {
      var h := hits[j];
      assert h in hits;
      SlotBelowColumns(Bucket(h.key, layout).value, h.e, h.ev, layout.magic, |trace|, |sys|);
    }
  }
}
