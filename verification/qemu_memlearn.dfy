/** The QEMU client of qemu/memlearn.c: turning a received access packet
    into an epoch, and `export_json`, which writes the epochs as a JSON
    object of objects. The file write is modelled as the text it writes. */
module QemuMemlearn {
  import opened Results
  import opened Arith
  import opened Text
  import opened AccessPacket
  import TraceVector
  import KvmMemlearn

  /** `Epoch`: the addresses of one packet; `size` is their number. */
  datatype Epoch = Epoch(gvas: seq<u64>)

  /** `ml_epoch_new`: `allocOk` is whether allocating the epoch succeeds
      (NULL, modelled as None, otherwise). */
  function EpochNew(p: Packet, allocOk: bool): (r: Option<Epoch>)
    requires p.Valid()
    ensures r.None? <==> !allocOk
    ensures r.Some? ==> |r.value.gvas| == p.size
    ensures r.Some? ==> forall i | 0 <= i < p.size :: r.value.gvas[i] == p.gvas[i]
  {
    if !allocOk then None else Some(Epoch(p.gvas[..p.size]))
  }

  /** A successful log call followed by `ml_epoch_new` captures the packet's
      earlier contents followed by every logged address, in visiting order. */
  lemma EpochOfLog(s: KvmMemlearn.State, order: seq<u64>)
    requires s.info.Some? && s.packet.Valid()
    requires KvmMemlearn.Enumerates(order, s.info.value.accessLog.Keys)
    requires KvmMemlearn.Log(s, order, true).0 == 0
    ensures var sent := KvmMemlearn.Log(s, order, true).2.value;
            EpochNew(sent, true) == Some(Epoch(s.packet.Contents() + KvmMemlearn.LoggedGvas(s.info.value.accessLog, order)))
  {
  }

  // ---------------------------------------------------------------------
  // export_json

  /** `"0x%016lx"`: an address as a JSON key. */
  function Key(g: u64): (k: string)
    ensures |k| == 18 && k[..2] == "0x" && IsHexString(k[2..])
    ensures forall i | 2 <= i < 18 :: '0' <= k[i] <= '9' || 'a' <= k[i] <= 'f'
  {
    "0x" + Hex(g, 16)
  }

  /** One address entry; the last of an epoch ends the line, the others are
      followed by a comma on the same line. */
  function Entry(g: u64, last: bool): (t: string)
    ensures |t| == 25
  {
    "  \"" + Key(g) + "\":1" + (if last then "\n" else ",")
  }

  /** The address entries of one epoch, in stored order. */
  function Entries(gvas: seq<u64>): (t: string)
    ensures |t| == 25 * |gvas|
  {
    if gvas == [] then ""
    else if |gvas| == 1 then Entry(gvas[0], true)
    else Entry(gvas[0], false) + Entries(gvas[1..])
  }

  /** The block of epoch number `e`: its decimal key, its entries, and the
      closing brace, followed by a comma unless it is the last block. */
  function Block(e: nat, epoch: Epoch, last: bool): string {
    "  \"" + Dec(e) + "\": {\n" + Entries(epoch.gvas) + (if last then "  }\n" else "  },\n")
  }

  /** The blocks of `epochs`, numbered consecutively from `e`. */
  function Blocks(e: nat, epochs: seq<Epoch>): string
    decreases |epochs|
  {
    if epochs == [] then ""
    else Block(e, epochs[0], |epochs| == 1) + Blocks(e + 1, epochs[1..])
  }

  /** `export_json`: nothing is written without a path; otherwise the text
      of the file. */
  function ExportJson(path: Option<string>, epochs: seq<Epoch>): (r: Option<string>)
    ensures r.None? <==> path.None?
    ensures r.Some? ==> |r.value| >= 4 && r.value[..2] == "{\n" && r.value[|r.value| - 2..] == "}\n"
  {
    if path.None? then None else Some("{\n" + Blocks(0, epochs) + "}\n")
  }

  // ---------------------------------------------------------------------
  // Reading the export back

  /** The address of a 25-character entry, if `s` starts with one; whether
      it is the last of its epoch; and the text after it. */
  function ReadEntry(s: string): (r: Option<(u64, bool, string)>)
    ensures r.Some? ==> |r.value.2| < |s|
  {
    if |s| >= 25 && s[..5] == "  \"0x" && IsHexString(s[5..21]) && s[21..24] == "\":1"
       && (s[24] == '\n' || s[24] == ',')
    then
      var v := ParseHex(s[5..21]);
      Pow16Values();
      Some((v, s[24] == '\n', s[25..]))
    else None
  }

  /** The entries at the start of `s` and the text after them: none when
      `s` does not start with one, otherwise up to and including the one
      that ends its line. */
  function ReadEntries(s: string): (r: Option<(seq<u64>, string)>)
    ensures r.Some? ==> |r.value.1| <= |s|
    decreases |s|
  {
    match ReadEntry(s)
    case None => Some(([], s))
    case Some((g, last, rest)) =>
      if last then Some(([g], rest))
      else
        match ReadEntries(rest)
        case None => None
        case Some((gs, rest')) => if gs == [] then None else Some(([g] + gs, rest'))
  }

  /** The text after the key line of epoch number `e`, if `s` starts
      with it. */
  function ReadHeader(e: nat, s: string): (r: Option<string>)
    ensures r.Some? ==> |r.value| < |s|
  {
    if |s| < 3 || s[..3] != "  \"" then None
    else
      var (digits, afterKey) := ReadDigits(s[3..]);
      if digits == [] || ParseDec(digits) != e || |afterKey| < 5 || afterKey[..5] != "\": {\n" then None
      else Some(afterKey[5..])
  }

  /** The closing brace of a block: whether it is the last one (no comma),
      and the text after it. */
  function ReadCloser(s: string): (r: Option<(bool, string)>)
    ensures r.Some? ==> |r.value.1| < |s|
  {
    if |s| >= 4 && s[..4] == "  }\n" then Some((true, s[4..]))
    else if |s| >= 5 && s[..5] == "  },\n" then Some((false, s[5..]))
    else None
  }

  /** The block of epoch number `e` at the start of `s`: the epoch,
      whether it is the last block, and the text after it. */
  function ReadBlock(e: nat, s: string): (r: Option<(Epoch, bool, string)>)
    ensures r.Some? ==> |r.value.2| < |s|
  {
    match ReadHeader(e, s)
    case None => None
    case Some(body) =>
      match ReadEntries(body)
      case None => None
      case Some((gvas, after)) =>
        match ReadCloser(after)
        case None => None
        case Some((last, rest)) => Some((Epoch(gvas), last, rest))
  }

  /** The blocks at the start of `s`, numbered from `e`, up to the closing
      `}` of the object. */
  function ReadBlocks(e: nat, s: string): Option<seq<Epoch>>
    decreases |s|
  {
    if s == "}\n" then Some([])
    else
      match ReadBlock(e, s)
      case None => None
      case Some((epoch, last, rest)) =>
        if last then (if rest == "}\n" then Some([epoch]) else None)
        else
          match ReadBlocks(e + 1, rest)
          case None => None
          case Some(more) => if more == [] then None else Some([epoch] + more)
  }

  /** Reads an exported object back into its epochs. */
  function ReadJson(s: string): Option<seq<Epoch>> {
    if |s| >= 2 && s[..2] == "{\n" then ReadBlocks(0, s[2..]) else None
  }

  // ---------------------------------------------------------------------
  // Properties of the export

  /** An address key reads back as the address. */
  lemma KeyReadsBack(g: u64)
    ensures ParseHex(Key(g)[2..]) == g
  {
    assert Key(g)[2..] == Hex(g, 16);
    Pow16Values();
    ParseHexOfHex(g, 16);
    ModBelow(g, Pow16(16));
  }

  lemma ReadEntryOfEntry(g: u64, last: bool, rest: string)
    ensures ReadEntry(Entry(g, last) + rest) == Some((g, last, rest))
  {
    var t := Entry(g, last) + rest;
    assert t[..5] == "  \"0x";
    assert t[5..21] == Key(g)[2..];
    assert t[21..24] == "\":1";
    assert t[25..] == rest;
    KeyReadsBack(g);
  }

  /** Text after the entries that does not start with an entry. */
  predicate NoEntryAhead(rest: string) {
    |rest| >= 3 && rest[..3] == "  }"
  }

  lemma NoEntryRead(rest: string)
    requires NoEntryAhead(rest)
    ensures ReadEntry(rest).None?
  {
    assert rest[2] == rest[..3][2] == '}';
    if |rest| >= 25 {
      assert rest[..5][2] == '}';
    }
  }

  lemma ReadEntriesOfOne(gvas: seq<u64>, rest: string)
    requires |gvas| == 1
    ensures ReadEntries(Entries(gvas) + rest) == Some((gvas, rest))
  {
    assert Entries(gvas) == Entry(gvas[0], true);
    ReadEntryOfEntry(gvas[0], true, rest);
    assert [gvas[0]] == gvas;
  }

  lemma ReadEntriesOfCons(gvas: seq<u64>, rest: string)
    requires |gvas| >= 2 && ReadEntries(Entries(gvas[1..]) + rest) == Some((gvas[1..], rest))
    ensures ReadEntries(Entries(gvas) + rest) == Some((gvas, rest))
  {
    assert Entries(gvas) + rest == Entry(gvas[0], false) + (Entries(gvas[1..]) + rest);
    ReadEntryOfEntry(gvas[0], false, Entries(gvas[1..]) + rest);
    assert [gvas[0]] + gvas[1..] == gvas;
  }

  lemma {:induction false} ReadEntriesOfEntries(gvas: seq<u64>, rest: string)
    requires NoEntryAhead(rest)
    ensures ReadEntries(Entries(gvas) + rest) == Some((gvas, rest))
    decreases |gvas|
  {
    if gvas == [] {
      assert Entries(gvas) + rest == rest;
      NoEntryRead(rest);
    } else if |gvas| == 1 {
      ReadEntriesOfOne(gvas, rest);
    } else {
      ReadEntriesOfEntries(gvas[1..], rest);
      ReadEntriesOfCons(gvas, rest);
    }
  }

  lemma ReadHeaderOfHeader(e: nat, rest: string)
    ensures ReadHeader(e, "  \"" + Dec(e) + "\": {\n" + rest) == Some(rest)
  {
    var afterKey := "\": {\n" + rest;
    var s := "  \"" + Dec(e) + "\": {\n" + rest;
    assert s == "  \"" + (Dec(e) + afterKey);
    assert s[..3] == "  \"";
    assert s[3..] == Dec(e) + afterKey;
    ReadDigitsOfDec(e, afterKey);
    ParseDecOfDec(e);
    assert afterKey[..5] == "\": {\n";
    assert afterKey[5..] == rest;
  }

  lemma ReadCloserOfCloser(last: bool, rest: string)
    ensures ReadCloser((if last then "  }\n" else "  },\n") + rest) == Some((last, rest))
  {
    var s := (if last then "  }\n" else "  },\n") + rest;
    if last {
      assert s[..4] == "  }\n";
      assert s[4..] == rest;
    } else {
      assert s[..4] != "  }\n" by { assert s[3] == ','; }
      assert s[..5] == "  },\n";
      assert s[5..] == rest;
    }
  }

  lemma Concat4<T>(a: seq<T>, b: seq<T>, c: seq<T>, d: seq<T>)
    ensures a + b + c + d == a + (b + (c + d))
  {
  }

  lemma ReadBlockOfBlock(e: nat, epoch: Epoch, last: bool, tail: string)
    ensures ReadBlock(e, Block(e, epoch, last) + tail) == Some((epoch, last, tail))
  {
    var header := "  \"" + Dec(e) + "\": {\n";
    var closer := if last then "  }\n" else "  },\n";
    var afterEntries := closer + tail;
    var body := Entries(epoch.gvas) + afterEntries;
    Concat4(header, Entries(epoch.gvas), closer, tail);
    assert Block(e, epoch, last) + tail == header + body;
    ReadHeaderOfHeader(e, body);
    assert NoEntryAhead(afterEntries) by { assert afterEntries[..3] == "  }"; }
    ReadEntriesOfEntries(epoch.gvas, afterEntries);
    ReadCloserOfCloser(last, tail);
  }

  lemma ReadBlocksOfOne(e: nat, epochs: seq<Epoch>)
    requires |epochs| == 1
    ensures ReadBlocks(e, Blocks(e, epochs) + "}\n") == Some(epochs)
  {
    var s := Blocks(e, epochs) + "}\n";
    assert Blocks(e, epochs) == Block(e, epochs[0], true) + Blocks(e + 1, []);
    assert Blocks(e, epochs) == Block(e, epochs[0], true);
    ReadBlockOfBlock(e, epochs[0], true, "}\n");
    assert s != "}\n" by { assert s[0] == ' '; }
    assert [epochs[0]] == epochs;
  }

  /** One step of `ReadBlocks`: a block that is not the last, then more blocks. */
  lemma ReadBlocksStep(e: nat, block: string, tail: string, epoch: Epoch, more: seq<Epoch>)
    requires |block| > 2 && ReadBlock(e, block + tail) == Some((epoch, false, tail))
    requires ReadBlocks(e + 1, tail) == Some(more) && more != []
    ensures ReadBlocks(e, block + tail) == Some([epoch] + more)
  {
    assert |block + tail| > 2;
  }

  lemma BlockLength(e: nat, epoch: Epoch, last: bool)
    ensures |Block(e, epoch, last)| > 2
  {
  }

  /** A block that is not the last, followed by the rest and the closing brace. */
  lemma BlocksUnfold(e: nat, epochs: seq<Epoch>)
    requires |epochs| >= 2
    ensures Blocks(e, epochs) + "}\n" == Block(e, epochs[0], false) + (Blocks(e + 1, epochs[1..]) + "}\n")
  {
    var rest := Blocks(e + 1, epochs[1..]);
    assert Blocks(e, epochs) == Block(e, epochs[0], false) + rest;
    assert (Block(e, epochs[0], false) + rest) + "}\n" == Block(e, epochs[0], false) + (rest + "}\n");
  }

  lemma ReadBlocksOfCons(e: nat, epochs: seq<Epoch>)
    requires |epochs| >= 2 && ReadBlocks(e + 1, Blocks(e + 1, epochs[1..]) + "}\n") == Some(epochs[1..])
    ensures ReadBlocks(e, Blocks(e, epochs) + "}\n") == Some(epochs)
  {
    var block := Block(e, epochs[0], false);
    var tail := Blocks(e + 1, epochs[1..]) + "}\n";
    BlocksUnfold(e, epochs);
    BlockLength(e, epochs[0], false);
    ReadBlockOfBlock(e, epochs[0], false, tail);
    ReadBlocksStep(e, block, tail, epochs[0], epochs[1..]);
    ConsBack(epochs);
  }

  lemma ConsBack<T>(xs: seq<T>)
    requires xs != []
    ensures [xs[0]] + xs[1..] == xs
  {
  }

  lemma {:induction false} ReadBlocksOfBlocks(e: nat, epochs: seq<Epoch>)
    ensures ReadBlocks(e, Blocks(e, epochs) + "}\n") == Some(epochs)
    decreases |epochs|
  {
    if epochs == [] {
      assert Blocks(e, epochs) + "}\n" == "}\n";
    } else if |epochs| == 1 {
      ReadBlocksOfOne(e, epochs);
    } else {
      ReadBlocksOfBlocks(e + 1, epochs[1..]);
      ReadBlocksOfCons(e, epochs);
    }
  }

  /** The export is lossless: reading it back gives the epochs, each
      address and the epoch numbering included. */
  lemma ExportReadsBack(path: string, epochs: seq<Epoch>)
    ensures ReadJson(ExportJson(Some(path), epochs).value) == Some(epochs)
  {
    var body := Blocks(0, epochs) + "}\n";
    assert ExportJson(Some(path), epochs).value == "{\n" + body;
    assert ("{\n" + body)[2..] == body;
    ReadBlocksOfBlocks(0, epochs);
  }

  /** Characters 11 to 13 of an address key, the ones the dataset builder
      reads as the bucket index, hold bits 16 to 27 of the address. */
  lemma KeyBucket(g: u64)
    ensures TraceVector.Bucket(Key(g), TraceVector.DefaultLayout) == Ok(g / 0x1_0000 % 0x1000)
  {
    HexSplit(g, 12, 4);
    HexSplit(DropDigits(g, 4), 9, 3);
    var hi := Hex(DropDigits(DropDigits(g, 4), 3), 9);
    var mid := Hex(DropDigits(g, 4), 3);
    assert Hex(g, 16) == hi + mid + Hex(g, 4);
    assert Key(g)[11..14] == mid;
    assert TraceVector.BucketText(Key(g), 11, 3) == mid;
    ParseHexOfHex(DropDigits(g, 4), 3);
    DropDigitsDiv(g, 4);
    Pow16Values();
  }
}
