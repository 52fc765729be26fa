/** A scan of one component: the block loop of `stbi__parse_entropy_coded_data`, and that it returns every
    image of blocks that was entropy coded. */
module JScan {
  import opened Widths
  import opened Bits
  import opened BitWriter
  import Canonical
  import JTables
  import JBuild
  import JLookup
  import opened JReading
  import opened JBlocks
  import opened JEncode

  /** What a scan is decoded with: the code lengths and values of its two tables, and the quantizer. */
  datatype Setup = Setup(dcLens: seq<nat>, dcVals: seq<nat>, lens: seq<nat>, vals: seq<nat>, dequant: seq<int>)

  ghost predicate GoodSetup(s: Setup) {
    GoodTable(s.dcLens, s.dcVals) && GoodTable(s.lens, s.vals) && |s.dequant| == 64
  }

  // ----- one block -----

  /** The block can be coded: its symbols have codes, and its numbers are in range. */
  predicate CanCode(s: Setup, zz: seq<int>, pred: int) {
    && |zz| == |s.dequant| == 64 && Abs(zz[0] - pred) < 32768 && Small(zz, 1)
    && INT_MIN <= zz[0] <= INT_MAX && -32768 <= zz[0] * s.dequant[0] <= 32767
    && HasAll(s.dcLens, s.dcVals, [DcEntry(zz[0] - pred)]) && HasAll(s.lens, s.vals, AcEntries(zz, 1))
  }

  function BlockBits(s: Setup, zz: seq<int>, pred: int): bits
    requires CanCode(s, zz, pred)
  {
    EntriesBits(s.dcLens, s.dcVals, [DcEntry(zz[0] - pred)]) + EntriesBits(s.lens, s.vals, AcEntries(zz, 1))
  }

  lemma DcDecoded(lens: seq<nat>, vals: seq<nat>, v: int, pred: int, total: seq<byte>, pos: nat)
    requires GoodTable(lens, vals) && Abs(v - pred) < 32768 && INT_MIN <= v <= INT_MAX && HasAll(lens, vals, [DcEntry(v - pred)])
    requires Stands(total, pos, EntriesBits(lens, vals, [DcEntry(v - pred)]))
    ensures AcTable(lens, vals)
    ensures DcRef(lens, vals, total, pos, pred) == Dc(v, pos + |EntriesBits(lens, vals, [DcEntry(v - pred)])|)
  {
    hide Stands, GoodTable, Has, EntriesBits, Category, Extend, Magnitude, JSymbolAt;
    var es := [DcEntry(v - pred)];
    TableOf(lens, vals);
    EntryRead(lens, vals, es, total, pos);
    assert es[1..] == [];
    NoBits(lens, vals);
    SmallCategory(v - pred);
    MagnitudeRead(v - pred, total, pos + lens[JSymbolAt(lens, total, pos)]);
  }

  lemma BlockDecoded(s: Setup, zz: seq<int>, pred: int, total: seq<byte>, pos: nat)
    requires GoodSetup(s) && CanCode(s, zz, pred) && Stands(total, pos, BlockBits(s, zz, pred))
    ensures AcTable(s.dcLens, s.dcVals) && AcTable(s.lens, s.vals)
    ensures BlockRef(s.dcLens, s.dcVals, s.lens, s.vals, s.dequant, total, pos, pred)
      == Ref(Dequantized(zz, s.dequant), pos + |BlockBits(s, zz, pred)|)
    ensures var d := DcRef(s.dcLens, s.dcVals, total, pos, pred); d == Dc(zz[0], d.next)
  {
    hide Stands, GoodTable, HasAll, EntriesBits, AcEntries, DcRef, AcRef, Put, Dequantized, DcEntry;
    TableOf(s.dcLens, s.dcVals);
    TableOf(s.lens, s.vals);
    var a, b := EntriesBits(s.dcLens, s.dcVals, [DcEntry(zz[0] - pred)]), EntriesBits(s.lens, s.vals, AcEntries(zz, 1));
    StandsParts(total, pos, a, b);
    DcDecoded(s.dcLens, s.dcVals, zz[0], pred, total, pos);
    AcDecoded(s.lens, s.vals, s.dequant, zz, 1, total, pos + |a|, OnlyDc(zz[0] * s.dequant[0]));
    PutAll(zz, s.dequant);
  }

  // ----- all blocks -----

  datatype Scan = BadScan(pos: nat) | Scan(blocks: seq<seq<int>>, pos: nat)

  function PrependBlocks(first: seq<seq<int>>, r: Scan): Scan {
    if r.BadScan? then r else Scan(first + r.blocks, r.pos)
  }

  /** `n` blocks one after another; each DC coefficient predicts the next. */
  ghost function ScanRef(s: Setup, total: seq<byte>, pos: nat, pred: int, n: nat): Scan
    requires AcTable(s.dcLens, s.dcVals) && AcTable(s.lens, s.vals) && |s.dequant| == 64
    decreases n
  {
    if n == 0 then Scan([], pos)
    else
      var r := BlockRef(s.dcLens, s.dcVals, s.lens, s.vals, s.dequant, total, pos, pred);
      if r.BadRef? then BadScan(r.pos)
      else PrependBlocks([r.coeffs], ScanRef(s, total, r.pos, DcRef(s.dcLens, s.dcVals, total, pos, pred).value, n - 1))
  }

  lemma BlockLater(s: Setup, total: seq<byte>, pos: nat, pred: int)
    requires AcTable(s.dcLens, s.dcVals) && AcTable(s.lens, s.vals) && |s.dequant| == 64
    ensures BlockRef(s.dcLens, s.dcVals, s.lens, s.vals, s.dequant, total, pos, pred).pos >= pos
  {
    hide AcRef, JSymbolAt, Extend;
  }

  lemma {:induction false} ScanLater(s: Setup, total: seq<byte>, pos: nat, pred: int, n: nat)
    requires AcTable(s.dcLens, s.dcVals) && AcTable(s.lens, s.vals) && |s.dequant| == 64
    ensures ScanRef(s, total, pos, pred, n).pos >= pos
    ensures n > 0 ==>
      ScanRef(s, total, pos, pred, n).pos >= BlockRef(s.dcLens, s.dcVals, s.lens, s.vals, s.dequant, total, pos, pred).pos
    decreases n
  {
    hide AcRef, DcRef;
    if n > 0 {
      BlockLater(s, total, pos, pred);
      var r := BlockRef(s.dcLens, s.dcVals, s.lens, s.vals, s.dequant, total, pos, pred);
      if r.Ref? {
        ScanLater(s, total, r.pos, DcRef(s.dcLens, s.dcVals, total, pos, pred).value, n - 1);
      }
    }
  }

  /** The blocks so far and what the reference makes of the rest are all blocks. */
  ghost predicate Underway(s: Setup, total: seq<byte>, start: nat, n: nat, blocks: seq<seq<int>>, pos: nat, pred: int)
    requires AcTable(s.dcLens, s.dcVals) && AcTable(s.lens, s.vals) && |s.dequant| == 64
  {
    |blocks| <= n && ScanRef(s, total, start, 0, n) == PrependBlocks(blocks, ScanRef(s, total, pos, pred, n - |blocks|))
  }

  /** One block further, or the end. */
  lemma NextBlock(s: Setup, total: seq<byte>, start: nat, n: nat, blocks: seq<seq<int>>, pos: nat, pred: int)
    requires AcTable(s.dcLens, s.dcVals) && AcTable(s.lens, s.vals) && |s.dequant| == 64
    requires Underway(s, total, start, n, blocks, pos, pred) && |blocks| < n
    ensures var r := BlockRef(s.dcLens, s.dcVals, s.lens, s.vals, s.dequant, total, pos, pred);
      && r.pos <= ScanRef(s, total, start, 0, n).pos
      && (r.BadRef? ==> ScanRef(s, total, start, 0, n).BadScan?)
      && (r.Ref? ==> Underway(s, total, start, n, blocks + [r.coeffs], r.pos, DcRef(s.dcLens, s.dcVals, total, pos, pred).value))
  {
    hide AcRef, DcRef;
    var m := n - |blocks|;
    ScanLater(s, total, pos, pred, m);
    var r := BlockRef(s.dcLens, s.dcVals, s.lens, s.vals, s.dequant, total, pos, pred);
    if r.Ref? {
      var rest := ScanRef(s, total, r.pos, DcRef(s.dcLens, s.dcVals, total, pos, pred).value, m - 1);
      if rest.Scan? { assert blocks + ([r.coeffs] + rest.blocks) == blocks + [r.coeffs] + rest.blocks; }
    }
  }

  /** The tables are those of the setup. */
  ghost predicate Uses(s: Setup, hdc: JBuild.JHuffman, hac: JBuild.JHuffman, fac: array<int>)
    reads hdc.Repr, hac.Repr, fac
  {
    && hdc.Built(s.dcLens) && hdc.values[..] == s.dcVals && AcTable(s.dcLens, s.dcVals)
    && hac.Built(s.lens) && hac.values[..] == s.vals && AcTable(s.lens, s.vals)
    && FastAcTable(s.lens, s.vals, fac[..]) && |s.dequant| == 64
  }

  /** The blocks are the reference's, or both fail, if the tables are usable and the scan is long enough. */
  ghost predicate Matches(s: Setup, total: seq<byte>, start: nat, n: nat, ok: bool, blocks: seq<seq<int>>) {
    && AcTable(s.dcLens, s.dcVals) && AcTable(s.lens, s.vals) && |s.dequant| == 64
    && (JLookup.Usable(s.dcLens) && JLookup.Usable(s.lens) ==>
      var r := ScanRef(s, total, start, 0, n);
      r.pos <= 8 * |total| ==> (ok <==> r.Scan?) && (ok ==> blocks == r.blocks))
  }

  /** The blocks of a component of `w` by `h` blocks.  With usable tables, and while the reference stays
      within the scan, they are the reference's. */
  method DecodeScan(j: JReader, hdc: JBuild.JHuffman, hac: JBuild.JHuffman, fac: array<int>, dequant: seq<int>, w: nat, h: nat,
                    ghost s: Setup) returns (ok: bool, blocks: seq<seq<int>>)
    requires j.Valid() && Uses(s, hdc, hac, fac) && s.dequant == dequant
    requires |dequant| == 64 && forall k :: 0 <= k < 64 ==> 0 <= dequant[k] < 65536
    modifies j
    ensures Matches(s, j.total, old(j.pos), Area(w, h), ok, blocks)
  {
    hide ScanRef, JReader.Valid, JBuild.JHuffman.Lengths, JBuild.JHuffman.Fast, JBuild.JHuffman.Sizes, Canonical.Kraft;
    hide FastAcTable, AcRef, DcRef, BlockClear, Underway;
    ghost var start, n := j.pos, Area(w, h);
    ghost var r := ScanRef(s, j.total, start, 0, n);
    ghost var clear := JLookup.Usable(s.dcLens) && JLookup.Usable(s.lens) && r.pos <= 8 * |j.total|;
    var data, pred := new int[64], 0;
    ok, blocks := true, [];
    UnderwayStart(s, j.total, start, n);
    for y := 0 to h
      invariant j.Valid() && Uses(s, hdc, hac, fac) && ok && INT_MIN <= pred <= INT_MAX
      invariant |blocks| == y * w && (clear ==> Underway(s, j.total, start, n, blocks, j.pos, pred))
    {
      RowFits(y, w, h);
      for x := 0 to w
        invariant j.Valid() && Uses(s, hdc, hac, fac) && ok && INT_MIN <= pred <= INT_MAX
        invariant |blocks| == y * w + x && (clear ==> Underway(s, j.total, start, n, blocks, j.pos, pred))
      {
        if clear {
          NextBlock(s, j.total, start, n, blocks, j.pos, pred);
          UsableIsClear(s.dcLens, s.dcVals, s.lens, s.vals, j.total, j.pos, pred);
        }
        ok, pred := DecodeBlock(j, hdc, s.dcLens, hac, s.lens, fac, data, dequant, pred);
        if !ok {
          return;
        }
        blocks := blocks + [data[..]];
      }
    }
    if clear { UnderwayEnd(s, j.total, start, n, blocks, j.pos, pred); }
  }

  function Area(w: nat, h: nat): nat {
    w * h
  }

  lemma RowFits(y: nat, w: nat, h: nat)
    requires y < h
    ensures (y + 1) * w == y * w + w <= w * h
  {
    MulMono(w, y + 1, h);
  }

  lemma UnderwayStart(s: Setup, total: seq<byte>, start: nat, n: nat)
    requires AcTable(s.dcLens, s.dcVals) && AcTable(s.lens, s.vals) && |s.dequant| == 64
    ensures Underway(s, total, start, n, [], start, 0)
  {
    hide ScanRef;
    var r := ScanRef(s, total, start, 0, n);
    if r.Scan? { assert [] + r.blocks == r.blocks; }
  }

  lemma UnderwayEnd(s: Setup, total: seq<byte>, start: nat, n: nat, blocks: seq<seq<int>>, pos: nat, pred: int)
    requires AcTable(s.dcLens, s.dcVals) && AcTable(s.lens, s.vals) && |s.dequant| == 64
    requires Underway(s, total, start, n, blocks, pos, pred) && |blocks| == n
    ensures ScanRef(s, total, start, 0, n) == Scan(blocks, pos)
  {
    assert blocks + [] == blocks;
  }

  // ----- coded scans -----

  predicate CanCodeAll(s: Setup, images: seq<seq<int>>, pred: int)
    decreases |images|
  {
    images != [] ==> CanCode(s, images[0], pred) && CanCodeAll(s, images[1..], images[0][0])
  }

  function ScanBits(s: Setup, images: seq<seq<int>>, pred: int): bits
    requires CanCodeAll(s, images, pred)
    decreases |images|
  {
    if images == [] then [] else BlockBits(s, images[0], pred) + ScanBits(s, images[1..], images[0][0])
  }

  function DequantizedAll(images: seq<seq<int>>, dequant: seq<int>): seq<seq<int>>
    requires |dequant| == 64 && forall k :: 0 <= k < |images| ==> |images[k]| == 64
  {
    if images == [] then [] else [Dequantized(images[0], dequant)] + DequantizedAll(images[1..], dequant)
  }

  lemma {:induction false} Sizes(s: Setup, images: seq<seq<int>>, pred: int)
    requires CanCodeAll(s, images, pred)
    ensures forall k :: 0 <= k < |images| ==> |images[k]| == 64
    decreases |images|
  {
    hide HasAll, AcEntries;
    if images != [] { Sizes(s, images[1..], images[0][0]); }
  }

  lemma {:induction false} ScanDecoded(s: Setup, images: seq<seq<int>>, pred: int, total: seq<byte>, pos: nat)
    requires GoodSetup(s) && CanCodeAll(s, images, pred) && Stands(total, pos, ScanBits(s, images, pred))
    ensures AcTable(s.dcLens, s.dcVals) && AcTable(s.lens, s.vals)
    ensures forall k :: 0 <= k < |images| ==> |images[k]| == 64
    ensures ScanRef(s, total, pos, pred, |images|) == Scan(DequantizedAll(images, s.dequant), pos + |ScanBits(s, images, pred)|)
    decreases |images|
  {
    hide Stands, GoodTable, HasAll, AcEntries, BlockBits, BlockRef, DcRef, Dequantized;
    TableOf(s.dcLens, s.dcVals);
    TableOf(s.lens, s.vals);
    Sizes(s, images, pred);
    if images != [] {
      var a := BlockBits(s, images[0], pred);
      StandsParts(total, pos, a, ScanBits(s, images[1..], images[0][0]));
      BlockDecoded(s, images[0], pred, total, pos);
      ScanDecoded(s, images[1..], images[0][0], total, pos + |a|);
    }
  }

  /** The values of a table, all 256 of them. */
  function Values(vals: seq<byte>): (r: seq<nat>)
    ensures |r| == 256 && forall i :: 0 <= i < 256 ==> r[i] < 256
  {
    seq(256, i requires 0 <= i => if i < |vals| then vals[i] as nat else 0)
  }

  ghost predicate Accepted(count: seq<nat>) {
    |count| == 16 && |JTables.SizeList(count)| <= 256 && (JTables.SizeListSorted(count, 16); Canonical.Kraft(JTables.SizeList(count), 16))
  }

  /** A table from its counts and values (section B.2.4.2). */
  method MakeTable(count: seq<nat>, vals: seq<byte>) returns (h: JBuild.JHuffman)
    requires Accepted(count)
    ensures fresh(h) && fresh(h.Repr) && h.Built(JTables.SizeList(count)) && h.values[..] == Values(vals)
  {
    h := new JBuild.JHuffman();
    for i := 0 to 256
      invariant h.Shape() && forall k :: 0 <= k < i ==> h.values[k] == Values(vals)[k]
      modifies h.values
    {
      h.values[i] := if i < |vals| then vals[i] as nat else 0;
    }
    assert h.values[..] == Values(vals);
    var ok := h.Build(count);
  }

  function SetupOf(dcCount: seq<nat>, dcVals: seq<byte>, count: seq<nat>, vals: seq<byte>, dequant: seq<int>): Setup {
    Setup(JTables.SizeList(dcCount), Values(dcVals), JTables.SizeList(count), Values(vals), dequant)
  }

  lemma SetupGood(dcCount: seq<nat>, dcVals: seq<byte>, count: seq<nat>, vals: seq<byte>, dequant: seq<int>)
    requires Accepted(dcCount) && Accepted(count) && |dequant| == 64
    ensures GoodSetup(SetupOf(dcCount, dcVals, count, vals, dequant))
  {
    hide JTables.SizeListTo, Canonical.Kraft;
    JTables.SizeListSorted(dcCount, 16);
    JTables.SizeListSorted(count, 16);
  }

  /** Coding blocks, filling up and stuffing the bytes, and decoding them gives the blocks back, times the
      quantizer: for all tables that can be used and have the codes, all blocks, and whatever marker follows. */
  method RoundTrip(dcCount: seq<nat>, dcVals: seq<byte>, count: seq<nat>, vals: seq<byte>, dequant: seq<int>,
                   images: seq<seq<int>>, w: nat, h: nat, tail: seq<byte>) returns (ok: bool, blocks: seq<seq<int>>)
    requires Accepted(dcCount) && Accepted(count) && |dequant| == 64 && forall k :: 0 <= k < 64 ==> 0 <= dequant[k] < 65536
    requires JLookup.Usable(JTables.SizeList(dcCount)) && JLookup.Usable(JTables.SizeList(count))
    requires |images| == w * h && CanCodeAll(SetupOf(dcCount, dcVals, count, vals, dequant), images, 0) && EndsScan(tail)
    ensures forall k :: 0 <= k < |images| ==> |images[k]| == 64
    ensures ok && blocks == DequantizedAll(images, dequant)
  {
    hide Accepted, CanCodeAll, ScanBits, GoodTable, JReader.Valid, ScanRef, Stands, Entropy, EndsScan, Filled;
    hide ScanBytes, Stuffed, DequantizedAll;
    hide AcEntry, Canonical.Kraft, JBuild.JHuffman.Lengths, JBuild.JHuffman.Fast, JBuild.JHuffman.Sizes, JTables.SizeListTo, Values;
    var s := SetupOf(dcCount, dcVals, count, vals, dequant);
    SetupGood(dcCount, dcVals, count, vals, dequant);
    TableOf(s.dcLens, s.dcVals);
    TableOf(s.lens, s.vals);
    Sizes(s, images, 0);
    var bits := ScanBits(s, images, 0);
    var bytes := ScanBytes(Filled(bits));
    FilledStands(bits);
    EntropyStuffed([], bytes, tail);
    assert [] + Stuffed(bytes) == Stuffed(bytes);
    var hdc := MakeTable(dcCount, dcVals);
    var hac := MakeTable(count, vals);
    var fac := BuildFastAc(hac, s.lens);
    var j := new JReader(Stuffed(bytes) + tail);
    ScanDecoded(s, images, 0, bytes, 0);
    ok, blocks := DecodeScan(j, hdc, hac, fac, dequant, w, h, s);
  }
}
