/** Entropy coding of quantized blocks, written out from section F.1.2 of ITU-T T.81: categories and
    magnitudes, runs of zeros, end of block, and bytes with stuffing.  Whatever it encodes, the decoder
    returns. */
module JEncode {
  import opened Bits
  import opened Canonical
  import opened BitWriter
  import opened JStream
  import JTables
  import JLookup
  import opened JReading
  import opened JBlocks
  import Zigzag

  // ----- bits to bytes -----

  /** The number that bits spell, the first one most significant. */
  function WordValue(s: bits): nat {
    if s == [] then 0 else 2 * WordValue(s[..|s| - 1]) + Bit(s[|s| - 1])
  }

  lemma {:induction false} WordValueBound(s: bits)
    ensures WordValue(s) < Pow2(|s|)
    decreases |s|
  {
    if s != [] { WordValueBound(s[..|s| - 1]); }
  }

  lemma {:induction false} WordValueBit(s: bits, i: nat)
    requires i < |s|
    ensures BitAt(WordValue(s), |s| - 1 - i) == Bit(s[i])
    decreases |s|
  {
    var n := |s| - 1;
    var v := WordValue(s);
    assert v % 2 == Bit(s[n]) && v / 2 == WordValue(s[..n]);
    if i < n { WordValueBit(s[..n], i); }
  }

  function ScanByte(s: bits): byte
    requires |s| == 8
  {
    WordValueBound(s);
    Pow2Values();
    WordValue(s)
  }

  /** Eight bits to a byte, the first most significant. */
  function ScanBytes(s: bits): (r: seq<byte>)
    requires |s| % 8 == 0
    ensures 8 * |r| == |s|
    decreases |s|
  {
    if s == [] then [] else [ScanByte(s[..8])] + ScanBytes(s[8..])
  }

  /** Section F.1.2.3: incomplete bytes are filled with ones. */
  function Filled(s: bits): (r: bits)
    ensures |r| % 8 == 0 && s <= r
  {
    s + seq((8 - |s| % 8) % 8, _ => true)
  }

  /** Section F.1.2.3: a zero byte follows every FF. */
  function Stuffed(b: seq<byte>): seq<byte> {
    if b == [] then [] else (if b[0] == 0xFF then [0xFF, 0] else [b[0]]) + Stuffed(b[1..])
  }

  /** Nothing, or a marker, ends the scan. */
  predicate EndsScan(tail: seq<byte>) {
    tail == [] || (|tail| >= 2 && tail[0] == 0xFF && 0 < tail[1] < 0xFF)
  }

  lemma {:induction false} EntropyStuffed(before: seq<byte>, b: seq<byte>, tail: seq<byte>)
    requires EndsScan(tail)
    ensures Entropy(before + Stuffed(b) + tail, |before|) == b
    decreases |b|
  {
    hide Entropy, EndsScan, Stuffed;
    StuffedStep(b);
    if b == [] {
      assert before + Stuffed(b) + tail == before + tail;
      EntropyEnds(before, tail);
    } else {
      var first, more := if b[0] == 0xFF then [0xFF, 0] else [b[0]], Stuffed(b[1..]);
      EntropyStuffed(before + first, b[1..], tail);
      EntropyStep(before, b[0], more + tail);
      Regroup(before, first, more, tail);
    }
  }

  lemma StuffedStep(b: seq<byte>)
    ensures Stuffed(b) == if b == [] then [] else (if b[0] == 0xFF then [0xFF, 0] else [b[0]]) + Stuffed(b[1..])
  {
  }

  lemma Regroup(a: seq<byte>, b: seq<byte>, c: seq<byte>, d: seq<byte>)
    ensures a + (b + c) + d == a + b + (c + d) == a + b + c + d && |a + b| == |a| + |b|
  {
  }

  lemma EntropyEnds(before: seq<byte>, tail: seq<byte>)
    requires EndsScan(tail)
    ensures Entropy(before + tail, |before|) == []
  {
  }

  lemma EntropyStep(before: seq<byte>, b: byte, rest: seq<byte>)
    ensures var first := if b == 0xFF then [0xFF, 0] else [b];
      Entropy(before + first + rest, |before|) == [b] + Entropy(before + first + rest, |before| + |first|)
  {
    var scan, i := before + (if b == 0xFF then [0xFF, 0] else [b]) + rest, |before|;
    assert scan[i] == b;
    if b == 0xFF {
      assert scan[i + 1] == 0;
      assert SkipFill(scan, i + 1) == i + 1;
    }
  }

  lemma NextScanByte(b: byte, rest: seq<byte>, i: nat)
    ensures i < 8 ==> ScanBit([b] + rest, i) == BitAt(b, 7 - i)
    ensures i >= 8 ==> ScanBit([b] + rest, i) == ScanBit(rest, i - 8)
  {
    hide BitAt;
    if i >= 8 {
      var q, r := i / 8, i % 8;
      assert (i - 8) / 8 == q - 1 && (i - 8) % 8 == r;
    }
  }

  lemma {:induction false} ScanBytesBit(s: bits, i: nat)
    requires |s| % 8 == 0 && i < |s|
    ensures ScanBit(ScanBytes(s), i) == Bit(s[i])
    decreases |s|
  {
    hide ScanBit, WordValue, BitAt;
    NextScanByte(ScanByte(s[..8]), ScanBytes(s[8..]), i);
    if i < 8 {
      WordValueBit(s[..8], i);
    } else {
      ScanBytesBit(s[8..], i - 8);
    }
  }

  /** The bits stand in the entropy-coded data from `pos` on. */
  ghost predicate Stands(data: seq<byte>, pos: nat, s: bits) {
    forall i :: 0 <= i < |s| ==> ScanBit(data, pos + i) == Bit(s[i])
  }

  lemma StandsParts(data: seq<byte>, pos: nat, a: bits, b: bits)
    requires Stands(data, pos, a + b)
    ensures Stands(data, pos, a) && Stands(data, pos + |a|, b)
  {
    hide ScanBit;
    forall i | 0 <= i < |a| ensures ScanBit(data, pos + i) == Bit(a[i]) {
      assert (a + b)[i] == a[i];
    }
    forall i | 0 <= i < |b| ensures ScanBit(data, pos + |a| + i) == Bit(b[i]) {
      assert (a + b)[|a| + i] == b[i];
      assert pos + |a| + i == pos + (|a| + i);
    }
  }

  lemma FilledStands(s: bits)
    ensures Stands(ScanBytes(Filled(s)), 0, s) && |s| <= 8 * |ScanBytes(Filled(s))|
  {
    hide ScanBit, ScanBytes, Filled;
    var r := Filled(s);
    forall i | 0 <= i < |s| ensures ScanBit(ScanBytes(r), 0 + i) == Bit(s[i]) {
      ScanBytesBit(r, i);
    }
  }

  lemma {:induction false} WordScanned(data: seq<byte>, pos: nat, v: nat, n: nat)
    requires Stands(data, pos, Word(v, n)) && v < Pow2(n)
    ensures Msb(data, pos, n) == v
    decreases n
  {
    hide ScanBit;
    if n > 0 {
      StandsParts(data, pos, Word(v / 2, n - 1), [v % 2 == 1]);
      assert ScanBit(data, pos + (n - 1) + 0) == Bit([v % 2 == 1][0]);
      WordScanned(data, pos, v / 2, n - 1);
    }
  }

  // ----- symbols -----

  /** Where the table has a value, or `n` if it is not among the first `n`. */
  function IndexOf(vals: seq<nat>, n: nat, v: nat): (i: nat)
    requires n <= |vals|
    ensures i <= n && (i < n ==> vals[i] == v)
  {
    if n == 0 then 0
    else
      var i := IndexOf(vals, n - 1, v);
      if i < n - 1 || vals[n - 1] == v then i else n
  }

  /** The table has a code for the value. */
  predicate Has(lens: seq<nat>, vals: seq<nat>, v: nat) {
    |lens| <= |vals| && IndexOf(vals, |lens|, v) < |lens|
  }

  function SymbolBits(lens: seq<nat>, vals: seq<nat>, v: nat): bits
    requires Has(lens, vals, v)
  {
    var i := IndexOf(vals, |lens|, v);
    Word(Code(lens, i), lens[i])
  }

  ghost predicate GoodTable(lens: seq<nat>, vals: seq<nat>) {
    AcTable(lens, vals) && Kraft(lens, MAX_BITS) && JTables.Positive(lens)
  }

  lemma SymbolRead(lens: seq<nat>, vals: seq<nat>, v: nat, total: seq<byte>, pos: nat)
    requires GoodTable(lens, vals) && Has(lens, vals, v) && Stands(total, pos, SymbolBits(lens, vals, v))
    ensures var i := JSymbolAt(lens, total, pos); i >= 0 && vals[i] == v && lens[i] == |SymbolBits(lens, vals, v)|
  {
    hide Code, Kraft, Msb, Stands, JLookup.SymbolOf, Shr;
    var i := IndexOf(vals, |lens|, v);
    CodeFits(lens, MAX_BITS, i);
    WordScanned(total, pos, Code(lens, i), lens[i]);
    MsbTake(total, pos, lens[i], MAX_BITS - lens[i]);
    JLookup.SymbolOfIs(lens, i, Msb(total, pos, MAX_BITS));
  }

  // ----- magnitudes -----

  function Abs(v: int): nat {
    if v < 0 then -v else v
  }

  /** How many bits a magnitude takes (Table F.1). */
  function Category(a: nat): nat {
    if a == 0 then 0 else 1 + Category(a / 2)
  }

  lemma {:induction false} CategoryIs(a: nat)
    ensures a < Pow2(Category(a)) && (Category(a) == 0 <==> a == 0) && (a > 0 ==> Pow2(Category(a) - 1) <= a)
  {
    if a > 0 { CategoryIs(a / 2); }
  }

  /** Section F.1.2.1: the low bits of a positive value, or of a negative value less one. */
  function Magnitude(v: int): bits {
    var s := Category(Abs(v));
    CategoryIs(Abs(v));
    Word(if v >= 0 then v else v - 1 + Pow2(s), s)
  }

  lemma MagnitudeRead(v: int, total: seq<byte>, pos: nat)
    requires Stands(total, pos, Magnitude(v))
    ensures var s := Category(Abs(v)); Extend(Msb(total, pos, s), s) == v && |Magnitude(v)| == s
  {
    hide Stands, Msb, Category, Pow2, Word;
    var s := Category(Abs(v));
    CategoryIs(Abs(v));
    var m := if v >= 0 then v else v - 1 + Pow2(s);
    assert Magnitude(v) == Word(m, s);
    HalfPower(s);
    WordScanned(total, pos, m, s);
  }

  lemma HalfPower(s: nat)
    ensures s > 0 ==> Pow2(s) == 2 * Pow2(s - 1)
  {
  }

  // ----- coefficients -----

  /** A symbol and the bits after it. */
  datatype Entry = Entry(symbol: nat, extra: bits)

  function ZeroRun(zz: seq<int>, k: nat): (r: nat)
    requires k <= |zz|
    ensures k + r <= |zz| && (forall i :: k <= i < k + r ==> zz[i] == 0) && (k + r < |zz| ==> zz[k + r] != 0)
    decreases |zz| - k
  {
    if k == |zz| || zz[k] != 0 then 0 else 1 + ZeroRun(zz, k + 1)
  }

  /** Section F.1.2.2: coefficients from the `k`-th on, in zigzag order.  A run of at most 15 zeros and a
      coefficient are one symbol; sixteen zeros before one are F0; zeros up to the end are 00. */
  function AcEntries(zz: seq<int>, k: nat): seq<Entry>
    requires |zz| == 64 && k <= 64
    decreases 64 - k
  {
    if k == 64 then []
    else
      var r := ZeroRun(zz, k);
      if k + r == 64 then [Entry(0x00, [])]
      else if r >= 16 then [Entry(0xF0, [])] + AcEntries(zz, k + 16)
      else [Entry(16 * r + Category(Abs(zz[k + r])), Magnitude(zz[k + r]))] + AcEntries(zz, k + r + 1)
  }

  /** Section F.1.2.1: the difference to the coefficient before. */
  function DcEntry(diff: int): Entry {
    Entry(Category(Abs(diff)), Magnitude(diff))
  }

  predicate HasAll(lens: seq<nat>, vals: seq<nat>, es: seq<Entry>) {
    forall i :: 0 <= i < |es| ==> Has(lens, vals, es[i].symbol)
  }

  function EntriesBits(lens: seq<nat>, vals: seq<nat>, es: seq<Entry>): bits
    requires HasAll(lens, vals, es)
  {
    if es == [] then [] else SymbolBits(lens, vals, es[0].symbol) + es[0].extra + EntriesBits(lens, vals, es[1..])
  }

  // ----- they are read back -----

  /** Puts the coefficients from the `k`-th on in their places. */
  ghost function Put(zz: seq<int>, dequant: seq<int>, k: nat, data: seq<int>): seq<int>
    requires |zz| == |dequant| == |data| == 64 && k <= 64
    decreases 64 - k
  {
    if k == 64 then data else Put(zz, dequant, k + 1, if zz[k] == 0 then data else SetCoef(data, dequant, k, zz[k]))
  }

  lemma {:induction false} PutZeros(zz: seq<int>, dequant: seq<int>, k: nat, r: nat, data: seq<int>)
    requires |zz| == |dequant| == |data| == 64 && k + r <= 64 && forall i :: k <= i < k + r ==> zz[i] == 0
    ensures Put(zz, dequant, k, data) == Put(zz, dequant, k + r, data)
    decreases r
  {
    hide SetCoef;
    if r > 0 { PutZeros(zz, dequant, k + 1, r - 1, data); }
  }

  /** Categories fit in four bits. */
  predicate Small(zz: seq<int>, k: nat) {
    forall i :: k <= i < |zz| ==> Abs(zz[i]) < 32768
  }

  lemma SmallCategory(v: int)
    requires Abs(v) < 32768
    ensures Category(Abs(v)) <= 15 && (v != 0 ==> Category(Abs(v)) > 0)
  {
    hide Category;
    var s := Category(Abs(v));
    CategoryIs(Abs(v));
    if s > 15 {
      Pow2Mono(15, s - 1);
      Pow2Values();
    }
  }

  /** The first of the entries. */
  lemma EntryRead(lens: seq<nat>, vals: seq<nat>, es: seq<Entry>, total: seq<byte>, pos: nat)
    requires GoodTable(lens, vals) && es != [] && HasAll(lens, vals, es) && Stands(total, pos, EntriesBits(lens, vals, es))
    ensures var i := JSymbolAt(lens, total, pos);
      && i >= 0 && vals[i] == es[0].symbol
      && Stands(total, pos + lens[i], es[0].extra)
      && Stands(total, pos + lens[i] + |es[0].extra|, EntriesBits(lens, vals, es[1..]))
      && |EntriesBits(lens, vals, es)| == lens[i] + |es[0].extra| + |EntriesBits(lens, vals, es[1..])|
  {
    hide Stands, SymbolBits, GoodTable, Has;
    var a, b, rest := SymbolBits(lens, vals, es[0].symbol), es[0].extra, EntriesBits(lens, vals, es[1..]);
    StandsParts(total, pos, a + b, rest);
    StandsParts(total, pos, a, b);
    SymbolRead(lens, vals, es[0].symbol, total, pos);
    TableOf(lens, vals);
  }

  lemma TableOf(lens: seq<nat>, vals: seq<nat>)
    requires GoodTable(lens, vals)
    ensures AcTable(lens, vals)
  {
  }

  /** One step of the reference on the first of the entries. */
  lemma AcItemRead(lens: seq<nat>, vals: seq<nat>, es: seq<Entry>, r: nat, v: int, total: seq<byte>, pos: nat)
    requires GoodTable(lens, vals) && es != [] && HasAll(lens, vals, es) && Stands(total, pos, EntriesBits(lens, vals, es))
    requires es[0] == Entry(16 * r + Category(Abs(v)), Magnitude(v)) && r <= 15 && v != 0 && Abs(v) < 32768
    ensures AcTable(lens, vals)
    ensures var next := pos + |EntriesBits(lens, vals, es)| - |EntriesBits(lens, vals, es[1..])|;
      AcAt(lens, vals, total, pos) == AcRead(AcCoef(r, v), next) && Stands(total, next, EntriesBits(lens, vals, es[1..]))
  {
    hide Stands, GoodTable, Has, EntriesBits, Msb, Category, Extend, Magnitude, JSymbolAt;
    EntryRead(lens, vals, es, total, pos);
    TableOf(lens, vals);
    SmallCategory(v);
    var i := JSymbolAt(lens, total, pos);
    MagnitudeRead(v, total, pos + lens[i]);
    assert vals[i] % 16 == Category(Abs(v)) && vals[i] / 16 == r;
  }

  lemma AcMarkRead(lens: seq<nat>, vals: seq<nat>, es: seq<Entry>, total: seq<byte>, pos: nat)
    requires GoodTable(lens, vals) && es != [] && HasAll(lens, vals, es) && Stands(total, pos, EntriesBits(lens, vals, es))
    requires es[0] == Entry(0x00, []) || es[0] == Entry(0xF0, [])
    ensures AcTable(lens, vals)
    ensures var next := pos + |EntriesBits(lens, vals, es)| - |EntriesBits(lens, vals, es[1..])|;
      && AcAt(lens, vals, total, pos) == AcRead(if es[0].symbol == 0 then AcEnd else AcSkip, next)
      && Stands(total, next, EntriesBits(lens, vals, es[1..]))
  {
    hide Stands, GoodTable, Has, EntriesBits, Msb, JSymbolAt;
    EntryRead(lens, vals, es, total, pos);
    TableOf(lens, vals);
  }

  lemma {:induction false} AcDecoded(lens: seq<nat>, vals: seq<nat>, dequant: seq<int>, zz: seq<int>, k: nat,
                                     total: seq<byte>, pos: nat, data: seq<int>)
    requires GoodTable(lens, vals) && |zz| == |dequant| == |data| == 64 && k <= 64 && Small(zz, k)
    requires HasAll(lens, vals, AcEntries(zz, k)) && Stands(total, pos, EntriesBits(lens, vals, AcEntries(zz, k)))
    ensures AcTable(lens, vals)
    ensures AcRef(lens, vals, dequant, total, pos, k, data)
      == Ref(Put(zz, dequant, k, data), pos + |EntriesBits(lens, vals, AcEntries(zz, k))|)
    decreases 64 - k
  {
    hide Stands, GoodTable, Has, EntriesBits, AcAt, AcRef, AcEntries, SetCoef, Category, Magnitude, Put, ZeroRun;
    TableOf(lens, vals);
    var es := AcEntries(zz, k);
    EntriesAre(zz, k);
    NoBits(lens, vals);
    PutNone(zz, dequant, data);
    RefStep(lens, vals, dequant, total, pos, k, data);
    if k < 64 {
      var r := ZeroRun(zz, k);
      var next := pos + |EntriesBits(lens, vals, es)| - |EntriesBits(lens, vals, es[1..])|;
      if k + r == 64 {
        AcMarkRead(lens, vals, es, total, pos);
        PutZeros(zz, dequant, k, r, data);
      } else if r >= 16 {
        AcMarkRead(lens, vals, es, total, pos);
        PutZeros(zz, dequant, k, 16, data);
        AcDecoded(lens, vals, dequant, zz, k + 16, total, next, data);
      } else {
        AcItemRead(lens, vals, es, r, zz[k + r], total, pos);
        PutZeros(zz, dequant, k, r, data);
        PutOne(zz, dequant, k + r, data);
        AcDecoded(lens, vals, dequant, zz, k + r + 1, total, next, SetCoef(data, dequant, k + r, zz[k + r]));
      }
    }
  }

  lemma EntriesAre(zz: seq<int>, k: nat)
    requires |zz| == 64 && k <= 64
    ensures k == 64 ==> AcEntries(zz, k) == []
    ensures k < 64 ==> var es, r := AcEntries(zz, k), ZeroRun(zz, k);
      && es != []
      && (k + r == 64 ==> es[0] == Entry(0x00, []) && es[1..] == [])
      && (k + r < 64 && r >= 16 ==> es[0] == Entry(0xF0, []) && es[1..] == AcEntries(zz, k + 16))
      && (k + r < 64 && r < 16 ==>
        es[0] == Entry(16 * r + Category(Abs(zz[k + r])), Magnitude(zz[k + r])) && es[1..] == AcEntries(zz, k + r + 1))
  {
    hide Category, Magnitude, ZeroRun;
  }

  lemma RefStep(lens: seq<nat>, vals: seq<nat>, dequant: seq<int>, total: seq<byte>, pos: nat, k: nat, data: seq<int>)
    requires AcTable(lens, vals) && |dequant| == |data| == 64
    ensures k >= 64 ==> AcRef(lens, vals, dequant, total, pos, k, data) == Ref(data, pos)
    ensures k < 64 ==> var t := AcAt(lens, vals, total, pos);
      && (t.item.AcEnd? ==> AcRef(lens, vals, dequant, total, pos, k, data) == Ref(data, t.next))
      && (t.item.AcSkip? ==> AcRef(lens, vals, dequant, total, pos, k, data) == AcRef(lens, vals, dequant, total, t.next, k + 16, data))
      && (t.item.AcCoef? ==>
        AcRef(lens, vals, dequant, total, pos, k, data)
        == AcRef(lens, vals, dequant, total, t.next, k + t.item.run + 1, SetCoef(data, dequant, k + t.item.run, t.item.value)))
  {
    hide AcAt, SetCoef;
  }

  lemma PutNone(zz: seq<int>, dequant: seq<int>, data: seq<int>)
    requires |zz| == |dequant| == |data| == 64
    ensures Put(zz, dequant, 64, data) == data
  {
  }

  lemma PutOne(zz: seq<int>, dequant: seq<int>, k: nat, data: seq<int>)
    requires |zz| == |dequant| == |data| == 64 && k < 64 && zz[k] != 0
    ensures Put(zz, dequant, k, data) == Put(zz, dequant, k + 1, SetCoef(data, dequant, k, zz[k]))
  {
  }

  lemma NoBits(lens: seq<nat>, vals: seq<nat>)
    ensures EntriesBits(lens, vals, []) == []
  {
  }

  // ----- blocks -----

  /** Figure A.6: the place of every coefficient of a block in the zigzag order. */
  const FIGURE: seq<seq<nat>> := [
    [ 0,  1,  5,  6, 14, 15, 27, 28],
    [ 2,  4,  7, 13, 16, 26, 29, 42],
    [ 3,  8, 12, 17, 25, 30, 41, 43],
    [ 9, 11, 18, 24, 31, 40, 44, 53],
    [10, 19, 23, 32, 39, 45, 52, 54],
    [20, 22, 33, 38, 46, 51, 55, 60],
    [21, 34, 37, 47, 50, 56, 59, 61],
    [35, 36, 48, 49, 57, 58, 62, 63]]

  lemma Diagonals()
    ensures Zigzag.Before(0) == 0 && Zigzag.Before(1) == 1 && Zigzag.Before(2) == 3 && Zigzag.Before(3) == 6 && Zigzag.Before(4) == 10
    ensures Zigzag.Before(5) == 15 && Zigzag.Before(6) == 21 && Zigzag.Before(7) == 28 && Zigzag.Before(8) == 36 && Zigzag.Before(9) == 43
    ensures Zigzag.Before(10) == 49 && Zigzag.Before(11) == 54 && Zigzag.Before(12) == 58 && Zigzag.Before(13) == 61
      && Zigzag.Before(14) == 63
  {
    assert Zigzag.Before(5) == 15;
    assert Zigzag.Before(10) == 49;
  }

  lemma FigureIs(row: nat, col: nat)
    requires row < 8 && col < 8
    ensures |FIGURE[row]| == 8 && FIGURE[row][col] == Zigzag.Order(Zigzag.Cell(row, col))
  {
    hide Zigzag.Before;
    if row < 4 { UpperFigure(row, col); } else { LowerFigure(row, col); }
  }

  lemma UpperFigure(row: nat, col: nat)
    requires row < 4 && col < 8
    ensures |FIGURE[row]| == 8 && FIGURE[row][col] == Zigzag.Order(Zigzag.Cell(row, col))
  {
    hide Zigzag.Before;
    Diagonals();
    if row == 0 {
    } else if row == 1 {
    } else if row == 2 {
    } else {
    }
  }

  lemma LowerFigure(row: nat, col: nat)
    requires 4 <= row < 8 && col < 8
    ensures |FIGURE[row]| == 8 && FIGURE[row][col] == Zigzag.Order(Zigzag.Cell(row, col))
  {
    hide Zigzag.Before;
    Diagonals();
    if row == 4 {
    } else if row == 5 {
    } else if row == 6 {
    } else {
    }
  }

  /** The number of the coefficient at place `p` of a block. */
  function Numbered(p: nat): (k: nat)
    requires p < 64
    ensures k < 64
  {
    FigureIs(p / 8, p % 8);
    Zigzag.OrderBound(Zigzag.Cell(p / 8, p % 8));
    FIGURE[p / 8][p % 8]
  }

  lemma NumberedIs(p: nat)
    requires p < 64
    ensures Zigzag.PlaceOf(Numbered(p)) == p
  {
    hide Zigzag.PlaceOf, Zigzag.Order;
    var c := Zigzag.CellOf(p);
    assert c == Zigzag.Cell(p / 8, p % 8);
    FigureIs(p / 8, p % 8);
    Zigzag.PlacesArePermuted(p, Numbered(p));
  }

  /** What a coefficient becomes: its product with the quantizer, cut to sixteen bits. */
  function Wrapped(x: int): int {
    (x + 32768) % 65536 - 32768
  }

  /** The block that coefficients in zigzag order stand for. */
  function Dequantized(zz: seq<int>, dequant: seq<int>): (r: seq<int>)
    requires |zz| == |dequant| == 64
    ensures |r| == 64
  {
    seq(64, p requires 0 <= p < 64 => Wrapped(zz[Numbered(p)] * dequant[p]))
  }

  lemma {:induction false} PutAt(zz: seq<int>, dequant: seq<int>, k: nat, data: seq<int>, j: nat)
    requires |zz| == |dequant| == |data| == 64 && k <= 64 && j < 64
    ensures var p := Zigzag.PlaceOf(j); var r := Put(zz, dequant, k, data);
      |r| == 64 && r[p] == if j >= k && zz[j] != 0 then Wrapped(zz[j] * dequant[p]) else data[p]
    decreases 64 - k
  {
    hide Zigzag.PlaceOf;
    if k < 64 {
      var next := if zz[k] == 0 then data else SetCoef(data, dequant, k, zz[k]);
      PutAt(zz, dequant, k + 1, next, j);
      SamePlace(j, k);
    }
  }

  lemma SamePlace(j: nat, k: nat)
    requires j < 64 && k < 64
    ensures Zigzag.PlaceOf(j) == Zigzag.PlaceOf(k) <==> j == k
  {
    hide Zigzag.PlaceOf, Zigzag.Order, Zigzag.CellOf;
    Zigzag.PlacesArePermuted(Zigzag.PlaceOf(k), j);
    Zigzag.PlacesArePermuted(Zigzag.PlaceOf(k), k);
  }

  /** All coefficients in their places. */
  lemma PutAll(zz: seq<int>, dequant: seq<int>)
    requires |zz| == |dequant| == 64 && -32768 <= zz[0] * dequant[0] <= 32767
    ensures Put(zz, dequant, 1, OnlyDc(zz[0] * dequant[0])) == Dequantized(zz, dequant)
  {
    hide Put, Zigzag.PlaceOf, Numbered, Wrapped;
    var dc := zz[0] * dequant[0];
    var r := Put(zz, dequant, 1, OnlyDc(dc));
    PutAt(zz, dequant, 1, OnlyDc(dc), 0);
    forall p | 0 <= p < 64 ensures r[p] == Dequantized(zz, dequant)[p] {
      var j := Numbered(p);
      NumberedIs(p);
      PutAt(zz, dequant, 1, OnlyDc(dc), j);
      FirstPlace(j);
      WrappedIs(dc);
      WrappedIs(0);
    }
  }

  lemma FirstPlace(j: nat)
    requires j < 64
    ensures Zigzag.PlaceOf(j) == 0 <==> j == 0
  {
    hide Zigzag.Order;
    SamePlace(j, 0);
  }

  lemma WrappedIs(x: int)
    ensures -32768 <= x <= 32767 ==> Wrapped(x) == x
  {
  }
}
