/** An encoder for all three kinds of DEFLATE blocks, written out from RFC 1951 with the tables as the RFC
    prints them, and the zlib header of RFC 1950: whatever it encodes, the decoder returns. */
module DeflateEncode {
  import opened Bits
  import opened BitStream
  import opened BitWriter
  import opened Canonical
  import Deflate
  import DeflateStream
  import ZConst
  import DeflateStored
  import Inflating

  // ----- items -----

  /** A byte, or a copy of `len` bytes from `dist` bytes back. */
  datatype Item = Byte(b: byte) | Back(len: nat, dist: nat)

  /** Section 3.2.5: where each length code and each distance code begins, and how many extra bits it has. */
  const LENGTHS: seq<nat> := [
    3, 4, 5, 6, 7, 8, 9, 10, 11, 13, 15, 17, 19, 23, 27, 31, 35, 43, 51, 59, 67, 83, 99, 115, 131, 163, 195, 227, 258]
  const LENGTH_BITS: seq<nat> := [0, 0, 0, 0, 0, 0, 0, 0, 1, 1, 1, 1, 2, 2, 2, 2, 3, 3, 3, 3, 4, 4, 4, 4, 5, 5, 5, 5, 0]
  const DISTANCES: seq<nat> := [
    1, 2, 3, 4, 5, 7, 9, 13, 17, 25, 33, 49, 65, 97, 129, 193, 257, 385, 513, 769,
    1025, 1537, 2049, 3073, 4097, 6145, 8193, 12289, 16385, 24577]
  const DISTANCE_BITS: seq<nat> := [0, 0, 0, 0, 1, 1, 2, 2, 3, 3, 4, 4, 5, 5, 6, 6, 7, 7, 8, 8, 9, 9, 10, 10, 11, 11, 12, 12, 13, 13]

  /** The last entry that is not above `v`. */
  function Last(table: seq<nat>, v: nat): (k: nat)
    requires table != [] && table[0] <= v
    ensures k < |table| && table[k] <= v && (k + 1 < |table| ==> v < table[k + 1])
  {
    var n := |table| - 1;
    if table[n] <= v then n else Last(table[..n], v)
  }

  function LengthCode(len: nat): (k: nat)
    requires 3 <= len
    ensures k < 29 && LENGTHS[k] <= len
  {
    Last(LENGTHS, len)
  }

  function DistanceCode(dist: nat): (d: nat)
    requires 1 <= dist
    ensures d < 30 && DISTANCES[d] <= dist
  {
    Last(DISTANCES, dist)
  }

  // ----- codes -----

  /** Section 3.2.6: the code word of every literal and length symbol in a fixed block. */
  function FixedWord(s: nat): bits {
    if s < 144 then Word(0x30 + s, 8)
    else if s < 256 then Word(0x190 + (s - 144), 9)
    else if s < 280 then Word(s - 256, 7)
    else Word(0xC0 + (s - 280), 8)
  }

  datatype Coder = Fixed | Lens(lit: seq<nat>, dist: seq<nat>)

  function LitBits(c: Coder, s: nat): bits
    requires c.Lens? ==> s < |c.lit|
  {
    if c.Fixed? then FixedWord(s) else Word(Code(c.lit, s), c.lit[s])
  }

  function DistBits(c: Coder, d: nat): bits
    requires c.Lens? ==> d < |c.dist|
  {
    if c.Fixed? then Word(d, 5) else Word(Code(c.dist, d), c.dist[d])
  }

  /** The code has a word for the symbol. */
  predicate HasLit(c: Coder, s: nat) {
    if c.Fixed? then s < 288 else s < |c.lit| && c.lit[s] > 0
  }

  predicate HasDist(c: Coder, d: nat) {
    if c.Fixed? then d < 30 else d < |c.dist| && c.dist[d] > 0
  }

  predicate CanCode(c: Coder, item: Item) {
    match item
    case Byte(b) => HasLit(c, b)
    case Back(len, dist) =>
      3 <= len <= 258 && 1 <= dist <= 32768 && HasLit(c, 257 + LengthCode(len)) && HasDist(c, DistanceCode(dist))
  }

  function ItemBits(c: Coder, item: Item): bits
    requires CanCode(c, item)
  {
    match item
    case Byte(b) => LitBits(c, b)
    case Back(len, dist) =>
      var k, d := LengthCode(len), DistanceCode(dist);
      LitBits(c, 257 + k) + Field(len - LENGTHS[k], LENGTH_BITS[k]) + DistBits(c, d) + Field(dist - DISTANCES[d], DISTANCE_BITS[d])
  }

  predicate CanCodeAll(c: Coder, items: seq<Item>) {
    HasLit(c, 256) && forall i :: 0 <= i < |items| ==> CanCode(c, items[i])
  }

  /** The items of a block, and the end-of-block symbol. */
  function ItemsBits(c: Coder, items: seq<Item>): bits
    requires CanCodeAll(c, items)
  {
    if items == [] then LitBits(c, 256) else ItemBits(c, items[0]) + ItemsBits(c, items[1..])
  }

  // ----- what the items stand for -----

  /** The last `dist` bytes, over and over. */
  function Stretch(out: seq<byte>, len: nat, dist: nat): seq<byte>
    requires 0 < dist <= |out|
  {
    seq(len, k requires 0 <= k => out[|out| - dist + k % dist])
  }

  predicate Refers(items: seq<Item>, out: seq<byte>)
    decreases |items|
  {
    items != [] ==> (items[0].Back? ==> 0 < items[0].dist <= |out|) && Refers(items[1..], Grow(items[0], out))
  }

  function Grow(item: Item, out: seq<byte>): seq<byte> {
    match item
    case Byte(b) => out + [b]
    case Back(len, dist) => if 0 < dist <= |out| then out + Stretch(out, len, dist) else out
  }

  function Unfold(items: seq<Item>, out: seq<byte>): seq<byte>
    decreases |items|
  {
    if items == [] then out else Unfold(items[1..], Grow(items[0], out))
  }

  // ----- the fixed codes -----

  lemma {:induction false} FixedCounts(n: nat, len: nat)
    requires n <= 288
    ensures CountTo(Deflate.FixedLit(), n, len) ==
      if len == 7 then (if n <= 256 then 0 else if n <= 280 then n - 256 else 24)
      else if len == 8 then (if n <= 144 then n else if n <= 280 then 144 else n - 136)
      else if len == 9 then (if n <= 144 then 0 else if n <= 256 then n - 144 else 112)
      else 0
  {
    if n > 0 { FixedCounts(n - 1, len); }
  }

  lemma {:induction false} FixedEnds(s: nat)
    ensures s < 7 ==> EndCode(Deflate.FixedLit(), s) == 0
    ensures s == 7 ==> EndCode(Deflate.FixedLit(), s) == 24
    ensures s == 8 ==> EndCode(Deflate.FixedLit(), s) == 200
  {
    hide Deflate.FixedLit, CountTo;
    if 0 < s <= 8 {
      FixedEnds(s - 1);
      FixedCounts(288, s);
      EndIs(Deflate.FixedLit(), s);
    }
  }

  lemma EndIs(lens: seq<nat>, s: nat)
    requires s > 0
    ensures EndCode(lens, s) == 2 * EndCode(lens, s - 1) + CountTo(lens, |lens|, s)
    ensures FirstCode(lens, s) == 2 * EndCode(lens, s - 1)
  {
    hide CountTo;
    var n := |lens|;
    assert First(lens, n, s) == 2 * End(lens, n, s - 1);
    assert End(lens, n, s) == First(lens, n, s) + Used(lens, n, s);
  }

  /** The table of section 3.2.6 is the canonical code for its lengths. */
  lemma FixedWordIs(s: nat)
    requires s < 288
    ensures FixedWord(s) == Word(Code(Deflate.FixedLit(), s), Deflate.FixedLit()[s])
  {
    hide CountTo, First, Word;
    var lens := Deflate.FixedLit();
    FixedEnds(6);
    FixedEnds(7);
    FixedEnds(8);
    EndIs(lens, 7);
    EndIs(lens, 8);
    EndIs(lens, 9);
    FixedCounts(s, lens[s]);
  }

  lemma {:induction false} FixedDistCounts(n: nat, len: nat)
    requires n <= 32
    ensures CountTo(Deflate.FixedDist(), n, len) == if len == 5 then n else 0
  {
    if n > 0 { FixedDistCounts(n - 1, len); }
  }

  lemma {:induction false} FixedDistEnds(s: nat)
    requires s < 5
    ensures EndCode(Deflate.FixedDist(), s) == 0
  {
    hide Deflate.FixedDist, CountTo;
    if s > 0 {
      FixedDistEnds(s - 1);
      FixedDistCounts(32, s);
      EndIs(Deflate.FixedDist(), s);
    }
  }

  lemma FixedDistIs(d: nat)
    requires d < 32
    ensures Code(Deflate.FixedDist(), d) == d
  {
    hide CountTo, First;
    FixedDistEnds(4);
    EndIs(Deflate.FixedDist(), 5);
    FixedDistCounts(d, 5);
  }

  // ----- what is written is found -----

  /** The lengths of a coder's two codes. */
  function LitLens(c: Coder): seq<nat> {
    if c.Fixed? then Deflate.FixedLit() else c.lit
  }

  function DistLens(c: Coder): seq<nat> {
    if c.Fixed? then Deflate.FixedDist() else c.dist
  }

  ghost predicate GoodCoder(c: Coder) {
    Deflate.GoodCode(LitLens(c)) && Deflate.GoodCode(DistLens(c))
  }

  lemma WordSpells(lens: seq<nat>, s: nat, data: seq<byte>, pos: nat)
    requires Deflate.GoodCode(lens) && s < |lens| && lens[s] > 0 && Holds(data, pos, Word(Code(lens, s), lens[s]))
    ensures DeflateStream.Spells(lens, s, data, pos)
  {
    hide Code, Kraft, Holds, BE;
    CodeFits(lens, 15, s);
    WordRead(data, pos, Code(lens, s), lens[s]);
  }

  lemma LitSpells(c: Coder, s: nat, data: seq<byte>, pos: nat)
    requires GoodCoder(c) && HasLit(c, s) && Holds(data, pos, LitBits(c, s))
    ensures DeflateStream.Spells(LitLens(c), s, data, pos) && |LitBits(c, s)| == LitLens(c)[s]
  {
    hide Code, Deflate.GoodCode, Holds, FixedWord, DeflateStream.Spells;
    if c.Fixed? { FixedWordIs(s); }
    WordSpells(LitLens(c), s, data, pos);
  }

  lemma DistSpells(c: Coder, d: nat, data: seq<byte>, pos: nat)
    requires GoodCoder(c) && HasDist(c, d) && Holds(data, pos, DistBits(c, d))
    ensures DeflateStream.Spells(DistLens(c), d, data, pos) && |DistBits(c, d)| == DistLens(c)[d]
  {
    hide Code, Deflate.GoodCode, Holds, DeflateStream.Spells;
    if c.Fixed? { FixedDistIs(d); }
    WordSpells(DistLens(c), d, data, pos);
  }

  /** The tables as printed are those of the rule. */
  lemma LengthTable(k: nat)
    requires k < 29
    ensures LENGTHS[k] == Deflate.LengthBase(k) && LENGTH_BITS[k] == Deflate.LengthExtra(k)
  {
    hide Deflate.LengthBase, Deflate.LengthExtra;
    ZConst.LengthTable(k);
    assert LENGTHS[k] == ZConst.ZLENGTH_BASE[k] && LENGTH_BITS[k] == ZConst.ZLENGTH_EXTRA[k];
  }

  lemma DistanceTable(d: nat)
    requires d < 30
    ensures DISTANCES[d] == Deflate.DistBase(d) && DISTANCE_BITS[d] == Deflate.DistExtra(d)
  {
    hide Deflate.DistBase, Deflate.DistExtra;
    ZConst.DistTable(d);
    assert DISTANCES[d] == ZConst.ZDIST_BASE[d] && DISTANCE_BITS[d] == ZConst.ZDIST_EXTRA[d];
  }

  /** Every length has a code with enough extra bits, and so has every distance. */
  lemma LengthFits(len: nat)
    requires 3 <= len <= 258
    ensures var k := LengthCode(len); len - LENGTHS[k] < Pow2(LENGTH_BITS[k])
  {
    hide Deflate.LengthBase, Deflate.LengthExtra;
    var k := LengthCode(len);
    if k < 27 {
      LengthTable(k);
      LengthTable(k + 1);
      LengthNext(k + 1);
    } else {
      Pow2Values();
    }
  }

  lemma LengthNext(k: nat)
    requires 0 < k < 28
    ensures Deflate.LengthBase(k) == Deflate.LengthBase(k - 1) + Pow2(Deflate.LengthExtra(k - 1))
  {
  }

  lemma DistanceFits(dist: nat)
    requires 1 <= dist <= 32768
    ensures var d := DistanceCode(dist); dist - DISTANCES[d] < Pow2(DISTANCE_BITS[d])
  {
    hide Deflate.DistBase, Deflate.DistExtra;
    var d := DistanceCode(dist);
    if d < 29 {
      DistanceTable(d);
      DistanceTable(d + 1);
      DistanceNext(d + 1);
    } else {
      Pow2Values();
    }
  }

  lemma DistanceNext(d: nat)
    requires 0 < d
    ensures Deflate.DistBase(d) == Deflate.DistBase(d - 1) + Pow2(Deflate.DistExtra(d - 1))
  {
  }

  /** An item as code numbers and extra bits. */
  function Coded(item: Item): DeflateStream.Item
    requires item.Back? ==> 3 <= item.len && 1 <= item.dist
  {
    match item
    case Byte(b) => DeflateStream.Byte(b)
    case Back(len, dist) =>
      var k, d := LengthCode(len), DistanceCode(dist);
      DeflateStream.Pair(k, len - LENGTHS[k], d, dist - DISTANCES[d])
  }

  lemma ItemPlaced(c: Coder, item: Item, data: seq<byte>, pos: nat)
    requires GoodCoder(c) && CanCode(c, item) && Holds(data, pos, ItemBits(c, item))
    ensures DeflateStream.ItemAt(data, LitLens(c), DistLens(c), pos, Coded(item), pos + |ItemBits(c, item)|)
  {
    hide Holds, GoodCoder, DeflateStream.Spells, LitBits, DistBits, LengthCode, DistanceCode, LitLens, DistLens, LE;
    match item
    case Byte(b) => LitSpells(c, b, data, pos);
    case Back(len, dist) => PairPlaced(c, len, dist, data, pos);
  }

  lemma HoldsFour(data: seq<byte>, pos: nat, a: bits, b: bits, c: bits, d: bits)
    requires Holds(data, pos, a + b + c + d)
    ensures Holds(data, pos, a) && Holds(data, pos + |a|, b)
    ensures Holds(data, pos + |a| + |b|, c) && Holds(data, pos + |a| + |b| + |c|, d)
  {
    hide Holds;
    HoldsParts(data, pos, a + b + c, d);
    HoldsParts(data, pos, a + b, c);
    HoldsParts(data, pos, a, b);
  }

  lemma LengthPlaced(c: Coder, len: nat, data: seq<byte>, pos: nat)
    requires GoodCoder(c) && 3 <= len <= 258 && HasLit(c, 257 + LengthCode(len))
    requires var k := LengthCode(len); Holds(data, pos, LitBits(c, 257 + k) + Field(len - LENGTHS[k], LENGTH_BITS[k]))
    ensures var k, lens := LengthCode(len), LitLens(c);
      && DeflateStream.Spells(lens, 257 + k, data, pos) && |LitBits(c, 257 + k)| == lens[257 + k]
      && LENGTH_BITS[k] == Deflate.LengthExtra(k) && LE(data, pos + lens[257 + k], Deflate.LengthExtra(k)) == len - LENGTHS[k]
  {
    hide Holds, GoodCoder, DeflateStream.Spells, LengthCode, LitLens, LE, Deflate.LengthExtra, Field, Pow2, LitBits;
    var k := LengthCode(len);
    HoldsParts(data, pos, LitBits(c, 257 + k), Field(len - LENGTHS[k], LENGTH_BITS[k]));
    LitSpells(c, 257 + k, data, pos);
    LengthFits(len);
    LengthTable(k);
    FieldRead(data, pos + |LitBits(c, 257 + k)|, len - LENGTHS[k], LENGTH_BITS[k]);
  }

  lemma DistancePlaced(c: Coder, dist: nat, data: seq<byte>, pos: nat)
    requires GoodCoder(c) && 1 <= dist <= 32768 && HasDist(c, DistanceCode(dist))
    requires var d := DistanceCode(dist); Holds(data, pos, DistBits(c, d) + Field(dist - DISTANCES[d], DISTANCE_BITS[d]))
    ensures var d, lens := DistanceCode(dist), DistLens(c);
      && DeflateStream.Spells(lens, d, data, pos) && |DistBits(c, d)| == lens[d]
      && DISTANCE_BITS[d] == Deflate.DistExtra(d) && LE(data, pos + lens[d], Deflate.DistExtra(d)) == dist - DISTANCES[d]
  {
    hide Holds, GoodCoder, DeflateStream.Spells, DistanceCode, DistLens, LE, Deflate.DistExtra, Field, Pow2, DistBits;
    var d := DistanceCode(dist);
    HoldsParts(data, pos, DistBits(c, d), Field(dist - DISTANCES[d], DISTANCE_BITS[d]));
    DistSpells(c, d, data, pos);
    DistanceFits(dist);
    DistanceTable(d);
    FieldRead(data, pos + |DistBits(c, d)|, dist - DISTANCES[d], DISTANCE_BITS[d]);
  }

  lemma PairPlaced(c: Coder, len: nat, dist: nat, data: seq<byte>, pos: nat)
    requires GoodCoder(c) && CanCode(c, Back(len, dist)) && Holds(data, pos, ItemBits(c, Back(len, dist)))
    ensures DeflateStream.ItemAt(data, LitLens(c), DistLens(c), pos, Coded(Back(len, dist)), pos + |ItemBits(c, Back(len, dist))|)
  {
    hide Holds, GoodCoder, DeflateStream.Spells, LengthCode, DistanceCode, LitLens, DistLens, LE, LitBits, DistBits;
    hide Deflate.LengthExtra, Deflate.DistExtra, Field, Pow2;
    var k, d := LengthCode(len), DistanceCode(dist);
    var a, b := LitBits(c, 257 + k), Field(len - LENGTHS[k], LENGTH_BITS[k]);
    var e, f := DistBits(c, d), Field(dist - DISTANCES[d], DISTANCE_BITS[d]);
    assert a + b + e + f == (a + b) + (e + f);
    HoldsParts(data, pos, a + b, e + f);
    LengthPlaced(c, len, data, pos);
    DistancePlaced(c, dist, data, pos + |a + b|);
  }

  function CodedAll(items: seq<Item>): seq<DeflateStream.Item>
    requires forall i :: 0 <= i < |items| ==> items[i].Back? ==> 3 <= items[i].len && 1 <= items[i].dist
  {
    if items == [] then [] else [Coded(items[0])] + CodedAll(items[1..])
  }

  /** Where each item ends. */
  function Marks(c: Coder, items: seq<Item>, pos: nat): seq<nat>
    requires CanCodeAll(c, items)
  {
    if items == [] then []
    else var next := pos + |ItemBits(c, items[0])|; [next] + Marks(c, items[1..], next)
  }

  lemma {:induction false} ItemsPlaced(c: Coder, items: seq<Item>, data: seq<byte>, pos: nat)
    requires GoodCoder(c) && CanCodeAll(c, items) && Holds(data, pos, ItemsBits(c, items))
    ensures DeflateStream.ItemsAt(data, LitLens(c), DistLens(c), pos, CodedAll(items), Marks(c, items, pos), pos + |ItemsBits(c, items)|)
    decreases |items|
  {
    hide Holds, GoodCoder, DeflateStream.Spells, DeflateStream.ItemAt, LitBits, ItemBits, LitLens, DistLens;
    if items == [] {
      LitSpells(c, 256, data, pos);
    } else {
      var a, rest := ItemBits(c, items[0]), ItemsBits(c, items[1..]);
      HoldsParts(data, pos, a, rest);
      ItemPlaced(c, items[0], data, pos);
      ItemsPlaced(c, items[1..], data, pos + |a|);
    }
  }

  /** A coded item stands for what the item stands for. */
  lemma ItemMeans(item: Item, out: seq<byte>)
    requires item.Back? ==> 3 <= item.len <= 258 && 1 <= item.dist <= 32768 && item.dist <= |out|
    ensures var t := DeflateStream.TokenOf(Coded(item)); Deflate.Applies(t, out) && Deflate.Apply(t, out) == Grow(item, out)
  {
    hide LengthCode, DistanceCode, Deflate.LengthBase, Deflate.DistBase, Deflate.Copy;
    if item.Back? {
      var len, dist := item.len, item.dist;
      LengthTable(LengthCode(len));
      DistanceTable(DistanceCode(dist));
      CopyIsStretch(out, len, dist);
    }
  }

  lemma CopyIsStretch(out: seq<byte>, len: nat, dist: nat)
    requires 0 < dist <= |out|
    ensures Deflate.Copy(out, dist, len) == out + Stretch(out, len, dist)
  {
    hide Deflate.Copy;
    var r := Deflate.Copy(out, dist, len);
    forall k | 0 <= k < len ensures r[|out| + k] == Stretch(out, len, dist)[k] {
      Deflate.CopyIsPeriodic(out, dist, len, k);
    }
    Deflate.CopyKeeps(out, dist, 0, len);
    NoCopy(out, dist);
    assert r[..|out|] == out;
    assert r == r[..|out|] + r[|out|..];
  }

  lemma NoCopy(out: seq<byte>, dist: nat)
    requires 0 < dist <= |out|
    ensures Deflate.Copy(out, dist, 0) == out
  {
  }

  lemma {:induction false} ItemsMean(c: Coder, items: seq<Item>, out: seq<byte>)
    requires CanCodeAll(c, items) && Refers(items, out)
    ensures DeflateStream.Expands(CodedAll(items), out) && DeflateStream.Expand(CodedAll(items), out) == Unfold(items, out)
    decreases |items|
  {
    hide HasLit, HasDist, Coded, DeflateStream.TokenOf, Deflate.Applies, Deflate.Apply, Grow, LengthCode, DistanceCode;
    if items != [] {
      ItemMeans(items[0], out);
      assert CodedAll(items)[1..] == CodedAll(items[1..]);
      ItemsMean(c, items[1..], Grow(items[0], out));
    }
  }

  // ----- dynamic headers -----

  /** The lengths of both codes, those of the code that they are coded with, how many of these are sent, and
      the runs that list the lengths. */
  datatype Header = Header(lit: seq<nat>, dist: seq<nat>, cl: seq<nat>, sent: nat, runs: seq<DeflateStream.LenRun>)

  /** Section 3.2.7: the order in which the lengths of the code-length code are sent. */
  const ORDER: seq<nat> := [16, 17, 18, 0, 8, 7, 9, 6, 10, 5, 11, 4, 12, 3, 13, 2, 14, 1, 15]

  lemma OrderIsIndex(c: nat)
    requires c < 19
    ensures ORDER[Deflate.OrderIndex(c)] == c
  {
  }

  /** The symbol of a run, and its extra bits. */
  function RunSymbol(r: DeflateStream.LenRun): nat {
    match r
    case One(len) => len
    case Again(_) => 16
    case Zeros(n) => if n <= 10 then 17 else 18
  }

  function RunExtra(r: DeflateStream.LenRun): bits
    requires GoodRun(r)
  {
    match r
    case One(_) => []
    case Again(n) => Field(n - 3, 2)
    case Zeros(n) => if n <= 10 then Field(n - 3, 3) else Field(n - 11, 7)
  }

  predicate GoodRun(r: DeflateStream.LenRun) {
    match r
    case One(len) => len < 16
    case Again(n) => 3 <= n <= 6
    case Zeros(n) => 3 <= n <= 138
  }

  predicate CanCodeRuns(cl: seq<nat>, runs: seq<DeflateStream.LenRun>) {
    |cl| == 19 && forall i :: 0 <= i < |runs| ==> GoodRun(runs[i]) && cl[RunSymbol(runs[i])] > 0
  }

  function RunBits(cl: seq<nat>, r: DeflateStream.LenRun): bits
    requires |cl| == 19 && GoodRun(r)
  {
    Word(Code(cl, RunSymbol(r)), cl[RunSymbol(r)]) + RunExtra(r)
  }

  function RunsBits(cl: seq<nat>, runs: seq<DeflateStream.LenRun>): bits
    requires CanCodeRuns(cl, runs)
  {
    if runs == [] then [] else RunBits(cl, runs[0]) + RunsBits(cl, runs[1..])
  }

  /** The lengths of the code-length code from the `i`-th sent on. */
  function OrderBits(cl: seq<nat>, sent: nat, i: nat): (s: bits)
    requires |cl| == 19 && i <= sent <= 19
    ensures |s| == 3 * (sent - i)
    decreases sent - i
  {
    if i == sent then [] else Field(cl[ORDER[i]], 3) + OrderBits(cl, sent, i + 1)
  }

  function HeaderBits(h: Header): bits
    requires CanCodeRuns(h.cl, h.runs) && 257 <= |h.lit| && 1 <= |h.dist| && 4 <= h.sent <= 19
  {
    Field(|h.lit| - 257, 5) + Field(|h.dist| - 1, 5) + Field(h.sent - 4, 4) + (OrderBits(h.cl, h.sent, 0) + RunsBits(h.cl, h.runs))
  }

  ghost predicate GoodHeader(h: Header) {
    && CanCodeRuns(h.cl, h.runs) && 257 <= |h.lit| <= 288 && 1 <= |h.dist| <= 32 && 4 <= h.sent <= 19
    && (forall i :: 0 <= i < 19 ==> h.cl[ORDER[i]] < 8 && (i >= h.sent ==> h.cl[ORDER[i]] == 0))
    && DeflateStream.Lists(h.runs, []) && DeflateStream.Listed(h.runs, []) == h.lit + h.dist
    && Deflate.GoodCode(h.cl) && Deflate.GoodCode(h.lit) && Deflate.GoodCode(h.dist)
  }

  function RunMarks(cl: seq<nat>, runs: seq<DeflateStream.LenRun>, pos: nat): seq<nat>
    requires CanCodeRuns(cl, runs)
  {
    if runs == [] then []
    else var next := pos + |RunBits(cl, runs[0])|; [next] + RunMarks(cl, runs[1..], next)
  }

  lemma RunPlaced(cl: seq<nat>, r: DeflateStream.LenRun, data: seq<byte>, pos: nat)
    requires |cl| == 19 && GoodRun(r) && cl[RunSymbol(r)] > 0 && Deflate.GoodCode(cl) && Holds(data, pos, RunBits(cl, r))
    ensures DeflateStream.RunAt(data, cl, pos, r, pos + |RunBits(cl, r)|)
  {
    hide Holds, Code, Kraft, DeflateStream.Spells, LE, Word, Field;
    var s := RunSymbol(r);
    HoldsParts(data, pos, Word(Code(cl, s), cl[s]), RunExtra(r));
    WordSpells(cl, s, data, pos);
    Pow2Values();
    match r
    case One(_) =>
    case Again(n) => FieldRead(data, pos + cl[s], n - 3, 2);
    case Zeros(n) =>
      if n <= 10 { FieldRead(data, pos + cl[s], n - 3, 3); } else { FieldRead(data, pos + cl[s], n - 11, 7); }
  }

  lemma {:induction false} RunsPlaced(cl: seq<nat>, runs: seq<DeflateStream.LenRun>, data: seq<byte>, pos: nat)
    requires CanCodeRuns(cl, runs) && Deflate.GoodCode(cl) && Holds(data, pos, RunsBits(cl, runs))
    ensures DeflateStream.RunsAt(data, cl, pos, runs, RunMarks(cl, runs, pos), pos + |RunsBits(cl, runs)|)
    decreases |runs|
  {
    hide Holds, Kraft, DeflateStream.RunAt, RunBits, GoodRun;
    if runs != [] {
      HoldsParts(data, pos, RunBits(cl, runs[0]), RunsBits(cl, runs[1..]));
      RunPlaced(cl, runs[0], data, pos);
      RunsPlaced(cl, runs[1..], data, pos + |RunBits(cl, runs[0])|);
    }
  }

  lemma {:induction false} OrderPlaced(cl: seq<nat>, sent: nat, i: nat, j: nat, data: seq<byte>, pos: nat)
    requires |cl| == 19 && i <= j < sent <= 19 && Holds(data, pos + 3 * i, OrderBits(cl, sent, i)) && cl[ORDER[j]] < 8
    ensures LE(data, pos + 3 * j, 3) == cl[ORDER[j]]
    decreases j - i
  {
    hide Holds, LE, Field;
    HoldsParts(data, pos + 3 * i, Field(cl[ORDER[i]], 3), OrderBits(cl, sent, i + 1));
    if i == j {
      Pow2Values();
      FieldRead(data, pos + 3 * i, cl[ORDER[i]], 3);
    } else {
      OrderPlaced(cl, sent, i + 1, j, data, pos);
    }
  }

  /** The header with the places of its parts. */
  function PlacedHeader(h: Header, pos: nat): DeflateStream.Header
    requires CanCodeRuns(h.cl, h.runs) && 257 <= |h.lit| && 1 <= |h.dist| && 4 <= h.sent <= 19
  {
    var p := pos + 14 + 3 * h.sent;
    DeflateStream.Header(h.lit, h.dist, h.cl, h.sent, h.runs, RunMarks(h.cl, h.runs, p), p + |RunsBits(h.cl, h.runs)|)
  }

  lemma HeaderPlaced(h: Header, data: seq<byte>, pos: nat)
    requires GoodHeader(h) && Holds(data, pos, HeaderBits(h))
    ensures DeflateStream.HeaderAt(data, pos, PlacedHeader(h, pos))
  {
    hide Holds, LE, Field, RunsBits, RunMarks, OrderBits, DeflateStream.RunsAt, DeflateStream.Lists, DeflateStream.Listed, Deflate.GoodCode;
    hide Deflate.OrderIndex, GoodRun;
    var order, runs := OrderBits(h.cl, h.sent, 0), RunsBits(h.cl, h.runs);
    HoldsFour(data, pos, Field(|h.lit| - 257, 5), Field(|h.dist| - 1, 5), Field(h.sent - 4, 4), order + runs);
    HoldsParts(data, pos + 14, order, runs);
    Pow2Values();
    FieldRead(data, pos, |h.lit| - 257, 5);
    FieldRead(data, pos + 5, |h.dist| - 1, 5);
    FieldRead(data, pos + 10, h.sent - 4, 4);
    LengthsPlaced(h, data, pos);
    RunsPlaced(h.cl, h.runs, data, pos + 14 + 3 * h.sent);
  }

  lemma LengthsPlaced(h: Header, data: seq<byte>, pos: nat)
    requires GoodHeader(h) && Holds(data, pos + 14, OrderBits(h.cl, h.sent, 0))
    ensures forall c :: 0 <= c < 19 ==>
      h.cl[c] == if Deflate.OrderIndex(c) < h.sent then LE(data, pos + 14 + 3 * Deflate.OrderIndex(c), 3) else 0
  {
    hide Holds, LE, OrderBits, Deflate.OrderIndex, Deflate.GoodCode, DeflateStream.Lists, DeflateStream.Listed;
    forall c | 0 <= c < 19
      ensures h.cl[c] == if Deflate.OrderIndex(c) < h.sent then LE(data, pos + 14 + 3 * Deflate.OrderIndex(c), 3) else 0
    {
      OrderIsIndex(c);
      var i := Deflate.OrderIndex(c);
      if i < h.sent {
        OrderPlaced(h.cl, h.sent, 0, i, data, pos + 14);
      }
    }
  }

  // ----- blocks -----

  datatype Block = StoredBlock(bytes: seq<byte>)
                 | FixedBlock(items: seq<Item>)
                 | DynamicBlock(header: Header, items: seq<Item>)

  /** Zeros up to a whole byte. */
  function Aligning(pos: nat): bits {
    seq((8 - pos % 8) % 8, _ => false)
  }

  function BytesBits(bytes: seq<byte>): (s: bits)
    ensures |s| == 8 * |bytes|
  {
    if bytes == [] then [] else Field(bytes[0], 8) + BytesBits(bytes[1..])
  }

  ghost predicate GoodBlock(b: Block) {
    match b
    case StoredBlock(bytes) => |bytes| <= 65535
    case FixedBlock(items) => CanCodeAll(Fixed, items)
    case DynamicBlock(h, items) => GoodHeader(h) && CanCodeAll(Lens(h.lit, h.dist), items)
  }

  /** The body of a block that begins at bit `pos`. */
  function BodyBits(b: Block, pos: nat): bits
    requires GoodBlock(b)
  {
    match b
    case StoredBlock(bytes) => Aligning(pos) + Field(|bytes|, 16) + Field(65535 - |bytes|, 16) + BytesBits(bytes)
    case FixedBlock(items) => ItemsBits(Fixed, items)
    case DynamicBlock(h, items) => HeaderBits(h) + ItemsBits(Lens(h.lit, h.dist), items)
  }

  /** Section 3.2.3: whether the block is the last, and its kind in two bits, the low one first. */
  function HeadBits(b: Block, last: bool): (s: bits)
    ensures |s| == 3
  {
    [last] + match b case StoredBlock(_) => [false, false] case FixedBlock(_) => [true, false] case DynamicBlock(_, _) => [false, true]
  }

  function BlockBits(b: Block, last: bool, pos: nat): bits
    requires GoodBlock(b)
  {
    HeadBits(b, last) + BodyBits(b, pos + 3)
  }

  ghost predicate GoodBlocks(blocks: seq<Block>) {
    blocks != [] && forall i :: 0 <= i < |blocks| ==> GoodBlock(blocks[i])
  }

  function StreamBits(blocks: seq<Block>, pos: nat): bits
    requires GoodBlocks(blocks)
  {
    var first := BlockBits(blocks[0], |blocks| == 1, pos);
    if |blocks| == 1 then first else first + StreamBits(blocks[1..], pos + |first|)
  }

  function After(b: Block, out: seq<byte>): seq<byte> {
    if b.StoredBlock? then out + b.bytes else Unfold(b.items, out)
  }

  /** Copies refer back inside what has been put out. */
  predicate RefersAll(blocks: seq<Block>, out: seq<byte>) {
    blocks != [] ==> (!blocks[0].StoredBlock? ==> Refers(blocks[0].items, out)) && RefersAll(blocks[1..], After(blocks[0], out))
  }

  /** What the blocks stand for. */
  function Contents(blocks: seq<Block>, out: seq<byte>): seq<byte> {
    if blocks == [] then out else Contents(blocks[1..], After(blocks[0], out))
  }

  // ----- blocks are found -----

  lemma {:induction false} BytesPlaced(bytes: seq<byte>, data: seq<byte>, k: nat)
    requires Holds(data, 8 * k, BytesBits(bytes)) && k + |bytes| <= |data|
    ensures data[k..k + |bytes|] == bytes
    decreases |bytes|
  {
    hide Holds, LE, Field;
    if bytes != [] {
      HoldsParts(data, 8 * k, Field(bytes[0], 8), BytesBits(bytes[1..]));
      Pow2Values();
      FieldRead(data, 8 * k, bytes[0], 8);
      LEByte(data, k);
      BytesPlaced(bytes[1..], data, k + 1);
      assert data[k..k + |bytes|] == [data[k]] + data[k + 1..k + 1 + |bytes[1..]|];
      assert bytes == [bytes[0]] + bytes[1..];
    }
  }

  lemma AligningIs(pos: nat)
    ensures Deflate.AlignUp(pos) == pos + |Aligning(pos)|
  {
  }

  /** A block with the places of its parts; `pos` is where its body begins. */
  ghost function PlacedBlock(b: Block, pos: nat): DeflateStream.Placed
    requires GoodBlock(b)
  {
    var end := pos + |BodyBits(b, pos)|;
    match b
    case StoredBlock(bytes) => DeflateStream.Placed(DeflateStream.StoredBlock(bytes), [], end)
    case FixedBlock(items) => DeflateStream.Placed(DeflateStream.FixedBlock(CodedAll(items)), Marks(Fixed, items, pos), end)
    case DynamicBlock(h, items) =>
      var marks := Marks(Lens(h.lit, h.dist), items, pos + |HeaderBits(h)|);
      DeflateStream.Placed(DeflateStream.DynamicBlock(PlacedHeader(h, pos), CodedAll(items)), marks, end)
  }

  lemma StoredPlaced(bytes: seq<byte>, data: seq<byte>, pos: nat)
    requires |bytes| <= 65535 && Holds(data, pos, BodyBits(StoredBlock(bytes), pos))
      && pos + |BodyBits(StoredBlock(bytes), pos)| <= 8 * |data|
    ensures DeflateStream.BodyAt(data, pos, DeflateStream.StoredBlock(bytes), [], pos + |BodyBits(StoredBlock(bytes), pos)|)
  {
    hide Holds, LE, Field, BytesBits, Aligning, Deflate.AlignUp;
    var n := |bytes|;
    HoldsFour(data, pos, Aligning(pos), Field(n, 16), Field(65535 - n, 16), BytesBits(bytes));
    AligningIs(pos);
    var p := pos + |Aligning(pos)|;
    Pow2Values();
    FieldRead(data, p, n, 16);
    FieldRead(data, p + 16, 65535 - n, 16);
    assert p + 32 == 8 * ((p + 32) / 8);
    BytesPlaced(bytes, data, (p + 32) / 8);
  }

  lemma BodyPlaced(b: Block, data: seq<byte>, pos: nat)
    requires GoodBlock(b) && Holds(data, pos, BodyBits(b, pos)) && pos + |BodyBits(b, pos)| <= 8 * |data|
    ensures var p := PlacedBlock(b, pos); DeflateStream.BodyAt(data, pos, p.block, p.marks, p.end)
  {
    hide Holds, CanCodeAll, ItemsBits, HeaderBits, Deflate.FixedLit, Deflate.FixedDist, Deflate.GoodCode, GoodHeader;
    hide DeflateStream.ItemsAt, DeflateStream.HeaderAt, LE, Aligning, BytesBits, CodedAll, Marks, RunMarks, RunsBits;
    match b
    case StoredBlock(bytes) => StoredPlaced(bytes, data, pos);
    case FixedBlock(items) =>
      Deflate.FixedCodesGood();
      ItemsPlaced(Fixed, items, data, pos);
    case DynamicBlock(h, items) => DynamicPlaced(h, items, data, pos);
  }

  lemma DynamicPlaced(h: Header, items: seq<Item>, data: seq<byte>, pos: nat)
    requires GoodHeader(h) && CanCodeAll(Lens(h.lit, h.dist), items) && Holds(data, pos, BodyBits(DynamicBlock(h, items), pos))
    ensures var p := PlacedBlock(DynamicBlock(h, items), pos); DeflateStream.BodyAt(data, pos, p.block, p.marks, p.end)
  {
    hide Holds, CanCodeAll, CanCodeRuns, ItemsBits, HeaderBits, Deflate.GoodCode, DeflateStream.Lists, DeflateStream.Listed;
    hide DeflateStream.ItemsAt, DeflateStream.HeaderAt, CodedAll, Marks, RunMarks, RunsBits;
    var c := Lens(h.lit, h.dist);
    HoldsParts(data, pos, HeaderBits(h), ItemsBits(c, items));
    HeaderCodes(h);
    HeaderPlaced(h, data, pos);
    ItemsPlaced(c, items, data, pos + |HeaderBits(h)|);
  }

  lemma HeaderCodes(h: Header)
    requires GoodHeader(h)
    ensures GoodCoder(Lens(h.lit, h.dist)) && |HeaderBits(h)| == 14 + 3 * h.sent + |RunsBits(h.cl, h.runs)|
  {
    hide Deflate.GoodCode, RunsBits, DeflateStream.Lists, DeflateStream.Listed;
  }

  lemma BodyMeans(b: Block, pos: nat, out: seq<byte>)
    requires GoodBlock(b) && (!b.StoredBlock? ==> Refers(b.items, out))
    ensures var p := PlacedBlock(b, pos);
      DeflateStream.BlockExpands(p.block, out) && DeflateStream.ExpandBlock(p.block, out) == After(b, out)
  {
    hide CanCodeAll, ItemsBits, HeaderBits, GoodHeader, Refers, Unfold, Marks, DeflateStream.Expands, DeflateStream.Expand;
    match b
    case StoredBlock(_) =>
    case FixedBlock(items) => ItemsMean(Fixed, items, out);
    case DynamicBlock(h, items) => ItemsMean(Lens(h.lit, h.dist), items, out);
  }

  lemma HeadPlaced(b: Block, last: bool, data: seq<byte>, pos: nat)
    requires GoodBlock(b) && Holds(data, pos, HeadBits(b, last))
    ensures LE(data, pos, 1) == Bit(last) && LE(data, pos + 1, 2) == DeflateStream.Kind(PlacedBlock(b, pos + 3).block)
  {
    hide Holds, LE, GoodBlock, BodyBits, CodedAll, Marks, HeaderBits, PlacedHeader;
    var kind := if b.StoredBlock? then 0 else if b.FixedBlock? then 1 else 2;
    var s := HeadBits(b, last);
    assert s == [last] + s[1..];
    assert Field(Bit(last), 1) == [last] && Field(kind, 2) == s[1..];
    HoldsParts(data, pos, [last], s[1..]);
    Pow2Values();
    FieldRead(data, pos, Bit(last), 1);
    FieldRead(data, pos + 1, kind, 2);
    KindOf(b, pos + 3);
  }

  lemma KindOf(b: Block, pos: nat)
    requires GoodBlock(b)
    ensures DeflateStream.Kind(PlacedBlock(b, pos).block) == if b.StoredBlock? then 0 else if b.FixedBlock? then 1 else 2
  {
    hide BodyBits, CodedAll, Marks, HeaderBits, PlacedHeader;
  }

  ghost function PlacedAll(blocks: seq<Block>, pos: nat): (r: seq<DeflateStream.Placed>)
    requires GoodBlocks(blocks)
    ensures |r| == |blocks|
  {
    var p := PlacedBlock(blocks[0], pos + 3);
    if |blocks| == 1 then [p] else [p] + PlacedAll(blocks[1..], p.end)
  }

  lemma PlacedEnd(b: Block, last: bool, pos: nat)
    requires GoodBlock(b)
    ensures PlacedBlock(b, pos + 3).end == pos + |BlockBits(b, last, pos)|
  {
    hide GoodBlock, CodedAll, Marks, HeaderBits, PlacedHeader;
  }

  /** The encoded blocks are a well-formed stream with those contents, wherever they stand. */
  lemma {:induction false} StreamPlaced(blocks: seq<Block>, data: seq<byte>, pos: nat, out: seq<byte>)
    requires GoodBlocks(blocks) && RefersAll(blocks, out) && Holds(data, pos, StreamBits(blocks, pos))
    requires pos + |StreamBits(blocks, pos)| <= 8 * |data|
    ensures var all := PlacedAll(blocks, pos);
      && DeflateStream.StreamAt(data, pos, all, out) && all[|all| - 1].end == pos + |StreamBits(blocks, pos)|
      && DeflateStream.Contents(data, pos, all, out) == Contents(blocks, out)
    decreases |blocks|
  {
    hide Holds, GoodBlock, BlockBits, PlacedBlock, LE, After, Refers, DeflateStream.StreamAt, DeflateStream.Contents;
    hide DeflateStream.BodyAt, DeflateStream.BlockExpands, DeflateStream.ExpandBlock, DeflateStream.Kind;
    var b, last := blocks[0], |blocks| == 1;
    var first := BlockBits(b, last, pos);
    var p := PlacedBlock(b, pos + 3);
    if last {
      BlockPlaced(b, last, data, pos, out);
      assert blocks[1..] == [];
      assert Contents(blocks, out) == Contents([], After(b, out));
      LastBlock(data, pos, p, out);
    } else {
      var rest := blocks[1..];
      HoldsParts(data, pos, first, StreamBits(rest, pos + |first|));
      BlockPlaced(b, last, data, pos, out);
      StreamPlaced(rest, data, p.end, After(b, out));
      NextBlock(data, pos, p, PlacedAll(rest, p.end), out);
    }
  }

  lemma LastBlock(data: seq<byte>, pos: nat, p: DeflateStream.Placed, out: seq<byte>)
    requires LE(data, pos, 1) == 1 && LE(data, pos + 1, 2) == DeflateStream.Kind(p.block)
    requires DeflateStream.BodyAt(data, pos + 3, p.block, p.marks, p.end) && DeflateStream.BlockExpands(p.block, out)
    ensures DeflateStream.StreamAt(data, pos, [p], out)
    ensures DeflateStream.Contents(data, pos, [p], out) == DeflateStream.ExpandBlock(p.block, out)
  {
    hide LE, DeflateStream.BodyAt, DeflateStream.BlockExpands, DeflateStream.ExpandBlock, DeflateStream.Kind;
  }

  lemma NextBlock(data: seq<byte>, pos: nat, p: DeflateStream.Placed, rest: seq<DeflateStream.Placed>, out: seq<byte>)
    requires rest != [] && LE(data, pos, 1) == 0 && LE(data, pos + 1, 2) == DeflateStream.Kind(p.block)
    requires DeflateStream.BodyAt(data, pos + 3, p.block, p.marks, p.end) && DeflateStream.BlockExpands(p.block, out)
    requires DeflateStream.StreamAt(data, p.end, rest, DeflateStream.ExpandBlock(p.block, out))
    ensures DeflateStream.StreamAt(data, pos, [p] + rest, out)
    ensures DeflateStream.Contents(data, pos, [p] + rest, out)
      == DeflateStream.Contents(data, p.end, rest, DeflateStream.ExpandBlock(p.block, out))
  {
    hide LE, DeflateStream.BodyAt, DeflateStream.BlockExpands, DeflateStream.ExpandBlock, DeflateStream.Kind;
    assert ([p] + rest)[1..] == rest;
  }

  lemma BlockPlaced(b: Block, last: bool, data: seq<byte>, pos: nat, out: seq<byte>)
    requires GoodBlock(b) && (!b.StoredBlock? ==> Refers(b.items, out))
    requires Holds(data, pos, BlockBits(b, last, pos)) && pos + |BlockBits(b, last, pos)| <= 8 * |data|
    ensures var p := PlacedBlock(b, pos + 3);
      && p.end == pos + |BlockBits(b, last, pos)|
      && LE(data, pos, 1) == Bit(last) && LE(data, pos + 1, 2) == DeflateStream.Kind(p.block)
      && DeflateStream.BodyAt(data, pos + 3, p.block, p.marks, p.end)
      && DeflateStream.BlockExpands(p.block, out) && DeflateStream.ExpandBlock(p.block, out) == After(b, out)
  {
    hide Holds, GoodBlock, BodyBits, HeadBits, PlacedBlock, LE, After, Refers;
    hide DeflateStream.BodyAt, DeflateStream.BlockExpands, DeflateStream.ExpandBlock, DeflateStream.Kind;
    PlacedEnd(b, last, pos);
    HoldsParts(data, pos, HeadBits(b, last), BodyBits(b, pos + 3));
    HeadPlaced(b, last, data, pos);
    BodyPlaced(b, data, pos + 3);
    BodyMeans(b, pos + 3, out);
  }

  // ----- zlib -----

  /** The two bytes of a zlib header (section 2.2 of RFC 1950): method 8 with a window of `2^(window + 8)`
      bytes, a compression level, no dictionary, and check bits that make them a multiple of 31. */
  function ZlibHead(window: nat, level: nat): (s: seq<byte>)
    requires window <= 7 && level <= 3
    ensures |s| == 2
  {
    var cmf := 16 * window + 8;
    [cmf, 64 * level + (31 - (256 * cmf + 64 * level) % 31) % 31]
  }

  lemma HeadGood(window: nat, level: nat, rest: seq<byte>)
    requires window <= 7 && level <= 3 && rest != []
    ensures Deflate.ZlibHeader(ZlibHead(window, level) + rest)
  {
    var data := ZlibHead(window, level) + rest;
    var n := 256 * (16 * window + 8) + 64 * level;
    var check := (31 - n % 31) % 31;
    assert data[0] == 16 * window + 8 && data[1] == 64 * level + check;
    CheckBits(n);
    HeadFields(window, level, check);
  }

  lemma HeadFields(window: nat, level: nat, check: nat)
    requires check < 31
    ensures (16 * window + 8) % 16 == 8 && (64 * level + check) / 32 % 2 == 0
  {
  }

  lemma CheckBits(n: nat)
    ensures (n + (31 - n % 31) % 31) % 31 == 0
  {
  }

  /** A fixed output is long enough; a growing one may double to its length, within 32 bits and what the
      allocator grants. */
  predicate HasRoom(n: nat, olen: nat, exp: bool, heap_limit: nat) {
    if exp then n <= 0x8000_0000 && 2 * n <= heap_limit else n <= olen
  }

  lemma RoomIs(n: nat, olen: nat, exp: bool, heap_limit: nat)
    ensures HasRoom(n, olen, exp, heap_limit) <==> !Inflating.OutOfRoom(n, olen, exp, heap_limit)
  {
  }

  /** Whatever blocks are encoded, with whatever header, the decoder returns what they stand for, also when
      a checksum or anything else follows. */
  method RoundTrip(blocks: seq<Block>, window: nat, level: nat, rest: seq<byte>, olen: nat, exp: bool, heap_limit: nat)
    returns (r: Inflating.Option<seq<byte>>)
    requires GoodBlocks(blocks) && RefersAll(blocks, []) && window <= 7 && level <= 3
    requires olen <= 0xFFFF_FFFF && (exp ==> 0 < olen) && HasRoom(|Contents(blocks, [])|, olen, exp, heap_limit)
    ensures r == Inflating.Some(Contents(blocks, []))
  {
    hide GoodBlocks, RefersAll, Contents, StreamBits, Pack, Inflating.OutOfRoom, Inflating.Refused, ZlibHead;
    hide Deflate.ZlibHeader, Deflate.Inflate, Deflate.Blocks;
    RoomIs(|Contents(blocks, [])|, olen, exp, heap_limit);
    var head := ZlibHead(window, level);
    var data := head + Pack(StreamBits(blocks, 16)) + rest;
    EncodedInflates(blocks, head, rest);
    StreamNotEmpty(blocks, 16);
    HeadGood(window, level, Pack(StreamBits(blocks, 16)) + rest);
    assert data == head + (Pack(StreamBits(blocks, 16)) + rest);
    InflateBlocks(data);
    r := Inflating.DecodeZlib(data, olen, exp, heap_limit, true);
  }

  lemma EncodedInflates(blocks: seq<Block>, head: seq<byte>, rest: seq<byte>)
    requires GoodBlocks(blocks) && RefersAll(blocks, [])
    ensures var pos := 8 * |head|; var data := head + Pack(StreamBits(blocks, pos)) + rest;
      Deflate.Blocks(data, 8 * |data|, pos, []) == Deflate.Done(Contents(blocks, []), pos + |StreamBits(blocks, pos)|)
  {
    hide GoodBlocks, RefersAll, StreamBits, Pack, Holds, DeflateStream.StreamAt, Deflate.Blocks;
    var pos := 8 * |head|;
    var s := StreamBits(blocks, pos);
    var data := head + Pack(s) + rest;
    Found(head, s, rest);
    StreamPlaced(blocks, data, pos, []);
    DeflateStream.StreamDecodes(data, 8 * |data|, pos, PlacedAll(blocks, pos), []);
  }

  lemma StreamNotEmpty(blocks: seq<Block>, pos: nat)
    requires GoodBlocks(blocks)
    ensures Pack(StreamBits(blocks, pos)) != []
  {
    hide BodyBits, Pack;
  }

  lemma InflateBlocks(data: seq<byte>)
    requires Deflate.ZlibHeader(data)
    ensures Deflate.Inflate(data, 8 * |data|, true) == Deflate.Blocks(data, 8 * |data|, 16, [])
  {
    hide Deflate.Blocks, Deflate.ZlibHeader;
  }

  /** Any bytes, as stored blocks behind a header. */
  method StoredRoundTrip(bytes: seq<byte>, window: nat, level: nat, olen: nat, exp: bool, heap_limit: nat)
    returns (r: Inflating.Option<seq<byte>>)
    requires window <= 7 && level <= 3 && olen <= Inflating.UINT_MAX && (exp ==> 0 < olen)
    requires HasRoom(|bytes|, olen, exp, heap_limit)
    ensures r == Inflating.Some(bytes)
  {
    hide Inflating.OutOfRoom, Inflating.Refused, ZlibHead, Deflate.ZlibHeader, Deflate.Inflate, Deflate.Blocks;
    RoomIs(|bytes|, olen, exp, heap_limit);
    var data := ZlibHead(window, level) + DeflateStored.Encode(bytes);
    assert data[2..] == DeflateStored.Encode(bytes) && [] + bytes == bytes;
    DeflateStored.EncodedReads(data, 2, bytes, []);
    HeadGood(window, level, DeflateStored.Encode(bytes));
    InflateBlocks(data);
    r := Inflating.DecodeZlib(data, olen, exp, heap_limit, true);
  }
}
