/** Baseline JPEG blocks: `stbi__build_fast_ac` and `stbi__jpeg_decode_block` against the
    DECODE / RECEIVE / EXTEND procedures of section F.2.2 of ITU-T T.81. */
module JBlocks {
  import opened Widths
  import opened Bits
  import opened Canonical
  import opened ZTables
  import opened JStream
  import JTables
  import opened JBuild
  import opened JLookup
  import opened JReading
  import Zigzag

  /** The cast to a sixteen-bit signed integer. */
  function Short(x: int): (r: int)
    ensures -32768 <= r <= 32767
  {
    (x + 32768) % 65536 - 32768
  }

  // ----- the fused table -----

  /** The `mag` bits that follow the first `len` in the nine-bit cell `x`. */
  function CellField(x: nat, len: nat, mag: nat): nat
    requires mag <= FAST_BITS
  {
    Shr(Low(Shl(x, len), FAST_BITS), FAST_BITS - mag)
  }

  /** The entry fuses a code of `len` bits for `rs` with the magnitude that follows it. */
  ghost predicate Fused(len: nat, rs: nat, x: nat, r: int) {
    var mag := rs % 16;
    && 0 < mag && len + mag <= FAST_BITS
    && r == 256 * Extend(CellField(x, len, mag), mag) + 16 * (rs / 16) + len + mag
  }

  ghost predicate AcEntry(lens: seq<nat>, vals: seq<nat>, x: nat, r: int)
    requires |lens| <= |vals|
  {
    r != 0 ==> exists i :: 0 <= i < |lens| && JTables.LeadsCell(lens, i, x) && Fused(lens[i], vals[i], x, r)
  }

  method BuildFastAc(h: JHuffman, ghost lens: seq<nat>) returns (fast_ac: array<int>)
    requires h.Built(lens) && forall i :: 0 <= i < 256 ==> h.values[i] < 256
    ensures fresh(fast_ac) && fast_ac.Length == FAST_SIZE
    ensures forall x :: 0 <= x < FAST_SIZE ==> AcEntry(lens, h.values[..], x, fast_ac[x])
  {
    hide Kraft, JHuffman.Lengths, JTables.LeadsCell, Fused;
    fast_ac := new int[FAST_SIZE];
    for x := 0 to FAST_SIZE
      invariant forall y :: 0 <= y < x ==> AcEntry(lens, h.values[..], y, fast_ac[y])
    {
      var fast := h.fast[x];
      fast_ac[x] := 0;
      assert JTables.JCell(lens, |lens|, x, fast);
      if fast < JTables.NOT_FAST {
        var len := h.size[fast];
        assert len == lens[fast];
        fast_ac[x] := FuseEntry(x, h.values[fast], len);
      }
    }
  }

  method FuseEntry(x: nat, rs: nat, len: nat) returns (r: int)
    requires rs < 256
    ensures r != 0 ==> Fused(len, rs, x, r)
  {
    hide Shl, Shr, Low, Pow2;
    var run, magbits := rs / 16 % 16, rs % 16;
    r := 0;
    if magbits != 0 && len + magbits <= FAST_BITS {
      var k: int := Shr(Low(Shl(x, len), FAST_BITS), FAST_BITS - magbits);
      ShlOne(magbits);
      ShlOne(magbits - 1);
      var m := Shl(1, magbits - 1);
      if k < m {
        k := k + (1 - Shl(1, magbits));
      }
      if -128 <= k <= 127 {
        r := k * 256 + run * 16 + (len + magbits);
      }
    }
  }

  /** The cell's field is the stream's, when the cell is the next nine bits. */
  lemma CellFieldIsStream(total: seq<byte>, pos: nat, len: nat, mag: nat)
    requires len + mag <= FAST_BITS
    ensures CellField(Msb(total, pos, FAST_BITS), len, mag) == Msb(total, pos + len, mag)
  {
    hide Msb, Shl, Shr, Low, Pow2;
    var n := FAST_BITS - len;
    var x, a, b := Msb(total, pos, FAST_BITS), Msb(total, pos, len), Msb(total, pos + len, n);
    MsbSplit(total, pos, len, n);
    ShlAdd(Shl(a, n), b, len);
    ShlShl(a, n, len);
    MsbBound(total, pos + len, n);
    ShlOrder(Pow2(n), b, len);
    ShlOne(n);
    ShlShl(1, n, len);
    ShlOne(FAST_BITS);
    JoinSplit(Shl(b, len), a, FAST_BITS);
    MsbTake(total, pos + len, mag, n - mag);
    JoinSplit(0, b, len);
    ShrShr(Shl(b, len), len, n - mag);
  }

  /** A nonzero entry gives the run, the coefficient and the bits that decoding the symbol and
      then receiving and extending its magnitude would give. */
  lemma FusedAgrees(lens: seq<nat>, vals: seq<nat>, total: seq<byte>, pos: nat, r: int)
    requires LensAtMost(lens, MAX_BITS) && |lens| <= |vals| && forall i :: 0 <= i < |vals| ==> vals[i] < 256
    requires r != 0 && AcEntry(lens, vals, Msb(total, pos, FAST_BITS), r)
    ensures JSymbolAt(lens, total, pos) >= 0
    ensures var i := JSymbolAt(lens, total, pos);
      var s := vals[i] % 16;
      && s > 0
      && r / 16 % 16 == vals[i] / 16
      && r % 16 == lens[i] + s
      && r / 256 == Extend(Msb(total, pos + lens[i], s), s)
  {
    hide Msb, Shr, Code, SymbolOf, CellField, Extend;
    var x := Msb(total, pos, FAST_BITS);
    var i :| 0 <= i < |lens| && JTables.LeadsCell(lens, i, x) && Fused(lens[i], vals[i], x, r);
    MsbTake(total, pos, FAST_BITS, MAX_BITS - FAST_BITS);
    JTables.CellLeadsWindow(lens, i, Msb(total, pos, MAX_BITS));
    SymbolOfIs(lens, i, Msb(total, pos, MAX_BITS));
    CellFieldIsStream(total, pos, lens[i], vals[i] % 16);
    UnpackFused(Extend(CellField(x, lens[i], vals[i] % 16), vals[i] % 16), vals[i] / 16, lens[i] + vals[i] % 16);
  }

  lemma UnpackFused(v: int, run: nat, len: nat)
    requires run < 16 && len < 16
    ensures (256 * v + 16 * run + len) / 16 % 16 == run
    ensures (256 * v + 16 * run + len) % 16 == len
    ensures (256 * v + 16 * run + len) / 256 == v
  {
  }

  // ----- blocks -----

  /** One AC symbol with what it carries. */
  datatype AcItem = AcFail | AcEnd | AcSkip | AcCoef(run: nat, value: int)

  datatype AcRead = AcRead(item: AcItem, next: nat)

  ghost predicate AcTable(lens: seq<nat>, vals: seq<nat>) {
    && LensAtMost(lens, MAX_BITS) && |lens| <= |vals|
    && forall i :: 0 <= i < |vals| ==> vals[i] < 256
  }

  /** Decode a symbol, then receive and extend as many bits as it says. */
  ghost function AcAt(lens: seq<nat>, vals: seq<nat>, total: seq<byte>, pos: nat): (r: AcRead)
    requires AcTable(lens, vals)
    ensures r.next >= pos
    ensures r.item.AcCoef? ==> r.item.run <= 15
  {
    var i := JSymbolAt(lens, total, pos);
    if i < 0 then AcRead(AcFail, pos)
    else
      var rs, p := vals[i], pos + lens[i];
      var s := rs % 16;
      if s > 0 then AcRead(AcCoef(rs / 16, Extend(Msb(total, p, s), s)), p + s)
      else if rs == 0xF0 then AcRead(AcSkip, p)
      else AcRead(AcEnd, p)
  }

  /** The coefficients of a block and where it ends, or where it fails. */
  datatype Ref = BadRef(pos: nat) | Ref(coeffs: seq<int>, pos: nat)

  /** The AC coefficients from index `k` on (Figure F.13 of ITU-T T.81): each symbol skips a run
      of zeros and sets one coefficient, skips sixteen, or ends the block. */
  ghost function AcRef(lens: seq<nat>, vals: seq<nat>, dequant: seq<int>, total: seq<byte>, pos: nat, k: nat, data: seq<int>): (r: Ref)
    requires AcTable(lens, vals) && |dequant| == |data| == 64
    ensures r.pos >= pos && (r.Ref? ==> |r.coeffs| == 64)
    decreases if k < 64 then 64 - k else 0
  {
    if k >= 64 then Ref(data, pos)
    else
      var AcRead(item, next) := AcAt(lens, vals, total, pos);
      match item
      case AcFail => BadRef(next)
      case AcEnd => Ref(data, next)
      case AcSkip => AcRef(lens, vals, dequant, total, next, k + 16, data)
      case AcCoef(run, v) =>
        AcRef(lens, vals, dequant, total, next, k + run + 1, SetCoef(data, dequant, k + run, v))
  }

  /** No symbol of these coefficients collides with the miss mark of the fast table. */
  ghost predicate AcClear(lens: seq<nat>, vals: seq<nat>, total: seq<byte>, pos: nat, k: nat)
    requires AcTable(lens, vals)
    decreases if k < 64 then 64 - k else 0
  {
    k < 64 ==>
      && !CollidesAt(lens, total, pos)
      && var AcRead(item, next) := AcAt(lens, vals, total, pos);
         match item
         case AcFail => true
         case AcEnd => true
         case AcSkip => AcClear(lens, vals, total, next, k + 16)
         case AcCoef(run, v) => AcClear(lens, vals, total, next, k + run + 1)
  }

  /** A usable table has none that could. */
  lemma {:induction false} UsableAc(lens: seq<nat>, vals: seq<nat>, total: seq<byte>, pos: nat, k: nat)
    requires AcTable(lens, vals) && Usable(lens)
    ensures AcClear(lens, vals, total, pos, k)
    decreases if k < 64 then 64 - k else 0
  {
    hide AcAt, Msb, SymbolOf;
    if k < 64 {
      match AcAt(lens, vals, total, pos) {
        case AcRead(AcSkip, next) => UsableAc(lens, vals, total, next, k + 16);
        case AcRead(AcCoef(run, v), next) => UsableAc(lens, vals, total, next, k + run + 1);
        case _ =>
      }
    }
  }

  /** Dequantizes a value into its place. */
  function SetCoef(data: seq<int>, dequant: seq<int>, k: nat, v: int): (r: seq<int>)
    requires |dequant| == |data| == 64
    ensures |r| == 64
  {
    var z := Zigzag.PlaceOf(k);
    data[z := Short(v * dequant[z])]
  }

  /** The reference reads past the scan's last bit. */
  ghost predicate Overruns(r: Ref, total: seq<byte>) {
    r.pos > 8 * |total|
  }

  ghost predicate FastAcTable(lens: seq<nat>, vals: seq<nat>, fac: seq<int>)
    requires |lens| <= |vals|
  {
    |fac| == FAST_SIZE && forall x :: 0 <= x < FAST_SIZE ==> AcEntry(lens, vals, x, fac[x])
  }

  /** One AC symbol, by the fused table or by decoding and extending: either what the reference
      reads, or the reference reads past the scan. */
  method NextAc(j: JReader, hac: JHuffman, ghost lens: seq<nat>, fac: array<int>) returns (t: AcItem)
    requires j.Valid() && hac.Built(lens) && AcTable(lens, hac.values[..])
    requires FastAcTable(lens, hac.values[..], fac[..])
    modifies j
    ensures !t.AcFail? ==> j.Valid()
    ensures t.AcCoef? ==> t.run <= 15
    ensures !CollidesAt(lens, j.total, old(j.pos)) ==> var r := AcAt(lens, hac.values[..], j.total, old(j.pos));
      r.next <= 8 * |j.total| ==> r.item == t && (!t.AcFail? ==> r.next == j.pos)
  {
    hide JHuffman.Lengths, JHuffman.Fast, Kraft, Msb, Shl, Shr, SymbolOf, Extend, AcEntry, Entropy, Pow2;
    ghost var vals := hac.values[..];
    if j.code_bits < 16 {
      j.Grow();
    }
    BufferFits(WORD, j.total, j.pos, j.code_bits);
    TopBits(WORD, j.total, j.pos, j.code_bits, FAST_BITS);
    TopBitsBound(j.code_buffer, FAST_BITS);
    Pow2Values();
    var c := Shr(j.code_buffer, 32 - FAST_BITS);
    var r := fac[c];
    assert AcEntry(lens, vals, c, fac[..][c]);
    if r != 0 {
      FusedAgrees(lens, vals, j.total, j.pos, r);
      var s := r % 16;
      if s > j.code_bits {
        return AcFail;
      }
      j.Drop(s);
      return AcCoef(r / 16 % 16, r / 256);
    }
    t := NextAcSlow(j, hac, lens);
  }

  method NextAcSlow(j: JReader, hac: JHuffman, ghost lens: seq<nat>) returns (t: AcItem)
    requires j.Valid() && hac.Built(lens) && AcTable(lens, hac.values[..])
    modifies j
    ensures !t.AcFail? ==> j.Valid()
    ensures t.AcCoef? ==> t.run <= 15
    ensures !CollidesAt(lens, j.total, old(j.pos)) ==> var r := AcAt(lens, hac.values[..], j.total, old(j.pos));
      r.next <= 8 * |j.total| ==> r.item == t && (!t.AcFail? ==> r.next == j.pos)
  {
    hide JHuffman.Lengths, JHuffman.Fast, Kraft, Msb, Shl, Shr, SymbolOf, Extend, Entropy, Pow2;
    ghost var vals := hac.values[..];
    var rs := j.HuffDecode(hac, lens);
    if rs < 0 {
      return AcFail;
    }
    assert !CollidesAt(lens, j.total, old(j.pos)) ==> rs == vals[JSymbolAt(lens, j.total, old(j.pos))];
    var s, r := rs % 16, rs / 16;
    if s == 0 {
      return if rs != 0xF0 then AcEnd else AcSkip;
    }
    var v := j.ExtendReceive(s);
    t := AcCoef(r, v);
  }

  method StoreCoef(data: array<int>, dequant: seq<int>, k: nat, v: int)
    requires data.Length == 64 && |dequant| == 64 && k < |Zigzag.DEZIGZAG|
    modifies data
    ensures data[..] == SetCoef(old(data[..]), dequant, k, v)
  {
    Zigzag.TableFollowsWalk(k);
    var z := Zigzag.DEZIGZAG[k];
    data[z] := Short(v * dequant[z]);
  }

  /** The AC part of `stbi__jpeg_decode_block`.  While the reference stays within the scan, the
      decoder fails with it, or succeeds with its coefficients and position. */
  method DecodeAc(j: JReader, hac: JHuffman, ghost lens: seq<nat>, fac: array<int>, data: array<int>, dequant: seq<int>)
    returns (ok: bool)
    requires j.Valid() && hac.Built(lens) && AcTable(lens, hac.values[..])
    requires FastAcTable(lens, hac.values[..], fac[..])
    requires data.Length == 64 && |dequant| == 64 && data != fac && data !in hac.Repr
    modifies j, data
    ensures ok ==> j.Valid()
    ensures var r := AcRef(lens, hac.values[..], dequant, j.total, old(j.pos), 1, old(data[..]));
      AcClear(lens, hac.values[..], j.total, old(j.pos), 1) && !Overruns(r, j.total) ==>
        (ok <==> r.Ref?) && (ok ==> r == Ref(data[..], j.pos))
  {
    hide JHuffman.Lengths, JHuffman.Fast, JHuffman.Sizes, JReader.Valid, FastAcTable, CollidesAt, Kraft, Msb;
    hide SymbolOf, AcAt, AcEntry, SetCoef, Entropy, Shl;
    ghost var vals := hac.values[..];
    ghost var r := AcRef(lens, vals, dequant, j.total, j.pos, 1, data[..]);
    ghost var clear := AcClear(lens, vals, j.total, j.pos, 1);
    var k := 1;
    while k < 64
      invariant 1 <= k <= 79 && hac.values[..] == vals && hac.Built(lens)
      invariant j.Valid() && FastAcTable(lens, vals, fac[..])
      invariant clear && !Overruns(r, j.total) ==>
        r == AcRef(lens, vals, dequant, j.total, j.pos, k, data[..]) && AcClear(lens, vals, j.total, j.pos, k)
    {
      var t := NextAc(j, hac, lens, fac);
      match t {
        case AcFail => return false;
        case AcEnd => return true;
        case AcSkip => k := k + 16;
        case AcCoef(run, v) =>
          k := k + run;
          StoreCoef(data, dequant, k, v);
          k := k + 1;
      }
    }
    ok := true;
  }

  // ----- whole blocks -----

  const SHRT_MIN := -32768
  const SHRT_MAX := 32767

  /** Division that rounds toward zero. */
  function Quot(a: int, b: int): int
    requires b != 0
  {
    if a >= 0 then (if b > 0 then a / b else -(a / -b))
    else if b > 0 then -(-a / b) else -a / -b
  }

  predicate AddIntsValid(a: int, b: int) {
    if (a >= 0) != (b >= 0) then true
    else if a < 0 && b < 0 then a >= INT_MIN - b
    else a <= INT_MAX - b
  }

  predicate Mul2ShortsValid(a: int, b: int) {
    if b == 0 || b == -1 then true
    else if (a >= 0) == (b >= 0) then a <= Quot(SHRT_MAX, b)
    else if b < 0 then a <= Quot(SHRT_MIN, b)
    else a >= Quot(SHRT_MIN, b)
  }

  predicate FitsShort(x: int) {
    SHRT_MIN <= x <= SHRT_MAX
  }

  /** The sum check is exact on 32-bit operands. */
  lemma AddIntsExact(a: int, b: int)
    requires INT_MIN <= a <= INT_MAX && INT_MIN <= b <= INT_MAX
    ensures AddIntsValid(a, b) <==> INT_MIN <= a + b <= INT_MAX
  {
  }

  /** The product check answers whether the product fits exactly when the second factor is not
      negative, as at every call, and otherwise only for these first factors. */
  lemma Mul2ShortsExact(a: int, b: int)
    ensures (Mul2ShortsValid(a, b) == FitsShort(a * b)) <==>
      || b >= 0
      || (b == -1 && -SHRT_MAX <= a <= -SHRT_MIN)
      || (b < -1 && (a >= 0 || a == -(SHRT_MAX / -b)))
  {
    if b > 0 {
      if a >= 0 { ProductAtMost(a, b, SHRT_MAX); } else { ProductAtMost(-a, b, -SHRT_MIN); NegProduct(a, b); }
    } else if b < -1 {
      NegProduct(a, b);
      if a >= 0 { ProductAtMost(a, -b, -SHRT_MIN); } else { ProductAtMost(-a, -b, SHRT_MAX); }
    }
  }

  lemma NegProduct(a: int, b: int)
    ensures a * b == -a * -b && a * b == -(-a * b) && a * b == -(a * -b)
  {
  }

  lemma ProductAtMost(a: nat, b: nat, m: nat)
    requires b > 0
    ensures a <= m / b <==> a * b <= m
    ensures a == m / b ==> a * b <= m
  {
    var q, r := m / b, m % b;
    assert m == b * q + r;
    if a <= q { MulMono(b, a, q); } else { MulMono(b, q + 1, a); }
  }

  datatype Dc = BadDc(next: nat) | Dc(value: int, next: nat)

  /** The DC coefficient: the prediction plus a received and extended difference. */
  ghost function DcRef(lens: seq<nat>, vals: seq<nat>, total: seq<byte>, pos: nat, pred: int): (r: Dc)
    requires AcTable(lens, vals)
  {
    var i := JSymbolAt(lens, total, pos);
    if i < 0 then BadDc(pos)
    else if vals[i] > 15 then BadDc(pos + lens[i])
    else
      var t, p := vals[i], pos + lens[i];
      var dc := pred + Extend(Msb(total, p, t), t);
      if INT_MIN <= dc <= INT_MAX then Dc(dc, p + t) else BadDc(p + t)
  }

  function OnlyDc(v: int): (s: seq<int>)
    ensures |s| == 64
  {
    seq(64, k => if k == 0 then v else 0)
  }

  /** A whole block: the DC coefficient, which must fit when dequantized, then the AC ones. */
  ghost function BlockRef(dcLens: seq<nat>, dcVals: seq<nat>, lens: seq<nat>, vals: seq<nat>, dequant: seq<int>,
                          total: seq<byte>, pos: nat, pred: int): (r: Ref)
    requires AcTable(dcLens, dcVals) && AcTable(lens, vals) && |dequant| == 64
    ensures r.Ref? ==> |r.coeffs| == 64
  {
    var d := DcRef(dcLens, dcVals, total, pos, pred);
    if d.BadDc? || !FitsShort(d.value * dequant[0]) then BadRef(d.next)
    else AcRef(lens, vals, dequant, total, d.next, 1, OnlyDc(d.value * dequant[0]))
  }

  /** No symbol of the block collides. */
  ghost predicate BlockClear(dcLens: seq<nat>, dcVals: seq<nat>, lens: seq<nat>, vals: seq<nat>, total: seq<byte>, pos: nat, pred: int)
    requires AcTable(dcLens, dcVals) && AcTable(lens, vals)
  {
    && !CollidesAt(dcLens, total, pos)
    && var d := DcRef(dcLens, dcVals, total, pos, pred);
       d.Dc? ==> AcClear(lens, vals, total, d.next, 1)
  }

  /** With two usable tables no block has a collision. */
  lemma UsableIsClear(dcLens: seq<nat>, dcVals: seq<nat>, lens: seq<nat>, vals: seq<nat>, total: seq<byte>, pos: nat, pred: int)
    requires AcTable(dcLens, dcVals) && AcTable(lens, vals) && Usable(dcLens) && Usable(lens)
    ensures BlockClear(dcLens, dcVals, lens, vals, total, pos, pred)
  {
    hide AcClear, DcRef, Msb, SymbolOf;
    var d := DcRef(dcLens, dcVals, total, pos, pred);
    if d.Dc? {
      UsableAc(lens, vals, total, d.next, 1);
    }
  }

  /** The DC part: what the reference reads, or fails to read, while it stays within the scan. */
  method DecodeDc(j: JReader, hdc: JHuffman, ghost lens: seq<nat>, pred: int) returns (ok: bool, dc: int)
    requires j.Valid() && hdc.Built(lens) && AcTable(lens, hdc.values[..])
    requires INT_MIN <= pred <= INT_MAX
    modifies j
    ensures ok ==> j.Valid()
    ensures var r := DcRef(lens, hdc.values[..], j.total, old(j.pos), pred);
      !CollidesAt(lens, j.total, old(j.pos)) && r.next <= 8 * |j.total| ==> (ok <==> r.Dc?) && (ok ==> r == Dc(dc, j.pos))
    ensures ok ==> INT_MIN <= dc <= INT_MAX
  {
    hide JHuffman.Lengths, JHuffman.Fast, Kraft, Msb, Shl, Shr, SymbolOf, Entropy, Pow2;
    ghost var vals := hdc.values[..];
    dc := 0;
    if j.code_bits < 16 {
      j.Grow();
    }
    var t := j.HuffDecode(hdc, lens);
    if t < 0 || t > 15 {
      return false, dc;
    }
    assert !CollidesAt(lens, j.total, old(j.pos)) ==> t == vals[JSymbolAt(lens, j.total, old(j.pos))];
    ghost var p := j.pos;
    var diff := 0;
    if t != 0 {
      diff := j.ExtendReceive(t);
    }
    ExtendBound(j.total, p, t);
    AddIntsExact(pred, diff);
    if !AddIntsValid(pred, diff) {
      return false, dc;
    }
    ok, dc := true, pred + diff;
  }

  lemma ExtendBound(total: seq<byte>, p: nat, t: nat)
    requires t <= 15
    ensures -65536 < Extend(Msb(total, p, t), t) < 65536
    ensures t == 0 ==> Extend(Msb(total, p, t), t) == 0
  {
    hide Msb;
    MsbBound(total, p, t);
    Pow2Mono(t, 15);
    Pow2Values();
    MsbPastEnd([], 0, 0);
  }

  /** `stbi__jpeg_decode_block`: on every block that the scan holds whole, exactly the
      reference's coefficients, read from exactly the reference's bits; on every block that is
      wrong within the scan, failure. */
  method DecodeBlock(j: JReader, hdc: JHuffman, ghost dcLens: seq<nat>, hac: JHuffman, ghost lens: seq<nat>,
                     fac: array<int>, data: array<int>, dequant: seq<int>, pred: int)
    returns (ok: bool, dc: int)
    requires j.Valid() && hdc.Built(dcLens) && AcTable(dcLens, hdc.values[..])
    requires hac.Built(lens) && AcTable(lens, hac.values[..])
    requires FastAcTable(lens, hac.values[..], fac[..])
    requires data.Length == 64 && data != fac && data !in hac.Repr && data !in hdc.Repr
    requires |dequant| == 64 && forall k :: 0 <= k < 64 ==> 0 <= dequant[k] < 65536
    requires INT_MIN <= pred <= INT_MAX
    modifies j, data
    ensures ok ==> j.Valid()
    ensures var r := BlockRef(dcLens, hdc.values[..], lens, hac.values[..], dequant, j.total, old(j.pos), pred);
      BlockClear(dcLens, hdc.values[..], lens, hac.values[..], j.total, old(j.pos), pred) && !Overruns(r, j.total) ==>
        (ok <==> r.Ref?) && (ok ==> r == Ref(data[..], j.pos))
    ensures var r := BlockRef(dcLens, hdc.values[..], lens, hac.values[..], dequant, j.total, old(j.pos), pred);
      var d := DcRef(dcLens, hdc.values[..], j.total, old(j.pos), pred);
      BlockClear(dcLens, hdc.values[..], lens, hac.values[..], j.total, old(j.pos), pred) && !Overruns(r, j.total) && ok ==>
        d == Dc(dc, d.next)
    ensures ok ==> INT_MIN <= dc <= INT_MAX
  {
    hide JHuffman.Lengths, JHuffman.Fast, Kraft, SymbolOf, AcRef, AcClear, DcRef, AcEntry, Entropy, Shl, Msb;
    ok, dc := DecodeDc(j, hdc, dcLens, pred);
    if !ok {
      return;
    }
    Mul2ShortsExact(dc, dequant[0]);
    if !Mul2ShortsValid(dc, dequant[0]) {
      return false, dc;
    }
    for k := 0 to 64
      invariant forall i :: 0 <= i < k ==> data[i] == 0
      modifies data
    {
      data[k] := 0;
    }
    data[0] := Short(dc * dequant[0]);
    assert data[..] == OnlyDc(dc * dequant[0]);
    ok := DecodeAc(j, hac, lens, fac, data, dequant);
  }
}
