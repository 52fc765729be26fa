/** Bytes read as bits, most significant bit of each byte first, and continued by zeros past their
    end: JPEG entropy-coded data (section F.2.2.5 of ITU-T T.81) and packed PNG samples. */
module JStream {
  import opened Bits

  const WORD: nat := 32

  function ScanBit(data: seq<byte>, i: nat): (b: nat)
    ensures b <= 1
  {
    if i / 8 < |data| then BitAt(data[i / 8], 7 - i % 8) else 0
  }

  /** The `n` bits from `pos` as a number, the first one most significant. */
  function Msb(data: seq<byte>, pos: nat, n: nat): nat
    decreases n
  {
    if n == 0 then 0 else 2 * Msb(data, pos, n - 1) + ScanBit(data, pos + n - 1)
  }

  lemma {:induction false} MsbBound(data: seq<byte>, pos: nat, n: nat)
    ensures Msb(data, pos, n) < Pow2(n)
    decreases n
  {
    if n > 0 { MsbBound(data, pos, n - 1); }
  }

  lemma {:induction false} MsbSplit(data: seq<byte>, pos: nat, m: nat, n: nat)
    ensures Msb(data, pos, m + n) == Shl(Msb(data, pos, m), n) + Msb(data, pos + m, n)
    decreases n
  {
    if n > 0 { MsbSplit(data, pos, m, n - 1); }
  }

  /** The leading `m` bits of a field of `m + n`, and the rest. */
  lemma MsbTake(data: seq<byte>, pos: nat, m: nat, n: nat)
    ensures Shr(Msb(data, pos, m + n), n) == Msb(data, pos, m)
    ensures Low(Msb(data, pos, m + n), n) == Msb(data, pos + m, n)
  {
    MsbSplit(data, pos, m, n);
    MsbBound(data, pos + m, n);
    JoinSplit(Msb(data, pos + m, n), Msb(data, pos, m), n);
  }

  lemma {:induction false} MsbPastEnd(data: seq<byte>, pos: nat, n: nat)
    requires pos >= 8 * |data|
    ensures Msb(data, pos, n) == 0
    decreases n
  {
    if n > 0 { MsbPastEnd(data, pos, n - 1); }
  }

  /** A whole byte. */
  lemma MsbByte(data: seq<byte>, k: nat, n: nat)
    requires k < |data| && n == 8
    ensures Msb(data, 8 * k, n) == data[k]
  {
    hide Msb;
    Pow2Values();
    assert data[k] as nat < Pow2(8);
    MsbByteBits(data, k, data[k], 8);
    assert Shr(data[k], 0) == data[k];
  }

  lemma {:induction false} MsbByteBits(data: seq<byte>, k: nat, v: nat, n: nat)
    requires k < |data| && v == data[k] && n <= 8 && v < Pow2(8)
    ensures Msb(data, 8 * k, n) == Shr(v, 8 - n)
    decreases n
  {
    hide Shr, Pow2, BitAt, ScanBit;
    if n == 0 {
      LowSmall(v, 8);
    } else {
      var m := 8 - n;
      MsbByteBits(data, k, v, n - 1);
      BitOfByte(data, k, n - 1);
      NextBitUp(v, m);
    }
  }

  lemma BitOfByte(data: seq<byte>, k: nat, r: nat)
    requires k < |data| && r < 8
    ensures ScanBit(data, 8 * k + r) == BitAt(data[k], 7 - r)
  {
    hide BitAt;
  }

  lemma NextBitUp(v: nat, m: nat)
    ensures Shr(v, m) == 2 * Shr(v, m + 1) + BitAt(v, m)
  {
    BitAtShr(v, m, 0);
    ShrShr(v, m, 1);
    var q := Shr(v, m);
    assert Shr(q, 1) == q / 2;
  }

  // ----- the first `n` stream bits at the top of a `w`-bit buffer -----

  lemma BufferFits(w: nat, data: seq<byte>, pos: nat, n: nat)
    requires n <= w
    ensures Shl(Msb(data, pos, n), w - n) < Pow2(w)
  {
    hide Msb, Shl, Pow2;
    MsbBound(data, pos, n);
    ShlOrder(Pow2(n), Msb(data, pos, n), w - n);
    ShlOne(n);
    ShlShl(1, n, w - n);
    ShlOne(w);
  }

  /** The top `k` bits of the buffer are stream bits, if buffered or if only zeros follow. */
  lemma TopBits(w: nat, data: seq<byte>, pos: nat, n: nat, k: nat)
    requires n <= w && k <= w && (k <= n || pos + n >= 8 * |data|)
    ensures Shr(Shl(Msb(data, pos, n), w - n), w - k) == Msb(data, pos, k)
  {
    hide Msb, Shl, Shr;
    var m := Msb(data, pos, n);
    if k <= n {
      MsbTake(data, pos, k, n - k);
      JoinSplit(0, m, w - n);
      ShrShr(Shl(m, w - n), w - n, n - k);
    } else {
      MsbSplit(data, pos, n, k - n);
      MsbPastEnd(data, pos + n, k - n);
      ShlShl(m, k - n, w - k);
      JoinSplit(0, Shl(m, k - n), w - k);
    }
  }

  /** Shifting the buffer left drops its top bits. */
  lemma DropBits(w: nat, data: seq<byte>, pos: nat, n: nat, k: nat)
    requires k <= n <= w
    ensures Low(Shl(Shl(Msb(data, pos, n), w - n), k), w) == Shl(Msb(data, pos + k, n - k), w - (n - k))
  {
    hide Msb, Shl, Low;
    var m, a, b := Msb(data, pos, n), Msb(data, pos, k), Msb(data, pos + k, n - k);
    MsbSplit(data, pos, k, n - k);
    ShlShl(m, w - n, k);
    ShlAdd(Shl(a, n - k), b, w - (n - k));
    ShlShl(a, n - k, w - (n - k));
    BufferFits(w, data, pos + k, n - k);
    JoinSplit(Shl(b, w - (n - k)), a, w);
  }
}
