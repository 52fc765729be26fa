/** A byte sequence read as bits, least significant bit of each byte first (section 3.1.1
    of RFC 1951), and continued by zeros past its end. */
module BitStream {
  import Widths
  import opened Bits

  function StreamBit(data: seq<byte>, i: nat): (b: nat)
    ensures b <= 1
  {
    if i / 8 < |data| then BitAt(data[i / 8], i % 8) else 0
  }

  /** The `n` bits from `pos`, the first one least significant. */
  function LE(data: seq<byte>, pos: nat, n: nat): nat
    decreases n
  {
    if n == 0 then 0 else StreamBit(data, pos) + 2 * LE(data, pos + 1, n - 1)
  }

  /** The `n` bits from `pos`, the first one most significant. */
  function BE(data: seq<byte>, pos: nat, n: nat): nat
    decreases n
  {
    if n == 0 then 0 else 2 * BE(data, pos, n - 1) + StreamBit(data, pos + n - 1)
  }

  lemma {:induction false} LEBound(data: seq<byte>, pos: nat, n: nat)
    ensures LE(data, pos, n) < Pow2(n)
    decreases n
  {
    if n > 0 { LEBound(data, pos + 1, n - 1); }
  }

  lemma {:induction false} BEBound(data: seq<byte>, pos: nat, n: nat)
    ensures BE(data, pos, n) < Pow2(n)
  {
    if n > 0 { BEBound(data, pos, n - 1); }
  }

  lemma {:induction false} LESplit(data: seq<byte>, pos: nat, m: nat, n: nat)
    ensures LE(data, pos, m + n) == LE(data, pos, m) + Shl(LE(data, pos + m, n), m)
    decreases m
  {
    hide LE, StreamBit;
    LEEmpty(data, pos);
    if m > 0 {
      LESplit(data, pos + 1, m - 1, n);
      LEStep(data, pos, m + n);
      LEStep(data, pos, m);
    }
  }

  lemma LEEmpty(data: seq<byte>, pos: nat)
    ensures LE(data, pos, 0) == 0
  {
  }

  lemma LEStep(data: seq<byte>, pos: nat, n: nat)
    requires n > 0
    ensures LE(data, pos, n) == StreamBit(data, pos) + 2 * LE(data, pos + 1, n - 1)
  {
    hide StreamBit;
  }

  /** Taking `m` bits off a reservoir of `m + n` bits: the value taken and what is left. */
  lemma LETake(data: seq<byte>, pos: nat, m: nat, n: nat)
    ensures Low(LE(data, pos, m + n), m) == LE(data, pos, m)
    ensures Shr(LE(data, pos, m + n), m) == LE(data, pos + m, n)
  {
    LESplit(data, pos, m, n);
    LEBound(data, pos, m);
    JoinSplit(LE(data, pos, m), LE(data, pos + m, n), m);
  }

  lemma {:induction false} BETake(data: seq<byte>, pos: nat, m: nat, n: nat)
    ensures Shr(BE(data, pos, m + n), n) == BE(data, pos, m)
    decreases n
  {
    if n > 0 {
      var x := BE(data, pos, m + n);
      assert x / 2 == BE(data, pos, m + n - 1);
      BETake(data, pos, m, n - 1);
    }
  }

  lemma {:induction false} BEFirst(data: seq<byte>, pos: nat, n: nat)
    requires n > 0
    ensures BE(data, pos, n) == (if StreamBit(data, pos) == 1 then Pow2(n - 1) else 0) + BE(data, pos + 1, n - 1)
    decreases n
  {
    if n > 1 { BEFirst(data, pos, n - 1); }
  }

  /** Reversing a little-endian field gives the same bits read most significant first. */
  lemma {:induction false} ReverseLE(data: seq<byte>, pos: nat, n: nat)
    ensures Reverse(LE(data, pos, n), n) == BE(data, pos, n)
    decreases n
  {
    hide LE, StreamBit, Pow2;
    if n > 0 {
      ReverseLE(data, pos + 1, n - 1);
      BEFirst(data, pos, n);
      LEStep(data, pos, n);
      var b, t := StreamBit(data, pos), LE(data, pos + 1, n - 1);
      assert (b + 2 * t) % 2 == b && (b + 2 * t) / 2 == t;
    }
  }

  /** A whole byte of the stream, and zeros past the end. */
  lemma LEByte(data: seq<byte>, k: nat)
    ensures LE(data, 8 * k, Widths.BYTE_BITS) == if k < |data| then data[k] else 0
  {
    hide LE, BitAt;
    var v: nat := if k < |data| then data[k] else 0;
    Pow2Values();
    ByteBits(data, k, v, v, 0);
  }

  lemma {:induction false} ByteBits(data: seq<byte>, k: nat, v: nat, u: nat, j: nat)
    requires j <= Widths.BYTE_BITS && v == if k < |data| then data[k] else 0
    requires u < Pow2(Widths.BYTE_BITS - j) && forall i :: 0 <= i < Widths.BYTE_BITS - j ==> BitAt(u, i) == BitAt(v, i + j)
    ensures LE(data, 8 * k + j, Widths.BYTE_BITS - j) == u
    decreases Widths.BYTE_BITS - j
  {
    if j < 8 {
      assert (8 * k + j) / 8 == k && (8 * k + j) % 8 == j;
      assert BitAt(u, 0) == BitAt(v, 0 + j);
      BitAtZero(j);
      forall i | 0 <= i < 7 - j ensures BitAt(u / 2, i) == BitAt(v, i + (j + 1)) {
        assert BitAt(u, i + 1) == BitAt(v, (i + 1) + j);
      }
      ByteBits(data, k, v, u / 2, j + 1);
    }
  }

  /** Past the end the stream is all zeros. */
  lemma {:induction false} LEPastEnd(data: seq<byte>, pos: nat, n: nat)
    requires pos >= 8 * |data|
    ensures LE(data, pos, n) == 0
    decreases n
  {
    if n > 0 { LEPastEnd(data, pos + 1, n - 1); }
  }
}

/** `stbi__bitreverse16` and `stbi__bit_reverse`: a four-stage swap network. */
module Reversal {
  import opened Bits

  function Swap(n: nat, high: nat, low: nat, dist: nat): nat {
    Or(Shr(And(n, high), dist), Shl(And(n, low), dist))
  }

  function BitReverse16(n: nat): nat {
    var n1 := Swap(n, 0xAAAA, 0x5555, 1);
    var n2 := Swap(n1, 0xCCCC, 0x3333, 2);
    var n3 := Swap(n2, 0xF0F0, 0x0F0F, 4);
    Swap(n3, 0xFF00, 0x00FF, 8)
  }

  /** Bit `k` lies in the upper half of its group of `2 * dist` bits. */
  predicate Upper(k: nat, dist: nat) {
    if dist == 1 then k % 2 >= 1
    else if dist == 2 then k % 4 >= 2
    else if dist == 4 then k % 8 >= 4
    else k % 16 >= 8
  }

  /** Which bit of its input a stage moves to place `i`. */
  function Partner(i: nat, dist: nat): int {
    if Upper(i, dist) then i - dist else i + dist
  }

  /** The masks of a stage select the upper and the lower halves. */
  ghost predicate StageMasks(high: nat, low: nat, dist: nat) {
    && high < 65536
    && low < 65536
    && (forall k :: 0 <= k < 16 ==> BitAt(high, k) == if Upper(k, dist) then 1 else 0)
    && (forall k :: 0 <= k < 16 ==> BitAt(low, k) == if Upper(k, dist) then 0 else 1)
  }

  /** Bit `k` of a four-digit hexadecimal number is bit `k % 4` of digit `k / 4`. */
  lemma HexBit(d0: nat, d1: nat, d2: nat, d3: nat, k: nat)
    requires d0 < 16 && d1 < 16 && d2 < 16 && d3 < 16 && k < 16
    ensures BitAt(d0 + 16 * d1 + 256 * d2 + 4096 * d3, k) ==
            BitAt(if k < 4 then d0 else if k < 8 then d1 else if k < 12 then d2 else d3, k % 4)
  {
    var y2 := d2 + 16 * d3;
    var y1 := d1 + 16 * y2;
    HexDigit(d0, y1, k);
    if k < 4 {
    } else if k < 8 {
      HexDigit(d1, y2, k - 4);
      assert k % 4 == k - 4;
    } else if k < 12 {
      HexDigit(d1, y2, k - 4);
      HexDigit(d2, d3, k - 8);
      assert k % 4 == k - 8;
    } else {
      HexDigit(d1, y2, k - 4);
      HexDigit(d2, d3, k - 8);
      assert k % 4 == k - 12;
    }
  }

  lemma HexDigit(d: nat, y: nat, k: nat)
    requires d < 16
    ensures BitAt(d + 16 * y, k) == if k < 4 then BitAt(d, k) else BitAt(y, k - 4)
  {
    Pow2Values();
    assert Shl(y, 4) == 16 * y;
    JoinSplit(d, y, 4);
    if k < 4 {
      BitAtLow(d + 16 * y, 4, k);
    } else {
      BitAtShr(d + 16 * y, 4, k - 4);
    }
  }

  lemma Masks1()
    ensures StageMasks(0xAAAA, 0x5555, 1)
  {
    forall k | 0 <= k < 16
      ensures BitAt(0xAAAA, k) == (if Upper(k, 1) then 1 else 0) && BitAt(0x5555, k) == (if Upper(k, 1) then 0 else 1)
    {
      HexBit(10, 10, 10, 10, k);
      HexBit(5, 5, 5, 5, k);
      NibbleBits(k % 4);
    }
  }

  lemma Masks2()
    ensures StageMasks(0xCCCC, 0x3333, 2)
  {
    forall k | 0 <= k < 16
      ensures BitAt(0xCCCC, k) == (if Upper(k, 2) then 1 else 0) && BitAt(0x3333, k) == (if Upper(k, 2) then 0 else 1)
    {
      HexBit(12, 12, 12, 12, k);
      HexBit(3, 3, 3, 3, k);
      NibbleBits(k % 4);
    }
  }

  lemma Masks4()
    ensures StageMasks(0xF0F0, 0x0F0F, 4)
  {
    forall k | 0 <= k < 16
      ensures BitAt(0xF0F0, k) == (if Upper(k, 4) then 1 else 0) && BitAt(0x0F0F, k) == (if Upper(k, 4) then 0 else 1)
    {
      HexBit(0, 15, 0, 15, k);
      HexBit(15, 0, 15, 0, k);
      NibbleBits(k % 4);
    }
  }

  lemma Masks8()
    ensures StageMasks(0xFF00, 0x00FF, 8)
  {
    forall k | 0 <= k < 16
      ensures BitAt(0xFF00, k) == (if Upper(k, 8) then 1 else 0) && BitAt(0x00FF, k) == (if Upper(k, 8) then 0 else 1)
    {
      HexBit(0, 0, 15, 15, k);
      HexBit(15, 15, 0, 0, k);
      NibbleBits(k % 4);
    }
  }

  lemma NibbleBits(k: nat)
    requires k < 4
    ensures BitAt(10, k) == k % 2 && BitAt(5, k) == 1 - k % 2
    ensures BitAt(12, k) == k / 2 % 2 && BitAt(3, k) == 1 - k / 2 % 2
    ensures BitAt(15, k) == 1 && BitAt(0, k) == 0
  {
    if k == 0 {
    } else if k == 1 {
    } else if k == 2 {
    } else {
    }
  }

  lemma Groups(i: nat, dist: nat)
    requires dist == 1 || dist == 2 || dist == 4 || dist == 8
    requires i < 16
    ensures Upper(i + dist, dist) != Upper(i, dist)
    ensures i >= dist ==> Upper(i - dist, dist) != Upper(i, dist)
    ensures if Upper(i, dist) then i >= dist else i + dist < 16
  {
    if dist == 1 {
    } else if dist == 2 {
    } else if dist == 4 {
    } else {
    }
  }

  lemma SwapBit(n: nat, high: nat, low: nat, dist: nat, i: nat)
    requires dist == 1 || dist == 2 || dist == 4 || dist == 8
    requires i < 16 && StageMasks(high, low, dist)
    ensures 0 <= Partner(i, dist) < 16
    ensures BitAt(Swap(n, high, low, dist), i) == BitAt(n, Partner(i, dist))
  {
    var a, b := And(n, high), And(n, low);
    BitAtOr(Shr(a, dist), Shl(b, dist), i);
    BitAtShr(a, dist, i);
    BitAtShl(b, dist, i);
    BitAtAnd(n, high, i + dist);
    Groups(i, dist);
    if i >= dist { BitAtAnd(n, low, i - dist); }
    if i + dist >= 16 {
      Pow2Values();
      BitAtHigh(high, 16, i + dist);
    }
  }

  /** The network reverses the low sixteen bits and ignores the rest. */
  lemma BitReverse16Correct(n: nat)
    ensures BitReverse16(n) == Reverse(n, 16)
  {
    hide And, Or, Shl, Shr, Reverse, BitAt;
    var n1 := Swap(n, 0xAAAA, 0x5555, 1);
    var n2 := Swap(n1, 0xCCCC, 0x3333, 2);
    var n3 := Swap(n2, 0xF0F0, 0x0F0F, 4);
    Masks1(); Masks2(); Masks4(); Masks8();
    forall i | 0 <= i < 16 ensures BitAt(BitReverse16(n), i) == BitAt(Reverse(n, 16), i) {
      SwapBit(n3, 0xFF00, 0x00FF, 8, i);
      var i3 := Partner(i, 8);
      SwapBit(n2, 0xF0F0, 0x0F0F, 4, i3);
      var i2 := Partner(i3, 4);
      SwapBit(n1, 0xCCCC, 0x3333, 2, i2);
      var i1 := Partner(i2, 2);
      SwapBit(n, 0xAAAA, 0x5555, 1, i1);
      PartnersReverse(i);
      BitAtReverse(n, 16, i);
    }
    SwapBound(n3);
    ReverseBound(n, 16);
    BitsAgree(BitReverse16(n), Reverse(n, 16), 16);
  }

  lemma PartnersReverse(i: nat)
    requires i < 16
    ensures Partner(i, 8) >= 0 && Partner(Partner(i, 8), 4) >= 0 && Partner(Partner(Partner(i, 8), 4), 2) >= 0
    ensures Partner(Partner(Partner(Partner(i, 8), 4), 2), 1) == 15 - i
  {
  }

  lemma SwapBound(n: nat)
    ensures Swap(n, 0xFF00, 0x00FF, 8) < Pow2(16)
  {
    Pow2Values();
    AndMask(n, 8);
    LowHigh(n, 8);
    AndAtMost(n, 0xFF00);
    var a, b := And(n, 0xFF00), And(n, 0x00FF);
    assert Shl(256, 8) == 65536;
    ShrZero(8);
    ShrRange(a, 8, 0, 256);
    OrDisjoint(Shr(a, 8), b, 8);
    ShlOrder(b, 255, 8);
    assert Shl(255, 8) == 0xFF00;
  }

  /** `stbi__bit_reverse` reverses a number of at most `bits` bits, and at sixteen bits
      ignores any higher ones. */
  method BitReverse(v: nat, bits: nat) returns (r: nat)
    requires bits <= 16
    ensures bits == 16 ==> r == Reverse(v, 16)
    ensures v < Pow2(bits) ==> r == Reverse(v, bits)
  {
    BitReverse16Correct(v);
    ReverseTop(v, bits, 16);
    if v < Pow2(bits) { LowSmall(v, bits); }
    r := Shr(BitReverse16(v), 16 - bits);
  }
}
