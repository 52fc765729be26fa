/** Widths and limits of the machine's integers. */
module Widths {
  const BYTE_BITS: nat := 8
  const U32_LIMIT: nat := 0x1_0000_0000
  const INT_MIN := -0x8000_0000
  const INT_MAX: nat := 0x7FFF_FFFF
}

/** Bitwise operators on naturals.  Everything recurses over bits, so that no proof needs
    multiplication or division by anything but two. */
module Bits {

  type byte = b: int | 0 <= b < 256

  function Pow2(n: nat): (r: nat)
    ensures r > 0
  {
    if n == 0 then 1 else 2 * Pow2(n - 1)
  }

  function Shl(x: nat, n: nat): nat
    decreases n
  {
    if n == 0 then x else 2 * Shl(x, n - 1)
  }

  function Shr(x: nat, n: nat): nat
    decreases n
  {
    if n == 0 then x else Shr(x / 2, n - 1)
  }

  /** The low `n` bits of `x`. */
  function Low(x: nat, n: nat): nat
    decreases n
  {
    if n == 0 then 0 else x % 2 + 2 * Low(x / 2, n - 1)
  }

  function And(x: nat, y: nat): nat {
    if x == 0 || y == 0 then 0
    else (if x % 2 == 1 && y % 2 == 1 then 1 else 0) + 2 * And(x / 2, y / 2)
  }

  function Or(x: nat, y: nat): nat {
    if x == 0 then y
    else if y == 0 then x
    else (if x % 2 == 1 || y % 2 == 1 then 1 else 0) + 2 * Or(x / 2, y / 2)
  }

  function Xor(x: nat, y: nat): nat {
    if x == 0 then y
    else if y == 0 then x
    else (if x % 2 != y % 2 then 1 else 0) + 2 * Xor(x / 2, y / 2)
  }

  /** Bit `i` of `x`, counting from the least significant. */
  function BitAt(x: nat, i: nat): (b: nat)
    ensures b <= 1
    decreases i
  {
    if i == 0 then x % 2 else BitAt(x / 2, i - 1)
  }

  /** The low `n` bits of `v`, read in the opposite order. */
  function Reverse(v: nat, n: nat): nat
    decreases n
  {
    if n == 0 then 0 else (if v % 2 == 1 then Pow2(n - 1) else 0) + Reverse(v / 2, n - 1)
  }

  // ----- powers and shifts -----

  lemma {:induction false} ShlOne(n: nat)
    ensures Shl(1, n) == Pow2(n)
  {
    if n > 0 { ShlOne(n - 1); }
  }

  lemma {:induction false} ShlShl(x: nat, m: nat, n: nat)
    ensures Shl(Shl(x, m), n) == Shl(x, m + n)
    decreases n
  {
    if n > 0 { ShlShl(x, m, n - 1); }
  }

  lemma {:induction false} ShrShr(x: nat, m: nat, n: nat)
    ensures Shr(Shr(x, m), n) == Shr(x, m + n)
    decreases m
  {
    if m > 0 { ShrShr(x / 2, m - 1, n); }
  }

  lemma {:induction false} ShrZero(n: nat)
    ensures Shr(0, n) == 0 && Low(0, n) == 0 && Shl(0, n) == 0
  {
    if n > 0 { ShrZero(n - 1); }
  }

  lemma {:induction false} Pow2Mono(m: nat, n: nat)
    requires m <= n
    ensures Pow2(m) <= Pow2(n)
  {
    if m < n { Pow2Mono(m, n - 1); }
  }

  lemma Pow2Values()
    ensures Pow2(1) == 2 && Pow2(2) == 4 && Pow2(3) == 8 && Pow2(4) == 16 && Pow2(5) == 32
    ensures Pow2(6) == 64 && Pow2(7) == 128 && Pow2(8) == 256 && Pow2(9) == 512
    ensures Pow2(12) == 4096 && Pow2(13) == 8192 && Pow2(15) == 32768 && Pow2(16) == 65536
  {
    assert Pow2(4) == 16;
    assert Pow2(8) == 256;
    assert Pow2(12) == 16 * Pow2(8);
    assert Pow2(16) == 16 * Pow2(12);
  }

  lemma ShlByte(x: nat)
    ensures Shl(x, 8) == 256 * x
  {
    assert Shl(x, 8) == 16 * Shl(x, 4) && Shl(x, 4) == 16 * x;
  }

  /** Comparing shifted numbers compares the numbers. */
  lemma {:induction false} ShlOrder(a: nat, b: nat, n: nat)
    ensures Shl(a, n) <= Shl(b, n) <==> a <= b
  {
    if n > 0 { ShlOrder(a, b, n - 1); }
  }

  lemma {:induction false} ShlAdd(a: nat, b: nat, n: nat)
    ensures Shl(a + b, n) == Shl(a, n) + Shl(b, n)
  {
    if n > 0 { ShlAdd(a, b, n - 1); }
  }

  /** A shifted-down number lies in a range exactly when the number lies in the shifted range. */
  lemma {:induction false} ShrRange(w: nat, n: nat, a: nat, b: nat)
    ensures a <= Shr(w, n) < b <==> Shl(a, n) <= w < Shl(b, n)
    decreases n
  {
    if n > 0 { ShrRange(w / 2, n - 1, a, b); }
  }

  /** A number is its low bits plus its shifted high bits. */
  lemma {:induction false} LowHigh(x: nat, n: nat)
    ensures x == Low(x, n) + Shl(Shr(x, n), n)
    ensures Low(x, n) < Pow2(n)
    decreases n
  {
    if n > 0 { LowHigh(x / 2, n - 1); }
  }

  /** Low and high parts can be read back. */
  lemma {:induction false} JoinSplit(a: nat, b: nat, n: nat)
    requires a < Pow2(n)
    ensures Low(a + Shl(b, n), n) == a && Shr(a + Shl(b, n), n) == b
    decreases n
  {
    if n > 0 {
      var z := Shl(b, n - 1);
      assert (a + 2 * z) / 2 == a / 2 + z && (a + 2 * z) % 2 == a % 2;
      JoinSplit(a / 2, b, n - 1);
    }
  }

  lemma LowSmall(x: nat, n: nat)
    requires x < Pow2(n)
    ensures Low(x, n) == x && Shr(x, n) == 0
  {
    ShrZero(n);
    JoinSplit(x, 0, n);
  }

  lemma {:induction false} LowLow(x: nat, m: nat, n: nat)
    requires m <= n
    ensures Low(Low(x, n), m) == Low(x, m)
    decreases n
  {
    if m > 0 {
      var y := Low(x / 2, n - 1);
      assert (x % 2 + 2 * y) / 2 == y && (x % 2 + 2 * y) % 2 == x % 2;
      LowLow(x / 2, m - 1, n - 1);
    }
  }

  /** Masking with 2^n - 1 keeps the low n bits. */
  lemma {:induction false} AndMask(x: nat, n: nat)
    ensures And(x, Pow2(n) - 1) == Low(x, n)
    decreases n
  {
    if x == 0 {
      ShrZero(n);
    } else if n > 0 {
      var p := Pow2(n - 1);
      assert (2 * p - 1) / 2 == p - 1 && (2 * p - 1) % 2 == 1;
      AndMask(x / 2, n - 1);
    }
  }

  /** OR of a low part and a shifted part is their sum. */
  lemma {:induction false} OrDisjoint(x: nat, y: nat, n: nat)
    requires x < Pow2(n)
    ensures Or(x, Shl(y, n)) == x + Shl(y, n)
    decreases n
  {
    if n > 0 && x > 0 && Shl(y, n) > 0 {
      var z := Shl(y, n - 1);
      assert (2 * z) % 2 == 0 && (2 * z) / 2 == z;
      OrDisjoint(x / 2, y, n - 1);
    }
  }

  /** Complementing `n` bits. */
  lemma {:induction false} XorMask(x: nat, n: nat)
    requires x < Pow2(n)
    ensures Xor(x, Pow2(n) - 1) == Pow2(n) - 1 - x
    decreases n
  {
    if n > 0 && x > 0 {
      var p := Pow2(n - 1);
      assert (2 * p - 1) / 2 == p - 1 && (2 * p - 1) % 2 == 1;
      XorMask(x / 2, n - 1);
    }
  }

  lemma {:induction false} AndAtMost(x: nat, y: nat)
    ensures And(x, y) <= y
  {
    if x > 0 && y > 0 { AndAtMost(x / 2, y / 2); }
  }

  // ----- bits determine numbers -----

  lemma {:induction false} BitsAgree(x: nat, y: nat, n: nat)
    requires x < Pow2(n) && y < Pow2(n)
    requires forall i :: 0 <= i < n ==> BitAt(x, i) == BitAt(y, i)
    ensures x == y
    decreases n
  {
    if n > 0 {
      assert BitAt(x, 0) == BitAt(y, 0);
      forall i | 0 <= i < n - 1 ensures BitAt(x / 2, i) == BitAt(y / 2, i) {
        assert BitAt(x, i + 1) == BitAt(y, i + 1);
      }
      BitsAgree(x / 2, y / 2, n - 1);
    }
  }

  lemma {:induction false} BitAtZero(i: nat)
    ensures BitAt(0, i) == 0
  {
    if i > 0 { BitAtZero(i - 1); }
  }

  lemma {:induction false} BitAtAnd(x: nat, y: nat, i: nat)
    ensures BitAt(And(x, y), i) == if BitAt(x, i) == 1 && BitAt(y, i) == 1 then 1 else 0
    decreases i
  {
    if x == 0 || y == 0 {
      BitAtZero(i);
    } else if i > 0 {
      assert And(x, y) / 2 == And(x / 2, y / 2);
      BitAtAnd(x / 2, y / 2, i - 1);
    }
  }

  lemma {:induction false} BitAtOr(x: nat, y: nat, i: nat)
    ensures BitAt(Or(x, y), i) == if BitAt(x, i) == 1 || BitAt(y, i) == 1 then 1 else 0
    decreases i
  {
    if x == 0 || y == 0 {
      BitAtZero(i);
    } else if i > 0 {
      assert Or(x, y) / 2 == Or(x / 2, y / 2);
      BitAtOr(x / 2, y / 2, i - 1);
    }
  }

  lemma {:induction false} BitAtShr(x: nat, n: nat, i: nat)
    ensures BitAt(Shr(x, n), i) == BitAt(x, i + n)
    decreases n
  {
    if n > 0 { BitAtShr(x / 2, n - 1, i); }
  }

  lemma {:induction false} BitAtShl(x: nat, n: nat, i: nat)
    ensures BitAt(Shl(x, n), i) == if i < n then 0 else BitAt(x, i - n)
    decreases n
  {
    if n > 0 {
      var z := Shl(x, n - 1);
      assert (2 * z) % 2 == 0 && (2 * z) / 2 == z;
      if i > 0 { BitAtShl(x, n - 1, i - 1); }
    }
  }

  lemma {:induction false} BitAtLow(x: nat, n: nat, i: nat)
    requires i < n
    ensures BitAt(Low(x, n), i) == BitAt(x, i)
    decreases n
  {
    var y := Low(x / 2, n - 1);
    assert (x % 2 + 2 * y) / 2 == y && (x % 2 + 2 * y) % 2 == x % 2;
    if i > 0 { BitAtLow(x / 2, n - 1, i - 1); }
  }

  lemma {:induction false} BitAtHigh(x: nat, n: nat, i: nat)
    requires x < Pow2(n) && n <= i
    ensures BitAt(x, i) == 0
    decreases n
  {
    if n == 0 {
      BitAtZero(i);
    } else {
      BitAtHigh(x / 2, n - 1, i - 1);
    }
  }

  lemma {:induction false} BitAtTop(x: nat, n: nat)
    requires x < Pow2(n)
    ensures BitAt(x + Pow2(n), n) == 1
    ensures forall i :: 0 <= i < n ==> BitAt(x + Pow2(n), i) == BitAt(x, i)
    decreases n
  {
    if n > 0 {
      var p := Pow2(n - 1);
      assert (x + 2 * p) / 2 == x / 2 + p && (x + 2 * p) % 2 == x % 2;
      BitAtTop(x / 2, n - 1);
      forall i | 0 <= i < n ensures BitAt(x + Pow2(n), i) == BitAt(x, i) {
        if i > 0 { assert BitAt(x / 2 + p, i - 1) == BitAt(x / 2, i - 1); }
      }
    }
  }

  // ----- reversal -----

  lemma {:induction false} ReverseBound(v: nat, n: nat)
    ensures Reverse(v, n) < Pow2(n)
    decreases n
  {
    if n > 0 { ReverseBound(v / 2, n - 1); }
  }

  lemma {:induction false} BitAtReverse(v: nat, n: nat, i: nat)
    requires i < n
    ensures BitAt(Reverse(v, n), i) == BitAt(v, n - 1 - i)
    decreases n
  {
    var r := Reverse(v / 2, n - 1);
    ReverseBound(v / 2, n - 1);
    BitAtTop(r, n - 1);
    if i == n - 1 {
      BitAtHigh(r, n - 1, n - 1);
    } else {
      BitAtReverse(v / 2, n - 1, i);
    }
  }

  /** Reversal undoes itself on numbers that fit. */
  lemma ReverseTwice(v: nat, n: nat)
    requires v < Pow2(n)
    ensures Reverse(Reverse(v, n), n) == v
  {
    var r := Reverse(v, n);
    ReverseBound(r, n);
    forall i | 0 <= i < n ensures BitAt(Reverse(r, n), i) == BitAt(v, i) {
      BitAtReverse(r, n, i);
      BitAtReverse(v, n, n - 1 - i);
    }
    BitsAgree(Reverse(r, n), v, n);
  }

  /** The top `s` bits of an `n`-bit reversal reverse the low `s` bits. */
  lemma ReverseTop(j: nat, s: nat, n: nat)
    requires s <= n
    ensures Shr(Reverse(j, n), n - s) == Reverse(Low(j, s), s)
  {
    var r, t := Reverse(j, n), Reverse(Low(j, s), s);
    ReverseBound(j, n);
    ReverseBound(Low(j, s), s);
    ShlOne(n);
    ShlOne(s);
    ShlShl(1, s, n - s);
    ShrRange(r, n - s, 0, Pow2(s));
    ShrZero(n - s);
    forall i | 0 <= i < s ensures BitAt(Shr(r, n - s), i) == BitAt(t, i) {
      BitAtShr(r, n - s, i);
      BitAtReverse(j, n, i + n - s);
      BitAtReverse(Low(j, s), s, i);
      BitAtLow(j, s, s - 1 - i);
    }
    BitsAgree(Shr(r, n - s), t, s);
  }

  // ----- division by a variable -----

  lemma MulMono(m: nat, a: nat, b: nat)
    requires a <= b
    ensures m * a <= m * b
  {
  }

  /** Quotient and remainder are determined by `x == m * q + r` with `r` in range. */
  lemma DivModUnique(x: nat, m: nat, q: nat, r: nat)
    requires m > 0 && x == m * q + r && r < m
    ensures x / m == q && x % m == r
  {
    var q', r' := x / m, x % m;
    assert x == m * q' + r';
    if q < q' {
      MulMono(m, q + 1, q');
      assert false;
    } else if q' < q {
      MulMono(m, q' + 1, q);
      assert false;
    }
  }

  lemma ModSmall(k: nat, m: nat)
    requires k < m
    ensures k % m == k && k / m == 0
  {
    DivModUnique(k, m, 0, k);
  }

  lemma ModAdd(k: nat, m: nat)
    requires m > 0
    ensures (k + m) % m == k % m && (k + m) / m == k / m + 1
  {
    var q, r := k / m, k % m;
    assert k + m == m * (q + 1) + r;
    DivModUnique(k + m, m, q + 1, r);
  }

  // ----- shifts as arithmetic -----

  lemma {:induction false} ShlMul(x: nat, n: nat)
    ensures Shl(x, n) == x * Pow2(n)
    decreases n
  {
    if n > 0 { ShlMul(x, n - 1); }
  }

  lemma ShiftsDivide(x: nat, n: nat, m: nat)
    requires m == Pow2(n)
    ensures Shr(x, n) == x / m && Low(x, n) == x % m
  {
    hide Shl, Shr, Low, Pow2;
    LowHigh(x, n);
    ShlMul(Shr(x, n), n);
    DivModUnique(x, m, Shr(x, n), Low(x, n));
  }
}
