/** Adam7 interlacing (section 8.2 of the W3C PNG specification): the seven lattices as
    `stbi__create_png_image` computes them. */
module PngAdam7 {
  import opened Bits

  const PASSES: nat := 7

  const XORIG: seq<nat> := [0, 4, 0, 2, 0, 1, 0]
  const YORIG: seq<nat> := [0, 0, 4, 0, 2, 0, 1]
  const XSPC: seq<nat> := [8, 8, 4, 4, 2, 2, 1]
  const YSPC: seq<nat> := [8, 8, 8, 4, 4, 2, 2]

  const DIM_LIMIT: nat := 0x8000_0000

  /** The column and the row of the image that pixel `(i, j)` of pass `p` stands for. */
  function PassX(p: nat, i: nat): nat
    requires p < PASSES
  {
    i * XSPC[p] + XORIG[p]
  }

  function PassY(p: nat, j: nat): nat
    requires p < PASSES
  {
    j * YSPC[p] + YORIG[p]
  }

  function U32(z: int): nat {
    z % 0x1_0000_0000
  }

  /** The source's pass size, in 32-bit unsigned arithmetic: subtracting the origin may wrap. */
  function PassSize(n: nat, orig: nat, spc: nat): nat
    requires spc > 0
  {
    U32(U32(n - orig) + spc - 1) / spc
  }

  function PassW(p: nat, w: nat): nat
    requires p < PASSES
  {
    PassSize(w, XORIG[p], XSPC[p])
  }

  function PassH(p: nat, h: nat): nat
    requires p < PASSES
  {
    PassSize(h, YORIG[p], YSPC[p])
  }

  /** No wrap-around is left over: the size is the quotient, rounded up. */
  lemma SizeIs(n: nat, orig: nat, spc: nat, q: nat, r: nat)
    requires n < DIM_LIMIT && orig < spc <= 8 && r < spc && n + spc - 1 - orig == spc * q + r
    ensures PassSize(n, orig, spc) == q
  {
    NoWrap(n, orig, spc);
    DivModUnique(n - orig + spc - 1, spc, q, r);
  }

  lemma NoWrap(n: nat, orig: nat, spc: nat)
    requires n < DIM_LIMIT && orig < spc <= 8
    ensures U32(U32(n - orig) + spc - 1) == n - orig + spc - 1
  {
  }

  /** The computed size counts the lattice exactly: pixel `i` exists just when it is below `n`. */
  lemma SizeCounts(n: nat, orig: nat, spc: nat, i: nat)
    requires n < DIM_LIMIT && orig < spc <= 8
    ensures i < PassSize(n, orig, spc) <==> i * spc + orig < n
  {
    hide PassSize;
    var z := n - orig + spc - 1;
    var q, r := z / spc, z % spc;
    SizeIs(n, orig, spc, q, r);
    BelowQuotient(z, spc, q, r, i);
  }

  lemma BelowQuotient(z: nat, m: nat, q: nat, r: nat, i: nat)
    requires z == m * q + r && r < m
    ensures i < q <==> m * i + m <= z
  {
    if i < q {
      MulMono(m, i + 1, q);
    } else {
      MulMono(m, q, i);
    }
  }

  lemma PassWCounts(p: nat, w: nat, i: nat)
    requires p < PASSES && w < DIM_LIMIT
    ensures i < PassW(p, w) <==> PassX(p, i) < w
  {
    SizeCounts(w, XORIG[p], XSPC[p], i);
  }

  lemma PassHCounts(p: nat, h: nat, j: nat)
    requires p < PASSES && h < DIM_LIMIT
    ensures j < PassH(p, h) <==> PassY(p, j) < h
  {
    SizeCounts(h, YORIG[p], YSPC[p], j);
  }

  // ----- every pixel is on exactly one lattice -----

  function PassOf(x: nat, y: nat): (p: nat)
    ensures p < PASSES
  {
    if y % 2 == 1 then 6
    else if x % 2 == 1 then 5
    else if y % 4 == 2 then 4
    else if x % 4 == 2 then 3
    else if y % 8 == 4 then 2
    else if x % 8 == 4 then 1
    else 0
  }

  lemma Residues(v: nat)
    ensures v % 8 == 4 || v % 8 == 0 || v % 4 == 2 || v % 2 == 1
    ensures v % 8 == 0 || v % 8 == 4 ==> v % 4 == 0
    ensures v % 4 == 0 || v % 4 == 2 ==> v % 2 == 0
    ensures v % 4 == 0 && v % 8 != 4 ==> v % 8 == 0
    ensures v % 2 == 0 && v % 4 != 2 ==> v % 4 == 0
  {
  }

  /** A pixel's residues are those of its pass. */
  lemma OnLattice(x: nat, y: nat)
    ensures var p := PassOf(x, y); x % XSPC[p] == XORIG[p] && y % YSPC[p] == YORIG[p]
  {
    Residues(x);
    Residues(y);
  }

  lemma OnlyLattice(p: nat, x: nat, y: nat)
    requires p < PASSES && x % XSPC[p] == XORIG[p] && y % YSPC[p] == YORIG[p]
    ensures PassOf(x, y) == p
  {
    Residues(x);
    Residues(y);
  }

  /** Every pixel of the image is some pixel of its pass. */
  lemma PassCovers(x: nat, y: nat, w: nat, h: nat) returns (i: nat, j: nat)
    requires x < w < DIM_LIMIT && y < h < DIM_LIMIT
    ensures var p := PassOf(x, y);
      PassX(p, i) == x && PassY(p, j) == y && i < PassW(p, w) && j < PassH(p, h)
  {
    hide PassOf, PassSize;
    var p := PassOf(x, y);
    OnLattice(x, y);
    i, j := x / XSPC[p], y / YSPC[p];
    PassWCounts(p, w, i);
    PassHCounts(p, h, j);
  }

  /** A pixel of a pass belongs to no other pass. */
  lemma PassUnique(p: nat, i: nat, j: nat)
    requires p < PASSES
    ensures PassOf(PassX(p, i), PassY(p, j)) == p
  {
    hide PassOf;
    DivModUnique(PassX(p, i), XSPC[p], i, XORIG[p]);
    DivModUnique(PassY(p, j), YSPC[p], j, YORIG[p]);
    OnlyLattice(p, PassX(p, i), PassY(p, j));
  }

  /** Nor to two places in its own. */
  lemma PassInjective(p: nat, i: nat, j: nat, q: nat, k: nat, l: nat)
    requires p < PASSES && q < PASSES
    requires PassX(p, i) == PassX(q, k) && PassY(p, j) == PassY(q, l)
    ensures p == q && i == k && j == l
  {
    hide PassOf;
    PassUnique(p, i, j);
    PassUnique(q, k, l);
    DivModUnique(PassX(p, i), XSPC[p], i, XORIG[p]);
    DivModUnique(PassX(q, k), XSPC[q], k, XORIG[q]);
    DivModUnique(PassY(p, j), YSPC[p], j, YORIG[p]);
    DivModUnique(PassY(q, l), YSPC[q], l, YORIG[q]);
  }

  // ----- the pass areas add up -----

  /** Every other point of a lattice starting at 0, and the points between them. */
  lemma HalvesAdd(n: nat, s: nat)
    requires n < DIM_LIMIT && 0 < s <= 4
    ensures PassSize(n, 0, 2 * s) + PassSize(n, s, 2 * s) == PassSize(n, 0, s)
  {
    hide PassSize;
    var m := 2 * s;
    var k, r := n / m, n % m;
    if r == 0 {
      HalvesEven(n, s, m, k);
    } else if r <= s {
      HalvesLow(n, s, m, k, r);
    } else {
      HalvesHigh(n, s, m, k, r);
    }
  }

  lemma HalvesEven(n: nat, s: nat, m: nat, k: nat)
    requires n < DIM_LIMIT && 0 < s <= 4 && m == 2 * s && n == m * k
    ensures PassSize(n, 0, m) + PassSize(n, s, m) == PassSize(n, 0, s)
  {
    hide PassSize;
    Doubles(s, m, k);
    SizeIs(n, 0, m, k, m - 1);
    SizeIs(n, s, m, k, s - 1);
    SizeIs(n, 0, s, 2 * k, s - 1);
  }

  lemma HalvesLow(n: nat, s: nat, m: nat, k: nat, r: nat)
    requires n < DIM_LIMIT && 0 < r <= s <= 4 && m == 2 * s && n == m * k + r
    ensures PassSize(n, 0, m) + PassSize(n, s, m) == PassSize(n, 0, s)
  {
    hide PassSize;
    Doubles(s, m, k);
    SizeIs(n, 0, m, k + 1, r - 1);
    SizeIs(n, s, m, k, r + s - 1);
    SizeIs(n, 0, s, 2 * k + 1, r - 1);
  }

  lemma HalvesHigh(n: nat, s: nat, m: nat, k: nat, r: nat)
    requires n < DIM_LIMIT && 0 < s < r < m == 2 * s && s <= 4 && n == m * k + r
    ensures PassSize(n, 0, m) + PassSize(n, s, m) == PassSize(n, 0, s)
  {
    hide PassSize;
    Doubles(s, m, k);
    SizeIs(n, 0, m, k + 1, r - 1);
    SizeIs(n, s, m, k + 1, r - s - 1);
    SizeIs(n, 0, s, 2 * k + 2, r - s - 1);
  }

  lemma Doubles(s: nat, m: nat, k: nat)
    requires m == 2 * s
    ensures m * (k + 1) == m * k + m
    ensures s * (2 * k) == m * k && s * (2 * k + 1) == m * k + s && s * (2 * k + 2) == m * k + m
  {
  }

  lemma SizeWhole(n: nat)
    requires n < DIM_LIMIT
    ensures PassSize(n, 0, 1) == n
  {
  }

  function AreaTo(p: nat, w: nat, h: nat): nat
    requires p <= PASSES
  {
    if p == 0 then 0 else AreaTo(p - 1, w, h) + PassW(p - 1, w) * PassH(p - 1, h)
  }

  /** Two neighbouring lattices make one that is twice as dense. */
  lemma Merge(a: nat, b: nat, c: nat)
    ensures a * c + b * c == (a + b) * c && c * a + c * b == c * (a + b)
  {
  }

  lemma AreasAdd(w: nat, h: nat)
    requires w < DIM_LIMIT && h < DIM_LIMIT
    ensures AreaTo(PASSES, w, h) == w * h
  {
    hide PassSize, AreaTo;
    HalvesAdd(w, 4);
    HalvesAdd(h, 4);
    HalvesAdd(w, 2);
    HalvesAdd(h, 2);
    HalvesAdd(w, 1);
    HalvesAdd(h, 1);
    SizeWhole(w);
    SizeWhole(h);
    AreaSteps(w, h);
    var w8, w4, w2 := PassSize(w, 0, 8), PassSize(w, 0, 4), PassSize(w, 0, 2);
    var h8, h4, h2 := PassSize(h, 0, 8), PassSize(h, 0, 4), PassSize(h, 0, 2);
    Merge(w8, PassSize(w, 4, 8), h8);
    Merge(h8, PassSize(h, 4, 8), w4);
    Merge(w4, PassSize(w, 2, 4), h4);
    Merge(h4, PassSize(h, 2, 4), w2);
    Merge(w2, PassSize(w, 1, 2), h2);
    Merge(h2, PassSize(h, 1, 2), w);
  }

  lemma AreaSteps(w: nat, h: nat)
    ensures AreaTo(7, w, h)
         == PassSize(w, 0, 8) * PassSize(h, 0, 8) + PassSize(w, 4, 8) * PassSize(h, 0, 8)
          + PassSize(w, 0, 4) * PassSize(h, 4, 8) + PassSize(w, 2, 4) * PassSize(h, 0, 4)
          + PassSize(w, 0, 2) * PassSize(h, 2, 4) + PassSize(w, 1, 2) * PassSize(h, 0, 2)
          + PassSize(w, 0, 1) * PassSize(h, 1, 2)
  {
    hide PassSize;
    assert AreaTo(0, w, h) == 0;
    assert AreaTo(1, w, h) == AreaTo(0, w, h) + PassW(0, w) * PassH(0, h);
    assert AreaTo(2, w, h) == AreaTo(1, w, h) + PassW(1, w) * PassH(1, h);
    assert AreaTo(3, w, h) == AreaTo(2, w, h) + PassW(2, w) * PassH(2, h);
    assert AreaTo(4, w, h) == AreaTo(3, w, h) + PassW(3, w) * PassH(3, h);
    assert AreaTo(5, w, h) == AreaTo(4, w, h) + PassW(4, w) * PassH(4, h);
    assert AreaTo(6, w, h) == AreaTo(5, w, h) + PassW(5, w) * PassH(5, h);
  }
}
