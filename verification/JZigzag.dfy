/** The zigzag order of an 8 by 8 block (Figure A.6 of ITU-T T.81), as a walk over the block. */
module Zigzag {

  datatype Cell = Cell(row: nat, col: nat) {
    predicate Inside() {
      row < 8 && col < 8
    }
  }

  /** A step along a diagonal, up or down, turning at the edges. */
  function Step(c: Cell, up: bool): (d: Cell)
    requires c.Inside()
    ensures c != Cell(7, 7) ==> d.Inside()
  {
    if up then
      if c.col == 7 then Cell(c.row + 1, 7)
      else if c.row == 0 then Cell(0, c.col + 1)
      else Cell(c.row - 1, c.col + 1)
    else
      if c.row == 7 then Cell(7, c.col + 1)
      else if c.col == 0 then Cell(c.row + 1, 0)
      else Cell(c.row + 1, c.col - 1)
  }

  /** The walk goes up the even diagonals and down the odd ones. */
  predicate Up(c: Cell) {
    (c.row + c.col) % 2 == 0
  }

  function Next(c: Cell): (d: Cell)
    requires c.Inside()
    ensures c != Cell(7, 7) ==> d.Inside()
  {
    Step(c, Up(c))
  }

  /** The cell that the walk reaches after `k` steps. */
  function Walk(k: nat): (c: Cell)
    requires k < 64
    ensures c.Inside() && Order(c) == k
  {
    if k == 0 then Cell(0, 0)
    else
      var before := Walk(k - 1);
      OrderBound(before);
      OrderNext(before);
      Next(before)
  }

  /** How many cells lie on the diagonals before `d`. */
  function Before(d: nat): (n: nat)
    requires d <= 15
  {
    if d == 0 then 0 else Before(d - 1) + if d <= 8 then d else 16 - d
  }

  /** How many cells the walk visits before `c`: those of earlier diagonals, and of its own those
      nearer to where the walk enters it. */
  function Order(c: Cell): nat
    requires c.Inside()
  {
    Along(c, Up(c))
  }

  function Along(c: Cell, up: bool): nat
    requires c.Inside()
  {
    var d := c.row + c.col;
    Before(d) + (if d < 7 then d else 7) - if up then c.row else c.col
  }

  lemma OrderNext(c: Cell)
    requires c.Inside() && c != Cell(7, 7)
    ensures Order(Next(c)) == Order(c) + 1
  {
    hide Along;
    AlongStep(c, Up(c));
  }

  /** A step stays on its diagonal, or enters the next one and goes the other way. */
  lemma AlongStep(c: Cell, up: bool)
    requires c.Inside() && c != Cell(7, 7)
    ensures var d := Step(c, up);
      || (d.row + d.col == c.row + c.col && Along(d, up) == Along(c, up) + 1)
      || (d.row + d.col == c.row + c.col + 1 && Along(d, !up) == Along(c, up) + 1)
  {
    hide Before;
    BeforeStep(c.row + c.col);
  }

  lemma BeforeStep(d: nat)
    requires d < 15
    ensures Before(d + 1) == Before(d) + if d < 8 then d + 1 else 15 - d
  {
  }

  /** The cell before `c` on the walk. */
  function Previous(c: Cell): (d: Cell)
    requires c.Inside() && c != Cell(0, 0)
    ensures d.Inside() && d != Cell(7, 7) && Next(d) == c
  {
    if Up(c) then
      if c.row == 7 then Cell(7, c.col - 1)
      else if c.col == 0 then Cell(c.row - 1, 0)
      else Cell(c.row + 1, c.col - 1)
    else
      if c.row == 0 then Cell(0, c.col - 1)
      else if c.col == 7 then Cell(c.row - 1, 7)
      else Cell(c.row - 1, c.col + 1)
  }

  lemma AllBefore()
    ensures Before(14) == 63
  {
    assert Before(5) == 15;
    assert Before(10) == 49;
  }

  lemma {:induction false} BeforeMono(d: nat, e: nat)
    requires d <= e <= 15
    ensures Before(d) <= Before(e)
  {
    if d < e { BeforeMono(d, e - 1); }
  }

  lemma OrderBound(c: Cell)
    requires c.Inside()
    ensures Order(c) < 64 && (Order(c) == 63 <==> c == Cell(7, 7))
  {
    AllBefore();
    var d := c.row + c.col;
    if d < 14 {
      BeforeMono(d + 1, 14);
    }
  }

  lemma OrderFirst()
    ensures Order(Cell(0, 0)) == 0
  {
  }

  /** The walk visits every cell, and by the contract of `Walk` none twice. */
  lemma {:induction false} WalkVisits(c: Cell)
    requires c.Inside()
    ensures Order(c) < 64 && Walk(Order(c)) == c
    decreases Order(c)
  {
    hide Order;
    OrderBound(c);
    if c != Cell(0, 0) {
      var p := Previous(c);
      OrderNext(p);
      WalkVisits(p);
    } else {
      OrderFirst();
    }
  }

  // ----- the table -----

  /** A place in an 8 by 8 block. */
  type Place = p: int | 0 <= p < 64

  const ROW0: seq<Place> := [0, 1, 8, 16, 9, 2, 3, 10]
  const ROW1: seq<Place> := [17, 24, 32, 25, 18, 11, 4, 5]
  const ROW2: seq<Place> := [12, 19, 26, 33, 40, 48, 41, 34]
  const ROW3: seq<Place> := [27, 20, 13, 6, 7, 14, 21, 28]
  const ROW4: seq<Place> := [35, 42, 49, 56, 57, 50, 43, 36]
  const ROW5: seq<Place> := [29, 22, 15, 23, 30, 37, 44, 51]
  const ROW6: seq<Place> := [58, 59, 52, 45, 38, 31, 39, 46]
  const ROW7: seq<Place> := [53, 60, 61, 54, 47, 55, 62, 63]

  /** `stbi__jpeg_dezigzag`: zigzag order, padded so that corrupt runs stay inside the block. */
  const DEZIGZAG: seq<Place> :=
    (ROW0 + ROW1) + (ROW2 + ROW3) + (ROW4 + ROW5) + (ROW6 + ROW7)
    + [63, 63, 63, 63, 63, 63, 63, 63, 63, 63, 63, 63, 63, 63, 63]

  /** The place of coefficient `k`; the code puts those past the last one in the last place. */
  function PlaceOf(k: nat): Place {
    if k < 64 then 8 * Walk(k).row + Walk(k).col else 63
  }

  /** The cell of a place. */
  function CellOf(p: Place): (c: Cell)
    ensures c.Inside() && p == 8 * c.row + c.col
  {
    var row :=
      if p < 32 then if p < 16 then if p < 8 then 0 else 1 else if p < 24 then 2 else 3
      else if p < 48 then if p < 40 then 4 else 5 else if p < 56 then 6 else 7;
    Cell(row, p - 8 * row)
  }

  /** Place `q` comes after place `p` on the walk. */
  predicate Follows(p: Place, q: Place) {
    p != 63 && CellOf(q) == Next(CellOf(p))
  }

  ghost predicate Chain(s: seq<Place>) {
    forall k :: 0 < k < |s| ==> Follows(s[k - 1], s[k])
  }

  lemma RowChain(a: Place, b: Place, c: Place, d: Place, e: Place, f: Place, g: Place, h: Place)
    requires Follows(a, b) && Follows(b, c) && Follows(c, d) && Follows(d, e)
    requires Follows(e, f) && Follows(f, g) && Follows(g, h)
    ensures Chain([a, b, c, d, e, f, g, h])
  {
    hide Follows;
  }

  lemma Row0()
    ensures Follows(0, 1) && Follows(1, 8) && Follows(8, 16) && Follows(16, 9)
    ensures Follows(9, 2) && Follows(2, 3) && Follows(3, 10)
  {
  }

  lemma Row1()
    ensures Follows(17, 24) && Follows(24, 32) && Follows(32, 25) && Follows(25, 18)
    ensures Follows(18, 11) && Follows(11, 4) && Follows(4, 5)
  {
  }

  lemma Row2()
    ensures Follows(12, 19) && Follows(19, 26) && Follows(26, 33) && Follows(33, 40)
    ensures Follows(40, 48) && Follows(48, 41) && Follows(41, 34)
  {
  }

  lemma Row3()
    ensures Follows(27, 20) && Follows(20, 13) && Follows(13, 6) && Follows(6, 7)
    ensures Follows(7, 14) && Follows(14, 21) && Follows(21, 28)
  {
  }

  lemma Row4()
    ensures Follows(35, 42) && Follows(42, 49) && Follows(49, 56) && Follows(56, 57)
    ensures Follows(57, 50) && Follows(50, 43) && Follows(43, 36)
  {
  }

  lemma Row5()
    ensures Follows(29, 22) && Follows(22, 15) && Follows(15, 23) && Follows(23, 30)
    ensures Follows(30, 37) && Follows(37, 44) && Follows(44, 51)
  {
  }

  lemma Row6()
    ensures Follows(58, 59) && Follows(59, 52) && Follows(52, 45) && Follows(45, 38)
    ensures Follows(38, 31) && Follows(31, 39) && Follows(39, 46)
  {
  }

  lemma Row7()
    ensures Follows(53, 60) && Follows(60, 61) && Follows(61, 54) && Follows(54, 47)
    ensures Follows(47, 55) && Follows(55, 62) && Follows(62, 63)
  {
  }

  lemma Rows()
    ensures Chain(ROW0) && Chain(ROW1) && Chain(ROW2) && Chain(ROW3)
    ensures Chain(ROW4) && Chain(ROW5) && Chain(ROW6) && Chain(ROW7)
  {
    hide Chain, Follows;
    Row0();
    RowChain(0, 1, 8, 16, 9, 2, 3, 10);
    Row1();
    RowChain(17, 24, 32, 25, 18, 11, 4, 5);
    Row2();
    RowChain(12, 19, 26, 33, 40, 48, 41, 34);
    Row3();
    RowChain(27, 20, 13, 6, 7, 14, 21, 28);
    Row4();
    RowChain(35, 42, 49, 56, 57, 50, 43, 36);
    Row5();
    RowChain(29, 22, 15, 23, 30, 37, 44, 51);
    Row6();
    RowChain(58, 59, 52, 45, 38, 31, 39, 46);
    Row7();
    RowChain(53, 60, 61, 54, 47, 55, 62, 63);
  }

  /** Where the rows meet. */
  lemma Joints()
    ensures Follows(10, 17) && Follows(5, 12) && Follows(34, 27)
    ensures Follows(28, 35) && Follows(36, 29) && Follows(51, 58) && Follows(46, 53)
  {
  }

  /** Two rows that meet make one stretch of the walk. */
  lemma Join(a: seq<Place>, b: seq<Place>)
    requires |a| > 0 && |b| > 0 && Follows(a[|a| - 1], b[0])
    requires Chain(a) && Chain(b)
    ensures Chain(a + b)
  {
    hide Follows;
  }

  lemma ChainAt(s: seq<Place>, k: nat)
    requires Chain(s) && 0 < k < |s|
    ensures Follows(s[k - 1], s[k])
  {
    hide Follows;
  }

  lemma TableIs(a: seq<Place>, b: seq<Place>)
    requires a == ROW0 + ROW1 + (ROW2 + ROW3) && b == ROW4 + ROW5 + (ROW6 + ROW7)
    ensures |a + b| == 64 && DEZIGZAG[..64] == a + b
  {
  }

  lemma TableStep(k: nat)
    requires 0 < k < 64
    ensures Follows(DEZIGZAG[k - 1], DEZIGZAG[k])
  {
    hide Follows, Chain;
    Joints();
    Rows();
    Join(ROW0, ROW1);
    Join(ROW2, ROW3);
    Join(ROW4, ROW5);
    Join(ROW6, ROW7);
    var a, b := ROW0 + ROW1 + (ROW2 + ROW3), ROW4 + ROW5 + (ROW6 + ROW7);
    Join(ROW0 + ROW1, ROW2 + ROW3);
    Join(ROW4 + ROW5, ROW6 + ROW7);
    Join(a, b);
    TableIs(a, b);
    ChainAt(a + b, k);
  }

  lemma {:induction false} TableFollowsWalk(k: nat)
    requires k < |DEZIGZAG|
    ensures DEZIGZAG[k] == PlaceOf(k)
  {
    hide Next, Order;
    if 0 < k < 64 {
      TableFollowsWalk(k - 1);
      TableStep(k);
      var p, c := DEZIGZAG[k - 1], Walk(k - 1);
      assert c == CellOf(p);
    } else if k >= 64 {
      TableEnd(k);
    }
  }

  lemma TableEnd(k: nat)
    requires 64 <= k < |DEZIGZAG|
    ensures DEZIGZAG[k] == 63
  {
  }

  /** Every place has exactly one coefficient below 64. */
  lemma PlacesArePermuted(p: Place, k: nat)
    requires k < 64
    ensures Order(CellOf(p)) < 64
    ensures PlaceOf(k) == p <==> k == Order(CellOf(p))
  {
    hide Order, Walk;
    WalkVisits(CellOf(p));
  }
}
