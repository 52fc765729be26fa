/** The order in which a GIF image's rows are stored (Appendix E of the GIF89a specification), and
    the row cursor of `stbi__out_gif_code` that follows it. */
module GifRaster {
  import Bits

  /** How many of the rows below `h` are multiples of eight, of four, of two. */
  function Eighths(h: nat): (e: nat)
    ensures 8 * e - 8 < h <= 8 * e
  {
    (h + 7) / 8
  }

  function Quarters(h: nat): (e: nat)
    ensures 4 * e - 4 < h <= 4 * e
  {
    (h + 3) / 4
  }

  function Halves(h: nat): (e: nat)
    ensures 2 * e - 2 < h <= 2 * e
  {
    (h + 1) / 2
  }

  /** The position of row `r` among the `h` rows in the order in which they are stored: every
      eighth row from 0, every eighth from 4, every fourth from 2, then the odd rows. */
  function Rank(r: nat, h: nat, interlaced: bool): nat {
    if !interlaced then r
    else if r % 8 == 0 then r / 8
    else if r % 8 == 4 then Eighths(h) + r / 8
    else if r % 4 == 2 then Quarters(h) + r / 4
    else Halves(h) + r / 2
  }

  /** `parse`, while the cursor is in row `r`: the number of passes still to come. */
  function ParseOf(r: nat, interlaced: bool): (p: nat)
    ensures p <= 3
  {
    if !interlaced then 0 else if r % 8 == 0 then 3 else if r % 8 == 4 then 2 else if r % 4 == 2 then 1 else 0
  }

  /** The rows between one row and the next of the same pass. */
  function StepOf(r: nat, interlaced: bool): nat {
    if !interlaced then 1 else if r % 8 == 0 || r % 8 == 4 then 8 else if r % 4 == 2 then 4 else 2
  }

  function TwoTo(parse: nat): (n: nat)
    requires parse <= 3
    ensures n > 0
  {
    if parse == 0 then 1 else if parse == 1 then 2 else if parse == 2 then 4 else 8
  }

  datatype Cursor = Cursor(row: nat, step: nat, parse: nat)

  /** The cursor's loop over passes: skips those that have no rows. */
  function Advance(c: Cursor, h: nat): (d: Cursor)
    requires c.parse <= 3
    ensures d.parse <= 3 && (d.row < h || d.parse == 0)
    decreases c.parse
  {
    if c.row >= h && c.parse > 0 then Advance(Cursor(TwoTo(c.parse) / 2, TwoTo(c.parse), c.parse - 1), h) else c
  }

  predicate InRow(c: Cursor, r: nat, interlaced: bool) {
    c == Cursor(r, StepOf(r, interlaced), ParseOf(r, interlaced))
  }

  /** The cursor goes to the row next in rank, or below the frame after the last. */
  lemma NextRow(r: nat, h: nat, interlaced: bool)
    requires r < h
    ensures var d := Advance(Cursor(r + StepOf(r, interlaced), StepOf(r, interlaced), ParseOf(r, interlaced)), h);
      if d.row < h then InRow(d, d.row, interlaced) && Rank(d.row, h, interlaced) == Rank(r, h, interlaced) + 1
      else Rank(r, h, interlaced) + 1 == h
  {
    if interlaced {
      hide Rank, ParseOf, StepOf;
      if r + StepOf(r, true) < h {
        SamePass(r, h);
      } else {
        LastOfPass(r, h);
        FirstOfPasses(h, ParseOf(r, true), r + StepOf(r, true), StepOf(r, true));
      }
    }
  }

  /** A row as eight `a` plus `b`: its pass depends on `b` alone. */
  function RankOf(a: nat, b: nat, h: nat): nat {
    if b == 0 then a
    else if b == 4 then Eighths(h) + a
    else if b == 2 then Quarters(h) + 2 * a
    else if b == 6 then Quarters(h) + 2 * a + 1
    else Halves(h) + 4 * a + b / 2
  }

  lemma ByOctave(r: nat, h: nat) returns (a: nat, b: nat)
    ensures r == 8 * a + b && b < 8 && Rank(r, h, true) == RankOf(a, b, h)
    ensures ParseOf(r, true) == ParseOf(b, true) && StepOf(r, true) == StepOf(b, true)
  {
    hide Eighths, Quarters, Halves;
    a, b := r / 8, r % 8;
    SmallerUnits(r, a, b);
  }

  lemma SmallerUnits(r: nat, a: nat, b: nat)
    requires r == 8 * a + b && b < 8
    ensures r % 4 == b % 4 && r % 2 == b % 2 && r / 4 == 2 * a + b / 4 && r / 2 == 4 * a + b / 2
  {
    Bits.DivModUnique(r, 4, 2 * a + b / 4, b % 4);
    Bits.DivModUnique(r, 2, 4 * a + b / 2, b % 2);
  }

  lemma OfOctave(a: nat, b: nat, h: nat)
    requires b < 8
    ensures Rank(8 * a + b, h, true) == RankOf(a, b, h)
    ensures ParseOf(8 * a + b, true) == ParseOf(b, true) && StepOf(8 * a + b, true) == StepOf(b, true)
  {
    hide Rank, RankOf, ParseOf, StepOf;
    var a', b' := ByOctave(8 * a + b, h);
    assert a' == a && b' == b;
  }

  lemma SamePass(r: nat, h: nat)
    requires r + StepOf(r, true) < h
    ensures InRow(Cursor(r + StepOf(r, true), StepOf(r, true), ParseOf(r, true)), r + StepOf(r, true), true)
    ensures Rank(r + StepOf(r, true), h, true) == Rank(r, h, true) + 1
  {
    hide Rank, Eighths, Quarters, Halves;
    var a, b := ByOctave(r, h);
    var s := StepOf(b, true);
    if b + s < 8 {
      OfOctave(a, b + s, h);
    } else {
      OfOctave(a + 1, b + s - 8, h);
    }
  }

  /** The rank of the first row of the pass in which `parse` more follow, if it has any. */
  function PassStart(h: nat, parse: nat): nat {
    if parse == 3 then 0 else if parse == 2 then Eighths(h) else if parse == 1 then Quarters(h) else Halves(h)
  }

  lemma LastOfPass(r: nat, h: nat)
    requires r < h <= r + StepOf(r, true)
    ensures Rank(r, h, true) + 1 == if ParseOf(r, true) == 0 then h else PassStart(h, ParseOf(r, true) - 1)
  {
    hide Rank, Eighths, Quarters, Halves;
    var a, b := ByOctave(r, h);
  }

  /** From the end of a pass the cursor reaches the next pass that has rows. */
  lemma {:induction false} FirstOfPasses(h: nat, parse: nat, row: nat, step: nat)
    requires 0 < h <= row && parse <= 3
    ensures var d := Advance(Cursor(row, step, parse), h);
      if d.row < h then InRow(d, d.row, true) && parse > 0 && Rank(d.row, h, true) == PassStart(h, parse - 1)
      else parse == 0 || PassStart(h, parse - 1) == h
    decreases parse
  {
    hide Rank, Eighths, Quarters, Halves;
    if parse > 0 {
      var first := TwoTo(parse) / 2;
      OfOctave(0, first, h);
      if first >= h {
        FirstOfPasses(h, parse - 1, first, TwoTo(parse));
      }
    }
  }

  /** Ranks are the numbers below `h`, each taken by one row. */
  lemma RankInRange(r: nat, h: nat, interlaced: bool)
    requires r < h
    ensures Rank(r, h, interlaced) < h
  {
    if interlaced {
      hide Rank, Eighths, Quarters, Halves;
      var a, b := ByOctave(r, h);
    }
  }

  lemma RankInjective(r: nat, s: nat, h: nat, interlaced: bool)
    requires r < h && s < h && Rank(r, h, interlaced) == Rank(s, h, interlaced)
    ensures r == s
  {
    if interlaced {
      hide Rank, Eighths, Quarters, Halves, ParseOf, StepOf;
      var a, b := ByOctave(r, h);
      var c, d := ByOctave(s, h);
      RankOfInjective(a, b, c, d, h);
    }
  }

  lemma RankOfInjective(a: nat, b: nat, c: nat, d: nat, h: nat)
    requires b < 8 && d < 8 && 8 * a + b < h && 8 * c + d < h && RankOf(a, b, h) == RankOf(c, d, h)
    ensures a == c && b == d
  {
    hide Eighths, Quarters, Halves;
  }
}
