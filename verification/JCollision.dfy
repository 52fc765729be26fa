/** A full JPEG table that the decoder accepts and misreads: 255 codes of eight bits and one of
    nine.  The last symbol has index 255, which the fast table cannot tell from a miss. */
module JCollision {
  import Bits
  import opened Canonical
  import Deflate
  import JTables
  import JLookup

  /** `n` codes of eight bits, then one of nine. */
  function Eights(n: nat): (lens: seq<nat>)
    ensures |lens| == n + 1
    ensures forall i :: 0 <= i <= n ==> lens[i] == if i < n then 8 else 9
  {
    seq(n + 1, i => if i < n then 8 else 9)
  }

  lemma {:induction false} EightsCount(n: nat, m: nat, s: nat)
    requires m <= n + 1
    ensures CountTo(Eights(n), m, s) ==
      if s == 8 then (if m <= n then m else n) else if s == 9 then (if m <= n then 0 else 1) else 0
  {
    hide Eights;
    if m > 0 { EightsCount(n, m - 1, s); }
  }

  lemma {:induction false} EightsKraft(n: nat, m: nat)
    requires m <= n + 1
    ensures LensAtMost(Eights(n), MAX_BITS)
    ensures KraftTo(Eights(n), m, MAX_BITS) == if m <= n then 256 * m else 256 * n + 128
  {
    hide Eights;
    if m > 0 {
      EightsKraft(n, m - 1);
      Bits.Pow2Values();
    }
  }

  lemma {:induction false} EightsEnd(n: nat, s: nat)
    ensures s < 8 ==> EndCode(Eights(n), s) == 0
    ensures s == 8 ==> EndCode(Eights(n), s) == n
  {
    hide Eights, CountTo;
    EightsCount(n, n + 1, s);
    if 0 < s <= 8 {
      EightsEnd(n, s - 1);
      EndDoubles(Eights(n), s - 1);
      assert EndCode(Eights(n), s) == FirstCode(Eights(n), s) + Used(Eights(n), n + 1, s);
    }
  }

  /** How many codes each length has. */
  function Counts(n: nat): (count: seq<nat>)
    ensures |count| == 16
  {
    seq(16, i => if i == 7 then n else if i == 8 then 1 else 0)
  }

  lemma {:induction false} EightsAreListed(n: nat, m: nat)
    requires m <= 16
    ensures JTables.SizeListTo(Counts(n), m) == if m <= 7 then [] else if m == 8 then Deflate.Repeat(8, n) else Eights(n)
  {
    if m > 0 { EightsAreListed(n, m - 1); }
  }

  /** The table satisfies everything the builder asks, and some window collides. */
  lemma AcceptedTableCollides(n: nat)
    requires n == JTables.NOT_FAST
    ensures JTables.SizeList(Counts(n)) == Eights(n)
    ensures |Eights(n)| <= 256 && JTables.Sorted(Eights(n)) && JTables.Positive(Eights(n))
    ensures LensAtMost(Eights(n), MAX_BITS) && Kraft(Eights(n), MAX_BITS)
    ensures JLookup.Collides(Eights(n), 65280)
  {
    hide Eights, CountTo, KraftTo, First, End;
    var lens := Eights(n);
    EightsAreListed(n, 16);
    EightsKraft(n, n + 1);
    Bits.Pow2Values();
    EightsEnd(n, 8);
    EndDoubles(lens, 8);
    EightsCount(n, n, 9);
    assert Code(lens, n) == 510;
    assert Bits.Shr(65280, 7) == 510;
    JLookup.SymbolOfIs(lens, n, 65280);
  }
}
