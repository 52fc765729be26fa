/** The DEFLATE Huffman tables: `stbi__zbuild_huffman` and the lookups made in them. */
module ZTables {
  import opened Bits
  import opened Canonical

  const FAST_BITS := 9
  const FAST_SIZE := 512
  const NSYMS := 288
  const MAX_LEN := 15

  /** Symbols among the first `n` with a code shorter than `s`. */
  function ShorterTo(lens: seq<nat>, n: nat, s: nat): (c: nat)
    requires n <= |lens|
    ensures c <= n
  {
    if n == 0 then 0 else ShorterTo(lens, n - 1, s) + if 0 < lens[n - 1] < s then 1 else 0
  }

  /** The slot of symbol `i` in the sorted tables: all shorter codes, then equal ones before it. */
  function Slot(lens: seq<nat>, i: nat): nat
    requires i < |lens|
  {
    ShorterTo(lens, |lens|, lens[i]) + CountTo(lens, i, lens[i])
  }

  lemma {:induction false} ShorterStep(lens: seq<nat>, n: nat, s: nat)
    requires n <= |lens|
    ensures ShorterTo(lens, n, s + 1) == ShorterTo(lens, n, s) + Used(lens, n, s)
  {
    if n > 0 { ShorterStep(lens, n - 1, s); }
  }

  lemma {:induction false} ShorterMono(lens: seq<nat>, s: nat, t: nat)
    requires s <= t
    ensures ShorterTo(lens, |lens|, s) <= ShorterTo(lens, |lens|, t)
  {
    if s < t {
      ShorterMono(lens, s, t - 1);
      ShorterStep(lens, |lens|, t - 1);
    }
  }

  lemma SlotInRange(lens: seq<nat>, i: nat)
    requires i < |lens| && lens[i] > 0
    ensures ShorterTo(lens, |lens|, lens[i]) <= Slot(lens, i) < ShorterTo(lens, |lens|, lens[i] + 1) <= |lens|
  {
    RankBelowCount(lens, i);
    ShorterStep(lens, |lens|, lens[i]);
  }

  /** The slots of used symbols are distinct ... */
  lemma SlotInjective(lens: seq<nat>, i: nat, j: nat)
    requires i < j < |lens| && lens[i] > 0 && lens[j] > 0
    ensures Slot(lens, i) != Slot(lens, j)
  {
    SlotInRange(lens, i);
    SlotInRange(lens, j);
    if lens[i] < lens[j] {
      ShorterMono(lens, lens[i] + 1, lens[j]);
    } else if lens[j] < lens[i] {
      ShorterMono(lens, lens[j] + 1, lens[i]);
    } else {
      RankIncreases(lens, i, j);
    }
  }

  /** ... and run from 0 to the number of used symbols. */
  lemma {:induction false} SlotSurjective(lens: seq<nat>, max: nat, c: nat) returns (i: nat)
    requires LensAtMost(lens, max)
    requires c < ShorterTo(lens, |lens|, max + 1)
    ensures i < |lens| && lens[i] > 0 && Slot(lens, i) == c
  {
    var s := LengthOfSlot(lens, max, c);
    ShorterStep(lens, |lens|, s);
    i := RankSurjective(lens, |lens|, s, c - ShorterTo(lens, |lens|, s));
  }

  lemma {:induction false} LengthOfSlot(lens: seq<nat>, max: nat, c: nat) returns (s: nat)
    requires c < ShorterTo(lens, |lens|, max + 1)
    ensures 0 < s <= max
    ensures ShorterTo(lens, |lens|, s) <= c < ShorterTo(lens, |lens|, s + 1)
  {
    ShorterStep(lens, |lens|, max);
    if ShorterTo(lens, |lens|, max) <= c {
      s := max;
      NoShorterThanOne(lens, |lens|);
    } else {
      if max == 0 { NoShorterThanOne(lens, |lens|); }
      s := LengthOfSlot(lens, max - 1, c);
    }
  }

  lemma {:induction false} NoShorterThanOne(lens: seq<nat>, n: nat)
    requires n <= |lens|
    ensures ShorterTo(lens, n, 0) == 0 && ShorterTo(lens, n, 1) == 0
  {
    if n > 0 { NoShorterThanOne(lens, n - 1); }
  }

  // ----- the fast table -----

  /** Cell `j` of the fast table ends in the reversed codeword of symbol `i`. */
  ghost predicate InCell(lens: seq<nat>, i: nat, j: nat)
    requires i < |lens|
  {
    0 < lens[i] <= FAST_BITS && Low(j, lens[i]) == Reverse(Code(lens, i), lens[i])
  }

  /** The entry packs the length above nine bits of symbol. */
  function Packed(lens: seq<nat>, i: nat): nat
    requires i < |lens|
  {
    512 * lens[i] + i
  }

  /** The entry `v` of cell `j` once the first `n` symbols are entered. */
  ghost predicate CellHolds(lens: seq<nat>, n: nat, j: nat, v: nat)
    requires n <= |lens|
  {
    if v == 0 then forall i :: 0 <= i < n ==> !InCell(lens, i, j)
    else exists i :: 0 <= i < n && InCell(lens, i, j) && v == Packed(lens, i)
  }

  /** The sixteen-bit window whose leading nine bits are cell `j` read most significant first. */
  ghost function CellWindow(j: nat): nat {
    Shl(Reverse(j, FAST_BITS), MAX_BITS - FAST_BITS)
  }

  /** A cell belongs to a symbol exactly when the symbol's codeword leads the cell's window. */
  lemma CellIffLeads(lens: seq<nat>, max: nat, i: nat, j: nat)
    requires max <= MAX_BITS && LensAtMost(lens, max) && Kraft(lens, max)
    requires i < |lens| && 0 < lens[i] <= FAST_BITS
    ensures InCell(lens, i, j) <==> Leads(lens, i, CellWindow(j))
  {
    var s, c := lens[i], Code(lens, i);
    CodeFits(lens, max, i);
    ReverseTop(j, s, FAST_BITS);
    JoinSplit(0, Reverse(j, FAST_BITS), MAX_BITS - FAST_BITS);
    ShrShr(CellWindow(j), MAX_BITS - FAST_BITS, FAST_BITS - s);
    LowHigh(j, s);
    ReverseTwice(c, s);
    ReverseTwice(Low(j, s), s);
  }

  /** No two symbols are entered in the same cell. */
  lemma CellUnique(lens: seq<nat>, max: nat, i: nat, i': nat, j: nat)
    requires max <= MAX_BITS && LensAtMost(lens, max) && Kraft(lens, max)
    requires i < |lens| && i' < |lens| && InCell(lens, i, j) && InCell(lens, i', j)
    ensures i == i'
  {
    CellIffLeads(lens, max, i, j);
    CellIffLeads(lens, max, i', j);
    LeadsUnique(lens, i, i', CellWindow(j));
  }
}
