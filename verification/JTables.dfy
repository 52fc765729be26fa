/** The size lists of JPEG Huffman tables (Annex C of ITU-T T.81) and what the accelerated
    lookups in them mean. */
module JTables {
  import Bits
  import opened Canonical
  import opened ZTables
  import Deflate

  const NOT_FAST := 255

  /** HUFFSIZE for the first `n` lengths: `count[i]` symbols of length `i + 1`, shortest first. */
  function SizeListTo(count: seq<nat>, n: nat): (lens: seq<nat>)
    requires n <= |count|
  {
    if n == 0 then [] else SizeListTo(count, n - 1) + Deflate.Repeat(n, count[n - 1])
  }

  function SizeList(count: seq<nat>): seq<nat> {
    SizeListTo(count, |count|)
  }

  ghost predicate Sorted(lens: seq<nat>) {
    forall i, j :: 0 <= i < j < |lens| ==> lens[i] <= lens[j]
  }

  ghost predicate Positive(lens: seq<nat>) {
    forall i :: 0 <= i < |lens| ==> lens[i] > 0
  }

  lemma {:induction false} SizeListSorted(count: seq<nat>, n: nat)
    requires n <= |count|
    ensures Sorted(SizeListTo(count, n)) && Positive(SizeListTo(count, n)) && LensAtMost(SizeListTo(count, n), n)
  {
    if n > 0 { SizeListSorted(count, n - 1); }
  }

  /** In a sorted list every symbol stands in its own slot. */
  lemma SlotIsIndex(lens: seq<nat>, i: nat)
    requires Sorted(lens) && Positive(lens) && i < |lens|
    ensures Slot(lens, i) == i
  {
    ShorterBefore(lens, i, |lens|);
    ShorterOrEqual(lens, i, i);
  }

  lemma {:induction false} ShorterBefore(lens: seq<nat>, i: nat, n: nat)
    requires Sorted(lens) && i <= n <= |lens| && i < |lens|
    ensures ShorterTo(lens, n, lens[i]) == ShorterTo(lens, i, lens[i])
    decreases n - i
  {
    if i < n { ShorterBefore(lens, i, n - 1); }
  }

  lemma {:induction false} ShorterOrEqual(lens: seq<nat>, i: nat, n: nat)
    requires Sorted(lens) && Positive(lens) && n <= i < |lens|
    ensures ShorterTo(lens, n, lens[i]) + CountTo(lens, n, lens[i]) == n
  {
    if n > 0 { ShorterOrEqual(lens, i, n - 1); }
  }

  /** So the symbols of length `s` are exactly those between the two counts. */
  lemma LengthByIndex(lens: seq<nat>, i: nat, s: nat)
    requires Sorted(lens) && Positive(lens) && i < |lens|
    ensures lens[i] == s <==> ShorterTo(lens, |lens|, s) <= i < ShorterTo(lens, |lens|, s + 1)
  {
    SlotIsIndex(lens, i);
    SlotInRange(lens, i);
    if lens[i] < s {
      ShorterMono(lens, lens[i] + 1, s);
    } else if lens[i] > s {
      ShorterMono(lens, s + 1, lens[i]);
    }
  }

  lemma {:induction false} AllShorter(lens: seq<nat>, max: nat, n: nat)
    requires Positive(lens) && LensAtMost(lens, max) && n <= |lens|
    ensures ShorterTo(lens, n, max + 1) == n
  {
    if n > 0 { AllShorter(lens, max, n - 1); }
  }

  // ----- Annex C -----

  lemma {:induction false} NoneOf(lens: seq<nat>, n: nat, s: nat)
    requires n <= |lens| && forall i :: 0 <= i < n ==> lens[i] != s
    ensures CountTo(lens, n, s) == 0
  {
    if n > 0 { NoneOf(lens, n - 1, s); }
  }

  lemma {:induction false} CountStops(lens: seq<nat>, k: nat, n: nat, s: nat)
    requires k <= n <= |lens| && forall i :: k <= i < n ==> lens[i] != s
    ensures CountTo(lens, n, s) == CountTo(lens, k, s)
    decreases n - k
  {
    if k < n { CountStops(lens, k, n - 1, s); }
  }

  /** Between two lengths that no code lies between, codes are only shifted. */
  lemma {:induction false} FirstSkips(lens: seq<nat>, s: nat, t: nat)
    requires s < t && forall i :: 0 <= i < |lens| ==> !(s < lens[i] < t)
    ensures FirstCode(lens, t) == Bits.Shl(EndCode(lens, s), t - s)
    decreases t
  {
    EndDoubles(lens, t - 1);
    if s < t - 1 {
      FirstSkips(lens, s, t - 1);
      NoneOf(lens, |lens|, t - 1);
      assert EndCode(lens, t - 1) == FirstCode(lens, t - 1);
    } else {
      assert Bits.Shl(EndCode(lens, s), 1) == 2 * EndCode(lens, s);
    }
  }

  /** Figure C.2: codes are assigned in order, each one more than the one before, and shifted where the
      length grows. */
  lemma CodesInOrder(lens: seq<nat>, k: nat)
    requires Sorted(lens) && Positive(lens) && k < |lens|
    ensures k == 0 ==> Code(lens, k) == 0
    ensures k > 0 ==> Code(lens, k) == Bits.Shl(Code(lens, k - 1) + 1, lens[k] - lens[k - 1])
  {
    hide End, First;
    if k == 0 {
      FirstSkips(lens, 0, lens[0]);
      EndNone(lens);
      Bits.ShrZero(lens[0]);
    } else {
      var s, t := lens[k - 1], lens[k];
      if s == t {
        assert Bits.Shl(Code(lens, k - 1) + 1, 0) == Code(lens, k - 1) + 1;
      } else {
        FirstSkips(lens, s, t);
        CountStops(lens, k, |lens|, s);
        NoneOf(lens, k, t);
        EndOf(lens, s);
      }
    }
  }

  lemma EndNone(lens: seq<nat>)
    ensures EndCode(lens, 0) == 0
  {
  }

  lemma EndOf(lens: seq<nat>, s: nat)
    requires s > 0
    ensures EndCode(lens, s) == FirstCode(lens, s) + CountTo(lens, |lens|, s)
  {
  }

  // ----- the fast table -----

  /** The leading bits of the nine-bit cell `x` are the codeword of symbol `i`. */
  ghost predicate LeadsCell(lens: seq<nat>, i: nat, x: nat)
    requires i < |lens|
  {
    0 < lens[i] <= FAST_BITS && Bits.Shr(x, FAST_BITS - lens[i]) == Code(lens, i)
  }

  /** The entry `v` of cell `x` once the first `n` symbols are entered; 255 marks a miss. */
  ghost predicate JCell(lens: seq<nat>, n: nat, x: nat, v: nat)
    requires n <= |lens|
  {
    if v == NOT_FAST then forall i :: 0 <= i < n && i != NOT_FAST ==> !LeadsCell(lens, i, x)
    else v < n && LeadsCell(lens, v, x)
  }

  /** A cell is led by the codes that lead every window which starts with it. */
  lemma CellLeadsWindow(lens: seq<nat>, i: nat, w: nat)
    requires LensAtMost(lens, MAX_BITS) && i < |lens| && 0 < lens[i] <= FAST_BITS
    ensures LeadsCell(lens, i, Bits.Shr(w, MAX_BITS - FAST_BITS)) <==> Leads(lens, i, w)
  {
    hide Code;
    Bits.ShrShr(w, MAX_BITS - FAST_BITS, FAST_BITS - lens[i]);
  }

  /** No two symbols lead the same cell. */
  lemma CellsDisjoint(lens: seq<nat>, i: nat, j: nat, x: nat)
    requires LensAtMost(lens, MAX_BITS) && i < |lens| && j < |lens|
    requires LeadsCell(lens, i, x) && LeadsCell(lens, j, x)
    ensures i == j
  {
    hide Code;
    var w := Bits.Shl(x, MAX_BITS - FAST_BITS);
    Bits.JoinSplit(0, x, MAX_BITS - FAST_BITS);
    CellLeadsWindow(lens, i, w);
    CellLeadsWindow(lens, j, w);
    LeadsUnique(lens, i, j, w);
  }
}
