/** Canonical Huffman codes (section 3.2.2 of RFC 1951, Annex C of ITU-T T.81), defined from
    the list of code lengths alone.  A length of zero marks an unused symbol. */
module Canonical {
  import opened Bits

  const MAX_BITS := 16

  ghost predicate LensAtMost(lens: seq<nat>, max: nat) {
    forall i :: 0 <= i < |lens| ==> lens[i] <= max
  }

  /** How many of the first `n` symbols have length `s`. */
  function CountTo(lens: seq<nat>, n: nat, s: nat): (c: nat)
    requires n <= |lens|
    ensures c <= n
  {
    if n == 0 then 0 else CountTo(lens, n - 1, s) + if lens[n - 1] == s then 1 else 0
  }

  /** `bl_count[s]`, over the first `n` symbols; unused symbols do not count. */
  function Used(lens: seq<nat>, n: nat, s: nat): nat
    requires n <= |lens|
  {
    if s == 0 then 0 else CountTo(lens, n, s)
  }

  /** The smallest code of length `s`, over the first `n` symbols. */
  function First(lens: seq<nat>, n: nat, s: nat): nat
    requires n <= |lens|
    decreases s, 0
  {
    if s == 0 then 0 else 2 * End(lens, n, s - 1)
  }

  /** One more than the largest code of length `s`. */
  function End(lens: seq<nat>, n: nat, s: nat): nat
    requires n <= |lens|
    decreases s, 1
  {
    First(lens, n, s) + Used(lens, n, s)
  }

  function FirstCode(lens: seq<nat>, s: nat): nat {
    First(lens, |lens|, s)
  }

  function EndCode(lens: seq<nat>, s: nat): nat {
    End(lens, |lens|, s)
  }

  /** The codeword of symbol `i`, as a number of `lens[i]` bits. */
  function Code(lens: seq<nat>, i: nat): nat
    requires i < |lens|
  {
    FirstCode(lens, lens[i]) + CountTo(lens, i, lens[i])
  }

  /** The Kraft sum of the first `n` symbols, in units of 2^-max. */
  ghost function KraftTo(lens: seq<nat>, n: nat, max: nat): nat
    requires n <= |lens| && LensAtMost(lens, max)
  {
    if n == 0 then 0
    else KraftTo(lens, n - 1, max) + if lens[n - 1] == 0 then 0 else Pow2(max - lens[n - 1])
  }

  /** The Kraft inequality: the code lengths do not oversubscribe the code space. */
  ghost predicate Kraft(lens: seq<nat>, max: nat)
    requires LensAtMost(lens, max)
  {
    KraftTo(lens, |lens|, max) <= Pow2(max)
  }

  // ----- the Kraft sum and the canonical assignment -----

  lemma {:induction false} EndStep(lens: seq<nat>, n: nat, s: nat)
    requires n < |lens|
    ensures End(lens, n + 1, s) == End(lens, n, s) + if 0 < lens[n] <= s then Pow2(s - lens[n]) else 0
    decreases s
  {
    if s > 0 { EndStep(lens, n, s - 1); }
  }

  lemma {:induction false} EndZero(lens: seq<nat>, s: nat)
    ensures End(lens, 0, s) == 0
    decreases s
  {
    if s > 0 { EndZero(lens, s - 1); }
  }

  /** The end of the longest length is the Kraft sum. */
  lemma {:induction false} EndIsKraft(lens: seq<nat>, n: nat, max: nat)
    requires n <= |lens| && LensAtMost(lens, max)
    ensures End(lens, n, max) == KraftTo(lens, n, max)
  {
    if n == 0 {
      EndZero(lens, max);
    } else {
      EndIsKraft(lens, n - 1, max);
      EndStep(lens, n - 1, max);
    }
  }

  lemma EndDoubles(lens: seq<nat>, s: nat)
    ensures FirstCode(lens, s + 1) == 2 * EndCode(lens, s) <= EndCode(lens, s + 1)
  {
  }

  /** The codes of length `s`, extended to length `t`, leave the longer codes room. */
  lemma {:induction false} EndGrows(lens: seq<nat>, s: nat, t: nat)
    requires s <= t
    ensures Shl(EndCode(lens, s), t - s) <= EndCode(lens, t)
    decreases t - s
  {
    if s < t {
      EndGrows(lens, s, t - 1);
      EndDoubles(lens, t - 1);
    }
  }

  /** The Kraft inequality holds exactly when every length's codes fit in that many bits. */
  lemma KraftIffEndsFit(lens: seq<nat>, max: nat)
    requires LensAtMost(lens, max)
    ensures Kraft(lens, max) <==> forall s :: 0 <= s <= max ==> EndCode(lens, s) <= Pow2(s)
  {
    EndIsKraft(lens, |lens|, max);
    if forall s :: 0 <= s <= max ==> EndCode(lens, s) <= Pow2(s) {
      assert EndCode(lens, max) <= Pow2(max);
    }
    if Kraft(lens, max) {
      forall s | 0 <= s <= max ensures EndCode(lens, s) <= Pow2(s) {
        EndFits(lens, max, s);
      }
    }
  }

  lemma EndFits(lens: seq<nat>, max: nat, s: nat)
    requires LensAtMost(lens, max) && Kraft(lens, max) && s <= max
    ensures EndCode(lens, s) <= Pow2(s)
  {
    EndIsKraft(lens, |lens|, max);
    EndGrows(lens, s, max);
    ShlOne(s);
    ShlOne(max);
    ShlShl(1, s, max - s);
    ShlOrder(EndCode(lens, s), Pow2(s), max - s);
  }

  // ----- ranks -----

  lemma {:induction false} CountMono(lens: seq<nat>, m: nat, n: nat, s: nat)
    requires m <= n <= |lens|
    ensures CountTo(lens, m, s) <= CountTo(lens, n, s)
  {
    if m < n { CountMono(lens, m, n - 1, s); }
  }

  lemma RankBelowCount(lens: seq<nat>, i: nat)
    requires i < |lens|
    ensures CountTo(lens, i, lens[i]) < CountTo(lens, |lens|, lens[i])
  {
    CountMono(lens, i + 1, |lens|, lens[i]);
  }

  lemma RankIncreases(lens: seq<nat>, i: nat, j: nat)
    requires i < j < |lens| && lens[i] == lens[j]
    ensures CountTo(lens, i, lens[i]) < CountTo(lens, j, lens[j])
  {
    CountMono(lens, i + 1, j, lens[i]);
  }

  /** The symbol of length `s` and rank `r`. */
  lemma {:induction false} RankSurjective(lens: seq<nat>, n: nat, s: nat, r: nat) returns (i: nat)
    requires n <= |lens| && r < CountTo(lens, n, s)
    ensures i < n && lens[i] == s && CountTo(lens, i, s) == r
  {
    if lens[n - 1] == s && CountTo(lens, n - 1, s) == r {
      i := n - 1;
    } else {
      i := RankSurjective(lens, n - 1, s, r);
    }
  }

  // ----- codewords in a sixteen-bit window -----

  /** The codeword of `i` is the leading bits of the sixteen-bit window `w`. */
  ghost predicate Leads(lens: seq<nat>, i: nat, w: nat)
    requires i < |lens| && LensAtMost(lens, MAX_BITS)
  {
    lens[i] > 0 && Shr(w, MAX_BITS - lens[i]) == Code(lens, i)
  }

  /** Where the windows led by codes of length at most `s` end (the preshifted `maxcode[s]`). */
  function Top(lens: seq<nat>, s: nat): nat
    requires s <= MAX_BITS
  {
    Shl(EndCode(lens, s), MAX_BITS - s)
  }

  lemma TopStep(lens: seq<nat>, s: nat)
    requires 0 < s <= MAX_BITS
    ensures Top(lens, s - 1) == Shl(FirstCode(lens, s), MAX_BITS - s) <= Top(lens, s)
  {
    EndDoubles(lens, s - 1);
    assert Shl(EndCode(lens, s - 1), 1) == FirstCode(lens, s);
    ShlShl(EndCode(lens, s - 1), 1, MAX_BITS - s);
    ShlOrder(FirstCode(lens, s), EndCode(lens, s), MAX_BITS - s);
  }

  lemma {:induction false} TopMono(lens: seq<nat>, s: nat, t: nat)
    requires s <= t <= MAX_BITS
    ensures Top(lens, s) <= Top(lens, t)
  {
    if s < t {
      TopMono(lens, s, t - 1);
      TopStep(lens, t);
    }
  }

  /** Codes of length `s` lead only windows between `Top(s - 1)` and `Top(s)`. */
  lemma LeadsInRange(lens: seq<nat>, i: nat, w: nat)
    requires LensAtMost(lens, MAX_BITS) && i < |lens| && Leads(lens, i, w)
    ensures Top(lens, lens[i] - 1) <= w < Top(lens, lens[i])
  {
    var s := lens[i];
    RankBelowCount(lens, i);
    TopStep(lens, s);
    ShrRange(w, MAX_BITS - s, FirstCode(lens, s), EndCode(lens, s));
  }

  /** Every window in that range is led by a code of length `s`: its rank is the distance from
      the first code. */
  lemma RangeIsLed(lens: seq<nat>, s: nat, w: nat) returns (i: nat)
    requires LensAtMost(lens, MAX_BITS) && 0 < s <= MAX_BITS
    requires Top(lens, s - 1) <= w < Top(lens, s)
    ensures i < |lens| && lens[i] == s && Leads(lens, i, w)
    ensures CountTo(lens, i, s) == Shr(w, MAX_BITS - s) - FirstCode(lens, s)
  {
    TopStep(lens, s);
    ShrRange(w, MAX_BITS - s, FirstCode(lens, s), EndCode(lens, s));
    i := RankSurjective(lens, |lens|, s, Shr(w, MAX_BITS - s) - FirstCode(lens, s));
  }

  /** No window is led by two codewords. */
  lemma LeadsUnique(lens: seq<nat>, i: nat, j: nat, w: nat)
    requires LensAtMost(lens, MAX_BITS) && i < |lens| && j < |lens|
    requires Leads(lens, i, w) && Leads(lens, j, w)
    ensures i == j
  {
    LeadsInRange(lens, i, w);
    LeadsInRange(lens, j, w);
    if lens[i] < lens[j] {
      TopMono(lens, lens[i], lens[j] - 1);
    } else if lens[j] < lens[i] {
      TopMono(lens, lens[j], lens[i] - 1);
    } else if i < j {
      RankIncreases(lens, i, j);
    } else if j < i {
      RankIncreases(lens, j, i);
    }
  }

  /** Canonical codes are prefix-free. */
  lemma PrefixFree(lens: seq<nat>, i: nat, j: nat)
    requires LensAtMost(lens, MAX_BITS) && i < |lens| && j < |lens| && i != j
    requires 0 < lens[i] <= lens[j]
    ensures Shr(Code(lens, j), lens[j] - lens[i]) != Code(lens, i)
  {
    var w := Shl(Code(lens, j), MAX_BITS - lens[j]);
    JoinSplit(0, Code(lens, j), MAX_BITS - lens[j]);
    ShrShr(w, MAX_BITS - lens[j], lens[j] - lens[i]);
    if Shr(Code(lens, j), lens[j] - lens[i]) == Code(lens, i) {
      LeadsUnique(lens, i, j, w);
    }
  }

  /** Every codeword fits in its own number of bits. */
  lemma CodeFits(lens: seq<nat>, max: nat, i: nat)
    requires LensAtMost(lens, max) && Kraft(lens, max) && i < |lens| && lens[i] > 0
    ensures Code(lens, i) < Pow2(lens[i])
  {
    RankBelowCount(lens, i);
    EndFits(lens, max, lens[i]);
  }
}
