/** `stbi__huffman` and `stbi__build_huffman`. */
module JBuild {
  import opened Bits
  import opened Canonical
  import opened ZTables
  import opened JTables
  import Deflate

  const NO_CODE: nat := 0xFFFF_FFFF

  class JHuffman {
    const fast: array<nat>
    const code: array<nat>
    const values: array<nat>
    const size: array<nat>
    const maxcode: array<nat>
    const delta: array<int>

    ghost const Repr: set<object>

    ghost predicate Shape() {
      && fast.Length == FAST_SIZE && code.Length == 256 && values.Length == 256
      && size.Length == 257 && maxcode.Length == 18 && delta.Length == 17
      && fast != code && fast != values && fast != size && fast != maxcode
      && code != values && code != size && code != maxcode
      && values != size && values != maxcode && size != maxcode
      && delta as object != fast && delta as object != code && delta as object != values
      && delta as object != size && delta as object != maxcode
      && Repr == {fast as object, code as object, values as object, size as object, maxcode as object, delta as object}
    }

    constructor ()
      ensures Shape() && fresh(Repr)
    {
      var f, c, v := new nat[FAST_SIZE], new nat[256], new nat[256];
      var s, m, d := new nat[257], new nat[18], new int[17];
      fast, code, values, size, maxcode, delta := f, c, v, s, m, d;
      Repr := {f as object, c as object, v as object, s as object, m as object, d as object};
    }

    /** The symbols' lengths, ended by a zero. */
    ghost predicate Sizes(lens: seq<nat>)
      requires Shape()
      reads size
    {
      |lens| <= 256 && size[..|lens|] == lens && size[|lens|] == 0
    }

    /** The preshifted ends and the offsets from code to symbol index, below length `n`. */
    ghost predicate Lengths(lens: seq<nat>, n: nat)
      requires Shape() && n <= 17
      reads maxcode, delta
    {
      forall s :: 1 <= s < n ==>
        maxcode[s] == Top(lens, s) && delta[s] == ShorterTo(lens, |lens|, s) - FirstCode(lens, s)
    }

    ghost predicate Codes(lens: seq<nat>, n: nat)
      requires Shape() && n <= |lens| <= 256
      reads code
    {
      forall i :: 0 <= i < n ==> code[i] == Code(lens, i) % 65536
    }

    ghost predicate Fast(lens: seq<nat>, n: nat)
      requires Shape() && n <= |lens|
      reads fast
    {
      forall x :: 0 <= x < FAST_SIZE ==> JCell(lens, n, x, fast[x])
    }

    /** All tables belong to the canonical code with the sorted lengths `lens`. */
    ghost predicate Built(lens: seq<nat>)
      reads Repr
    {
      && Shape()
      && Sorted(lens) && Positive(lens) && LensAtMost(lens, MAX_BITS) && Kraft(lens, MAX_BITS)
      && Sizes(lens)
      && Lengths(lens, 17) && maxcode[17] == NO_CODE
      && Fast(lens, |lens|)
    }

    /** Accepts the counts of codes of each length exactly when there are at most 256 codes and
        they satisfy the Kraft inequality, and then builds the tables. */
    method Build(count: seq<nat>) returns (ok: bool)
      requires Shape() && |count| == 16
      modifies fast, code, size, maxcode, delta
      ensures ok <==> |SizeList(count)| <= 256 && (SizeListSorted(count, 16); Kraft(SizeList(count), MAX_BITS))
      ensures ok ==> Built(SizeList(count))
    {
      hide Kraft, Top, FirstCode, Code;
      ghost var lens := SizeList(count);
      SizeListSorted(count, 16);
      ok := FillSizes(count);
      if !ok {
        return;
      }
      var k;
      ok, k := AssignCodes(lens);
      if !ok {
        return;
      }
      maxcode[17] := NO_CODE;
      ClearFast();
      for i := 0 to k
        invariant Sizes(lens) && Codes(lens, |lens|)
        invariant Lengths(lens, 17) && maxcode[17] == NO_CODE
        invariant Fast(lens, i)
      {
        Enter(lens, i);
      }
    }

    method FillSizes(count: seq<nat>) returns (ok: bool)
      requires Shape() && |count| == 16
      modifies size
      ensures ok <==> |SizeList(count)| <= 256
      ensures ok ==> Sizes(SizeList(count))
    {
      var k := 0;
      for i := 0 to 16
        invariant k <= 256 && size[..k] == SizeListTo(count, i)
      {
        for j := 0 to count[i]
          invariant k <= 256 && size[..k] == SizeListTo(count, i) + Deflate.Repeat(i + 1, j)
        {
          size[k] := i + 1;
          k := k + 1;
          assert size[..k] == size[..k - 1] + [i + 1];
          assert Deflate.Repeat(i + 1, j + 1) == Deflate.Repeat(i + 1, j) + [i + 1];
          if k >= 257 {
            SizeListGrows(count, i + 1, 16);
            return false;
          }
        }
      }
      size[k] := 0;
      ok := true;
    }

    method ClearFast()
      requires Shape()
      modifies fast
      ensures forall x :: 0 <= x < FAST_SIZE ==> fast[x] == NOT_FAST
    {
      for i := 0 to FAST_SIZE
        invariant forall x :: 0 <= x < i ==> fast[x] == NOT_FAST
      {
        fast[i] := NOT_FAST;
      }
    }

    /** The codes in order of length, and the check that each length's codes fit. */
    method AssignCodes(ghost lens: seq<nat>) returns (ok: bool, k: nat)
      requires Shape() && Sizes(lens) && Sorted(lens) && Positive(lens) && LensAtMost(lens, MAX_BITS)
      modifies code, maxcode, delta
      ensures ok <==> Kraft(lens, MAX_BITS)
      ensures ok ==> Lengths(lens, 17) && Codes(lens, |lens|) && k == |lens|
    {
      hide Code, Kraft, CountTo, First, End, Shl, Pow2, ShorterTo;
      var c := 0;
      k := 0;
      KraftIffEndsFit(lens, MAX_BITS);
      StartOfCodes(lens);
      for j := 1 to 17
        invariant k == ShorterTo(lens, |lens|, j) && c == FirstCode(lens, j)
        invariant forall s :: 0 <= s < j ==> EndCode(lens, s) <= Pow2(s)
        invariant Lengths(lens, j) && Codes(lens, k)
      {
        delta[j] := k - c;
        NextLength(lens, j);
        if size[k] == j {
          k, c := AssignLength(lens, j, k, c);
          if c - 1 >= Shl(1, j) {
            ShlOne(j);
            return false, k;
          }
        }
        ShlOne(j);
        maxcode[j] := Shl(c, 16 - j);
        c := 2 * c;
      }
      AllShorter(lens, MAX_BITS, |lens|);
      ok := true;
    }

    method AssignLength(ghost lens: seq<nat>, j: nat, k0: nat, c0: nat) returns (k: nat, c: nat)
      requires Shape() && Sizes(lens) && Sorted(lens) && Positive(lens)
      requires 1 <= j <= 16 && k0 == ShorterTo(lens, |lens|, j) && c0 == FirstCode(lens, j) && Codes(lens, k0)
      modifies code
      ensures k == ShorterTo(lens, |lens|, j + 1) && c == EndCode(lens, j) && Codes(lens, k)
    {
      ShorterStep(lens, |lens|, j);
      k, c := k0, c0;
      while size[k] == j
        invariant k0 <= k <= ShorterTo(lens, |lens|, j + 1) && c == c0 + (k - k0)
        invariant Codes(lens, k)
        decreases |lens| - k
      {
        LengthByIndex(lens, k, j);
        SlotIsIndex(lens, k);
        code[k] := c % 65536;
        k := k + 1;
        c := c + 1;
      }
      if k < |lens| { LengthByIndex(lens, k, j); }
    }

    /** Enters symbol `i` in every cell that its code leads, if the code is short. */
    method Enter(ghost lens: seq<nat>, i: nat)
      requires Shape() && i < |lens| && Sizes(lens) && Codes(lens, |lens|) && Fast(lens, i)
      requires LensAtMost(lens, MAX_BITS) && Kraft(lens, MAX_BITS) && Positive(lens)
      modifies fast
      ensures Fast(lens, i + 1)
    {
      hide Code, Kraft, Shl, JCell, LeadsCell;
      var s := size[i];
      if s <= FAST_BITS {
        ShortCode(lens, i);
        CellRange(lens, i);
        var c, m := Shl(code[i], FAST_BITS - s), Shl(1, FAST_BITS - s);
        SetCells(c, m, i % 256);
        forall x | 0 <= x < FAST_SIZE ensures JCell(lens, i + 1, x, fast[x]) {
          assert JCell(lens, i, x, old(fast[x]));
          CellAfter(lens, i, x, old(fast[x]));
        }
      } else {
        forall x | 0 <= x < FAST_SIZE ensures JCell(lens, i + 1, x, fast[x]) {
          CellSkipped(lens, i, x, fast[x]);
        }
      }
    }

    method SetCells(c: nat, m: nat, v: nat)
      requires Shape() && c + m <= FAST_SIZE
      modifies fast
      ensures forall x :: 0 <= x < FAST_SIZE ==> fast[x] == if c <= x < c + m then v else old(fast[x])
    {
      for j := 0 to m
        invariant forall x :: 0 <= x < FAST_SIZE ==> fast[x] == if c <= x < c + j then v else old(fast[x])
      {
        fast[c + j] := v;
      }
    }
  }

  lemma {:induction false} SizeListGrows(count: seq<nat>, m: nat, n: nat)
    requires m <= n <= |count|
    ensures |SizeListTo(count, m)| <= |SizeListTo(count, n)|
  {
    if m < n { SizeListGrows(count, m, n - 1); }
  }

  lemma StartOfCodes(lens: seq<nat>)
    ensures ShorterTo(lens, |lens|, 1) == 0 && FirstCode(lens, 1) == 0 && EndCode(lens, 0) == 0
  {
    NoShorterThanOne(lens, |lens|);
    assert EndCode(lens, 0) == 0;
  }

  /** From one length to the next, whether or not it has codes. */
  lemma NextLength(lens: seq<nat>, j: nat)
    requires Sorted(lens) && Positive(lens) && 1 <= j
    ensures FirstCode(lens, j + 1) == 2 * EndCode(lens, j)
    ensures EndCode(lens, j - 1) <= Pow2(j - 1) ==> FirstCode(lens, j) <= Pow2(j)
    ensures var k := ShorterTo(lens, |lens|, j);
      if k < |lens| && lens[k] == j then true
      else EndCode(lens, j) == FirstCode(lens, j) && ShorterTo(lens, |lens|, j + 1) == k
  {
    EndDoubles(lens, j);
    EndDoubles(lens, j - 1);
    ShorterStep(lens, |lens|, j);
    var k := ShorterTo(lens, |lens|, j);
    if Used(lens, |lens|, j) > 0 {
      LengthByIndex(lens, k, j);
    }
  }

  /** The cells led by a short code are the shifted code and the next `2^(9-s)` cells. */
  lemma CellRange(lens: seq<nat>, i: nat)
    requires i < |lens| && 0 < lens[i] <= FAST_BITS && Code(lens, i) < Pow2(lens[i])
    ensures Shl(Code(lens, i), FAST_BITS - lens[i]) + Shl(1, FAST_BITS - lens[i]) <= FAST_SIZE
    ensures forall x: nat :: LeadsCell(lens, i, x) <==>
      Shl(Code(lens, i), FAST_BITS - lens[i]) <= x < Shl(Code(lens, i), FAST_BITS - lens[i]) + Shl(1, FAST_BITS - lens[i])
  {
    hide Code, Shl, Shr, Pow2;
    var c, d := Code(lens, i), FAST_BITS - lens[i];
    ShlAdd(c, 1, d);
    ShlOrder(c + 1, Pow2(lens[i]), d);
    ShlOne(lens[i]);
    ShlOne(FAST_BITS);
    ShlShl(1, lens[i], d);
    Pow2Values();
    forall x: nat ensures LeadsCell(lens, i, x) <==> Shl(c, d) <= x < Shl(c, d) + Shl(1, d) {
      ShrRange(x, d, c, c + 1);
    }
  }

  lemma ShortCode(lens: seq<nat>, i: nat)
    requires LensAtMost(lens, MAX_BITS) && Kraft(lens, MAX_BITS) && i < |lens| && 0 < lens[i] <= FAST_BITS
    ensures Code(lens, i) < Pow2(lens[i]) && Code(lens, i) % 65536 == Code(lens, i)
  {
    CodeFits(lens, MAX_BITS, i);
    Pow2Mono(lens[i], FAST_BITS);
    Pow2Values();
  }

  lemma CellSkipped(lens: seq<nat>, i: nat, x: nat, was: nat)
    requires i < |lens| && lens[i] > FAST_BITS && JCell(lens, i, x, was)
    ensures JCell(lens, i + 1, x, was)
  {
  }

  /** What a cell holds after symbol `i` is entered. */
  lemma CellAfter(lens: seq<nat>, i: nat, x: nat, was: nat)
    requires LensAtMost(lens, MAX_BITS) && i < |lens| <= 256 && 0 < lens[i] <= FAST_BITS && JCell(lens, i, x, was)
    ensures JCell(lens, i + 1, x, if LeadsCell(lens, i, x) then i % 256 else was)
  {
    hide Code;
    if LeadsCell(lens, i, x) && i == NOT_FAST {
      forall k | 0 <= k < i && LeadsCell(lens, k, x) ensures false {
        CellsDisjoint(lens, k, i, x);
      }
    }
  }
}
