/** `stbi__zhuffman` and `stbi__zbuild_huffman`. */
module ZBuild {
  import opened Bits
  import Reversal
  import opened Canonical
  import opened ZTables

  class ZHuffman {
    const fast: array<nat>
    const firstcode: array<nat>
    const maxcode: array<nat>
    const firstsymbol: array<nat>
    const size: array<nat>
    const value: array<nat>

    ghost const Repr: set<object>

    ghost predicate Shape() {
      && fast.Length == FAST_SIZE && firstcode.Length == 16 && maxcode.Length == 17
      && firstsymbol.Length == 16 && size.Length == NSYMS && value.Length == NSYMS
      && fast != firstcode && fast != maxcode && fast != firstsymbol && fast != size && fast != value
      && firstcode != maxcode && firstcode != firstsymbol && firstcode != size && firstcode != value
      && maxcode != firstsymbol && maxcode != size && maxcode != value
      && firstsymbol != size && firstsymbol != value && size != value
      && Repr == {fast, firstcode, maxcode, firstsymbol, size, value}
    }

    constructor ()
      ensures Shape() && fresh(Repr)
    {
      fast := new nat[FAST_SIZE];
      firstcode := new nat[16];
      maxcode := new nat[17];
      firstsymbol := new nat[16];
      size := new nat[NSYMS];
      value := new nat[NSYMS];
      Repr := {fast, firstcode, maxcode, firstsymbol, size, value};
    }

    /** The tables by code length are those of the canonical code of `lens`. */
    ghost predicate LengthTables(lens: seq<nat>, n: nat)
      requires Shape() && n <= 16
      reads firstcode, maxcode, firstsymbol
    {
      forall s :: 1 <= s < n ==>
        && firstcode[s] == FirstCode(lens, s)
        && maxcode[s] == Top(lens, s)
        && firstsymbol[s] == ShorterTo(lens, |lens|, s)
    }

    /** The first `n` symbols are entered in the tables by slot. */
    ghost predicate SlotTables(lens: seq<nat>, n: nat)
      requires Shape() && n <= |lens| <= NSYMS
      reads size, value
    {
      forall i :: 0 <= i < n && lens[i] > 0 ==>
        && Slot(lens, i) < NSYMS
        && size[Slot(lens, i)] == lens[i]
        && value[Slot(lens, i)] == i
    }

    /** The first `n` symbols are entered in the fast table. */
    ghost predicate FastTable(lens: seq<nat>, n: nat)
      requires Shape() && n <= |lens|
      reads fast
    {
      forall j :: 0 <= j < FAST_SIZE ==> CellHolds(lens, n, j, fast[j])
    }

    /** All tables belong to the canonical code with lengths `lens`. */
    ghost predicate Built(lens: seq<nat>)
      reads Repr
    {
      && Shape()
      && |lens| <= NSYMS && LensAtMost(lens, MAX_LEN) && Kraft(lens, MAX_LEN)
      && LengthTables(lens, 16)
      && maxcode[16] == 0x10000
      && SlotTables(lens, |lens|)
      && FastTable(lens, |lens|)
    }

    /** Accepts a list of code lengths exactly when it satisfies the Kraft inequality, and then
        builds its tables. */
    method Build(sizelist: seq<nat>) returns (ok: bool)
      requires Shape() && |sizelist| <= NSYMS && LensAtMost(sizelist, MAX_LEN)
      modifies Repr
      ensures ok <==> Kraft(sizelist, MAX_LEN)
      ensures ok ==> Built(sizelist)
    {
      hide Kraft, SlotTables, FastTable;
      ClearFast();
      var sizes := CountSizes(sizelist);
      var next_code;
      ok, next_code := AssignCodes(sizelist, sizes);
      if !ok {
        return;
      }
      maxcode[16] := 0x10000;
      EnterAll(sizelist, next_code);
    }

    /** Enters the symbols one after another, each with the next code of its length. */
    method EnterAll(lens: seq<nat>, next_code: array<nat>)
      requires Shape() && |lens| <= NSYMS && LensAtMost(lens, MAX_LEN) && Kraft(lens, MAX_LEN)
      requires LengthTables(lens, 16) && forall j :: 0 <= j < FAST_SIZE ==> fast[j] == 0
      requires next_code.Length == 16 && next_code !in Repr
      requires forall s :: 1 <= s < 16 ==> next_code[s] == FirstCode(lens, s)
      modifies fast, size, value, next_code
      ensures SlotTables(lens, |lens|) && FastTable(lens, |lens|)
    {
      NothingEntered(lens);
      hide Kraft, LengthTables, SlotTables, FastTable, FirstCode;
      for i := 0 to |lens|
        invariant forall s :: 1 <= s < 16 ==> next_code[s] == FirstCode(lens, s) + CountTo(lens, i, s)
        invariant SlotTables(lens, i) && FastTable(lens, i)
      {
        var s := lens[i];
        if s != 0 {
          assert Code(lens, i) == next_code[s];
          Enter(lens, i, next_code[s]);
          next_code[s] := next_code[s] + 1;
        } else {
          Skip(lens, i);
        }
      }
    }

    lemma NothingEntered(lens: seq<nat>)
      requires Shape() && |lens| <= NSYMS && forall j :: 0 <= j < FAST_SIZE ==> fast[j] == 0
      ensures SlotTables(lens, 0) && FastTable(lens, 0)
    {
    }

    /** An unused symbol is entered nowhere. */
    lemma Skip(lens: seq<nat>, i: nat)
      requires Shape() && |lens| <= NSYMS && i < |lens| && lens[i] == 0 && SlotTables(lens, i) && FastTable(lens, i)
      ensures SlotTables(lens, i + 1) && FastTable(lens, i + 1)
    {
      CellsSkip(lens, i);
    }

    method ClearFast()
      requires Shape()
      modifies fast
      ensures forall j :: 0 <= j < FAST_SIZE ==> fast[j] == 0
    {
      for i := 0 to FAST_SIZE
        invariant forall j :: 0 <= j < i ==> fast[j] == 0
      {
        fast[i] := 0;
      }
    }

    static method CountSizes(sizelist: seq<nat>) returns (sizes: array<nat>)
      requires LensAtMost(sizelist, MAX_LEN)
      ensures sizes.Length == 17 && fresh(sizes)
      ensures forall s :: 0 <= s < 17 ==> sizes[s] == Used(sizelist, |sizelist|, s)
    {
      sizes := new nat[17](_ => 0);
      for i := 0 to |sizelist|
        invariant forall s :: 0 <= s < 17 ==> sizes[s] == CountTo(sizelist, i, s)
      {
        sizes[sizelist[i]] := sizes[sizelist[i]] + 1;
      }
      sizes[0] := 0;
    }

    /** The first code of each length, and the check that its codes fit. */
    method AssignCodes(lens: seq<nat>, sizes: array<nat>) returns (ok: bool, next_code: array<nat>)
      requires Shape() && |lens| <= NSYMS && LensAtMost(lens, MAX_LEN)
      requires sizes.Length == 17 && sizes !in Repr
      requires forall s :: 0 <= s < 17 ==> sizes[s] == Used(lens, |lens|, s)
      modifies firstcode, maxcode, firstsymbol
      ensures ok <==> Kraft(lens, MAX_LEN)
      ensures ok ==> LengthTables(lens, 16)
      ensures next_code.Length == 16 && fresh(next_code)
      ensures ok ==> forall s :: 1 <= s < 16 ==> next_code[s] == FirstCode(lens, s)
    {
      ghost var t := CanonicalTable(lens);
      CanonicalTableSteps(lens);
      CanonicalTableKraft(lens);
      forall s | 1 <= s < 16 ensures t.Step(s, sizes[s]) {
        assert sizes[s] == Used(lens, |lens|, s);
      }
      ok, next_code := AssignByLength(sizes, t);
    }

    method AssignByLength(sizes: array<nat>, ghost t: LengthTable) returns (ok: bool, next_code: array<nat>)
      requires Shape() && sizes.Length == 17 && sizes !in Repr
      requires t.Shape() && t.first[1] == 0 && t.shorter[1] == 0 && t.pow[1] == 2
      requires forall s :: 1 <= s < 16 ==> t.Step(s, sizes[s])
      modifies firstcode, maxcode, firstsymbol
      ensures ok <==> forall s :: 1 <= s < 16 ==> t.end[s] <= t.pow[s]
      ensures next_code.Length == 16 && fresh(next_code)
      ensures ok ==> forall s :: 1 <= s < 16 ==> next_code[s] == t.first[s]
      ensures ok ==> forall s :: 1 <= s < 16 ==> firstcode[s] == t.first[s]
      ensures ok ==> forall s :: 1 <= s < 16 ==> maxcode[s] == t.top[s]
      ensures ok ==> forall s :: 1 <= s < 16 ==> firstsymbol[s] == t.shorter[s]
    {
      hide Shl;
      next_code := new nat[16];
      for i := 1 to 16 {
        assert t.Step(i, sizes[i]);
        if sizes[i] > Shl(1, i) {
          assert t.end[i] > t.pow[i];
          return false, next_code;
        }
      }
      var code, k := 0, 0;
      for i := 1 to 16
        invariant code == t.first[i] <= t.pow[i] && k == t.shorter[i]
        invariant forall s :: 1 <= s < i ==> t.end[s] <= t.pow[s]
        invariant forall s :: 1 <= s < i ==> next_code[s] == t.first[s]
        invariant forall s :: 1 <= s < i ==> firstcode[s] == t.first[s]
        invariant forall s :: 1 <= s < i ==> maxcode[s] == t.top[s]
        invariant forall s :: 1 <= s < i ==> firstsymbol[s] == t.shorter[s]
      {
        assert t.Step(i, sizes[i]);
        ShlBelow16(i);
        next_code[i] := code;
        firstcode[i] := code % 65536;
        firstsymbol[i] := k % 65536;
        code := code + sizes[i];
        if sizes[i] != 0 && code - 1 >= Shl(1, i) {
          assert t.end[i] > t.pow[i];
          return false, next_code;
        }
        maxcode[i] := Shl(code, 16 - i);
        code := 2 * code;
        k := k + sizes[i];
      }
      ok := true;
    }

    /** Enters symbol `i`, whose code is `code`, in the slot tables and in the fast table. */
    method Enter(lens: seq<nat>, i: nat, code: nat)
      requires Shape() && |lens| <= NSYMS && LensAtMost(lens, MAX_LEN) && Kraft(lens, MAX_LEN)
      requires i < |lens| && lens[i] > 0 && code == Code(lens, i)
      requires LengthTables(lens, 16) && SlotTables(lens, i) && FastTable(lens, i)
      modifies fast, size, value
      ensures SlotTables(lens, i + 1) && FastTable(lens, i + 1)
    {
      var s := lens[i];
      var c := code - firstcode[s] + firstsymbol[s];
      EnterSlot(lens, i, c);
      if s <= FAST_BITS {
        FillFast(lens, i, code);
      } else {
        CellsSkip(lens, i);
      }
    }

    method EnterSlot(lens: seq<nat>, i: nat, c: nat)
      requires Shape() && |lens| <= NSYMS && LensAtMost(lens, MAX_LEN)
      requires i < |lens| && lens[i] > 0 && c == Slot(lens, i) && SlotTables(lens, i)
      modifies size, value
      ensures SlotTables(lens, i + 1)
    {
      SlotInRange(lens, i);
      forall k | 0 <= k < i && lens[k] > 0 ensures Slot(lens, k) != c {
        SlotInjective(lens, k, i);
      }
      size[c] := lens[i] % 256;
      value[c] := i % 65536;
    }

    lemma CellsSkip(lens: seq<nat>, i: nat)
      requires Shape() && i < |lens|
      requires FastTable(lens, i) && (lens[i] == 0 || lens[i] > FAST_BITS)
      ensures FastTable(lens, i + 1)
    {
      forall j | 0 <= j < FAST_SIZE ensures CellHolds(lens, i + 1, j, fast[j]) {
        assert CellHolds(lens, i, j, fast[j]);
      }
    }

    method FillFast(lens: seq<nat>, i: nat, code: nat)
      requires Shape() && |lens| <= NSYMS && LensAtMost(lens, MAX_LEN) && Kraft(lens, MAX_LEN)
      requires i < |lens| && 0 < lens[i] <= FAST_BITS && code == Code(lens, i)
      requires FastTable(lens, i)
      modifies fast
      ensures FastTable(lens, i + 1)
    {
      var s := lens[i];
      var fastv := PackFast(s, i);
      CodeFits(lens, MAX_LEN, i);
      var j := Reversal.BitReverse(code, s);
      ReverseBound(code, s);
      FillStride(j, s, fastv);
      forall c | 0 <= c < FAST_SIZE ensures CellHolds(lens, i + 1, c, fast[c]) {
        CellAfter(lens, i, c, old(fast[c]));
      }
    }

    /** Writes `v` in every cell whose low `s` bits are `start`. */
    method FillStride(start: nat, s: nat, v: nat)
      requires Shape() && start < Pow2(s)
      modifies fast
      ensures forall c :: 0 <= c < FAST_SIZE ==> fast[c] == if Low(c, s) == start then v else old(fast[c])
    {
      var j := start;
      forall c: nat | c <= start ensures Low(c, s) == c {
        LowSmall(c, s);
      }
      while j < FAST_SIZE
        invariant Low(j, s) == start
        invariant forall c :: 0 <= c < FAST_SIZE ==>
          fast[c] == if Low(c, s) == start && c < j then v else old(fast[c])
        decreases FAST_SIZE - j
      {
        LowGap(j, s);
        fast[j] := v;
        ShlOne(s);
        j := j + Shl(1, s);
      }
    }
  }

  /** After `j`, the next number with the same low bits is `j + 2^n`. */
  lemma LowGap(j: nat, n: nat)
    ensures Low(j + Pow2(n), n) == Low(j, n)
    ensures forall c: nat :: Low(c, n) == Low(j, n) && j <= c < j + Pow2(n) ==> c == j
  {
    var r, h := Low(j, n), Shr(j, n);
    LowHigh(j, n);
    ShlOne(n);
    ShlAdd(h, 1, n);
    JoinSplit(r, h + 1, n);
    forall c: nat | Low(c, n) == r && j <= c < j + Pow2(n) ensures c == j {
      LowHigh(c, n);
      ShlOrder(h, Shr(c, n), n);
      ShlOrder(h + 1, Shr(c, n), n);
    }
  }

  /** The fast entry: the length above nine bits of symbol; never zero, which marks a miss. */
  method PackFast(s: nat, i: nat) returns (v: nat)
    requires i < 512 && 0 < s <= FAST_BITS
    ensures v == 512 * s + i && v != 0
  {
    hide Or;
    Pow2Values();
    OrDisjoint(i, s, 9);
    assert Shl(s, 9) == 16 * Shl(s, 5) && Shl(s, 5) == 32 * s;
    v := Or(i, Shl(s, 9)) % 65536;
  }

  /** What a cell holds after symbol `i` is entered. */
  lemma CellAfter(lens: seq<nat>, i: nat, c: nat, was: nat)
    requires i < |lens| && 0 < lens[i] <= FAST_BITS && CellHolds(lens, i, c, was)
    ensures CellHolds(lens, i + 1, c, if InCell(lens, i, c) then Packed(lens, i) else was)
  {
    if InCell(lens, i, c) {
    } else if was != 0 {
      var k :| 0 <= k < i && InCell(lens, k, c) && was == Packed(lens, k);
      assert 0 <= k < i + 1;
    }
  }

  /** The canonical code's numbers by length, as the builder computes them one after another. */
  datatype LengthTable = LengthTable(first: seq<nat>, end: seq<nat>, shorter: seq<nat>, top: seq<nat>, pow: seq<nat>) {
    ghost predicate Shape() {
      |first| == |end| == |shorter| == |top| == |pow| == 17
    }

    /** One turn of the builder's loop, at length `s` with `n` symbols of that length. */
    ghost predicate Step(s: nat, n: nat)
      requires Shape() && 1 <= s < 16
    {
      && end[s] == first[s] + n
      && top[s] == Shl(end[s], 16 - s)
      && pow[s] == Shl(1, s) && pow[s + 1] == 2 * pow[s]
      && first[s + 1] == 2 * end[s]
      && shorter[s + 1] == shorter[s] + n
      && shorter[s] <= NSYMS
    }
  }

  lemma ShlBelow16(i: nat)
    requires i <= 15
    ensures Shl(1, i) <= 32768
  {
    ShlOne(i);
    Pow2Mono(i, 15);
    Pow2Values();
  }

  ghost function CanonicalTable(lens: seq<nat>): LengthTable {
    LengthTable(
      seq(17, s requires 0 <= s < 17 => FirstCode(lens, s)),
      seq(17, s requires 0 <= s < 17 => EndCode(lens, s)),
      seq(17, s requires 0 <= s < 17 => ShorterTo(lens, |lens|, s)),
      seq(17, s requires 0 <= s < 17 => Top(lens, s)),
      seq(17, s requires 0 <= s < 17 => Shl(1, s)))
  }

  lemma CanonicalTableSteps(lens: seq<nat>)
    requires |lens| <= NSYMS
    ensures CanonicalTable(lens).first[1] == 0 && CanonicalTable(lens).shorter[1] == 0 && CanonicalTable(lens).pow[1] == 2
    ensures forall s :: 1 <= s < 16 ==> CanonicalTable(lens).Step(s, Used(lens, |lens|, s))
  {
    NoShorterThanOne(lens, |lens|);
    assert EndCode(lens, 0) == 0;
    forall s | 1 <= s < 16 ensures CanonicalTable(lens).Step(s, Used(lens, |lens|, s)) {
      EndDoubles(lens, s);
      ShorterStep(lens, |lens|, s);
    }
  }

  lemma CanonicalTableKraft(lens: seq<nat>)
    requires LensAtMost(lens, MAX_LEN)
    ensures Kraft(lens, MAX_LEN) <==> forall s :: 1 <= s < 16 ==> CanonicalTable(lens).end[s] <= CanonicalTable(lens).pow[s]
  {
    hide Kraft, First, End, Shl, Pow2;
    var e, p := CanonicalTable(lens).end, CanonicalTable(lens).pow;
    KraftIffEndsFit(lens, MAX_LEN);
    EndOfNothing(lens);
    forall s | 1 <= s < 16 ensures e[s] <= p[s] <==> EndCode(lens, s) <= Pow2(s) {
      ShlOne(s);
    }
    if forall s :: 1 <= s < 16 ==> e[s] <= p[s] {
      forall s | 0 <= s <= MAX_LEN ensures EndCode(lens, s) <= Pow2(s) {
        if s > 0 { assert e[s] <= p[s]; }
      }
    }
  }

  lemma EndOfNothing(lens: seq<nat>)
    ensures EndCode(lens, 0) == 0
  {
  }
}
