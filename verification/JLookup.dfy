/** What a lookup in the built JPEG tables finds: the nine-bit table first, then the search over
    preshifted ends. */
module JLookup {
  import opened Bits
  import opened Canonical
  import opened ZTables
  import ZLookup
  import opened JTables
  import JBuild

  /** The symbol whose codeword leads the sixteen-bit window, or -1. */
  ghost function SymbolOf(lens: seq<nat>, w: nat): (i: int)
    requires LensAtMost(lens, MAX_BITS)
    ensures i == -1 || (0 <= i < |lens| && Leads(lens, i, w))
    ensures i == -1 ==> forall k :: 0 <= k < |lens| ==> !Leads(lens, k, w)
  {
    if exists k :: 0 <= k < |lens| && Leads(lens, k, w)
    then var k :| 0 <= k < |lens| && Leads(lens, k, w); k
    else -1
  }

  lemma SymbolOfIs(lens: seq<nat>, i: nat, w: nat)
    requires LensAtMost(lens, MAX_BITS) && i < |lens| && Leads(lens, i, w)
    ensures SymbolOf(lens, w) == i
  {
    LeadsUnique(lens, i, SymbolOf(lens, w), w);
  }

  /** The window is led by a short code whose symbol index is the miss mark of the fast table.
      Only a full table of 256 symbols has such a symbol. */
  ghost predicate Collides(lens: seq<nat>, w: nat)
    requires LensAtMost(lens, MAX_BITS)
  {
    SymbolOf(lens, w) == NOT_FAST && lens[NOT_FAST] <= FAST_BITS
  }

  /** No symbol of the table collides with the miss mark of the fast table. */
  ghost predicate Usable(lens: seq<nat>) {
    |lens| > NOT_FAST ==> lens[NOT_FAST] > FAST_BITS
  }

  /** That is a condition on the lengths alone: they are usable exactly when no window collides. */
  lemma UsableIff(lens: seq<nat>)
    requires LensAtMost(lens, MAX_BITS) && Kraft(lens, MAX_BITS) && Positive(lens)
    ensures Usable(lens) <==> forall w :: 0 <= w < 65536 ==> !Collides(lens, w)
  {
    hide SymbolOf, Kraft, Code;
    if !Usable(lens) {
      var w := CollidingWindow(lens);
      assert Collides(lens, w);
    }
  }

  /** The code of the unusable symbol, continued by zeros. */
  lemma CollidingWindow(lens: seq<nat>) returns (w: nat)
    requires LensAtMost(lens, MAX_BITS) && Kraft(lens, MAX_BITS) && Positive(lens) && !Usable(lens)
    ensures w < 65536 && Collides(lens, w)
  {
    hide SymbolOf, Kraft, Code, Shl, Shr, Pow2;
    var s, c := lens[NOT_FAST], Code(lens, NOT_FAST);
    CodeFits(lens, MAX_BITS, NOT_FAST);
    w := Shl(c, MAX_BITS - s);
    JoinSplit(0, c, MAX_BITS - s);
    ShlOrder(Pow2(s), c, MAX_BITS - s);
    ShlOne(s);
    ShlShl(1, s, MAX_BITS - s);
    ShlOne(MAX_BITS);
    Pow2Values();
    SymbolOfIs(lens, NOT_FAST, w);
  }

  lemma EntryHits(lens: seq<nat>, w: nat, v: nat)
    requires LensAtMost(lens, MAX_BITS) && v != NOT_FAST
    requires JCell(lens, |lens|, Shr(w, MAX_BITS - FAST_BITS), v)
    ensures v < |lens| && SymbolOf(lens, w) == v && 0 < lens[v] <= FAST_BITS
  {
    hide Code, SymbolOf;
    CellLeadsWindow(lens, v, w);
    SymbolOfIs(lens, v, w);
  }

  lemma EntryMisses(lens: seq<nat>, w: nat)
    requires LensAtMost(lens, MAX_BITS) && JCell(lens, |lens|, Shr(w, MAX_BITS - FAST_BITS), NOT_FAST)
    ensures w < Top(lens, FAST_BITS) <==> Collides(lens, w)
  {
    hide Code, Top;
    if w < Top(lens, FAST_BITS) {
      var i := ZLookup.LedBelow(lens, FAST_BITS, w);
      CellLeadsWindow(lens, i, w);
      SymbolOfIs(lens, i, w);
    }
    if Collides(lens, w) {
      LeadsInRange(lens, NOT_FAST, w);
      TopMono(lens, lens[NOT_FAST], FAST_BITS);
    }
  }

  /** A window between two tops is led by the symbol at the offset the search computes. */
  lemma SearchFinds(lens: seq<nat>, s: nat, w: nat)
    requires Sorted(lens) && Positive(lens) && LensAtMost(lens, MAX_BITS) && 0 < s <= MAX_BITS
    requires Top(lens, s - 1) <= w < Top(lens, s)
    ensures var c := Shr(w, MAX_BITS - s) - FirstCode(lens, s) + ShorterTo(lens, |lens|, s);
      0 <= c < |lens| && SymbolOf(lens, w) == c && lens[c] == s
  {
    hide Top, Code;
    var i := RangeIsLed(lens, s, w);
    SymbolOfIs(lens, i, w);
    SlotIsIndex(lens, i);
  }

  lemma NothingLeads(lens: seq<nat>, w: nat)
    requires LensAtMost(lens, MAX_BITS) && w >= Top(lens, MAX_BITS)
    ensures SymbolOf(lens, w) == -1
  {
    hide Top, Code;
    var i := SymbolOf(lens, w);
    if i >= 0 {
      LeadsInRange(lens, i, w);
      TopMono(lens, lens[i], MAX_BITS);
    }
  }

  /** What a collision is taken for: the symbol of a ten-bit code, of which there is none. */
  ghost function Misread(lens: seq<nat>, bits: nat): int {
    var i := bits + ShorterTo(lens, |lens|, FAST_BITS + 1) - FirstCode(lens, FAST_BITS + 1);
    if 0 <= i < 256 then i else -1
  }

  /** Symbol index and length from the top of the code buffer.  `c` is -1 if the search runs off
      the last length or the index falls outside the table.

      It answers correctly exactly when the leading symbol is not the colliding one; on a
      collision it takes ten bits whatever the code's length. */
  method Lookup(h: JBuild.JHuffman, ghost lens: seq<nat>, code_buffer: nat) returns (c: int, k: nat)
    requires h.Built(lens) && code_buffer < Pow2(32)
    ensures var w := Shr(code_buffer, 16);
      var i := SymbolOf(lens, w);
      !Collides(lens, w) ==> c == i && (i >= 0 ==> k == lens[i]) && (i < 0 ==> k == 17)
    ensures Collides(lens, Shr(code_buffer, 16)) ==> k == 10 && c == Misread(lens, Shr(code_buffer, 22))
    ensures c < 256
  {
    hide Kraft, Code, Top, Shr, SymbolOf, FirstCode, ShorterTo;
    ghost var w := Shr(code_buffer, 16);
    WindowParts(code_buffer);
    var x := Shr(code_buffer, 32 - FAST_BITS);
    c := h.fast[x];
    assert JCell(lens, |lens|, x, c);
    if c < NOT_FAST {
      EntryHits(lens, w, c);
      k := h.size[c];
      return;
    }
    EntryMisses(lens, w);
    var temp := Shr(code_buffer, 16);
    k := FAST_BITS + 1;
    TopMono(lens, FAST_BITS, FAST_BITS + 1);
    while temp >= h.maxcode[k]
      invariant FAST_BITS < k <= 17
      invariant Collides(lens, w) ==> k == FAST_BITS + 1
      invariant !Collides(lens, w) ==> Top(lens, k - 1) <= w
      decreases 17 - k
    {
      k := k + 1;
    }
    if k == 17 {
      NothingLeads(lens, w);
      return -1, k;
    }
    c := Shr(code_buffer, 32 - k) + h.delta[k];
    if !Collides(lens, w) {
      SearchFinds(lens, k, w);
      ShrShr(code_buffer, 16, 16 - k);
    }
    if c < 0 || c >= 256 {
      c := -1;
    }
  }

  lemma WindowParts(code_buffer: nat)
    requires code_buffer < Pow2(32)
    ensures Shr(code_buffer, 16) < 65536 && Shr(code_buffer, 32 - FAST_BITS) < FAST_SIZE
    ensures Shr(code_buffer, 32 - FAST_BITS) == Shr(Shr(code_buffer, 16), MAX_BITS - FAST_BITS)
  {
    hide Shr, Shl, Pow2;
    ShrShr(code_buffer, 16, MAX_BITS - FAST_BITS);
    TopBitsBound(code_buffer, 16);
    TopBitsBound(code_buffer, FAST_BITS);
    Pow2Values();
  }

  /** The top `n` of 32 bits are below 2^n. */
  lemma TopBitsBound(x: nat, n: nat)
    requires x < Pow2(32) && n <= 32
    ensures Shr(x, 32 - n) < Pow2(n)
  {
    hide Shr, Shl, Pow2;
    ShlOne(n);
    ShlOne(32);
    ShlShl(1, n, 32 - n);
    ShrRange(x, 32 - n, 0, Pow2(n));
    ShrZero(32 - n);
  }
}
