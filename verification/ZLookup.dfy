/** What a lookup in the built tables finds: the fast table answers for codes of at most nine
    bits, the preshifted `maxcode` search for longer ones. */
module ZLookup {
  import opened Bits
  import opened BitStream
  import opened Canonical
  import opened Deflate
  import ZBuild
  import opened ZTables

  /** `x & ((1 << n) - 1)` */
  method Mask(x: nat, n: nat) returns (r: nat)
    ensures r == Low(x, n)
  {
    ShlOne(n);
    AndMask(x, n);
    r := And(x, Shl(1, n) - 1);
  }

  /** `x | (b << n)` above a value of `n` bits */
  method OrAbove(x: nat, b: nat, n: nat) returns (r: nat)
    requires x < Pow2(n)
    ensures r == x + Shl(b, n)
  {
    OrDisjoint(x, b, n);
    r := Or(x, Shl(b, n));
  }

  /** A fast entry holds its length above nine bits of symbol. */
  method UnpackFast(b: nat) returns (s: nat, sym: nat)
    ensures s == b / 512 && sym == b % 512
  {
    Pow2Values();
    LowHigh(b, 9);
    assert Shl(Shr(b, 9), 9) == 16 * Shl(Shr(b, 9), 5) && Shl(Shr(b, 9), 5) == 32 * Shr(b, 9);
    s := Shr(b, 9);
    sym := Mask(b, 9);
  }

  /** The next nine stream bits index the cell of every short code that starts there. */
  lemma CellIffCodeAt(lens: seq<nat>, i: nat, data: seq<byte>, pos: nat)
    requires LensAtMost(lens, MAX_LEN) && Kraft(lens, MAX_LEN)
    requires i < |lens| && 0 < lens[i] <= FAST_BITS
    ensures InCell(lens, i, LE(data, pos, FAST_BITS)) <==> CodeAt(lens, i, data, pos)
  {
    var s := lens[i];
    CodeFits(lens, MAX_LEN, i);
    LETake(data, pos, s, FAST_BITS - s);
    LEBound(data, pos, s);
    ReverseLE(data, pos, s);
    ReverseTwice(Code(lens, i), s);
    ReverseTwice(LE(data, pos, s), s);
  }

  /** A nonzero fast entry is the symbol that starts there, with its length. */
  lemma FastFinds(lens: seq<nat>, data: seq<byte>, pos: nat, v: nat)
    requires |lens| <= NSYMS && LensAtMost(lens, MAX_LEN) && Kraft(lens, MAX_LEN)
    requires v != 0 && CellHolds(lens, |lens|, LE(data, pos, FAST_BITS), v)
    ensures v % 512 < |lens| && lens[v % 512] == v / 512 && CodeAt(lens, v % 512, data, pos)
  {
    var i :| 0 <= i < |lens| && InCell(lens, i, LE(data, pos, FAST_BITS)) && v == Packed(lens, i);
    CellIffCodeAt(lens, i, data, pos);
    assert v / 512 == lens[i] && v % 512 == i;
  }

  /** A zero fast entry means that no short code starts there, so the window is past them all. */
  lemma FastMisses(lens: seq<nat>, data: seq<byte>, pos: nat)
    requires |lens| <= NSYMS && LensAtMost(lens, MAX_LEN) && Kraft(lens, MAX_LEN)
    requires CellHolds(lens, |lens|, LE(data, pos, FAST_BITS), 0)
    ensures BE(data, pos, MAX_BITS) >= Top(lens, FAST_BITS)
  {
    var w := BE(data, pos, MAX_BITS);
    if w < Top(lens, FAST_BITS) {
      var i := LedBelow(lens, FAST_BITS, w);
      CodeAtIffLeads(lens, i, data, pos);
      CellIffCodeAt(lens, i, data, pos);
    }
  }

  /** A window below `Top(n)` is led by a code of at most `n` bits. */
  lemma {:induction false} LedBelow(lens: seq<nat>, n: nat, w: nat) returns (i: nat)
    requires 0 < n <= MAX_BITS && LensAtMost(lens, MAX_BITS) && w < Top(lens, n)
    ensures i < |lens| && 0 < lens[i] <= n && Leads(lens, i, w)
  {
    if n > 1 && w < Top(lens, n - 1) {
      i := LedBelow(lens, n - 1, w);
    } else {
      assert EndCode(lens, 0) == 0;
      ShrZero(MAX_BITS);
      i := RangeIsLed(lens, n, w);
    }
  }

  /** A window between two tops is led by the symbol in the slot the slow path computes. */
  lemma SlowFinds(lens: seq<nat>, data: seq<byte>, pos: nat, s: nat) returns (i: nat)
    requires LensAtMost(lens, MAX_LEN) && 0 < s <= MAX_LEN
    requires Top(lens, s - 1) <= BE(data, pos, MAX_BITS) < Top(lens, s)
    ensures i < |lens| && lens[i] == s && CodeAt(lens, i, data, pos)
    ensures Slot(lens, i) == Shr(BE(data, pos, MAX_BITS), MAX_BITS - s) - FirstCode(lens, s) + ShorterTo(lens, |lens|, s)
  {
    i := RangeIsLed(lens, s, BE(data, pos, MAX_BITS));
    CodeAtIffLeads(lens, i, data, pos);
  }

  /** A window past every top is led by nothing. */
  lemma NoneLeads(lens: seq<nat>, data: seq<byte>, pos: nat)
    requires LensAtMost(lens, MAX_LEN)
    requires BE(data, pos, MAX_BITS) >= Top(lens, MAX_LEN)
    ensures SymbolAt(lens, data, pos) == -1
  {
    var i := SymbolAt(lens, data, pos);
    if i >= 0 {
      CodeAtIffLeads(lens, i, data, pos);
      LeadsInRange(lens, i, BE(data, pos, MAX_BITS));
      TopMono(lens, lens[i], MAX_LEN);
    }
  }

  /** Looks the next nine stream bits up in the fast table.  Length zero means a miss. */
  method FastLookup(z: ZBuild.ZHuffman, ghost lens: seq<nat>, ghost data: seq<byte>, ghost pos: nat, cell: nat)
    returns (s: nat, sym: nat)
    requires z.Built(lens) && cell == LE(data, pos, FAST_BITS) < FAST_SIZE
    ensures s > 0 ==> sym < |lens| && sym == SymbolAt(lens, data, pos) && s == lens[sym] <= MAX_LEN
    ensures s == 0 ==> BE(data, pos, MAX_BITS) >= Top(lens, FAST_BITS)
  {
    var b := z.fast[cell];
    assert CellHolds(lens, |lens|, cell, b);
    if b != 0 {
      FastFinds(lens, data, pos, b);
      s, sym := UnpackFast(b);
      SymbolAtUnique(lens, sym, data, pos);
    } else {
      FastMisses(lens, data, pos);
      s, sym := 0, 0;
    }
  }

  /** Finds the length of the next codeword by comparing the sixteen-bit window with the
      preshifted ends of each length.  Length zero means that no codeword starts there.  The
      bounds and size checks on the slot never fail. */
  method SlowLookup(z: ZBuild.ZHuffman, ghost lens: seq<nat>, ghost data: seq<byte>, ghost pos: nat, k: nat)
    returns (s: nat, sym: nat)
    requires z.Built(lens) && k == BE(data, pos, MAX_BITS) < 0x10000
    requires k >= Top(lens, FAST_BITS)
    ensures s > 0 ==> sym < |lens| && sym == SymbolAt(lens, data, pos) && s == lens[sym] <= MAX_LEN
    ensures s == 0 ==> SymbolAt(lens, data, pos) == -1
  {
    hide BE, SymbolAt, Top, Kraft, ZBuild.ZHuffman.FastTable;
    s := FAST_BITS + 1;
    while k >= z.maxcode[s]
      invariant FAST_BITS < s <= 16
      invariant Top(lens, s - 1) <= k
      decreases 16 - s
    {
      s := s + 1;
    }
    if s >= 16 {
      NoneLeads(lens, data, pos);
      return 0, 0;
    }
    ghost var i := SlowFinds(lens, data, pos, s);
    SlotInRange(lens, i);
    SymbolAtUnique(lens, i, data, pos);
    var b := Shr(k, 16 - s) - z.firstcode[s] + z.firstsymbol[s];
    assert b == Slot(lens, i);
    if b >= NSYMS {
      assert false;
    }
    if z.size[b] != s {
      assert false;
    }
    sym := z.value[b];
  }
}
