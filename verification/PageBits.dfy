/** Page-table entries: an aligned address with flag bits below it, put together and taken apart
    with the bitwise operators of paging.c. */
module PageBits {
  import opened Bits

  const PAGE_WIDTH: nat := 0x4000_0000
  const PAGE_SIZE: nat := 0x20_0000
  const TABLE_BYTES: nat := 0x1000
  const PAGE_FLAGS: nat := 0x87
  const TABLE_FLAGS: nat := 0x7

  /** `x & ~m` for a mask `m` of `n` low bits. */
  function ClearLow(x: nat, n: nat): nat {
    Shl(Shr(x, n), n)
  }

  /** The macros `TABLE` and `PAGE`: the address in an entry. */
  function TableOf(e: nat): nat {
    ClearLow(e, 8)
  }

  function PageOf(e: nat): nat {
    ClearLow(e, 21)
  }

  /** The rest of a page entry. */
  function FlagsOf(e: nat): nat {
    Low(e, 21)
  }

  predicate Present(e: nat) {
    And(e, 1) != 0
  }

  /** What the flags of a page entry come to: an ordinary page and one that the caches leave alone. */
  const CACHED: nat := 0x87
  const UNCACHED: nat := 0x97

  /** The entries that the code writes. */
  function PageEntry(address: nat, flags: nat): nat {
    Or(Or(address, PAGE_FLAGS), flags)
  }

  function TableEntry(ptr: nat): nat {
    Or(ptr, TABLE_FLAGS)
  }

  // ----- the operators -----

  lemma {:induction false} OrHalf(x: nat, y: nat)
    ensures Or(x, y) / 2 == Or(x / 2, y / 2)
    ensures Or(x, y) % 2 == if x % 2 == 1 || y % 2 == 1 then 1 else 0
  {
  }

  lemma {:induction false} OrShr(x: nat, y: nat, n: nat)
    ensures Shr(Or(x, y), n) == Or(Shr(x, n), Shr(y, n))
    decreases n
  {
    if n > 0 {
      OrHalf(x, y);
      OrShr(x / 2, y / 2, n - 1);
    }
  }

  lemma {:induction false} OrComm(x: nat, y: nat)
    ensures Or(x, y) == Or(y, x)
  {
    if x > 0 && y > 0 {
      OrComm(x / 2, y / 2);
    }
  }

  lemma OrZero(x: nat)
    ensures Or(x, 0) == x
  {
  }

  lemma AndOne(x: nat)
    ensures And(x, 1) == x % 2
  {
    if x > 0 {
      assert And(x / 2, 0) == 0;
    }
  }

  lemma AndThree(x: nat)
    ensures And(x, 3) == 0 <==> x % 4 == 0
  {
    if x > 0 {
      AndOne(x / 2);
      assert 3 / 2 == 1;
    }
  }

  // ----- shifts as arithmetic -----

  lemma Sizes()
    ensures Pow2(8) == 256 && Pow2(12) == TABLE_BYTES && Pow2(21) == PAGE_SIZE
  {
    Pow2Values();
    assert Pow2(17) == 0x2_0000;
    assert Pow2(21) == 16 * Pow2(17);
  }

  /** An aligned address is its own page. */
  lemma ClearLowAligned(k: nat, n: nat, size: nat)
    requires size == Pow2(n)
    ensures ClearLow(k * size, n) == k * size && Shr(k * size, n) == k
  {
    hide Shl, Shr, Low, Pow2;
    ShlMul(k, n);
    JoinSplit(0, k, n);
  }

  /** The masks cut off the low eight bits and the offset in a 2 MiB page. */
  lemma MasksCut(e: nat)
    ensures TableOf(e) == e - e % 0x100 && PageOf(e) == e - e % 0x20_0000 && FlagsOf(e) == e % 0x20_0000
  {
    hide Shl, Shr, Low, Pow2;
    Sizes();
    ShiftsDivide(e, 8, 0x100);
    ShlMul(Shr(e, 8), 8);
    ShiftsDivide(e, 21, 0x20_0000);
    ShlMul(Shr(e, 21), 21);
  }

  /** Small flags leave the address of an entry alone. */
  lemma FlagsBelow(address: nat, flags: nat, n: nat)
    requires flags < Pow2(n)
    ensures Shr(Or(address, flags), n) == Shr(address, n)
  {
    hide Or, Shr, Pow2;
    OrShr(address, flags, n);
    LowSmall(flags, n);
    OrZero(Shr(address, n));
  }

  // ----- entries -----

  /** User mode may use what the entry maps. */
  predicate ForUser(e: nat) {
    And(e, 4) != 0
  }

  /** Every entry that the code writes is for user mode. */
  lemma EntriesAreForUser(address: nat, flags: nat, ptr: nat)
    ensures ForUser(PageEntry(address, flags)) && ForUser(TableEntry(ptr))
  {
    hide And, Or;
    AndFour(PageEntry(address, flags));
    AndFour(TableEntry(ptr));
    OrBitTwo(address, PAGE_FLAGS);
    OrBitTwo(Or(address, PAGE_FLAGS), flags);
    OrBitTwo(ptr, TABLE_FLAGS);
  }

  lemma AndFour(x: nat)
    ensures And(x, 4) != 0 <==> x / 2 / 2 % 2 == 1
  {
    if x > 1 {
      AndOne(x / 2 / 2);
      assert And(x, 4) == 2 * And(x / 2, 2) && And(x / 2, 2) == 2 * And(x / 2 / 2, 1);
    }
  }

  lemma OrBitTwo(x: nat, y: nat)
    ensures Or(x, y) / 2 / 2 % 2 == if x / 2 / 2 % 2 == 1 || y / 2 / 2 % 2 == 1 then 1 else 0
  {
    hide Or;
    OrHalf(x, y);
    OrHalf(x / 2, y / 2);
    OrHalf(x / 2 / 2, y / 2 / 2);
  }

  lemma {:induction false} OrLow(x: nat, y: nat, n: nat)
    ensures Low(Or(x, y), n) == Or(Low(x, n), Low(y, n))
    decreases n
  {
    if n > 0 {
      OrHalf(x, y);
      OrLow(x / 2, y / 2, n - 1);
      OrHalf(Low(x, n), Low(y, n));
    }
  }

  /** Bit by bit, a page entry: the address and the flags, and the bits for present, writable, user mode
      and page size. */
  ghost predicate IsPageEntry(e: nat, address: nat, flags: nat) {
    forall k :: 0 <= k ==>
      (BitAt(e, k) == 1 <==> BitAt(address, k) == 1 || BitAt(flags, k) == 1 || k == 0 || k == 1 || k == 2 || k == 7)
  }

  /** And one that points to a table. */
  ghost predicate IsTableEntry(e: nat, ptr: nat) {
    forall k :: 0 <= k ==> (BitAt(e, k) == 1 <==> BitAt(ptr, k) == 1 || k == 0 || k == 1 || k == 2)
  }

  lemma EntryBits(address: nat, flags: nat)
    ensures IsPageEntry(PageEntry(address, flags), address, flags) && IsTableEntry(TableEntry(address), address)
  {
    hide Or, BitAt;
    forall k | 0 <= k
      ensures BitAt(PageEntry(address, flags), k) == 1 <==>
        BitAt(address, k) == 1 || BitAt(flags, k) == 1 || k == 0 || k == 1 || k == 2 || k == 7
      ensures BitAt(TableEntry(address), k) == 1 <==> BitAt(address, k) == 1 || k == 0 || k == 1 || k == 2
    {
      BitAtOr(Or(address, PAGE_FLAGS), flags, k);
      BitAtOr(address, PAGE_FLAGS, k);
      BitAtOr(address, TABLE_FLAGS, k);
      FlagBits(k);
    }
  }

  lemma FlagBits(k: nat)
    ensures BitAt(PAGE_FLAGS, k) == 1 <==> k == 0 || k == 1 || k == 2 || k == 7
    ensures BitAt(TABLE_FLAGS, k) == 1 <==> k == 0 || k == 1 || k == 2
  {
    if k >= 8 {
      Pow2Values();
      BitAtHigh(PAGE_FLAGS, 8, k);
      BitAtHigh(TABLE_FLAGS, 8, k);
    } else if k >= 4 {
      BitAtShr(PAGE_FLAGS, 4, k - 4);
      BitAtShr(TABLE_FLAGS, 4, k - 4);
      assert Shr(PAGE_FLAGS, 4) == 8 && Shr(TABLE_FLAGS, 4) == 0;
      BitAtZero(k - 4);
      OneBit(k - 4);
    } else {
      BitAtLow(PAGE_FLAGS, 4, k);
      BitAtLow(TABLE_FLAGS, 4, k);
      assert Low(PAGE_FLAGS, 4) == 7 && Low(TABLE_FLAGS, 4) == 7;
      OneBit(k);
    }
  }

  lemma OneBit(k: nat)
    requires k < 4
    ensures (BitAt(7, k) == 1 <==> k < 3) && (BitAt(8, k) == 1 <==> k == 3)
  {
    if k == 0 {
    } else if k == 1 {
    } else if k == 2 {
    } else {
    }
  }

  /** The flags that the kernel asks for. */
  lemma KernelFlags()
    ensures Or(PAGE_FLAGS, 0) == Or(PAGE_FLAGS, 7) == CACHED && Or(PAGE_FLAGS, 16) == UNCACHED
  {
  }

  /** A page entry gives its address and its flags back, and is present. */
  lemma PageEntryIs(address: nat, flags: nat)
    requires address % PAGE_SIZE == 0 && flags < PAGE_SIZE
    ensures PageOf(PageEntry(address, flags)) == address && Present(PageEntry(address, flags))
    ensures FlagsOf(PageEntry(address, flags)) == Or(PAGE_FLAGS, flags)
  {
    hide Or, Shr, Shl, Low, Pow2, And;
    EntryFlags(address, flags);
    Sizes();
    var k := address / PAGE_SIZE;
    ClearLowAligned(k, 21, PAGE_SIZE);
    FlagsBelow(address, PAGE_FLAGS, 21);
    FlagsBelow(Or(address, PAGE_FLAGS), flags, 21);
    OrHalf(address, PAGE_FLAGS);
    OrHalf(Or(address, PAGE_FLAGS), flags);
    AndOne(PageEntry(address, flags));
  }

  lemma EntryFlags(address: nat, flags: nat)
    requires address % PAGE_SIZE == 0 && flags < PAGE_SIZE
    ensures FlagsOf(PageEntry(address, flags)) == Or(PAGE_FLAGS, flags)
  {
    hide Or, Shr, Shl, Low, Pow2;
    Sizes();
    var k := address / PAGE_SIZE;
    ShlMul(k, 21);
    JoinSplit(0, k, 21);
    OrLow(Or(address, PAGE_FLAGS), flags, 21);
    OrLow(address, PAGE_FLAGS, 21);
    LowSmall(PAGE_FLAGS, 21);
    LowSmall(flags, 21);
    OrComm(0, PAGE_FLAGS);
    OrZero(PAGE_FLAGS);
  }

  /** A table entry gives its table back, and is present. */
  lemma TableEntryIs(ptr: nat)
    requires ptr % TABLE_BYTES == 0
    ensures TableOf(TableEntry(ptr)) == ptr && Present(TableEntry(ptr)) && And(TableEntry(ptr), 3) != 0
  {
    hide Or, Shr, Shl, Pow2, And;
    Sizes();
    var k := CoarserUnits(ptr);
    ClearLowAligned(k, 8, 256);
    FlagsBelow(ptr, TABLE_FLAGS, 8);
    OrHalf(ptr, TABLE_FLAGS);
    AndOne(TableEntry(ptr));
    OddHasLowBits(TableEntry(ptr));
  }

  lemma CoarserUnits(ptr: nat) returns (k: nat)
    requires ptr % TABLE_BYTES == 0
    ensures ptr == k * 256
  {
    k := 16 * (ptr / TABLE_BYTES);
  }

  lemma OddHasLowBits(e: nat)
    requires e % 2 == 1
    ensures And(e, 3) != 0
  {
    AndThree(e);
  }

  /** `page | r` for an offset `r` inside the page is their sum. */
  lemma PagePlusOffset(e: nat, r: nat)
    requires r < PAGE_SIZE
    ensures Or(PageOf(e), r) == PageOf(e) + r
  {
    hide Or, Shr, Shl, Pow2;
    Sizes();
    OrComm(PageOf(e), r);
    OrDisjoint(r, Shr(e, 21), 21);
  }
}
