/** What kernel.c maps while it starts, and where every address leads in the end. */
module Kernel {
  import opened Bits
  import opened PageBits
  import opened Paging
  import Frames

  const USER_BASE: nat := 0x40_0000
  const USER_STACK: nat := 0x80_0000
  const USER_FLAGS: nat := 7
  const DEVICE_FLAGS: nat := 16
  const EARLY_HEAP: nat := 0x27_0000
  const IMAGE: nat := 0xA0_0000
  const LOCAL_APIC: nat := 0xFEE0_0000
  const HEAP_GIGABYTE: nat := 7
  const BOOT_GIGABYTE: nat := 8
  const ALIAS_GIGABYTE: nat := 10
  const ALIASES: nat := 5

  // ----- layouts -----

  /** What a 2 MiB window shows, and the flags of its entry. */
  datatype Page = Page(base: nat, flags: nat)

  /** Where gigabyte `p` is mapped to, `bases[p]`, or a negative number if nowhere; and the 2 MiB windows
      that lead elsewhere, by their number. */
  datatype Layout = Layout(bases: seq<int>, windows: map<nat, Page>) {
    predicate Good() {
      && |bases| == ENTRIES
      && forall w :: w in windows ==> w / ENTRIES < ENTRIES && bases[w / ENTRIES] >= 0
    }

    function Target(x: nat): Phys
      requires Good() && x < SPACE
    {
      if x / PAGE_SIZE in windows then Mapped(windows[x / PAGE_SIZE].base + x % PAGE_SIZE, windows[x / PAGE_SIZE].flags)
      else if bases[x / PAGE_WIDTH] < 0 then Unmapped
      else Mapped(bases[x / PAGE_WIDTH] + x % PAGE_WIDTH, CACHED)
    }

    /** A mapped gigabyte keeps its mapping. */
    function Assign(p: nat, address: nat): (l: Layout)
      requires Good() && p < ENTRIES
      ensures l.Good()
    {
      if bases[p] < 0 then Layout(bases[p := address], windows) else this
    }
  }

  /** The tables lead every address where the layout says, except in gigabytes whose table is lost. */
  ghost predicate Maps(p3: seq<nat>, mem: map<nat, nat>, lost: set<nat>, l: Layout) {
    && |p3| == ENTRIES && l.Good()
    && (forall p :: 0 <= p < ENTRIES ==> if l.bases[p] < 0 then And(p3[p], 3) == 0 else And(p3[p], 3) != 0 && Present(p3[p]))
    && forall x :: 0 <= x < SPACE && x / PAGE_WIDTH !in lost ==> Walk(p3, mem, x) == l.Target(x)
  }

  method MapGigabyte(pager: Pager, ghost l: Layout, p: nat, address: nat) returns (ghost next: Layout)
    requires pager.Valid() && Maps(pager.p3[..], pager.mem, pager.lost, l) && p < ENTRIES
    requires address % PAGE_SIZE == 0 && address + PAGE_WIDTH <= U64_LIMIT && pager.malloc_start + 2 * TABLE_BYTES <= pager.top
    modifies pager`mem, pager`malloc_start, pager`blocks, pager.p3
    ensures pager.Valid() && old(pager.malloc_start) <= pager.malloc_start <= old(pager.malloc_start) + 2 * TABLE_BYTES
    ensures next == l.Assign(p, address) && Maps(pager.p3[..], pager.mem, pager.lost, next)
    ensures old(pager.Settled()) || l.bases[p] < 0 ==> pager.Settled()
    ensures if l.bases[p] >= 0 then pager.p3[..] == old(pager.p3[..]) && pager.malloc_start == old(pager.malloc_start)
      else pager.p3[..] == old(pager.p3[..])[p := pager.p3[p]] && TableOf(pager.p3[p]) == Rounded(old(pager.malloc_start), TABLE_BYTES)
  {
    hide Walk, And, Or, Pager.Valid, Pager.Settled, Present, TableOf, Rounded, IsPageEntry, IsTableEntry;
    KernelFlags();
    Entries(pager);
    ghost var p30, mem0 := pager.p3[..], pager.mem;
    pager.AllocatePage(p, address, USER_FLAGS);
    next := l.Assign(p, address);
    Entries(pager);
    if l.bases[p] < 0 {
      MappedGigabyte(p30, mem0, pager.p3[..], pager.mem, pager.lost, l, p, address);
    }
  }

  lemma MappedGigabyte(p30: seq<nat>, mem0: map<nat, nat>, p3: seq<nat>, mem: map<nat, nat>, lost: set<nat>,
                       l: Layout, p: nat, address: nat)
    requires |p3| == ENTRIES && Maps(p30, mem0, lost, l) && p < ENTRIES && l.bases[p] < 0
    requires p3 == p30[p := p3[p]] && And(p3[p], 3) != 0 && Present(p3[p])
    requires forall x :: 0 <= x < SPACE && x / PAGE_WIDTH !in lost ==>
      Walk(p3, mem, x) == if x / PAGE_WIDTH == p then Mapped(address + x % PAGE_WIDTH, CACHED) else Walk(p30, mem0, x)
    ensures Maps(p3, mem, lost, l.Assign(p, address))
  {
    hide Walk, And, Present;
    forall x | 0 <= x < SPACE && x / PAGE_WIDTH !in lost ensures Walk(p3, mem, x) == l.Assign(p, address).Target(x) {
      WindowOf(x);
    }
  }

  /** Which gigabyte a window lies in. */
  lemma WindowOf(x: nat)
    ensures x / PAGE_SIZE / ENTRIES == x / PAGE_WIDTH
  {
    var w, r := x / PAGE_SIZE, x % PAGE_SIZE;
    var p, k := w / ENTRIES, w % ENTRIES;
    assert x == PAGE_WIDTH * p + (PAGE_SIZE * k + r);
    DivModUnique(x, PAGE_WIDTH, p, PAGE_SIZE * k + r);
  }

  method RemapWindow(pager: Pager, ghost l: Layout, to: nat, from: nat, flags: nat) returns (ghost next: Layout)
    requires pager.Valid() && Maps(pager.p3[..], pager.mem, pager.lost, l)
    requires to < SPACE && l.bases[to / PAGE_WIDTH] >= 0 && to / PAGE_WIDTH !in pager.lost && from % PAGE_SIZE == 0 && flags < PAGE_SIZE
    modifies pager`mem
    ensures pager.Valid() && next == Layout(l.bases, l.windows[to / PAGE_SIZE := Page(from, Or(PAGE_FLAGS, flags))])
      && Maps(pager.p3[..], pager.mem, pager.lost, next)
  {
    hide Walk, And, Or, Pager.Valid, Present, IsPageEntry;
    Split(to);
    WindowOf(to);
    pager.MemoryRemap(to, from, flags);
    next := Layout(l.bases, l.windows[to / PAGE_SIZE := Page(from, Or(PAGE_FLAGS, flags))]);
  }

  lemma Entries(pager: Pager)
    requires pager.Valid()
    ensures pager.p3.Length == ENTRIES && 0 < pager.malloc_start <= pager.top
  {
  }

  // ----- the start -----

  /** What the build, the machine and the boot loader decide: where `p2_table` is in the kernel's image,
      and where the image ends; which heap the memory map gives; the gigabyte of the framebuffer; whether
      there is an ACPI table of the APICs and where the I/O APIC is; and how much is allocated between
      the mappings. */
  datatype Machine = Machine(p2: nat, end: nat, start: nat, fb: nat, madt: bool, io: nat, used0: nat, used1: nat, used2: nat) {
    /** The image begins at 10 MiB and lies in the first gigabyte, and so does the heap, before the image
        or after it, without running into it. */
    predicate Good() {
      && p2 % TABLE_BYTES == 0 && IMAGE <= p2 && p2 + TABLE_BYTES <= end <= PAGE_WIDTH
      && 0 < start && (start < IMAGE || end <= start) && HeapEnd() <= Top()
      && fb < ENTRIES && io % PAGE_SIZE == 0
    }

    /** Where the memory ends that the heap can use. */
    function Top(): nat {
      if start < IMAGE then IMAGE else PAGE_WIDTH
    }

    /** How far the heap gets before it moves, and before the windows of the APICs are taken from it. */
    function Moved(): nat {
      start + used0 + 18 * TABLE_BYTES
    }

    function HeapEnd(): nat {
      Rounded(Moved() + used1, PAGE_SIZE) + 2 * PAGE_SIZE + used2 + 10 * TABLE_BYTES
    }

    /** The tables that it holds are not in a user window. */
    predicate Aside() {
      (Moved() <= USER_BASE || USER_BASE + PAGE_SIZE <= start) && (Moved() <= USER_STACK || USER_STACK + PAGE_SIZE <= start)
    }

    /** The heap is given out from its new start over the table of gigabyte 8. */
    predicate Overlaps() {
      start <= EARLY_HEAP
    }

    /** The first gigabyte to get a table in the new heap. */
    function First(): nat {
      if fb == 0 || fb == BOOT_GIGABYTE then 1 else fb
    }

    /** Where a table can be: in the image, where the heap was first, or where it is until it moves. */
    predicate Holds(table: nat) {
      table == p2 || table == EARLY_HEAP || start <= table <= Moved() - TABLE_BYTES
    }
  }

  lemma HeapFits(m: Machine)
    requires m.Good()
    ensures m.Moved() + m.used1 + m.used2 + 2 * PAGE_SIZE + 10 * TABLE_BYTES <= m.Top() <= PAGE_WIDTH
  {
    AlignUp(m.Moved() + m.used1, PAGE_SIZE);
  }

  /** The common case: the memory region begins at 1 MiB, so that the heap is chosen where it was, and the
      drivers allocate no more than there is room for before the image. */
  lemma CommonMachine(m: Machine)
    requires m.p2 % 0x1000 == 0 && 0xA0_0000 <= m.p2 && m.p2 + 0x1000 <= m.end <= 0x4000_0000
    requires m.start == 0x27_0000 && m.fb < 512 && m.io % 0x20_0000 == 0
    requires m.used0 + m.used1 <= 0x17_0000 && m.used2 <= 0x1F_0000
    ensures m.Good() && m.Aside() && m.Overlaps()
  {
    RoundedIsFirst(m.Moved() + m.used1, PAGE_SIZE, USER_BASE);
  }

  /** The windows that the drivers of the APICs take from the heap. */
  datatype Apic = NoApic | Apic(local: nat, io: nat, target: nat) {
    predicate Good() {
      Apic? ==>
        && local != io && local / ENTRIES == io / ENTRIES == HEAP_GIGABYTE
        && local % ENTRIES > 0 && io % ENTRIES > 0 && target % PAGE_SIZE == 0
    }

    function Windows(): map<nat, Page> {
      if NoApic? then map[] else map[local := Page(LOCAL_APIC, UNCACHED)][io := Page(target, UNCACHED)]
    }
  }

  predicate IsAlias(fb: nat, p: nat) {
    ALIAS_GIGABYTE <= p < ALIAS_GIGABYTE + ALIASES && p != fb
  }

  /** Where the kernel maps gigabyte `p`, with the framebuffer in gigabyte `fb`: the first five and
      that of the framebuffer to themselves, two more to the first, and another five to the second,
      each shifted by one page more. */
  function KernelBase(fb: nat, p: nat): int {
    if p < 5 then p * PAGE_WIDTH
    else if p == BOOT_GIGABYTE then 0
    else if p == fb then p * PAGE_WIDTH
    else if p == HEAP_GIGABYTE then 0
    else if IsAlias(fb, p) then AliasBase(p)
    else -1
  }

  function AliasBase(p: nat): int {
    PAGE_WIDTH + (p - ALIAS_GIGABYTE) * PAGE_SIZE
  }

  function KernelBases(fb: nat): (bases: seq<int>)
    ensures |bases| == ENTRIES && forall p :: 0 <= p < ENTRIES ==> bases[p] == KernelBase(fb, p)
  {
    seq(ENTRIES, p requires 0 <= p => KernelBase(fb, p))
  }

  function KernelLayout(fb: nat, apic: Apic): (l: Layout)
    requires apic.Good()
    ensures l.Good()
  {
    Layout(KernelBases(fb), apic.Windows())
  }

  /** Every table is where the start can put one. */
  ghost predicate AllHeld(p3: seq<nat>, lost: set<nat>, m: Machine) {
    |p3| == ENTRIES && forall p :: 0 <= p < ENTRIES && Sound(p3, lost, p) ==> m.Holds(TableOf(p3[p]))
  }

  lemma HeldStep(p30: seq<nat>, p3: seq<nat>, lost: set<nat>, m: Machine, p: nat)
    requires AllHeld(p30, lost, m) && p < ENTRIES && |p3| == ENTRIES && p3 == p30[p := p3[p]] && m.Holds(TableOf(p3[p]))
    ensures AllHeld(p3, lost, m)
  {
    hide TableOf, Present, Machine.Holds;
    assert forall q :: 0 <= q < ENTRIES && q != p && Sound(p3, lost, q) ==> Sound(p30, lost, q);
  }

  /** The boot tables, and the first gigabyte once more for the boot information; then the heap is chosen. */
  method EarlyMap(m: Machine) returns (pager: Pager, ghost l: Layout)
    requires m.Good()
    ensures fresh(pager) && fresh(pager.p3) && pager.Valid() && Maps(pager.p3[..], pager.mem, pager.lost, l)
    ensures pager.malloc_start == m.start && pager.top == m.Top() && pager.lost == if m.Overlaps() then {BOOT_GIGABYTE} else {}
    ensures l.windows == map[] && forall p :: 0 <= p < ENTRIES ==> l.bases[p] == if p == 0 || p == BOOT_GIGABYTE then 0 else -1
    ensures TableOf(pager.p3[BOOT_GIGABYTE]) == EARLY_HEAP && AllHeld(pager.p3[..], pager.lost, m)
  {
    hide Maps, Pager.Valid, Pager.Settled, Present, TableOf, Rounded;
    HeapFits(m);
    l := Layout(seq(ENTRIES, p => if p == 0 then 0 else -1), map[]);
    pager := new Pager(m.p2, EARLY_HEAP, IMAGE);
    BootMap(pager, l);
    Entries(pager);
    ghost var p30 := pager.p3[..];
    l := MapGigabyte(pager, l, BOOT_GIGABYTE, 0);
    Entries(pager);
    ghost var p3 := pager.p3[..];
    assert p3[0] == p30[0];
    EarlyTable();
    pager.ChooseHeap(m.start, m.Top());
    MapsLess(p3, pager.mem, {}, pager.lost, l);
    EarlyTables(p3, pager.mem, {}, l, m);
    assert pager.p3[BOOT_GIGABYTE] == p3[BOOT_GIGABYTE];
  }

  lemma EarlyTable()
    ensures Rounded(EARLY_HEAP, TABLE_BYTES) == EARLY_HEAP
  {
  }

  lemma BootMap(pager: Pager, l: Layout)
    requires pager.Valid() && pager.lost == {} && l.windows == map[] && |l.bases| == ENTRIES
    requires forall p :: 0 <= p < ENTRIES ==> l.bases[p] == if p == 0 then 0 else -1
    requires And(pager.p3[0], 3) != 0 && Present(pager.p3[0]) && forall p :: 0 < p < ENTRIES ==> pager.p3[p] == 0
    requires forall x :: 0 <= x < SPACE ==> Walk(pager.p3[..], pager.mem, x) == if x < PAGE_WIDTH then Mapped(x, CACHED) else Unmapped
    ensures Maps(pager.p3[..], pager.mem, pager.lost, l)
  {
    hide Walk, And, Present;
    AndThree(0);
    forall x | 0 <= x < SPACE ensures Walk(pager.p3[..], pager.mem, x) == l.Target(x) {
      FirstGigabyte(x);
    }
  }

  lemma MapsLess(p3: seq<nat>, mem: map<nat, nat>, lost: set<nat>, lost': set<nat>, l: Layout)
    requires Maps(p3, mem, lost, l) && lost <= lost'
    ensures Maps(p3, mem, lost', l)
  {
  }

  /** Of the first two tables, only that of gigabyte 8 can be lost to the heap. */
  lemma EarlyTables(p3: seq<nat>, mem: map<nat, nat>, lost: set<nat>, l: Layout, m: Machine)
    requires m.Good() && Maps(p3, mem, lost, l)
    requires forall p :: 0 <= p < ENTRIES ==> l.bases[p] == if p == 0 || p == BOOT_GIGABYTE then 0 else -1
    requires TableOf(p3[0]) == m.p2 && TableOf(p3[BOOT_GIGABYTE]) == EARLY_HEAP
    ensures Within(p3, Rounded(m.start, TABLE_BYTES), m.Top()) == if m.Overlaps() then {BOOT_GIGABYTE} else {}
    ensures forall w :: AllHeld(p3, w, m)
  {
    hide TableOf, Walk, Present, Rounded;
    forall p | 0 <= p < ENTRIES && Present(p3[p]) ensures p == 0 || p == BOOT_GIGABYTE {
      PresentHasLowBits(p3[p]);
    }
    AlignUp(m.start, TABLE_BYTES);
    EarlyTable();
    if m.Overlaps() {
      RoundedIsFirst(m.start, TABLE_BYTES, EARLY_HEAP);
    } else {
      AfterEarlyTable(m.start);
    }
  }

  lemma AfterEarlyTable(start: nat)
    requires start > EARLY_HEAP
    ensures Rounded(start, TABLE_BYTES) >= EARLY_HEAP + TABLE_BYTES
  {
    hide Rounded;
    AlignUp(start, TABLE_BYTES);
    NoMultipleBetween(Rounded(start, TABLE_BYTES), EARLY_HEAP, TABLE_BYTES);
  }

  lemma PresentHasLowBits(e: nat)
    requires Present(e)
    ensures And(e, 3) != 0
  {
    AndOne(e);
    OddHasLowBits(e);
  }

  /** Mapped gigabytes keep their tables. */
  ghost predicate Kept(p30: seq<nat>, p3: seq<nat>, l: Layout) {
    |p30| == |p3| == |l.bases| == ENTRIES && forall p :: 0 <= p < ENTRIES && l.bases[p] >= 0 ==> p3[p] == p30[p]
  }

  /** A mapping made before the heap moves. */
  method MapLow(pager: Pager, m: Machine, ghost l: Layout, p: nat, address: nat) returns (ghost next: Layout)
    requires m.Good() && pager.Valid() && Maps(pager.p3[..], pager.mem, pager.lost, l) && AllHeld(pager.p3[..], pager.lost, m)
    requires p < ENTRIES && address % PAGE_SIZE == 0 && address + PAGE_WIDTH <= U64_LIMIT
    requires m.start <= pager.malloc_start && pager.malloc_start + 2 * TABLE_BYTES <= m.Moved() && pager.top == m.Top()
    modifies pager`mem, pager`malloc_start, pager`blocks, pager.p3
    ensures pager.Valid() && old(pager.malloc_start) <= pager.malloc_start <= old(pager.malloc_start) + 2 * TABLE_BYTES
    ensures next == l.Assign(p, address) && Maps(pager.p3[..], pager.mem, pager.lost, next) && AllHeld(pager.p3[..], pager.lost, m)
    ensures old(pager.Settled()) || l.bases[p] < 0 ==> pager.Settled()
    ensures if l.bases[p] >= 0 then pager.p3[..] == old(pager.p3[..]) && pager.malloc_start == old(pager.malloc_start)
      else pager.p3[..] == old(pager.p3[..])[p := pager.p3[p]] && TableOf(pager.p3[p]) == Rounded(old(pager.malloc_start), TABLE_BYTES)
  {
    hide Maps, Pager.Valid, Pager.Settled, Present, TableOf, Rounded, AllHeld;
    HeapFits(m);
    Entries(pager);
    ghost var p30 := pager.p3[..];
    AlignUp(pager.malloc_start, TABLE_BYTES);
    Shape(p30, pager.mem, pager.lost, l);
    next := MapGigabyte(pager, l, p, address);
    Entries(pager);
    if l.bases[p] < 0 {
      HeldStep(p30, pager.p3[..], pager.lost, m, p);
    }
  }

  /** The mappings of the graphics code. */
  method GraphicsMap(pager: Pager, m: Machine, ghost l0: Layout) returns (ghost l: Layout)
    requires m.Good() && pager.Valid() && Maps(pager.p3[..], pager.mem, pager.lost, l0) && AllHeld(pager.p3[..], pager.lost, m)
    requires pager.malloc_start == m.start && pager.top == m.Top()
    requires l0.windows == map[] && forall p :: 0 <= p < ENTRIES ==> l0.bases[p] == if p == 0 || p == BOOT_GIGABYTE then 0 else -1
    modifies pager`mem, pager`malloc_start, pager`blocks, pager.p3
    ensures pager.Valid() && pager.Settled() && Maps(pager.p3[..], pager.mem, pager.lost, l) && AllHeld(pager.p3[..], pager.lost, m)
    ensures m.start <= pager.malloc_start <= m.start + 16 * TABLE_BYTES
    ensures l.windows == map[] && forall p :: 0 <= p < ENTRIES ==>
      l.bases[p] == if p < 5 then p * PAGE_WIDTH else if p == BOOT_GIGABYTE then 0 else if p == m.fb then p * PAGE_WIDTH else -1
    ensures Kept(old(pager.p3[..]), pager.p3[..], l0)
    ensures TableOf(pager.p3[m.First()]) == Rounded(m.start, TABLE_BYTES)
  {
    hide Maps, Pager.Valid, Pager.Settled, Present, TableOf, Rounded, AllHeld;
    Shape(pager.p3[..], pager.mem, pager.lost, l0);
    Entries(pager);
    ghost var p30 := pager.p3[..];
    l := MapLow(pager, m, l0, m.fb, m.fb * PAGE_WIDTH);
    Entries(pager);
    ghost var early := l;
    for p := 1 to 5
      invariant pager.Valid() && Maps(pager.p3[..], pager.mem, pager.lost, l) && AllHeld(pager.p3[..], pager.lost, m)
      invariant m.start <= pager.malloc_start <= m.start + 2 * p * TABLE_BYTES
      invariant p == 1 && m.First() != m.fb ==> pager.malloc_start == m.start
      invariant l.windows == map[] && |l.bases| == ENTRIES && pager.p3.Length == ENTRIES
      invariant forall q :: 0 <= q < ENTRIES ==> l.bases[q] == if 1 <= q < p then q * PAGE_WIDTH else early.bases[q]
      invariant Kept(p30, pager.p3[..], l0)
      invariant p > 1 || m.First() == m.fb ==> pager.Settled() && TableOf(pager.p3[m.First()]) == Rounded(m.start, TABLE_BYTES)
    {
      l := MapLow(pager, m, l, p, p * PAGE_WIDTH);
      Entries(pager);
    }
    for p := 1 to 4
      invariant pager.Valid() && pager.Settled() && Maps(pager.p3[..], pager.mem, pager.lost, l) && AllHeld(pager.p3[..], pager.lost, m)
      invariant m.start <= pager.malloc_start <= m.start + 2 * (p + 4) * TABLE_BYTES
      invariant l.windows == map[] && |l.bases| == ENTRIES && pager.p3.Length == ENTRIES
      invariant forall q :: 0 <= q < ENTRIES ==> l.bases[q] == if 1 <= q < 5 then q * PAGE_WIDTH else early.bases[q]
      invariant Kept(p30, pager.p3[..], l0) && TableOf(pager.p3[m.First()]) == Rounded(m.start, TABLE_BYTES)
    {
      l := MapLow(pager, m, l, p, p * PAGE_WIDTH);
      Entries(pager);
    }
  }

  lemma Shape(p3: seq<nat>, mem: map<nat, nat>, lost: set<nat>, l: Layout)
    requires Maps(p3, mem, lost, l)
    ensures |p3| == ENTRIES && l.Good()
  {
  }

  /** The window of the heap: gigabyte 7 shows the first, and from now on the heap's addresses are there. */
  method HeapMap(pager: Pager, m: Machine, ghost l0: Layout) returns (ghost l: Layout)
    requires m.Good() && pager.Valid() && pager.Settled() && Maps(pager.p3[..], pager.mem, pager.lost, l0)
    requires AllHeld(pager.p3[..], pager.lost, m) && m.start <= pager.malloc_start <= m.start + 16 * TABLE_BYTES && pager.top == m.Top()
    modifies pager`mem, pager`malloc_start, pager`blocks, pager`top, pager.p3
    ensures pager.Valid() && pager.Settled() && Maps(pager.p3[..], pager.mem, pager.lost, l) && l == l0.Assign(HEAP_GIGABYTE, 0)
    ensures HEAP_GIGABYTE * PAGE_WIDTH < pager.malloc_start <= HEAP_GIGABYTE * PAGE_WIDTH + m.Moved()
    ensures pager.top == HEAP_GIGABYTE * PAGE_WIDTH + m.Top()
    ensures Kept(old(pager.p3[..]), pager.p3[..], l0) && AllHeld(pager.p3[..], pager.lost, m)
  {
    hide Maps, Present, TableOf, Rounded, Pager.Valid, Pager.Settled, AllHeld;
    HeapFits(m);
    Shape(pager.p3[..], pager.mem, pager.lost, l0);
    Entries(pager);
    var block := pager.Malloc(m.used0);
    l := MapLow(pager, m, l0, HEAP_GIGABYTE, 0);
    Entries(pager);
    HeldInFirst(pager.p3[..], pager.lost, m);
    assert forall p :: 0 <= p < ENTRIES ==> pager.p3[..][p] == pager.p3[p];
    pager.MoveHeap(HEAP_GIGABYTE * PAGE_WIDTH);
  }

  lemma HeldInFirst(p3: seq<nat>, lost: set<nat>, m: Machine)
    requires m.Good() && AllHeld(p3, lost, m)
    ensures forall p :: 0 <= p < ENTRIES && Sound(p3, lost, p) ==> TableOf(p3[p]) + TABLE_BYTES <= PAGE_WIDTH
  {
    hide TableOf, Present;
    HeapFits(m);
  }

  /** `APIC_INIT`: two windows of the heap are given to the local and the I/O APIC. */
  method ApicInit(pager: Pager, m: Machine, ghost l0: Layout) returns (ghost l: Layout, ghost apic: Apic)
    requires m.Good() && pager.Valid() && pager.Settled() && Maps(pager.p3[..], pager.mem, pager.lost, l0) && l0.windows == map[]
    requires l0.bases[HEAP_GIGABYTE] >= 0 && HEAP_GIGABYTE !in pager.lost
    requires HEAP_GIGABYTE * PAGE_WIDTH < pager.malloc_start <= HEAP_GIGABYTE * PAGE_WIDTH + m.Moved()
    requires pager.top == HEAP_GIGABYTE * PAGE_WIDTH + m.Top()
    modifies pager`mem, pager`malloc_start, pager`blocks
    ensures pager.Valid() && pager.Settled() && Maps(pager.p3[..], pager.mem, pager.lost, l) && l == Layout(l0.bases, apic.Windows())
    ensures apic.Good() && (apic.Apic? <==> m.madt) && (m.madt ==> apic.target == m.io)
    ensures old(pager.malloc_start) <= pager.malloc_start && pager.malloc_start + m.used2 + 10 * TABLE_BYTES <= pager.top
  {
    hide Maps, Pager.Valid, Pager.Settled, Rounded, Or;
    KernelFlags();
    HeapFits(m);
    Shape(pager.p3[..], pager.mem, pager.lost, l0);
    l, apic := l0, NoApic;
    Entries(pager);
    var block := pager.Malloc(m.used1);
    Entries(pager);
    WindowsFit(pager.malloc_start, m);
    var memory := pager.MallocA(PAGE_SIZE, PAGE_SIZE);
    if !m.madt {
      return;
    }
    InHeap(memory);
    l := RemapWindow(pager, l, memory, LOCAL_APIC, DEVICE_FLAGS);
    Entries(pager);
    RoundedIsFirst(pager.malloc_start, PAGE_SIZE, memory + PAGE_SIZE);
    var lapic_memory := pager.MallocA(PAGE_SIZE, PAGE_SIZE);
    InHeap(lapic_memory);
    l := RemapWindow(pager, l, lapic_memory, m.io, DEVICE_FLAGS);
    apic := Apic(memory / PAGE_SIZE, lapic_memory / PAGE_SIZE, m.io);
  }

  lemma WindowsFit(s: nat, m: Machine)
    requires m.Good() && 0 < s <= HEAP_GIGABYTE * PAGE_WIDTH + m.Moved() + m.used1
    ensures Rounded(s, PAGE_SIZE) + 2 * PAGE_SIZE + m.used2 + 10 * TABLE_BYTES <= HEAP_GIGABYTE * PAGE_WIDTH + m.Top()
  {
    hide Rounded;
    AlignUp(m.Moved() + m.used1, PAGE_SIZE);
    RoundedIsFirst(s, PAGE_SIZE, HEAP_GIGABYTE * PAGE_WIDTH + Rounded(m.Moved() + m.used1, PAGE_SIZE));
  }

  lemma InHeap(x: nat)
    requires HEAP_GIGABYTE * PAGE_WIDTH < x < BOOT_GIGABYTE * PAGE_WIDTH && x % PAGE_SIZE == 0
    ensures x / PAGE_WIDTH == HEAP_GIGABYTE == x / PAGE_SIZE / ENTRIES && x < SPACE && x / PAGE_SIZE % ENTRIES > 0
  {
    WindowOf(x);
    DivModUnique(x, PAGE_WIDTH, HEAP_GIGABYTE, x - HEAP_GIGABYTE * PAGE_WIDTH);
  }

  /** Five more gigabytes lead to the second one. */
  method AliasMap(pager: Pager, m: Machine, ghost l0: Layout) returns (ghost l: Layout)
    requires m.Good() && pager.Valid() && pager.Settled() && Maps(pager.p3[..], pager.mem, pager.lost, l0)
    requires HEAP_GIGABYTE * PAGE_WIDTH <= pager.malloc_start && pager.malloc_start + m.used2 + 10 * TABLE_BYTES <= pager.top
    requires pager.top <= BOOT_GIGABYTE * PAGE_WIDTH
    requires forall p :: 0 <= p < ENTRIES ==> l0.bases[p] == if IsAlias(m.fb, p) then -1 else KernelBase(m.fb, p)
    modifies pager`mem, pager`malloc_start, pager`blocks, pager.p3
    ensures pager.Valid() && Maps(pager.p3[..], pager.mem, pager.lost, l) && l == Layout(KernelBases(m.fb), l0.windows)
    ensures Kept(old(pager.p3[..]), pager.p3[..], l0)
    ensures forall p :: 0 <= p < ENTRIES && IsAlias(m.fb, p) ==> InHeapWindow(TableOf(pager.p3[p]))
  {
    hide Maps, Pager.Valid, Pager.Settled, TableOf, Rounded;
    Shape(pager.p3[..], pager.mem, pager.lost, l0);
    ghost var p30 := pager.p3[..];
    l := l0;
    Entries(pager);
    var block := pager.Malloc(m.used2);
    Entries(pager);
    ghost var first := pager.malloc_start;
    for p := ALIAS_GIGABYTE to ALIAS_GIGABYTE + ALIASES
      invariant pager.Valid() && Maps(pager.p3[..], pager.mem, pager.lost, l) && pager.p3.Length == ENTRIES
      invariant HEAP_GIGABYTE * PAGE_WIDTH <= pager.malloc_start <= first + 2 * (p - ALIAS_GIGABYTE) * TABLE_BYTES
      invariant l.windows == l0.windows && |l.bases| == ENTRIES
      invariant forall q :: 0 <= q < ENTRIES ==> l.bases[q] == if IsAlias(m.fb, q) && p <= q then -1 else KernelBase(m.fb, q)
      invariant Kept(p30, pager.p3[..], l0)
      invariant forall q :: 0 <= q < p && IsAlias(m.fb, q) ==> InHeapWindow(TableOf(pager.p3[q]))
    {
      AlignUp(pager.malloc_start, TABLE_BYTES);
      l := MapGigabyte(pager, l, p, AliasBase(p));
      Entries(pager);
    }
    assert l.bases == KernelBases(m.fb);
  }

  predicate InHeapWindow(table: nat) {
    HEAP_GIGABYTE * PAGE_WIDTH <= table && table + TABLE_BYTES <= BOOT_GIGABYTE * PAGE_WIDTH
  }

  /** Where the tables are: those of the aliases in the window of the heap, all others where the start
      puts them before that, in the first gigabyte. */
  ghost predicate Placed(p3: seq<nat>, lost: set<nat>, m: Machine) {
    && AllAligned(p3, lost)
    && forall p :: 0 <= p < ENTRIES && Sound(p3, lost, p) ==>
      if IsAlias(m.fb, p) then InHeapWindow(TableOf(p3[p])) else m.Holds(TableOf(p3[p]))
  }

  ghost predicate AllAligned(p3: seq<nat>, lost: set<nat>) {
    |p3| == ENTRIES && forall p :: 0 <= p < ENTRIES && Sound(p3, lost, p) ==> TableOf(p3[p]) % TABLE_BYTES == 0
  }

  lemma TablesAligned(pager: Pager)
    requires pager.Valid()
    ensures AllAligned(pager.p3[..], pager.lost)
  {
    hide TableOf, Present, Rounded;
  }

  /** The tables of gigabyte 8 and of the first gigabyte mapped after it. */
  ghost predicate FirstTables(p3: seq<nat>, m: Machine) {
    && |p3| == ENTRIES && m.Good() && Present(p3[BOOT_GIGABYTE]) && Present(p3[m.First()])
    && TableOf(p3[BOOT_GIGABYTE]) == EARLY_HEAP && TableOf(p3[m.First()]) == Rounded(m.start, TABLE_BYTES)
  }

  /** The mappings of the whole start, in their order. */
  method BootPager(m: Machine) returns (pager: Pager, ghost apic: Apic)
    requires m.Good()
    ensures fresh(pager) && fresh(pager.p3) && pager.Valid() && pager.lost == if m.Overlaps() then {BOOT_GIGABYTE} else {}
    ensures apic.Good() && (apic.Apic? <==> m.madt) && (m.madt ==> apic.target == m.io)
    ensures Maps(pager.p3[..], pager.mem, pager.lost, KernelLayout(m.fb, apic))
    ensures FirstTables(pager.p3[..], m) && Placed(pager.p3[..], pager.lost, m)
  {
    hide Maps, Pager.Valid, Pager.Settled, Present, TableOf, Rounded, AllHeld, AllAligned, KernelBases;
    HeapFits(m);
    ghost var l0, l1, l2, l3, l4;
    pager, l0 := EarlyMap(m);
    ghost var p0 := pager.p3[..];
    l1 := GraphicsMap(pager, m, l0);
    Shape(pager.p3[..], pager.mem, pager.lost, l1);
    ghost var p1 := pager.p3[..];
    l2 := HeapMap(pager, m, l1);
    ghost var p2 := pager.p3[..];
    l3, apic := ApicInit(pager, m, l2);
    l4 := AliasMap(pager, m, l3);
    TablesAligned(pager);
    TablesMade(p0, p1, p2, pager.p3[..], pager.mem, pager.lost, m, apic, l0, l1, l2);
  }

  lemma TablesMade(p0: seq<nat>, p1: seq<nat>, p2: seq<nat>, p3: seq<nat>, mem: map<nat, nat>, lost: set<nat>, m: Machine, apic: Apic,
                   l0: Layout, l1: Layout, l2: Layout)
    requires m.Good() && apic.Good() && Kept(p0, p1, l0) && Kept(p1, p2, l1) && Kept(p2, p3, l2) && AllHeld(p2, lost, m)
    requires Maps(p3, mem, lost, KernelLayout(m.fb, apic)) && AllAligned(p3, lost)
    requires l0.bases[BOOT_GIGABYTE] >= 0 && l1.bases[BOOT_GIGABYTE] >= 0 && l1.bases[m.First()] >= 0
    requires forall p :: 0 <= p < ENTRIES ==> l2.bases[p] == if IsAlias(m.fb, p) then -1 else KernelBase(m.fb, p)
    requires TableOf(p0[BOOT_GIGABYTE]) == EARLY_HEAP && TableOf(p1[m.First()]) == Rounded(m.start, TABLE_BYTES)
    requires forall p :: 0 <= p < ENTRIES && IsAlias(m.fb, p) ==> InHeapWindow(TableOf(p3[p]))
    ensures FirstTables(p3, m) && Placed(p3, lost, m)
  {
    hide Walk, TableOf, Rounded, And, Present, Machine.Holds;
    forall p | 0 <= p < ENTRIES && Sound(p3, lost, p) && !IsAlias(m.fb, p) ensures m.Holds(TableOf(p3[p])) {
      PresentHasLowBits(p3[p]);
      assert KernelBase(m.fb, p) >= 0;
      assert p3[p] == p2[p] && Sound(p2, lost, p);
    }
  }

  /** The same, with the empty page allocator. */
  method Boot(m: Machine) returns (a: Frames.Allocator, ghost apic: Apic)
    requires m.Good()
    ensures fresh(a) && fresh(a.pager) && fresh(a.pager.p3) && fresh(a.page_allocator) && a.Valid() && a.live == {}
    ensures a.pager.lost == (if m.Overlaps() then {BOOT_GIGABYTE} else {})
    ensures apic.Good() && (apic.Apic? <==> m.madt) && (m.madt ==> apic.target == m.io)
    ensures Maps(a.pager.p3[..], a.pager.mem, a.pager.lost, KernelLayout(m.fb, apic))
    ensures FirstTables(a.pager.p3[..], m) && Placed(a.pager.p3[..], a.pager.lost, m)
  {
    hide Maps, Pager.Valid, FirstTables, Placed, KernelBases;
    var pager;
    pager, apic := BootPager(m);
    IsSecond(pager.p3[..], pager.mem, pager.lost, m.fb, apic);
    a := new Frames.Allocator(pager);
  }

  lemma IsSecond(p3: seq<nat>, mem: map<nat, nat>, lost: set<nat>, fb: nat, apic: Apic)
    requires apic.Good() && Maps(p3, mem, lost, KernelLayout(fb, apic)) && 1 !in lost
    ensures Frames.SecondGigabyte(p3, mem)
  {
    hide Walk, And, Present;
    forall x | PAGE_WIDTH <= x < 2 * PAGE_WIDTH ensures Walk(p3, mem, x) == Mapped(x, CACHED) {
      WindowOf(x);
      assert x / PAGE_WIDTH == 1 && KernelBase(fb, 1) == PAGE_WIDTH;
    }
  }

  // ----- the map in numbers -----

  /** `x` is in the 2 MiB window with this number. */
  predicate InDevice(w: nat, x: nat) {
    w * 0x20_0000 <= x < w * 0x20_0000 + 0x20_0000
  }

  /** Where every address leads after the start, by the linear address and the gigabyte of the framebuffer. */
  function KernelMap(fb: nat, apic: Apic, x: nat): Phys {
    var i := x / 0x4000_0000;
    if apic.Apic? && InDevice(apic.io, x) then Mapped(apic.target + x % 0x20_0000, 0x97)
    else if apic.Apic? && InDevice(apic.local, x) then Mapped(0xFEE0_0000 + x % 0x20_0000, 0x97)
    else if i < 5 then Mapped(x, 0x87)
    else if i == 8 then Mapped(x - 0x2_0000_0000, 0x87)
    else if i == fb then Mapped(x, 0x87)
    else if i == 7 then Mapped(x - 0x1_C000_0000, 0x87)
    else if i == 10 then Mapped(x - 0x2_4000_0000, 0x87)
    else if i == 11 then Mapped(x - 0x2_7FE0_0000, 0x87)
    else if i == 12 then Mapped(x - 0x2_BFC0_0000, 0x87)
    else if i == 13 then Mapped(x - 0x2_FFA0_0000, 0x87)
    else if i == 14 then Mapped(x - 0x3_3F80_0000, 0x87)
    else Unmapped
  }

  lemma KernelMapHolds(p3: seq<nat>, mem: map<nat, nat>, lost: set<nat>, fb: nat, apic: Apic, x: nat)
    requires apic.Good() && Maps(p3, mem, lost, KernelLayout(fb, apic)) && x < SPACE && x / PAGE_WIDTH !in lost
    ensures Walk(p3, mem, x) == KernelMap(fb, apic, x)
  {
    hide Walk, And, Present, KernelMap;
    LayoutInNumbers(fb, apic, x);
  }

  lemma LayoutInNumbers(fb: nat, apic: Apic, x: nat)
    requires apic.Good() && x < SPACE
    ensures KernelLayout(fb, apic).Target(x) == KernelMap(fb, apic, x)
  {
    hide KernelBases;
    if apic.Apic? {
      DeviceNumber(apic.io, x);
      DeviceNumber(apic.local, x);
    }
    assert x == x / PAGE_WIDTH * PAGE_WIDTH + x % PAGE_WIDTH;
  }

  lemma DeviceNumber(w: nat, x: nat)
    ensures InDevice(w, x) <==> x / PAGE_SIZE == w
  {
    if InDevice(w, x) {
      DivModUnique(x, PAGE_SIZE, w, x - w * 0x20_0000);
    }
  }

  /** The entry of every mapped address has the page-size bit, and the bit that keeps the caches out is set
      exactly in the windows of the APICs. */
  lemma UncachedExactly(p3: seq<nat>, mem: map<nat, nat>, lost: set<nat>, fb: nat, apic: Apic, x: nat)
    requires apic.Good() && Maps(p3, mem, lost, KernelLayout(fb, apic)) && x < SPACE && x / PAGE_WIDTH !in lost
    requires Walk(p3, mem, x).Mapped?
    ensures BitAt(Load(mem, EntryOf(p3, x)), 7) == 1
    ensures BitAt(Load(mem, EntryOf(p3, x)), 4) == 1 <==> apic.Apic? && (InDevice(apic.io, x) || InDevice(apic.local, x))
  {
    hide And, TableOf, PageOf, BitAt, Maps, Low, Load, EntryOf, Present;
    Shape(p3, mem, lost, KernelLayout(fb, apic));
    KernelMapHolds(p3, mem, lost, fb, apic, x);
    var e := Load(mem, EntryOf(p3, x));
    BitAtLow(e, 21, 7);
    BitAtLow(e, 21, 4);
    DeviceBits();
  }

  lemma DeviceBits()
    ensures BitAt(0x87, 7) == BitAt(0x97, 7) == BitAt(0x97, 4) == 1 && BitAt(0x87, 4) == 0
  {
  }

  // ----- gigabyte 8 -----

  /** Gigabytes with one table lead to the same places. */
  lemma SharedTable(p3: seq<nat>, mem: map<nat, nat>, p: nat, q: nat, r: nat)
    requires |p3| == ENTRIES && p < ENTRIES && q < ENTRIES && r < PAGE_WIDTH
    requires Present(p3[p]) && Present(p3[q]) && TableOf(p3[p]) == TableOf(p3[q])
    ensures p * PAGE_WIDTH + r < SPACE && q * PAGE_WIDTH + r < SPACE
    ensures Walk(p3, mem, p * PAGE_WIDTH + r) == Walk(p3, mem, q * PAGE_WIDTH + r)
  {
    hide Present, TableOf, PageOf, FlagsOf, Load;
    DivModUnique(p * PAGE_WIDTH + r, PAGE_WIDTH, p, r);
    DivModUnique(q * PAGE_WIDTH + r, PAGE_WIDTH, q, r);
  }

  /** When the next table falls on that of gigabyte 8, gigabyte 8 shows what the gigabyte of that table
      shows. */
  lemma BootInformationLost(p3: seq<nat>, mem: map<nat, nat>, m: Machine, r: nat)
    requires FirstTables(p3, m) && Rounded(m.start, TABLE_BYTES) == EARLY_HEAP && r < PAGE_WIDTH
    ensures m.Overlaps()
    ensures BOOT_GIGABYTE * PAGE_WIDTH + r < SPACE && m.First() * PAGE_WIDTH + r < SPACE
    ensures Walk(p3, mem, BOOT_GIGABYTE * PAGE_WIDTH + r) == Walk(p3, mem, m.First() * PAGE_WIDTH + r)
  {
    hide Walk, Present, TableOf;
    AlignUp(m.start, TABLE_BYTES);
    SharedTable(p3, mem, BOOT_GIGABYTE, m.First(), r);
  }

  /** Gigabyte 8 shows the first gigabyte, in which the boot information is. */
  ghost predicate ShowsBootInformation(p3: seq<nat>, mem: map<nat, nat>)
    requires |p3| == ENTRIES
  {
    forall x :: BOOT_GIGABYTE * PAGE_WIDTH <= x < BOOT_GIGABYTE * PAGE_WIDTH + PAGE_WIDTH ==>
      Walk(p3, mem, x) == Mapped(x - BOOT_GIGABYTE * PAGE_WIDTH, CACHED)
  }

  /** For a heap chosen from the page below the old start on, it does exactly when the heap does not begin
      at or before that. */
  lemma BootInformationKept(p3: seq<nat>, mem: map<nat, nat>, m: Machine, apic: Apic)
    requires FirstTables(p3, m) && apic.Good() && m.start > 0x26_F000
    requires Maps(p3, mem, if m.Overlaps() then {BOOT_GIGABYTE} else {}, KernelLayout(m.fb, apic))
    ensures ShowsBootInformation(p3, mem) <==> m.start > 0x27_0000
  {
    hide Walk, And, Present, TableOf, Rounded;
    if m.start > EARLY_HEAP {
      forall x | BOOT_GIGABYTE * PAGE_WIDTH <= x < BOOT_GIGABYTE * PAGE_WIDTH + PAGE_WIDTH
        ensures Walk(p3, mem, x) == Mapped(x - BOOT_GIGABYTE * PAGE_WIDTH, CACHED)
      {
        WindowOf(x);
        DivModUnique(x, PAGE_WIDTH, BOOT_GIGABYTE, x - BOOT_GIGABYTE * PAGE_WIDTH);
      }
    } else {
      OnEarlyTable(m.start);
      BootInformationLost(p3, mem, m, 0);
      FirstOfGigabyte(m.First());
      assert Walk(p3, mem, m.First() * PAGE_WIDTH) == Mapped(m.First() * PAGE_WIDTH, CACHED);
      assert Walk(p3, mem, BOOT_GIGABYTE * PAGE_WIDTH) != Mapped(0, CACHED);
    }
  }

  lemma OnEarlyTable(start: nat)
    requires EARLY_HEAP - TABLE_BYTES < start <= EARLY_HEAP
    ensures Rounded(start, TABLE_BYTES) == EARLY_HEAP
  {
    hide Rounded;
    AlignUp(start, TABLE_BYTES);
    RoundedIsFirst(start, TABLE_BYTES, EARLY_HEAP);
    if Rounded(start, TABLE_BYTES) < EARLY_HEAP {
      NoMultipleBetween(EARLY_HEAP, Rounded(start, TABLE_BYTES), TABLE_BYTES);
    }
  }

  lemma FirstOfGigabyte(p: nat)
    ensures p * PAGE_WIDTH / PAGE_WIDTH == p && p * PAGE_WIDTH % PAGE_WIDTH == 0 && p * PAGE_WIDTH / PAGE_SIZE == p * ENTRIES
    ensures p * ENTRIES % ENTRIES == 0
  {
  }

  // ----- the user windows -----

  predicate InProgram(x: nat) {
    x / PAGE_SIZE == USER_BASE / PAGE_SIZE
  }

  predicate InStack(x: nat) {
    x / PAGE_SIZE == USER_STACK / PAGE_SIZE
  }

  predicate InWindow(x: nat) {
    InProgram(x) || InStack(x)
  }

  /** No table is in a user window, where a process would be put in its place. */
  ghost predicate Clear(p3: seq<nat>, lost: set<nat>) {
    |p3| == ENTRIES && forall p :: 0 <= p < ENTRIES && Sound(p3, lost, p) ==> !InWindow(TableOf(p3[p]))
  }

  lemma PlacedIsClear(p3: seq<nat>, lost: set<nat>, m: Machine)
    requires m.Good() && m.Aside() && Placed(p3, lost, m)
    ensures Clear(p3, lost)
  {
    hide TableOf, Present;
    forall p | 0 <= p < ENTRIES && Sound(p3, lost, p) ensures !InWindow(TableOf(p3[p])) {
      HeldIsClear(m, TableOf(p3[p]));
    }
  }

  lemma HeldIsClear(m: Machine, table: nat)
    requires m.Good() && m.Aside() && (m.Holds(table) || InHeapWindow(table))
    ensures !InWindow(table)
  {
  }

  // ----- the processor -----

  /** Physical memory holds every word that the kernel has written, where the tables lead it. */
  ghost predicate Backs(phys: map<nat, nat>, p3: seq<nat>, mem: map<nat, nat>) {
    |p3| == ENTRIES && forall a :: a in mem && a < SPACE && Walk(p3, mem, a).Mapped? ==> Load(phys, Walk(p3, mem, a).address) == mem[a]
  }

  /** The kernel follows the address in a third-level entry as a linear address, and the processor as a
      physical one.  They find the same translation where the two are the same. */
  lemma ProcessorAgrees(p3: seq<nat>, mem: map<nat, nat>, phys: map<nat, nat>, lost: set<nat>, l: Layout, x: nat)
    requires Maps(p3, mem, lost, l) && Backs(phys, p3, mem) && x < SPACE && x / PAGE_WIDTH !in lost
    requires EntryOf(p3, x) < SPACE && Walk(p3, mem, EntryOf(p3, x)) == Mapped(EntryOf(p3, x), CACHED)
    ensures Walk(p3, phys, x) == Walk(p3, mem, x)
  {
    hide TableOf, PageOf, FlagsOf, And;
    if Present(p3[x / PAGE_WIDTH]) {
      PresentHasLowBits(p3[x / PAGE_WIDTH]);
      Split(x);
      AndOne(0);
      assert Walk(p3, mem, x) == l.Target(x);
      assert EntryOf(p3, x) in mem;
    }
  }
}
