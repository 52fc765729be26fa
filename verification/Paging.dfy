/** Two-level page tables over a bump allocator: paging.c with the part of stdlib.c under it. */
module Paging {
  import opened Bits
  import opened PageBits

  const ENTRIES: nat := 512
  const U64_LIMIT: nat := 0x1_0000_0000_0000_0000
  const SPACE: nat := 0x80_0000_0000

  /** The 64-bit word at an address. */
  function Load(mem: map<nat, nat>, a: nat): nat {
    if a in mem then mem[a] else 0
  }

  datatype Phys = Unmapped | Mapped(address: nat, flags: nat)

  /** The address of the second-level entry for `x`. */
  function EntryOf(p3: seq<nat>, x: nat): nat
    requires |p3| == ENTRIES && x < SPACE
  {
    TableOf(p3[x / PAGE_WIDTH]) + 8 * (x % PAGE_WIDTH / PAGE_SIZE)
  }

  /** The page walk: one entry of the third-level table, one of the table it points to. */
  function Walk(p3: seq<nat>, mem: map<nat, nat>, x: nat): Phys
    requires |p3| == ENTRIES && x < SPACE
  {
    var e := p3[x / PAGE_WIDTH];
    if !Present(e) then Unmapped
    else
      var e2 := Load(mem, EntryOf(p3, x));
      if !Present(e2) then Unmapped else Mapped(PageOf(e2) + x % PAGE_WIDTH % PAGE_SIZE, FlagsOf(e2))
  }

  /** Gigabyte `p` has a table whose memory is still its own. */
  predicate Sound(p3: seq<nat>, lost: set<nat>, p: nat)
    requires p < |p3|
  {
    Present(p3[p]) && p !in lost
  }

  /** Tables are aligned, end before `limit` or begin at `top` or later, and no two entries share one;
      except those whose memory has been lost to other uses. */
  ghost predicate TablesApart(p3: seq<nat>, lost: set<nat>, limit: nat, top: nat) {
    && |p3| == ENTRIES
    && (forall p :: 0 <= p < ENTRIES && Sound(p3, lost, p) ==> TableOf(p3[p]) % TABLE_BYTES == 0 && Outside(TableOf(p3[p]), limit, top))
    && (forall p, q :: 0 <= p < q < ENTRIES && Sound(p3, lost, p) && Sound(p3, lost, q) ==> TableOf(p3[p]) != TableOf(p3[q]))
  }

  /** A table at `a` has nothing in common with the memory from `limit` to `top`. */
  predicate Outside(a: nat, limit: nat, top: nat) {
    a + TABLE_BYTES <= limit || top <= a
  }

  /** The gigabytes whose tables a heap from `limit` to `top` can be given out over. */
  ghost function Within(p3: seq<nat>, limit: nat, top: nat): set<nat>
    requires |p3| == ENTRIES
  {
    set p | 0 <= p < ENTRIES && Present(p3[p]) && !Outside(TableOf(p3[p]), limit, top)
  }

  datatype Block = Block(start: nat, size: nat)

  /** Blocks in the order they were given out, each wholly before the next. */
  ghost predicate Apart(blocks: seq<Block>, limit: nat) {
    && (forall i :: 0 <= i < |blocks| ==> blocks[i].start + blocks[i].size <= limit)
    && (forall i, j :: 0 <= i < j < |blocks| ==> blocks[i].start + blocks[i].size <= blocks[j].start)
  }

  // ----- arithmetic -----

  /** The rounding of `mallocA`. */
  function Rounded(s: nat, align: nat): nat
    requires s > 0 && align > 0
  {
    (s - 1) + align - (s - 1) % align
  }

  /** It gives the first multiple of `align` not below `s`. */
  lemma AlignUp(s: nat, align: nat)
    requires s > 0 && align > 0
    ensures var r := Rounded(s, align); r % align == 0 && s <= r < s + align
  {
    var q, m := (s - 1) / align, (s - 1) % align;
    var r := (s - 1) + align - m;
    assert r == align * (q + 1);
    DivModUnique(r, align, q + 1, 0);
  }

  /** No multiple of `align` from `s` on is below it. */
  lemma RoundedIsFirst(s: nat, align: nat, m: nat)
    requires s > 0 && align > 0 && m % align == 0 && s <= m
    ensures Rounded(s, align) <= m
  {
    hide Rounded;
    AlignUp(s, align);
    if m < Rounded(s, align) {
      NoMultipleBetween(Rounded(s, align), m, align);
    }
  }

  lemma MultipleOf(b: nat, align: nat, unit: nat)
    requires align > 0 && unit > 0 && b % align == 0 && align % unit == 0
    ensures b % unit == 0
  {
    var k, l := b / align, align / unit;
    assert b == unit * (l * k);
    DivModUnique(b, unit, l * k, 0);
  }

  lemma NoMultipleBetween(a: nat, b: nat, unit: nat)
    requires unit > 0 && a % unit == 0 && b % unit == 0 && b < a
    ensures b + unit <= a
  {
    var i, j := a / unit, b / unit;
    assert a == unit * i && b == unit * j;
    if i <= j {
      MulMono(unit, i, j);
    } else {
      MulMono(unit, j + 1, i);
    }
  }

  lemma Split(x: nat)
    requires x < SPACE
    ensures x / PAGE_WIDTH < ENTRIES && x % PAGE_WIDTH / PAGE_SIZE < ENTRIES
    ensures x % PAGE_WIDTH == PAGE_SIZE * (x % PAGE_WIDTH / PAGE_SIZE) + x % PAGE_WIDTH % PAGE_SIZE
    ensures x % PAGE_WIDTH % PAGE_SIZE == x % PAGE_SIZE
  {
  }

  /** A 2 MiB window is one entry of one table. */
  lemma SameWindow(x: nat, y: nat)
    requires x < SPACE && y < SPACE
    ensures x / PAGE_SIZE == y / PAGE_SIZE
            <==> x / PAGE_WIDTH == y / PAGE_WIDTH && x % PAGE_WIDTH / PAGE_SIZE == y % PAGE_WIDTH / PAGE_SIZE
  {
  }

  // ----- translations that stay -----

  /** A walk looks at one word of memory. */
  lemma WalkKept(p3: seq<nat>, p3': seq<nat>, mem: map<nat, nat>, mem': map<nat, nat>, x: nat)
    requires |p3| == |p3'| == ENTRIES && x < SPACE && p3[x / PAGE_WIDTH] == p3'[x / PAGE_WIDTH]
    requires Present(p3[x / PAGE_WIDTH]) ==>
      var a := TableOf(p3[x / PAGE_WIDTH]) + 8 * (x % PAGE_WIDTH / PAGE_SIZE); Load(mem, a) == Load(mem', a)
    ensures Walk(p3', mem', x) == Walk(p3, mem, x)
  {
    hide TableOf, PageOf, FlagsOf, Or, Present, Load;
  }

  class Pager {
    const p3: array<nat>
    var mem: map<nat, nat>
    var malloc_start: nat
    ghost var blocks: seq<Block>
    // where the memory ends that the heap can use
    ghost var top: nat
    // gigabytes whose tables lie in memory that has been given out again
    ghost var lost: set<nat>

    ghost predicate Valid()
      reads this, p3
    {
      && p3.Length == ENTRIES && 0 < malloc_start <= top <= U64_LIMIT && Apart(blocks, malloc_start)
      && TablesApart(p3[..], lost, Rounded(malloc_start, TABLE_BYTES), top)
    }

    /** No table begins in what is next given out, however it is aligned. */
    ghost predicate Settled()
      reads this`malloc_start, this`top, this`lost, p3
    {
      TablesApart(p3[..], lost, malloc_start, top)
    }

    /** The tables that the boot code sets up: the first gigabyte is mapped to itself by `p2_table`,
        at address `p2`, and nothing else is mapped.  The heap goes from `start` to `top`. */
    constructor (p2: nat, start: nat, top: nat)
      requires p2 % TABLE_BYTES == 0 && 0 < start <= top <= U64_LIMIT && Outside(p2, start, top)
      ensures Valid() && Settled() && fresh(p3) && malloc_start == start && this.top == top && blocks == [] && lost == {}
      ensures And(p3[0], 3) != 0 && Present(p3[0]) && TableOf(p3[0]) == p2 && forall p :: 0 < p < ENTRIES ==> p3[p] == 0
      ensures forall x :: 0 <= x < SPACE ==> Walk(p3[..], mem, x) == if x < PAGE_WIDTH then Mapped(x, CACHED) else Unmapped
    {
      p3 := new nat[ENTRIES](_ => 0);
      mem := map[];
      malloc_start, blocks, lost, this.top := start, [], {}, top;
      new;
      hide TableOf, PageOf, FlagsOf, Or, Present, Load, PageEntry, TableEntry, And, Rounded;
      ghost var none := p3[..];
      TableEntryIs(p2);
      AlignUp(start, TABLE_BYTES);
      p3[0] := TableEntry(p2);
      OneTable(none, p2, start, top);
      TablesMore(p3[..], {}, start, Rounded(start, TABLE_BYTES), top);
      for i := 0 to ENTRIES
        invariant Filled(mem, p2, 0, 0, i) && Elsewhere(map[], mem, p2)
        modifies this`mem
      {
        StoreEntry(mem, map[], p2, 0, 0, i);
        mem := mem[p2 + 8 * i := PageEntry(PAGE_SIZE * i, 0)];
      }
      BootWalks(none, p3[..], mem, p2);
    }

    /** `malloc`. */
    method Malloc(size: nat) returns (start: nat)
      requires Valid() && Settled() && malloc_start + size <= top
      modifies this`malloc_start, this`blocks
      ensures Valid() && Settled() && blocks == old(blocks) + [Block(start, size)]
      ensures start == old(malloc_start) && malloc_start == start + size
    {
      hide TablesApart, Rounded;
      start := malloc_start;
      malloc_start := malloc_start + size;
      blocks := blocks + [Block(start, size)];
      AlignUp(malloc_start, TABLE_BYTES);
      TablesMore(p3[..], lost, start, malloc_start, top);
      TablesMore(p3[..], lost, start, Rounded(malloc_start, TABLE_BYTES), top);
    }

    /** `mallocA`: an aligned block after all earlier ones. */
    method MallocA(size: nat, align: nat) returns (start: nat)
      requires Valid() && align > 0 && (Settled() || align % TABLE_BYTES == 0) && Rounded(malloc_start, align) + size <= top
      modifies this`malloc_start, this`blocks
      ensures Valid() && Settled() && TablesApart(p3[..], lost, start, top) && blocks == old(blocks) + [Block(start, size)]
      ensures start % align == 0 && old(malloc_start) <= start == Rounded(old(malloc_start), align) < old(malloc_start) + align
      ensures malloc_start == start + size
    {
      hide TablesApart, Rounded;
      ghost var limit := if Settled() then malloc_start else Rounded(malloc_start, TABLE_BYTES);
      AlignUp(malloc_start, align);
      if align % TABLE_BYTES == 0 {
        MultipleOf(Rounded(malloc_start, align), align, TABLE_BYTES);
        RoundedIsFirst(malloc_start, TABLE_BYTES, Rounded(malloc_start, align));
      }
      malloc_start := Rounded(malloc_start, align);
      start := malloc_start;
      malloc_start := malloc_start + size;
      blocks := blocks + [Block(start, size)];
      AlignUp(malloc_start, TABLE_BYTES);
      TablesMore(p3[..], lost, limit, start, top);
      TablesMore(p3[..], lost, limit, malloc_start, top);
      TablesMore(p3[..], lost, limit, Rounded(malloc_start, TABLE_BYTES), top);
    }

    /** `AssignMallocMemoryMap`: the heap goes on at `start`, whatever has been given out before. */
    method ChooseHeap(start: nat, ghost top: nat)
      requires Valid() && 0 < start <= top <= U64_LIMIT
      modifies this`malloc_start, this`blocks, this`lost, this`top
      ensures Valid() && malloc_start == start && this.top == top && blocks == []
      ensures lost == old(lost) + Within(p3[..], Rounded(start, TABLE_BYTES), top)
    {
      hide TableOf, Present, Outside, Rounded;
      malloc_start, blocks, this.top := start, [], top;
      lost := lost + Within(p3[..], Rounded(start, TABLE_BYTES), top);
    }

    /** `updateMallocPtr`: the same memory goes on being given out, at higher addresses. */
    method MoveHeap(distance: nat)
      requires Valid() && Settled() && top + distance <= U64_LIMIT
      requires forall p :: 0 <= p < ENTRIES && Sound(p3[..], lost, p) ==> TableOf(p3[p]) + TABLE_BYTES <= malloc_start + distance
      modifies this`malloc_start, this`top
      ensures Valid() && Settled() && malloc_start == old(malloc_start) + distance && top == old(top) + distance
    {
      hide TableOf, Present, Rounded;
      malloc_start, top := malloc_start + distance, top + distance;
      AlignUp(malloc_start, TABLE_BYTES);
    }

    /** `MemoryPhysical`: the software page walk; null for an address that is not mapped. */
    method MemoryPhysical(x: nat) returns (r: nat)
      requires Valid() && x < SPACE
      ensures r == match Walk(p3[..], mem, x) case Mapped(a, _) => a case Unmapped => 0
    {
      hide TableOf, PageOf, FlagsOf, Or, Present, Load;
      var e := p3[x / PAGE_WIDTH];
      if !Present(e) {
        return 0;
      }
      var off := x % PAGE_WIDTH;
      var e2 := Load(mem, TableOf(e) + 8 * (off / PAGE_SIZE));
      if !Present(e2) {
        return 0;
      }
      PagePlusOffset(e2, off % PAGE_SIZE);
      r := Or(PageOf(e2), off % PAGE_SIZE);
    }

    /** `AllocatePage`: maps gigabyte `p` to consecutive pages from `address`, if nothing maps it. */
    method AllocatePage(p: nat, address: nat, flags: nat)
      requires Valid() && p < ENTRIES
      requires malloc_start + 2 * TABLE_BYTES <= top && address + PAGE_WIDTH <= U64_LIMIT
      modifies this`mem, this`malloc_start, this`blocks, p3
      ensures Valid() && old(malloc_start) <= malloc_start <= old(malloc_start) + 2 * TABLE_BYTES
      ensures And(old(p3[p]), 3) != 0 ==> p3[..] == old(p3[..]) && mem == old(mem) && malloc_start == old(malloc_start)
      ensures old(Settled()) || And(old(p3[p]), 3) == 0 ==> Settled()
      ensures And(p3[p], 3) != 0 && p3[..] == old(p3[..])[p := p3[p]]
      ensures And(old(p3[p]), 3) == 0 ==> Present(p3[p]) && TableOf(p3[p]) == Rounded(old(malloc_start), TABLE_BYTES)
      ensures And(old(p3[p]), 3) == 0 ==> forall x :: 0 <= x < SPACE && x / PAGE_WIDTH !in lost ==>
        if x / PAGE_WIDTH != p then Walk(p3[..], mem, x) == Walk(old(p3[..]), old(mem), x)
        else address % PAGE_SIZE == 0 && flags < PAGE_SIZE ==>
          Walk(p3[..], mem, x) == Mapped(address + x % PAGE_WIDTH, Or(PAGE_FLAGS, flags))
      ensures And(old(p3[p]), 3) == 0 ==>
        && IsTableEntry(p3[p], Rounded(old(malloc_start), TABLE_BYTES)) && Elsewhere(old(mem), mem, TableOf(p3[p]))
        && forall i :: 0 <= i < 512 ==> IsPageEntry(Load(mem, TableOf(p3[p]) + 8 * i), 0x20_0000 * i + address, flags)
    {
      hide TableOf, PageOf, FlagsOf, Or, Present, Load, PageEntry, TableEntry, And, Rounded;
      if And(p3[p], 3) != 0 {
        return;
      }
      ghost var p30, mem0 := p3[..], mem;
      AlignUp(malloc_start, TABLE_BYTES);
      var ptr := MallocA(TABLE_BYTES, TABLE_BYTES);
      TableEntryIs(ptr);
      p3[p] := TableEntry(ptr);
      TablesWith(p30, lost, p, ptr, top);
      AlignUp(malloc_start, TABLE_BYTES);
      TablesMore(p3[..], lost, malloc_start, Rounded(malloc_start, TABLE_BYTES), top);
      for i := 0 to ENTRIES
        invariant Filled(mem, ptr, address, flags, i) && Elsewhere(mem0, mem, ptr)
        modifies this`mem
      {
        StoreEntry(mem, mem0, ptr, address, flags, i);
        mem := mem[ptr + 8 * i := PageEntry(PAGE_SIZE * i + address, flags)];
      }
      EntriesMade(mem, ptr, address, flags);
      forall x | 0 <= x < SPACE && x / PAGE_WIDTH !in lost
        ensures if x / PAGE_WIDTH != p then Walk(p3[..], mem, x) == Walk(p30, mem0, x)
          else address % PAGE_SIZE == 0 && flags < PAGE_SIZE ==>
            Walk(p3[..], mem, x) == Mapped(address + x % PAGE_WIDTH, Or(PAGE_FLAGS, flags))
      {
        NewWalk(p30, p3[..], lost, mem0, mem, p, ptr, top, address, flags, x);
      }
    }

    /** `MemoryRemap`: changes the 2 MiB window of `to`, and no other translation. */
    method MemoryRemap(to: nat, from: nat, flags: nat)
      requires Valid() && to < SPACE && Sound(p3[..], lost, to / PAGE_WIDTH)
      modifies this`mem
      ensures Valid()
      ensures forall x :: 0 <= x < SPACE && x / PAGE_WIDTH !in lost ==>
        if x / PAGE_SIZE != to / PAGE_SIZE then Walk(p3[..], mem, x) == Walk(p3[..], old(mem), x)
        else from % PAGE_SIZE == 0 && flags < PAGE_SIZE ==> Walk(p3[..], mem, x) == Mapped(from + x % PAGE_SIZE, Or(PAGE_FLAGS, flags))
      ensures IsPageEntry(Load(mem, EntryOf(p3[..], to)), from, flags)
      ensures forall a :: 0 <= a && a != EntryOf(p3[..], to) ==> Load(mem, a) == Load(old(mem), a)
    {
      hide TableOf, PageOf, FlagsOf, Or, Present, PageEntry, Or;
      EntryBits(from, flags);
      Split(to);
      ghost var mem0 := mem;
      var p, offset := to / PAGE_WIDTH, to % PAGE_WIDTH / PAGE_SIZE;
      var table := TableOf(p3[p]);
      mem := mem[table + 8 * offset := PageEntry(from, flags)];
      forall x | 0 <= x < SPACE && x / PAGE_WIDTH !in lost
        ensures if x / PAGE_SIZE != to / PAGE_SIZE then Walk(p3[..], mem, x) == Walk(p3[..], mem0, x)
          else from % PAGE_SIZE == 0 && flags < PAGE_SIZE ==> Walk(p3[..], mem, x) == Mapped(from + x % PAGE_SIZE, Or(PAGE_FLAGS, flags))
      {
        RemappedWalk(p3[..], lost, mem0, mem, Rounded(malloc_start, TABLE_BYTES), top, to, from, flags, x);
      }
    }
  }

  lemma RemappedWalk(p3: seq<nat>, lost: set<nat>, mem0: map<nat, nat>, mem: map<nat, nat>, limit: nat, top: nat, to: nat,
                     from: nat, flags: nat, x: nat)
    requires TablesApart(p3, lost, limit, top) && to < SPACE && x < SPACE && Sound(p3, lost, to / PAGE_WIDTH) && x / PAGE_WIDTH !in lost
    requires mem == mem0[TableOf(p3[to / PAGE_WIDTH]) + 8 * (to % PAGE_WIDTH / PAGE_SIZE) := PageEntry(from, flags)]
    ensures if x / PAGE_SIZE != to / PAGE_SIZE then Walk(p3, mem, x) == Walk(p3, mem0, x)
      else from % PAGE_SIZE == 0 && flags < PAGE_SIZE ==> Walk(p3, mem, x) == Mapped(from + x % PAGE_SIZE, Or(PAGE_FLAGS, flags))
  {
    hide TableOf, PageOf, FlagsOf, Or, Present, PageEntry;
    Split(to);
    Split(x);
    SameWindow(x, to);
    if from % PAGE_SIZE == 0 && flags < PAGE_SIZE {
      PageEntryIs(from, flags);
    }
    if x / PAGE_SIZE != to / PAGE_SIZE && Present(p3[x / PAGE_WIDTH]) {
      DifferentWords(TableOf(p3[to / PAGE_WIDTH]), to % PAGE_WIDTH / PAGE_SIZE, TableOf(p3[x / PAGE_WIDTH]), x % PAGE_WIDTH / PAGE_SIZE);
      WalkKept(p3, p3, mem0, mem, x);
    }
  }

  /** Entries of aligned tables share a word only if they are the same entry. */
  lemma DifferentWords(t: nat, k: nat, u: nat, l: nat)
    requires t % TABLE_BYTES == 0 && u % TABLE_BYTES == 0 && k < ENTRIES && l < ENTRIES
    ensures t + 8 * k == u + 8 * l <==> t == u && k == l
  {
    if t + 8 * k == u + 8 * l {
      DivModUnique(t + 8 * k, TABLE_BYTES, t / TABLE_BYTES, 8 * k);
      DivModUnique(u + 8 * l, TABLE_BYTES, u / TABLE_BYTES, 8 * l);
    }
  }

  lemma Nothing(p3: seq<nat>, limit: nat, top: nat)
    requires |p3| == ENTRIES && forall p :: 0 <= p < ENTRIES ==> p3[p] == 0
    ensures TablesApart(p3, {}, limit, top)
  {
    AndOne(0);
  }

  lemma OneTable(none: seq<nat>, p2: nat, limit: nat, top: nat)
    requires |none| == ENTRIES && (forall p :: 0 <= p < ENTRIES ==> none[p] == 0) && p2 % TABLE_BYTES == 0 && Outside(p2, limit, top)
    ensures TablesApart(none[0 := TableEntry(p2)], {}, limit, top)
  {
    hide TableOf, Present, TableEntry;
    TableEntryIs(p2);
    NothingPresent();
  }

  lemma NothingPresent()
    ensures !Present(0)
  {
    AndOne(0);
  }

  lemma TablesMore(p3: seq<nat>, lost: set<nat>, limit: nat, more: nat, top: nat)
    requires TablesApart(p3, lost, limit, top) && limit <= more
    ensures TablesApart(p3, lost, more, top)
  {
    hide TableOf, Present;
  }

  lemma NothingMapped(p3: seq<nat>, mem: map<nat, nat>, x: nat)
    requires |p3| == ENTRIES && x < SPACE && forall p :: 0 <= p < ENTRIES ==> p3[p] == 0
    ensures Walk(p3, mem, x) == Unmapped
  {
    AndOne(0);
  }

  /** With the first table in place, the first gigabyte is mapped to itself and nothing else is. */
  lemma BootWalks(none: seq<nat>, p3: seq<nat>, mem: map<nat, nat>, p2: nat)
    requires |none| == ENTRIES && forall p :: 0 <= p < ENTRIES ==> none[p] == 0
    requires p3 == none[0 := TableEntry(p2)] && p2 % TABLE_BYTES == 0
    requires Filled(mem, p2, 0, 0, ENTRIES) && Elsewhere(map[], mem, p2)
    ensures forall x :: 0 <= x < SPACE ==> Walk(p3, mem, x) == if x < PAGE_WIDTH then Mapped(x, CACHED) else Unmapped
  {
    hide TableOf, PageOf, FlagsOf, Or, Present, Load, PageEntry, TableEntry, And;
    Nothing(none, p2, p2 + TABLE_BYTES);
    KernelFlags();
    forall x | 0 <= x < SPACE ensures Walk(p3, mem, x) == if x < PAGE_WIDTH then Mapped(x, CACHED) else Unmapped {
      NewWalk(none, p3, {}, map[], mem, 0, p2, p2 + TABLE_BYTES, 0, 0, x);
      NothingMapped(none, map[], x);
      FirstGigabyte(x);
    }
  }

  lemma FirstGigabyte(x: nat)
    ensures x / PAGE_WIDTH == 0 <==> x < PAGE_WIDTH
    ensures x < PAGE_WIDTH ==> x % PAGE_WIDTH == x
  {
  }

  /** The first `n` entries of the table at `ptr` map pages from `address` on. */
  ghost predicate Filled(mem: map<nat, nat>, ptr: nat, address: nat, flags: nat, n: nat) {
    forall k :: 0 <= k < n ==> Load(mem, ptr + 8 * k) == PageEntry(PAGE_SIZE * k + address, flags)
  }

  lemma EntriesMade(mem: map<nat, nat>, ptr: nat, address: nat, flags: nat)
    requires Filled(mem, ptr, address, flags, ENTRIES)
    ensures IsTableEntry(TableEntry(ptr), ptr)
    ensures forall i :: 0 <= i < 512 ==> IsPageEntry(Load(mem, ptr + 8 * i), 0x20_0000 * i + address, flags)
  {
    hide Load, PageEntry, TableEntry, IsPageEntry, IsTableEntry;
    EntryBits(ptr, 0);
    forall i | 0 <= i < 512 ensures IsPageEntry(Load(mem, ptr + 8 * i), 0x20_0000 * i + address, flags) {
      EntryBits(PAGE_SIZE * i + address, flags);
    }
  }

  ghost predicate Elsewhere(mem: map<nat, nat>, mem': map<nat, nat>, ptr: nat) {
    forall a :: 0 <= a < ptr || ptr + TABLE_BYTES <= a ==> Load(mem', a) == Load(mem, a)
  }

  lemma StoreEntry(mem: map<nat, nat>, mem0: map<nat, nat>, ptr: nat, address: nat, flags: nat, i: nat)
    requires i < ENTRIES && Filled(mem, ptr, address, flags, i) && Elsewhere(mem0, mem, ptr)
    ensures var m := mem[ptr + 8 * i := PageEntry(PAGE_SIZE * i + address, flags)];
      Filled(m, ptr, address, flags, i + 1) && Elsewhere(mem0, m, ptr)
  {
    hide PageEntry;
  }

  /** A table at the front of the heap is apart from all others. */
  lemma TablesWith(p3: seq<nat>, lost: set<nat>, p: nat, ptr: nat, top: nat)
    requires TablesApart(p3, lost, ptr, top) && p < ENTRIES && ptr % TABLE_BYTES == 0 && ptr + TABLE_BYTES <= top
    ensures TablesApart(p3[p := TableEntry(ptr)], lost, ptr + TABLE_BYTES, top)
  {
    hide TableOf, Present, TableEntry;
    TableEntryIs(ptr);
  }

  lemma NewWalk(p30: seq<nat>, p3: seq<nat>, lost: set<nat>, mem0: map<nat, nat>, mem: map<nat, nat>, p: nat,
                ptr: nat, top: nat, address: nat, flags: nat, x: nat)
    requires TablesApart(p30, lost, ptr, top) && ptr + TABLE_BYTES <= top && p < ENTRIES
    requires p3 == p30[p := TableEntry(ptr)] && ptr % TABLE_BYTES == 0
    requires x < SPACE && x / PAGE_WIDTH !in lost && Filled(mem, ptr, address, flags, ENTRIES) && Elsewhere(mem0, mem, ptr)
    ensures if x / PAGE_WIDTH != p then Walk(p3, mem, x) == Walk(p30, mem0, x)
      else address % PAGE_SIZE == 0 && flags < PAGE_SIZE ==> Walk(p3, mem, x) == Mapped(address + x % PAGE_WIDTH, Or(PAGE_FLAGS, flags))
  {
    hide TableOf, PageOf, FlagsOf, Or, Present, Load, PageEntry, TableEntry;
    Split(x);
    TableEntryIs(ptr);
    if x / PAGE_WIDTH != p {
      WalkKept(p30, p3, mem0, mem, x);
    } else if address % PAGE_SIZE == 0 && flags < PAGE_SIZE {
      PageEntryIs(PAGE_SIZE * (x % PAGE_WIDTH / PAGE_SIZE) + address, flags);
    }
  }
}
