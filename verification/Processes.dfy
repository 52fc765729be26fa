/** Process.c: the pages of processes, and how they are put in place of each other in the one user
    address range. */
module Processes {
  import opened Bits
  import opened PageBits
  import opened Paging
  import opened Frames
  import opened Kernel

  /** A process's pages; a page that could not be allocated is null. */
  datatype Memory = Memory(base: nat, stackTop: int, stackBase: nat)

  predicate Complete(m: Memory) {
    m.base != 0 && m.stackBase != 0
  }

  predicate Owns(m: Memory, page: nat) {
    page != 0 && (page == m.base || page == m.stackBase)
  }

  /** Every page of a process is live and a whole frame, and no page belongs to two processes or
      is both program and stack. */
  ghost predicate Isolated(ms: seq<Memory>, live: set<nat>) {
    && (forall i: nat, page: nat {:trigger Owns(ms[i], page)} :: i < |ms| && Owns(ms[i], page) ==> page in live && page % PAGE_SIZE == 0)
    && (forall i :: 0 <= i < |ms| && Complete(ms[i]) ==> ms[i].base != ms[i].stackBase)
    && (forall i: nat, j: nat, page: nat :: i < j < |ms| && Owns(ms[i], page) ==> !Owns(ms[j], page))
  }

  /** Other pages may come and go. */
  lemma IsolatedKept(ms: seq<Memory>, live: set<nat>, live': set<nat>)
    requires Isolated(ms, live) && forall i: nat, page: nat {:trigger Owns(ms[i], page)} :: i < |ms| && Owns(ms[i], page) ==> page in live'
    ensures Isolated(ms, live')
  {
  }

  /** What other users of the allocator ask for: a page, or to give one back. */
  datatype Request = Take | Give(page: nat)

  /** The page is one of the allocator's and no process has it. */
  ghost predicate Others(ms: seq<Memory>, page: nat) {
    (exists id :: 0 <= id < ENTRIES && page == Frame(id)) && forall i :: 0 <= i < |ms| ==> !Owns(ms[i], page)
  }

  /** However pages are taken and given back by others, the processes stay isolated. */
  method Serve(a: Allocator, ghost ms: seq<Memory>, requests: seq<Request>)
    requires a.Valid() && Isolated(ms, a.live)
    requires forall k :: 0 <= k < |requests| && requests[k].Give? ==> Others(ms, requests[k].page)
    modifies a.page_allocator, a`live
    ensures a.Valid() && Isolated(ms, a.live)
  {
    hide Allocator.Valid, Isolated, Owns;
    for k := 0 to |requests|
      invariant a.Valid() && Isolated(ms, a.live)
    {
      ghost var live := a.live;
      match requests[k] {
        case Take =>
          var page := a.PageAllocate();
        case Give(page) =>
          assert Others(ms, requests[k].page);
          a.PageDealloc(page);
      }
      OwnedAreLive(ms, live);
      IsolatedKept(ms, live, a.live);
    }
  }

  lemma OwnedAreLive(ms: seq<Memory>, live: set<nat>)
    requires Isolated(ms, live)
    ensures forall i: nat, page: nat {:trigger Owns(ms[i], page)} :: i < |ms| && Owns(ms[i], page) ==> page in live
  {
  }

  /** A new process on pages that were not live. */
  lemma IsolatedAdded(ms: seq<Memory>, live: set<nat>, m: Memory, live': set<nat>)
    requires Isolated(ms, live) && live <= live' && (Complete(m) ==> m.base != m.stackBase)
    requires forall page: nat {:trigger Owns(m, page)} :: Owns(m, page) ==> page in live' && page !in live && page % PAGE_SIZE == 0
    ensures Isolated(ms + [m], live')
  {
    hide Owns, Complete;
    var all := ms + [m];
    forall i: nat, j: nat, page: nat | 0 <= i < j < |all| && Owns(all[i], page) ensures !Owns(all[j], page) {
      if j == |ms| {
        assert Owns(ms[i], page);
      }
    }
  }

  /** The program got the first free page, and the stack the next. */
  ghost predicate GivenTwo(slots: seq<int>, slots': seq<int>, m: Memory) {
    exists mid :: Given(slots, mid, m.base, 1) && Given(mid, slots', m.stackBase, 1)
  }

  /** Exactly the slots below `n` are taken. */
  ghost predicate TakenBelow(slots: seq<int>, n: nat) {
    |slots| == ENTRIES && forall k :: 0 <= k < ENTRIES ==> (slots[k] != 0 <==> k < n)
  }

  lemma GivenNext(slots: seq<int>, slots': seq<int>, page: nat, n: nat)
    requires TakenBelow(slots, n) && n < ENTRIES && Given(slots, slots', page, 1)
    ensures page == 0x4000_0000 + 0x20_0000 * n && TakenBelow(slots', n + 1)
  {
    var id :| 0 <= id && page == 0x4000_0000 + 0x20_0000 * id && FirstFree(slots, id, 1) && Marked(slots, slots', id, 1);
    assert slots[id] == 0;
    if id > n {
      assert FreeFrom(slots, n, 1);
    }
  }

  lemma GivenNextTwo(slots: seq<int>, slots': seq<int>, m: Memory, i: nat)
    requires TakenBelow(slots, 2 * i) && 2 * i + 2 <= ENTRIES && GivenTwo(slots, slots', m)
    ensures m.base == 0x4000_0000 + 0x40_0000 * i && m.stackBase == m.base + 0x20_0000 && TakenBelow(slots', 2 * i + 2)
  {
    hide Given, TakenBelow;
    var mid :| Given(slots, mid, m.base, 1) && Given(mid, slots', m.stackBase, 1);
    GivenNext(slots, mid, m.base, 2 * i);
    GivenNext(mid, slots', m.stackBase, 2 * i + 1);
  }

  /** `ProcessSetUpPages`: one page for the program and one for the stack. */
  method SetUpPages(a: Allocator, ghost ms: seq<Memory>) returns (m: Memory)
    requires a.Valid() && Isolated(ms, a.live)
    modifies a.page_allocator, a`live
    ensures a.Valid() && Isolated(ms + [m], a.live)
    ensures Complete(m) <==> old(|a.live|) + 2 <= ENTRIES
    ensures |a.live| <= old(|a.live|) + 2
    ensures m.stackTop == m.stackBase + PAGE_SIZE - 0x10
    ensures Complete(m) ==> GivenTwo(old(a.page_allocator[..]), a.page_allocator[..], m)
  {
    hide Walk, Pager.Valid, SecondGigabyte, Isolated, Count, Given, FreeFrom, Run;
    ghost var live := a.live;
    FullTable(a);
    var base := a.PageAllocateN(1);
    SinglePage(base);
    FullTable(a);
    ghost var live1, mid := a.live, a.page_allocator[..];
    var stack := a.PageAllocateN(1);
    SinglePage(stack);
    m := Memory(base, stack + PAGE_SIZE - 0x10, stack);
    if Complete(m) { assert Given(old(a.page_allocator[..]), mid, m.base, 1) && Given(mid, a.page_allocator[..], m.stackBase, 1); }
    IsolatedAdded(ms, live, m, a.live);
  }

  lemma SinglePage(page: nat)
    ensures Run(page, 1) == {page}
  {
    assert page + PAGE_SIZE * 0 in Run(page, 1);
  }

  /** All slots are taken exactly when all pages are live. */
  lemma FullTable(a: Allocator)
    requires a.Valid()
    ensures |a.live| == ENTRIES <==> forall id :: 0 <= id < ENTRIES ==> a.page_allocator[id] != 0
    ensures |a.live| <= ENTRIES
  {
    hide Walk, Pager.Valid, SecondGigabyte, Count;
    CountZero(a.page_allocator[..]);
  }

  lemma {:induction false} CountZero(slots: seq<int>)
    ensures Count(slots) == 0 <==> forall k :: 0 <= k < |slots| ==> slots[k] != 0
    decreases |slots|
  {
    if slots != [] {
      CountZero(slots[1..]);
      assert forall k :: 0 < k < |slots| ==> slots[k] == slots[1..][k - 1];
      assert forall k :: 0 <= k < |slots| - 1 ==> slots[1..][k] == slots[k + 1];
    }
  }

  // ----- the user address range -----

  /** Where a process's user address lies in physical memory. */
  function UserPhysical(m: Memory, x: nat): nat {
    (if InProgram(x) then m.base else m.stackBase) + x % PAGE_SIZE
  }

  /** `ProcessRemap`: the user range now shows this process, and nothing else has moved. */
  method Remap(a: Allocator, m: Memory)
    requires a.Valid() && Sound(a.pager.p3[..], a.pager.lost, 0) && m.base % PAGE_SIZE == 0 && m.stackBase % PAGE_SIZE == 0
    requires Clear(a.pager.p3[..], a.pager.lost)
    modifies a.pager`mem
    ensures a.Valid()
    ensures forall x :: 0 <= x < SPACE && x / PAGE_WIDTH !in a.pager.lost ==>
      Walk(a.pager.p3[..], a.pager.mem, x)
      == if InProgram(x) || InStack(x) then Mapped(UserPhysical(m, x), CACHED) else Walk(a.pager.p3[..], old(a.pager.mem), x)
  {
    hide Walk, Sound, Pager.Valid, Count, Or, IsPageEntry, EntryOf;
    KernelFlags();
    var pager := a.pager;
    ghost var mem0 := pager.mem;
    for i := 0 to 1
      invariant pager.Valid()
      invariant i == 0 ==> pager.mem == mem0
      invariant i == 1 ==> forall x :: 0 <= x < SPACE && x / PAGE_WIDTH !in pager.lost ==>
        Walk(pager.p3[..], pager.mem, x) == if InProgram(x) then Mapped(m.base + x % PAGE_SIZE, CACHED) else Walk(pager.p3[..], mem0, x)
    {
      pager.MemoryRemap(USER_BASE + PAGE_SIZE * i, m.base + i * PAGE_SIZE, USER_FLAGS);
    }
    pager.MemoryRemap(USER_STACK, m.stackBase, USER_FLAGS);
  }

  /** In the user windows, two processes whose pages were allocated have no physical address in common,
      nor has one process the same one twice. */
  lemma UserMemoryApart(ms: seq<Memory>, live: set<nat>, i: nat, j: nat, x: nat, y: nat)
    requires Isolated(ms, live) && i < |ms| && j < |ms| && Complete(ms[i]) && Complete(ms[j])
    requires (InProgram(x) || InStack(x)) && (InProgram(y) || InStack(y)) && (i != j || x != y)
    ensures UserPhysical(ms[i], x) != UserPhysical(ms[j], y)
  {
    var p := if InProgram(x) then ms[i].base else ms[i].stackBase;
    var q := if InProgram(y) then ms[j].base else ms[j].stackBase;
    assert Owns(ms[i], p) && Owns(ms[j], q);
    if p + x % PAGE_SIZE == q + y % PAGE_SIZE {
      SamePage(p, x % PAGE_SIZE, q, y % PAGE_SIZE);
    }
  }

  // ----- which addresses reach whose memory -----

  /** The kernel's layout with a process's pages in the user windows. */
  function UserLayout(fb: nat, apic: Apic, m: Memory): (l: Layout)
    requires apic.Good()
    ensures l.Good()
  {
    var windows := apic.Windows()[USER_BASE / PAGE_SIZE := Page(m.base, CACHED)];
    Layout(KernelBases(fb), windows[USER_STACK / PAGE_SIZE := Page(m.stackBase, CACHED)])
  }

  /** Process `m` is in place: its pages are in the user windows, the kernel's mappings around them. */
  ghost predicate InPlace(p3: seq<nat>, mem: map<nat, nat>, lost: set<nat>, fb: nat, apic: Apic, m: Memory) {
    apic.Good() && Maps(p3, mem, lost, UserLayout(fb, apic, m)) && Clear(p3, lost)
  }

  /** In numbers: 4 MiB to 6 MiB show the program page, 8 MiB to 10 MiB the stack page, and all else is as
      the kernel left it. */
  lemma InPlaceInNumbers(p3: seq<nat>, mem: map<nat, nat>, lost: set<nat>, fb: nat, apic: Apic, m: Memory, x: nat)
    requires InPlace(p3, mem, lost, fb, apic, m) && x < SPACE && x / PAGE_WIDTH !in lost
    ensures Walk(p3, mem, x) ==
      if 0x40_0000 <= x < 0x60_0000 then Mapped(m.base + (x - 0x40_0000), 0x87)
      else if 0x80_0000 <= x < 0xA0_0000 then Mapped(m.stackBase + (x - 0x80_0000), 0x87)
      else KernelMap(fb, apic, x)
  {
    hide Walk, And, Present, KernelBases, KernelMap;
    LayoutInNumbers(fb, apic, x);
  }

  /** Address `x` is translated into the 2 MiB page `page`. */
  ghost predicate Reaches(p3: seq<nat>, mem: map<nat, nat>, x: nat, page: nat)
    requires |p3| == ENTRIES && x < SPACE
  {
    var w := Walk(p3, mem, x);
    w.Mapped? && page <= w.address < page + PAGE_SIZE
  }

  /** The kernel's mappings take `x` into a page of the allocator: from the page's own address, from one
      of the five aliases of the second gigabyte, or through the window of an I/O APIC at that page. */
  predicate KernelReaches(fb: nat, apic: Apic, x: nat, page: nat) {
    var p := x / PAGE_WIDTH;
    if apic.Apic? && x / PAGE_SIZE == apic.io then page == apic.target
    else if apic.Apic? && x / PAGE_SIZE == apic.local then false
    else page <= x < page + PAGE_SIZE || (IsAlias(fb, p) && page <= AliasBase(p) + x % PAGE_WIDTH < page + PAGE_SIZE)
  }

  /** While process `j` is in place, an address in a user window reaches a page of process `i` exactly
      when that is the window's page and `i` is `j`; any other address reaches it exactly when the
      kernel's mappings take it there, whoever's page it is. */
  lemma ReachesExactly(p3: seq<nat>, mem: map<nat, nat>, lost: set<nat>, fb: nat, apic: Apic, ms: seq<Memory>, live: set<nat>,
                       i: nat, j: nat, page: nat, x: nat)
    requires Isolated(ms, live) && i < |ms| && j < |ms| && Complete(ms[j]) && InPlace(p3, mem, lost, fb, apic, ms[j])
    requires Owns(ms[i], page) && (exists id :: 0 <= id < ENTRIES && page == Frame(id)) && x < SPACE && x / PAGE_WIDTH !in lost
    ensures Reaches(p3, mem, x, page) <==>
      if InProgram(x) then i == j && page == ms[j].base
      else if InStack(x) then i == j && page == ms[j].stackBase
      else KernelReaches(fb, apic, x, page)
  {
    hide Walk, KernelReaches, KernelBases, And, Present;
    assert page % PAGE_SIZE == 0 && PAGE_WIDTH <= page && page + PAGE_SIZE <= 2 * PAGE_WIDTH;
    if InWindow(x) {
      var q := if InProgram(x) then ms[j].base else ms[j].stackBase;
      assert Owns(ms[j], q);
      WithinPage(q, x % PAGE_SIZE, page);
    } else {
      KernelTarget(fb, apic, ms[j], x, page);
    }
  }

  lemma KernelTarget(fb: nat, apic: Apic, m: Memory, x: nat, page: nat)
    requires apic.Good() && x < SPACE && !InWindow(x)
    requires page % PAGE_SIZE == 0 && PAGE_WIDTH <= page && page + PAGE_SIZE <= 2 * PAGE_WIDTH
    ensures var w := UserLayout(fb, apic, m).Target(x);
      w.Mapped? && page <= w.address < page + PAGE_SIZE <==> KernelReaches(fb, apic, x, page)
  {
    hide KernelBases;
    var p, r := x / PAGE_WIDTH, x % PAGE_WIDTH;
    assert x == p * PAGE_WIDTH + r;
    if p >= 2 {
      MulMono(PAGE_WIDTH, 2, p);
    }
    if apic.Apic? && x / PAGE_SIZE == apic.io {
      WithinPage(apic.target, x % PAGE_SIZE, page);
    }
  }

  lemma WithinPage(q: nat, r: nat, page: nat)
    requires q % PAGE_SIZE == 0 && page % PAGE_SIZE == 0 && r < PAGE_SIZE
    ensures page <= q + r < page + PAGE_SIZE <==> q == page
  {
    if page <= q + r < page + PAGE_SIZE {
      SamePage(q, r, page, q + r - page);
    }
  }

  /** So processes do share memory: the pages of process `i` are within reach of process `j`, at their
      own addresses, and for user mode. */
  lemma PagesAreShared(p3: seq<nat>, mem: map<nat, nat>, lost: set<nat>, fb: nat, apic: Apic, ms: seq<Memory>, live: set<nat>,
                       i: nat, j: nat, r: nat)
    requires Isolated(ms, live) && i < |ms| && j < |ms| && i != j && Complete(ms[i]) && Complete(ms[j])
    requires InPlace(p3, mem, lost, fb, apic, ms[j]) && 1 !in lost
    requires r < PAGE_SIZE && exists id :: 0 <= id < ENTRIES && ms[i].base == Frame(id)
    ensures ms[i].base + r < SPACE && Reaches(p3, mem, ms[i].base + r, ms[i].base)
  {
    hide Walk, Isolated, KernelBases, And, Present, KernelReaches, Layout.Target, UserLayout;
    var page := ms[i].base;
    OwnAddress(fb, apic, page, r);
    KernelTarget(fb, apic, ms[j], page + r, page);
  }

  /** A page of the allocator is reached from its own addresses. */
  lemma OwnAddress(fb: nat, apic: Apic, page: nat, r: nat)
    requires apic.Good() && r < PAGE_SIZE && exists id :: 0 <= id < ENTRIES && page == Frame(id)
    ensures page % PAGE_SIZE == 0 && PAGE_WIDTH <= page && page + PAGE_SIZE <= 2 * PAGE_WIDTH
    ensures (page + r) / PAGE_WIDTH == 1 && page + r < SPACE && !InWindow(page + r) && KernelReaches(fb, apic, page + r, page)
  {
    WindowOf(page + r);
    assert (page + r) / PAGE_WIDTH == 1;
  }

  /** Every process starts with its stack pointer at the bottom of the stack window, so what it pushes
      first lies below the window, in a word of memory that all processes share. */
  lemma FirstPushIsShared(p3: seq<nat>, mem: map<nat, nat>, lost: set<nat>, fb: nat, apic: Apic, m: Memory)
    requires InPlace(p3, mem, lost, fb, apic, m) && 0 !in lost
    ensures USER_STACK - 8 == 0x7F_FFF8 && !InWindow(0x7F_FFF8) && Walk(p3, mem, 0x7F_FFF8) == Mapped(0x7F_FFF8, 0x87)
  {
    hide Walk, And, Present;
    assert Walk(p3, mem, 0x7F_FFF8) == UserLayout(fb, apic, m).Target(0x7F_FFF8);
  }

  /** The processor, too, goes where this says, except from the aliases, whose tables it looks for at the
      physical addresses that equal their addresses in the window of the heap. */
  lemma ProcessorReaches(p3: seq<nat>, mem: map<nat, nat>, phys: map<nat, nat>, lost: set<nat>, m: Machine, apic: Apic,
                         process: Memory, x: nat)
    requires m.Good() && InPlace(p3, mem, lost, m.fb, apic, process) && 0 !in lost && Placed(p3, lost, m) && Backs(phys, p3, mem)
    requires x < SPACE && x / PAGE_WIDTH !in lost && !IsAlias(m.fb, x / PAGE_WIDTH)
    ensures Walk(p3, phys, x) == Walk(p3, mem, x)
  {
    hide Walk, Present, TableOf, And, Maps;
    Shape(p3, mem, lost, UserLayout(m.fb, apic, process));
    Split(x);
    if Present(p3[x / PAGE_WIDTH]) {
      assert Sound(p3, lost, x / PAGE_WIDTH);
      HeapFits(m);
      EntryInWindow(TableOf(p3[x / PAGE_WIDTH]), x % PAGE_WIDTH / PAGE_SIZE);
      LowTarget(p3, mem, lost, m.fb, apic, process, EntryOf(p3, x));
      ProcessorAgrees(p3, mem, phys, lost, UserLayout(m.fb, apic, process), x);
    } else {
      NotPresent(p3, mem, phys, x);
    }
  }

  /** The entries of a table are in the window that it is in. */
  lemma EntryInWindow(table: nat, k: nat)
    requires table % TABLE_BYTES == 0 && k < ENTRIES
    ensures InWindow(table + 8 * k) <==> InWindow(table)
  {
  }

  lemma LowTarget(p3: seq<nat>, mem: map<nat, nat>, lost: set<nat>, fb: nat, apic: Apic, m: Memory, a: nat)
    requires InPlace(p3, mem, lost, fb, apic, m) && 0 !in lost && a < PAGE_WIDTH && !InWindow(a)
    ensures Walk(p3, mem, a) == Mapped(a, CACHED)
  {
    hide Walk, And, Present;
    WindowOf(a);
    assert a / PAGE_WIDTH == 0;
  }

  lemma NotPresent(p3: seq<nat>, mem: map<nat, nat>, phys: map<nat, nat>, x: nat)
    requires |p3| == ENTRIES && x < SPACE && !Present(p3[x / PAGE_WIDTH])
    ensures Walk(p3, phys, x) == Walk(p3, mem, x)
  {
    hide Present;
  }

  /** From power-on: the kernel starts, `n` processes get pages, and process `k` is put in place. */
  method StartProcesses(m: Machine, n: nat, k: nat) returns (a: Allocator, ghost apic: Apic, ms: seq<Memory>)
    requires m.Good() && m.Aside() && k < n
    ensures a.Valid() && |ms| == n && Isolated(ms, a.live) && a.pager.lost == if m.Overlaps() then {BOOT_GIGABYTE} else {}
    ensures InPlace(a.pager.p3[..], a.pager.mem, a.pager.lost, m.fb, apic, ms[k])
    ensures FirstTables(a.pager.p3[..], m) && Placed(a.pager.p3[..], a.pager.lost, m)
    ensures forall i :: 0 <= i < n && 2 * i + 2 <= ENTRIES ==> Complete(ms[i])
    ensures forall i :: 0 <= i < n && i < 256 ==> ms[i].base == 0x4000_0000 + 0x40_0000 * i && ms[i].stackBase == ms[i].base + 0x20_0000
  {
    hide Walk, Pager.Valid, Sound, Isolated, Maps, Clear, Allocator.Valid, FirstTables, Placed, KernelBases, GivenTwo, TakenBelow;
    a, apic := Boot(m);
    FirstIsSound(a.pager.p3[..], a.pager.mem, a.pager.lost, m.fb, apic);
    PlacedIsClear(a.pager.p3[..], a.pager.lost, m);
    ms := [];
    NoProcesses(a.live);
    NothingTaken(a);
    ghost var p3, mem := a.pager.p3[..], a.pager.mem;
    for i := 0 to n
      invariant a.Valid() && |ms| == i && Isolated(ms, a.live) && |a.live| <= 2 * i
      invariant a.pager.p3[..] == p3 && a.pager.mem == mem && a.pager.lost == if m.Overlaps() then {BOOT_GIGABYTE} else {}
      invariant forall l :: 0 <= l < i && 2 * l + 2 <= ENTRIES ==> Complete(ms[l])
      invariant i <= 256 ==> TakenBelow(a.page_allocator[..], 2 * i)
      invariant forall l :: 0 <= l < i && l < 256 ==> ms[l].base == 0x4000_0000 + 0x40_0000 * l && ms[l].stackBase == ms[l].base + 0x20_0000
    {
      ghost var slots := a.page_allocator[..];
      var pages := SetUpPages(a, ms);
      if i < 256 { GivenNextTwo(slots, a.page_allocator[..], pages, i); }
      ms := ms + [pages];
    }
    Aligned(ms, a.live, k);
    Remap(a, ms[k]);
    RemapShows(p3, mem, a.pager.mem, a.pager.lost, m.fb, apic, ms[k]);
  }

  lemma FirstIsSound(p3: seq<nat>, mem: map<nat, nat>, lost: set<nat>, fb: nat, apic: Apic)
    requires apic.Good() && Maps(p3, mem, lost, KernelLayout(fb, apic)) && 0 !in lost
    ensures Sound(p3, lost, 0)
  {
    hide Walk, And, Present;
  }

  lemma NothingTaken(a: Allocator)
    requires a.Valid() && a.live == {}
    ensures TakenBelow(a.page_allocator[..], 0)
  {
    hide Walk, Pager.Valid, SecondGigabyte, Count;
  }

  lemma NoProcesses(live: set<nat>)
    ensures Isolated([], live)
  {
  }

  lemma Aligned(ms: seq<Memory>, live: set<nat>, k: nat)
    requires Isolated(ms, live) && k < |ms|
    ensures ms[k].base % PAGE_SIZE == 0 && ms[k].stackBase % PAGE_SIZE == 0
  {
    assert ms[k].base != 0 ==> Owns(ms[k], ms[k].base);
    assert ms[k].stackBase != 0 ==> Owns(ms[k], ms[k].stackBase);
  }

  lemma RemapShows(p3: seq<nat>, mem0: map<nat, nat>, mem: map<nat, nat>, lost: set<nat>, fb: nat, apic: Apic, m: Memory)
    requires apic.Good() && Maps(p3, mem0, lost, KernelLayout(fb, apic)) && Clear(p3, lost)
    requires forall x :: 0 <= x < SPACE && x / PAGE_WIDTH !in lost ==>
      Walk(p3, mem, x) == if InProgram(x) || InStack(x) then Mapped(UserPhysical(m, x), CACHED) else Walk(p3, mem0, x)
    ensures InPlace(p3, mem, lost, fb, apic, m)
  {
    hide Walk, And, Present, KernelBases;
  }

  lemma SamePage(p: nat, r: nat, q: nat, s: nat)
    requires p % PAGE_SIZE == 0 && q % PAGE_SIZE == 0 && r < PAGE_SIZE && s < PAGE_SIZE && p + r == q + s
    ensures p == q && r == s
  {
    DivModUnique(p + r, PAGE_SIZE, p / PAGE_SIZE, r);
    DivModUnique(q + s, PAGE_SIZE, q / PAGE_SIZE, s);
  }
}
