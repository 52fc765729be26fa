/** The 512-slot page allocator of paging.c, and the pages that Process.c takes from it. */
module Frames {
  import Bits
  import opened PageBits
  import opened Paging


  /** The physical page of slot `id`: the allocator hands out the second gigabyte. */
  function Frame(id: nat): nat {
    PAGE_WIDTH + PAGE_SIZE * id
  }

  lemma FrameSlot(id: nat)
    requires id < ENTRIES
    ensures Frame(id) / PAGE_SIZE % ENTRIES == id && Frame(id) % PAGE_SIZE == 0 && Frame(id) != 0
  {
    Bits.DivModUnique(Frame(id), PAGE_SIZE, ENTRIES + id, 0);
    Bits.DivModUnique(ENTRIES + id, ENTRIES, 1, id);
  }

  function Count(slots: seq<int>): nat {
    if slots == [] then 0 else (if slots[0] == 0 then 1 else 0) + Count(slots[1..])
  }

  lemma {:induction false} CountUpdate(slots: seq<int>, id: nat, v: int)
    requires id < |slots| && (slots[id] == 0) != (v == 0)
    ensures Count(slots[id := v]) == if v == 0 then Count(slots) + 1 else Count(slots) - 1
    decreases |slots|
  {
    var t := slots[id := v];
    if id == 0 {
      assert t[1..] == slots[1..];
    } else {
      assert t[1..] == slots[1..][id - 1 := v];
      CountUpdate(slots[1..], id - 1, v);
    }
  }

  lemma {:induction false} CountAll(slots: seq<int>)
    requires forall k :: 0 <= k < |slots| ==> slots[k] == 0
    ensures Count(slots) == |slots|
    decreases |slots|
  {
    if slots != [] { CountAll(slots[1..]); }
  }

  /** The slots of a run, as far as they are in the table, are free. */
  ghost predicate FreeFrom(slots: seq<int>, i: nat, n: nat) {
    forall k :: i <= k < i + n && k < |slots| ==> slots[k] == 0
  }

  /** And `id` is the first slot of which that holds. */
  ghost predicate FirstFree(slots: seq<int>, id: nat, n: nat) {
    id < |slots| && FreeFrom(slots, id, n) && forall i :: 0 <= i < id ==> !FreeFrom(slots, i, n)
  }

  /** Slots `id` to `id + n - 1` are marked with `n`, and nothing else has changed. */
  ghost predicate Marked(slots: seq<int>, slots': seq<int>, id: nat, n: nat) {
    |slots'| == |slots| && forall k :: 0 <= k < |slots| ==> slots'[k] == if id <= k < id + n then n else slots[k]
  }

  /** The page of the first run of `n` free slots is given out, at 1 GiB and 2 MiB for each slot before. */
  ghost predicate Given(slots: seq<int>, slots': seq<int>, page: nat, n: nat) {
    exists id :: 0 <= id && page == 0x4000_0000 + 0x20_0000 * id && FirstFree(slots, id, n) && Marked(slots, slots', id, n)
  }

  /** The second gigabyte is mapped to itself. */
  ghost predicate SecondGigabyte(p3: seq<nat>, mem: map<nat, nat>) {
    |p3| == ENTRIES && forall x :: PAGE_WIDTH <= x < 2 * PAGE_WIDTH ==> Walk(p3, mem, x) == Mapped(x, CACHED)
  }

  lemma FrameInTable(p3: seq<nat>, mem: map<nat, nat>, id: nat)
    requires SecondGigabyte(p3, mem) && id < ENTRIES
    ensures PageOf(Load(mem, TableOf(p3[1]) + 8 * id)) == Frame(id)
  {
    hide PageOf, FlagsOf, TableOf, Present, Load;
    var x := Frame(id);
    Bits.DivModUnique(x, PAGE_WIDTH, 1, PAGE_SIZE * id);
    Bits.DivModUnique(PAGE_SIZE * id, PAGE_SIZE, id, 0);
    assert Walk(p3, mem, x) == Mapped(x, CACHED);
  }

  class Allocator {
    const pager: Pager
    const page_allocator: array<int>
    // the pages handed out and not yet given back
    ghost var live: set<nat>

    ghost predicate Valid()
      reads this, page_allocator, pager, pager.p3
    {
      && pager.Valid() && 1 !in pager.lost && SecondGigabyte(pager.p3[..], pager.mem)
      && page_allocator.Length == ENTRIES
      && (forall id :: 0 <= id < ENTRIES ==> page_allocator[id] >= 0 && (page_allocator[id] != 0 <==> Frame(id) in live))
      && (forall f :: f in live ==> exists id :: 0 <= id < ENTRIES && f == Frame(id))
      && |live| + Count(page_allocator[..]) == ENTRIES
    }

    /** `InitAllocator`, over a pager that maps the second gigabyte. */
    constructor (pager: Pager)
      requires pager.Valid() && 1 !in pager.lost && SecondGigabyte(pager.p3[..], pager.mem)
      ensures this.pager == pager && Valid() && live == {} && fresh(page_allocator)
    {
      this.pager := pager;
      page_allocator := new int[ENTRIES](_ => 0);
      live := {};
      new;
      CountAll(page_allocator[..]);
    }

    /** Marks a free slot as taken. */
    method Take(id: nat, n: int)
      requires Valid() && id < ENTRIES && page_allocator[id] == 0 && n > 0
      modifies page_allocator, this`live
      ensures Valid() && live == old(live) + {Frame(id)} && Frame(id) !in old(live)
      ensures page_allocator[..] == old(page_allocator[..])[id := n]
    {
      hide Walk, Pager.Valid;
      CountUpdate(page_allocator[..], id, n);
      page_allocator[id] := n;
      live := live + {Frame(id)};
      assert page_allocator[..] == old(page_allocator[..])[id := n];
    }

    /** `PageAllocate`: the page of the first free slot, or null when all are taken. */
    method PageAllocate() returns (page: nat)
      requires Valid()
      modifies page_allocator, this`live
      ensures Valid()
      ensures page == 0 <==> forall id :: 0 <= id < ENTRIES ==> old(page_allocator[id]) != 0
      ensures page != 0 ==> page !in old(live) && live == old(live) + {page} && page % PAGE_SIZE == 0
      ensures page == 0 ==> live == old(live)
      ensures page != 0 ==> Given(old(page_allocator[..]), page_allocator[..], page, 1)
    {
      hide Walk, Pager.Valid, SecondGigabyte, Count, PageOf, TableOf, Load;
      ghost var slots := page_allocator[..];
      var id := 0;
      while id < ENTRIES && page_allocator[id] != 0
        invariant 0 <= id <= ENTRIES && forall k :: 0 <= k < id ==> page_allocator[k] != 0
      {
        id := id + 1;
      }
      if id == ENTRIES {
        return 0;
      }
      Take(id, 1);
      page := PageAt(id);
      GivenOne(slots, page_allocator[..], id);
    }

    /** The page that the table of the second gigabyte has for a slot. */
    method PageAt(id: nat) returns (page: nat)
      requires Valid() && id < ENTRIES
      ensures page == Frame(id) && page % PAGE_SIZE == 0 && page != 0
    {
      hide Walk, Count, PageOf, TableOf, Load, TablesApart, Apart;
      FrameInTable(pager.p3[..], pager.mem, id);
      FrameSlot(id);
      page := PageOf(Load(pager.mem, TableOf(pager.p3[1]) + 8 * id));
    }

    /** The search of `PageAllocateN`: the first slot from which no slot of the run is taken. */
    method FindRun(n: nat) returns (id: int)
      requires Valid()
      ensures -1 <= id < ENTRIES
      ensures id >= 0 ==> FreeFrom(page_allocator[..], id, n)
      ensures id >= 0 ==> forall i :: 0 <= i < id ==> !FreeFrom(page_allocator[..], i, n)
      ensures id < 0 ==> forall i :: 0 <= i < ENTRIES ==> !FreeFrom(page_allocator[..], i, n)
    {
      hide Walk, Pager.Valid, SecondGigabyte, Count;
      for i := 0 to ENTRIES
        invariant forall k :: 0 <= k < i ==> !FreeFrom(page_allocator[..], k, n)
      {
        var valid := true;
        var j := 0;
        while j < n && i + j < ENTRIES
          invariant 0 <= j <= n && i + j <= ENTRIES
          invariant valid <==> FreeFrom(page_allocator[..], i, j)
        {
          if page_allocator[i + j] != 0 {
            valid := false;
          }
          j := j + 1;
        }
        assert valid <==> FreeFrom(page_allocator[..], i, n);
        if valid {
          return i;
        }
      }
      id := -1;
    }

    /** `PageAllocateN`, for one page, or for a run of pages that fits somewhere in the table. */
    method PageAllocateN(n: nat) returns (page: nat)
      requires Valid() && n > 0
      requires n == 1 || exists i :: 0 <= i <= ENTRIES - n && FreeFrom(page_allocator[..], i, n)
      modifies page_allocator, this`live
      ensures Valid()
      ensures page == 0 <==> forall id :: 0 <= id < ENTRIES ==> old(page_allocator[id]) != 0
      ensures page == 0 ==> live == old(live)
      ensures page != 0 ==> page % PAGE_SIZE == 0 && Run(page, n) !! old(live) && live == old(live) + Run(page, n)
      ensures page != 0 ==> Given(old(page_allocator[..]), page_allocator[..], page, n)
    {
      hide Walk, Pager.Valid, SecondGigabyte, Count, PageOf, TableOf, Load, Marked, Given, Run, FreeFrom;
      ghost var slots := page_allocator[..];
      var id := FindRun(n);
      assert page_allocator[..] == slots;
      if id < 0 {
        NoneFree(slots, n);
        return 0;
      }
      RunFits(slots, id, n);
      Mark(id, n);
      page := PageAt(id);
      GivenRun(slots, page_allocator[..], id, n);
    }

    method Mark(id: nat, n: nat)
      requires Valid() && n > 0 && id + n <= ENTRIES && forall k :: id <= k < id + n ==> page_allocator[k] == 0
      modifies page_allocator, this`live
      ensures Valid() && Run(Frame(id), n) !! old(live) && live == old(live) + Run(Frame(id), n)
      ensures Marked(old(page_allocator[..]), page_allocator[..], id, n)
    {
      hide Valid, Run, Frame;
      NoRun(Frame(id));
      Slots();
      for i := 0 to n
        invariant Valid() && page_allocator.Length == ENTRIES
        invariant live == old(live) + Run(Frame(id), i) && Run(Frame(id), i) !! old(live)
        invariant forall k :: 0 <= k < ENTRIES ==> page_allocator[k] == if id <= k < id + i then n else old(page_allocator[k])
      {
        RunGrows(id, i);
        ghost var was := page_allocator[..];
        Take(id + i, n);
        assert forall k :: 0 <= k < ENTRIES && k != id + i ==> page_allocator[..][k] == was[k];
        assert page_allocator[..][id + i] == n;
      }
    }

    lemma Slots()
      requires Valid()
      ensures page_allocator.Length == ENTRIES
    {
    }

    /** Marks a taken slot as free. */
    method Release(id: nat)
      requires Valid() && id < ENTRIES && page_allocator[id] != 0
      modifies page_allocator, this`live
      ensures Valid() && live == old(live) - {Frame(id)}
      ensures page_allocator[..] == old(page_allocator[..])[id := 0]
    {
      hide Walk, Pager.Valid, SecondGigabyte, Count;
      CountUpdate(page_allocator[..], id, 0);
      page_allocator[id] := 0;
      assert Frame(id) in live;
      live := live - {Frame(id)};
      assert page_allocator[..] == old(page_allocator[..])[id := 0];
    }

    /** `PageDealloc` of a page of the allocator: frees its slot, if it is taken, and no other, also when
        the page begins a longer run, because the loop's bound is the slot that its first turn clears. */
    method PageDealloc(page: nat)
      requires Valid() && exists id :: 0 <= id < ENTRIES && page == Frame(id)
      modifies page_allocator, this`live
      ensures Valid() && live == old(live) - {page}
      ensures page_allocator[..] == old(page_allocator[..])[page / PAGE_SIZE % ENTRIES := 0]
    {
      var id := page / PAGE_SIZE % ENTRIES;
      ghost var slot :| 0 <= slot < ENTRIES && page == Frame(slot);
      FrameSlot(slot);
      hide Valid;
      var i := 0;
      while i < page_allocator[id]
        invariant 0 <= i <= 1 && Valid() && page_allocator.Length == ENTRIES
        invariant page_allocator[..] == if i == 0 then old(page_allocator[..]) else old(page_allocator[..])[id := 0]
        invariant live == if i == 0 then old(live) else old(live) - {page}
        decreases 1 - i
      {
        Release(id + i);
        i := i + 1;
      }
    }
  }

  // ----- runs of pages -----

  /** The pages of a run. */
  ghost function Run(page: nat, n: nat): set<nat> {
    set k | 0 <= k < n :: page + PAGE_SIZE * k
  }

  lemma NoRun(page: nat)
    ensures Run(page, 0) == {}
  {
  }

  lemma RunGrows(id: nat, n: nat)
    ensures Run(Frame(id), n + 1) == Run(Frame(id), n) + {Frame(id + n)}
  {
    assert Frame(id + n) == Frame(id) + PAGE_SIZE * n;
  }

  lemma GivenOne(slots: seq<int>, slots': seq<int>, id: nat)
    requires |slots| == ENTRIES && id < ENTRIES && slots[id] == 0 && slots' == slots[id := 1]
    requires forall k :: 0 <= k < id ==> slots[k] != 0
    ensures Given(slots, slots', Frame(id), 1)
  {
    forall i | 0 <= i < id ensures !FreeFrom(slots, i, 1) {
      assert slots[i] != 0;
    }
    assert FirstFree(slots, id, 1) && Marked(slots, slots', id, 1);
  }

  lemma GivenRun(slots: seq<int>, slots': seq<int>, id: nat, n: nat)
    requires |slots| == ENTRIES && id < ENTRIES && FreeFrom(slots, id, n) && Marked(slots, slots', id, n)
    requires forall i :: 0 <= i < id ==> !FreeFrom(slots, i, n)
    ensures Given(slots, slots', Frame(id), n)
  {
    assert FirstFree(slots, id, n);
  }

  lemma NoneFree(slots: seq<int>, n: nat)
    requires n > 0 && |slots| == ENTRIES && (forall i :: 0 <= i < ENTRIES ==> !FreeFrom(slots, i, n))
    requires n == 1 || exists i :: 0 <= i <= ENTRIES - n && FreeFrom(slots, i, n)
    ensures forall id :: 0 <= id < ENTRIES ==> slots[id] != 0
  {
    forall id | 0 <= id < ENTRIES ensures slots[id] != 0 {
      assert !FreeFrom(slots, id, n);
    }
  }

  /** The first run found lies wholly inside the table when some run does. */
  lemma RunFits(slots: seq<int>, id: nat, n: nat)
    requires n > 0 && |slots| == ENTRIES && id < ENTRIES && FreeFrom(slots, id, n)
    requires forall i :: 0 <= i < id ==> !FreeFrom(slots, i, n)
    requires n == 1 || exists i :: 0 <= i <= ENTRIES - n && FreeFrom(slots, i, n)
    ensures id + n <= ENTRIES && forall k :: id <= k < id + n ==> slots[k] == 0
  {
    if n > 1 {
      var i :| 0 <= i <= ENTRIES - n && FreeFrom(slots, i, n);
      assert i >= id;
    }
  }
}
