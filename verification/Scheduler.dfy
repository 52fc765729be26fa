/** Scheduler.c: the round-robin choice of the next process. */
module Scheduling {
  import opened Widths
  import Bits

  /** A process as the scheduler sees it: its number, and whether it is ready. */
  datatype Process = Process(id: nat, ready: bool)

  class Scheduler {
    var items: seq<Process>
    var i: nat
    var id: nat

    ghost predicate Valid()
      reads this
    {
      i < U32_LIMIT && |items| < U32_LIMIT && id < U32_LIMIT
    }

    /** `globalProcs` as it starts out. */
    constructor ()
      ensures Valid() && items == [] && id == 1
    {
      items, i, id := [], 0, 1;
    }

    /** `ProcessSetHollow`: the next number, and ready. */
    method SetHollow() returns (p: Process)
      requires Valid()
      modifies this`id
      ensures Valid() && p == Process(old(id), true) && id == (old(id) + 1) % U32_LIMIT
    {
      p := Process(id, true);
      id := (id + 1) % U32_LIMIT;
    }

    /** `SchedulerSubmit`. */
    method Submit(p: Process)
      requires Valid() && |items| + 1 < U32_LIMIT
      modifies this`items
      ensures Valid() && items == old(items) + [p]
    {
      items := items + [p];
    }

    /** `TrySchedule`: the index advances in 32 bits even when there is nothing to run; the result
        is the index of the process to run, or -1. */
    method TrySchedule() returns (next: int)
      requires Valid()
      modifies this`i
      ensures Valid() && i == Advance(old(i), |items|)
      ensures items == [] ==> next == -1
      ensures items != [] ==> next == i < |items|
    {
      i := (i + 1) % U32_LIMIT;
      if |items| == 0 {
        return -1;
      }
      if i >= |items| {
        i := 0;
      }
      next := i;
    }
  }

  /** The number that the `k`-th call of `SetHollow` from a counter of `id` gives. */
  function NumberAt(id: nat, k: nat): nat {
    (id + k) % U32_LIMIT
  }

  /** `k` processes made one after another. */
  method MakeProcesses(sched: Scheduler, k: nat) returns (ps: seq<Process>)
    requires sched.Valid()
    modifies sched`id
    ensures sched.Valid() && |ps| == k && forall j :: 0 <= j < k ==> ps[j] == Process(NumberAt(old(sched.id), j), true)
  {
    ps := [];
    for i := 0 to k
      invariant sched.Valid() && |ps| == i && sched.id == NumberAt(old(sched.id), i)
      invariant forall j :: 0 <= j < i ==> ps[j] == Process(NumberAt(old(sched.id), j), true)
    {
      var p := sched.SetHollow();
      ps := ps + [p];
    }
  }

  /** Two processes have the same number only if a multiple of 2^32 others were made between them. */
  lemma NumbersDistinct(id: nat, j: nat, k: nat)
    requires j <= k
    ensures NumberAt(id, j) == NumberAt(id, k) <==> (k - j) % U32_LIMIT == 0
  {
    var a, b := id + j, id + k;
    var qa, qb, r := a / U32_LIMIT, b / U32_LIMIT, b % U32_LIMIT;
    if NumberAt(id, j) == NumberAt(id, k) {
      assert k - j == U32_LIMIT * (qb - qa);
      Bits.DivModUnique(k - j, U32_LIMIT, qb - qa, 0);
    } else if (k - j) % U32_LIMIT == 0 {
      var q := (k - j) / U32_LIMIT;
      assert b == U32_LIMIT * (qa + q) + a % U32_LIMIT;
      Bits.DivModUnique(b, U32_LIMIT, qa + q, a % U32_LIMIT);
    }
  }

  /** The index after one tick over `n` processes. */
  function Advance(i: nat, n: nat): (j: nat)
    ensures n > 0 ==> j < n
    ensures j < U32_LIMIT
  {
    var k := (i + 1) % U32_LIMIT;
    if n > 0 && k >= n then 0 else k
  }

  /** The index at tick `t`, the first being tick 0. */
  function TickIndex(i: nat, n: nat, t: nat): (j: nat)
    requires n > 0
    ensures j < n
    decreases t
  {
    if t == 0 then Advance(i, n) else Advance(TickIndex(i, n, t - 1), n)
  }

  /** From the first tick on, the index goes round. */
  lemma {:induction false} TicksGoRound(i: nat, n: nat, t: nat)
    requires 0 < n < U32_LIMIT
    ensures TickIndex(i, n, t) == (Advance(i, n) + t) % n
    decreases t
  {
    hide Advance;
    if t == 0 {
      Bits.ModSmall(Advance(i, n), n);
    } else {
      TicksGoRound(i, n, t - 1);
      NextInRound(Advance(i, n) + t - 1, n);
    }
  }

  lemma NextInRound(k: nat, n: nat)
    requires 0 < n < U32_LIMIT
    ensures Advance(k % n, n) == (k + 1) % n
  {
    var q, r := k / n, k % n;
    assert k == n * q + r;
    if r + 1 < n {
      Bits.DivModUnique(k + 1, n, q, r + 1);
    } else {
      assert k + 1 == n * (q + 1);
      Bits.DivModUnique(k + 1, n, q + 1, 0);
    }
  }

  /** The tick, among the `n` from tick `s` on, at which process `j` runs. */
  function TickOf(i: nat, n: nat, s: nat, j: nat): (t: nat)
    requires 0 < n && j < n
    ensures s <= t < s + n
  {
    var a := (Advance(i, n) + s) % n;
    s + (if j >= a then j - a else j + n - a)
  }

  /** From every state of the index, even one left out of range or about to wrap, any `n`
      consecutive ticks over `n` processes run each process exactly once. */
  lemma RoundRobin(i: nat, n: nat, s: nat, t: nat, j: nat)
    requires 0 < n < U32_LIMIT && j < n && s <= t < s + n
    ensures TickIndex(i, n, t) == j <==> t == TickOf(i, n, s, j)
  {
    hide Advance, TickIndex;
    TicksGoRound(i, n, t);
    var b, d := Advance(i, n) + s, t - s;
    RoundFrom(b, d, n);
  }

  /** Going round from `b % n` by `d` steps, less than a whole round. */
  lemma RoundFrom(b: nat, d: nat, n: nat)
    requires d < n
    ensures (b + d) % n == if b % n + d < n then b % n + d else b % n + d - n
  {
    var q, a := b / n, b % n;
    assert b + d == n * q + (a + d);
    if a + d < n {
      Bits.DivModUnique(b + d, n, q, a + d);
    } else {
      assert b + d == n * (q + 1) + (a + d - n);
      Bits.DivModUnique(b + d, n, q + 1, a + d - n);
    }
  }

  /** A run of `n` interrupts: which process each of them runs. */
  method RunTicks(sched: Scheduler, ticks: nat) returns (ran: seq<nat>)
    requires sched.Valid() && sched.items != []
    modifies sched`i
    ensures sched.Valid() && |ran| == ticks
    ensures forall t :: 0 <= t < ticks ==> ran[t] == TickIndex(old(sched.i), |sched.items|, t) < |sched.items|
  {
    hide Advance;
    ran := [];
    for t := 0 to ticks
      invariant sched.Valid() && |ran| == t
      invariant sched.i == if t == 0 then old(sched.i) else TickIndex(old(sched.i), |sched.items|, t - 1)
      invariant forall k :: 0 <= k < t ==> ran[k] == TickIndex(old(sched.i), |sched.items|, k)
    {
      var next := sched.TrySchedule();
      ran := ran + [next];
    }
  }

  /** Process `j` is run at exactly one of the ticks. */
  ghost predicate RunsOnce(ran: seq<nat>, j: nat) {
    exists t :: 0 <= t < |ran| && ran[t] == j && forall u :: 0 <= u < |ran| && ran[u] == j ==> u == t
  }

  /** A process is submitted, at whatever value of the counter, and a round of ticks follows: the new
      process and all the others are run exactly once. */
  method SubmitAndRun(sched: Scheduler, p: Process) returns (ran: seq<nat>)
    requires sched.Valid() && |sched.items| + 1 < U32_LIMIT
    modifies sched`items, sched`i
    ensures sched.Valid() && sched.items == old(sched.items) + [p] && |ran| == |sched.items|
    ensures forall j :: 0 <= j < |sched.items| ==> RunsOnce(ran, j)
  {
    hide TickIndex;
    var i, n := sched.i, |sched.items| + 1;
    sched.Submit(p);
    ran := RunTicks(sched, n);
    forall j | 0 <= j < n ensures RunsOnce(ran, j) {
      RoundRunsOnce(i, n, ran, j);
    }
  }

  lemma RoundRunsOnce(i: nat, n: nat, ran: seq<nat>, j: nat)
    requires |ran| == n < U32_LIMIT && j < n && forall t :: 0 <= t < n ==> ran[t] == TickIndex(i, n, t)
    ensures RunsOnce(ran, j)
  {
    hide TickIndex, TickOf;
    var t := TickOf(i, n, 0, j);
    RoundRobin(i, n, 0, t, j);
    assert ran[t] == j;
    forall u | 0 <= u < n && ran[u] == j ensures u == t {
      RoundRobin(i, n, 0, u, j);
    }
  }
}
