/** The process table of OS/src/multitasking.c: a fixed array of process
    control blocks, the count of slots handed out so far, and the
    prev / running / next / kernel pointers, kept here as slot indices. */
module Multitasking {
  import opened Optional

  const MaxUserProcs: nat := 5
  const MaxKernProcs: nat := 1
  const MaxProcs: nat := MaxUserProcs + MaxKernProcs

  // The enum orders: READY and USER are both value 0.
  datatype ProcStatus = Ready | Running | Terminated
  datatype ProcType = User | Kernel

  /** proc_t without the general-purpose registers, eflags and cr3: the pid,
      type, status and the three addresses the table itself writes. */
  datatype Proc = Proc(pid: int, kind: ProcType, status: ProcStatus, eip: nat, esp: nat, ebp: nat)

  /** A slot of the zero-initialised global array: pid 0, USER, READY. */
  const Unused: Proc := Proc(0, User, Ready, 0, 0, 0)

  /** The test both of schedule's loops apply to a slot. */
  predicate ReadyUser(p: Proc)
  {
    p.kind == User && p.status == Ready
  }

  /** Number of slots of `ps` that are USER and READY. */
  function ReadyCount(ps: seq<Proc>): (c: nat)
    ensures c <= |ps|
  {
    if ps == [] then 0
    else ReadyCount(ps[..|ps| - 1]) + (if ReadyUser(ps[|ps| - 1]) then 1 else 0)
  }

  /** The count is positive exactly when some slot is a ready user process. */
  lemma {:induction false} ReadyCountPositive(ps: seq<Proc>)
    ensures ReadyCount(ps) > 0 <==> exists i :: 0 <= i < |ps| && ReadyUser(ps[i])
  {
    if ps != [] {
      var init := ps[..|ps| - 1];
      ReadyCountPositive(init);
      if exists i :: 0 <= i < |init| && ReadyUser(init[i]) {
        var i :| 0 <= i < |init| && ReadyUser(init[i]);
        assert ReadyUser(ps[i]);
      }
      if exists i :: 0 <= i < |ps| && ReadyUser(ps[i]) {
        var i :| 0 <= i < |ps| && ReadyUser(ps[i]);
        if i < |init| {
          assert ReadyUser(init[i]);
        }
      }
    }
  }

  /** Slots from `n` on that were never handed out still read as ready user
      processes, so each of them adds one to the count. */
  lemma {:induction false} UnusedSlotsCount(ps: seq<Proc>, n: nat)
    requires n <= |ps|
    requires forall i :: n <= i < |ps| ==> ps[i] == Unused
    ensures ReadyCount(ps) == ReadyCount(ps[..n]) + (|ps| - n)
  {
    if |ps| > n {
      var init := ps[..|ps| - 1];
      UnusedSlotsCount(init, n);
      assert init[..n] == ps[..n];
    } else {
      assert ps[..n] == ps;
    }
  }

  /** Replacing one slot changes the count by what the old and the new
      value contribute; createproc, for one, fills a slot that already
      counted and leaves the count as it was. */
  lemma {:induction false} ReadyCountUpdate(ps: seq<Proc>, i: nat, p: Proc)
    requires i < |ps|
    ensures ReadyCount(ps[i := p]) + (if ReadyUser(ps[i]) then 1 else 0) ==
            ReadyCount(ps) + (if ReadyUser(p) then 1 else 0)
  {
    var last := |ps| - 1;
    var qs := ps[i := p];
    assert qs[..last] == if i < last then ps[..last][i := p] else ps[..last];
    if i < last {
      ReadyCountUpdate(ps[..last], i, p);
    }
  }

  /** Slot visited at step `i` of the cyclic search that starts at `start`
      over the first `n` slots. */
  function CyclicSlot(n: nat, start: nat, i: nat): (q: nat)
    requires n > 0
    ensures q < n
  {
    (start + i) % n
  }

  predicate ReadyAt(ps: seq<Proc>, n: nat, start: nat, i: nat)
    requires 0 < n <= |ps|
  {
    ReadyUser(ps[CyclicSlot(n, start, i)])
  }

  /** schedule's second loop from step `i` on: the first step below
      MaxProcs whose slot is a ready user process, if any. */
  function CyclicPick(ps: seq<Proc>, n: nat, start: nat, i: nat): (r: Option<nat>)
    requires 0 < n <= |ps|
    decreases MaxProcs - i
    ensures r.Some? ==> i <= r.value < MaxProcs && ReadyAt(ps, n, start, r.value)
    ensures r.Some? ==> forall j :: i <= j < r.value ==> !ReadyAt(ps, n, start, j)
    ensures r.None? ==> forall j :: i <= j < MaxProcs ==> !ReadyAt(ps, n, start, j)
  {
    if i >= MaxProcs then None
    else if ReadyAt(ps, n, start, i) then Some(i)
    else CyclicPick(ps, n, start, i + 1)
  }

  lemma ModBelowTwice(x: nat, n: nat)
    requires 0 < n && x < 2 * n
    ensures x % n == if x < n then x else x - n
  {
    if x >= n {
      assert (x - n) % n == (x - n + n) % n;
    }
  }

  /** MaxProcs steps are enough to visit every one of the first n <= MaxProcs
      slots, so the search fails only when none of them is ready. */
  lemma CyclicPickComplete(ps: seq<Proc>, n: nat, start: nat)
    requires 0 < n <= |ps| && n <= MaxProcs && start < n
    ensures CyclicPick(ps, n, start, 0).None? <==> forall q :: 0 <= q < n ==> !ReadyUser(ps[q])
  {
    if CyclicPick(ps, n, start, 0).None? {
      forall q | 0 <= q < n ensures !ReadyUser(ps[q]) {
        var d := if start <= q then q - start else q + n - start;
        ModBelowTwice(start + d, n);
        assert !ReadyAt(ps, n, start, d);
      }
    }
  }

  /** Where schedule starts its cyclic search: one past the previous
      process, wrapped over the slots handed out, or 0 with no previous one. */
  function StartOf(ps: seq<Proc>, n: nat, prev: Option<nat>): (s: nat)
    requires n > 0
    requires prev.Some? ==> prev.value < |ps| && ps[prev.value].pid >= 0
    ensures s < n
  {
    if prev.Some? then (ps[prev.value].pid + 1) % n else 0
  }

  /** `next` after schedule: the first ready user slot in cyclic order when
      the count is positive and the search finds one; otherwise unchanged. */
  function ScheduleNext(ps: seq<Proc>, n: nat, prev: Option<nat>, next: Option<nat>): (r: Option<nat>)
    requires n <= |ps|
    requires ReadyCount(ps) > 0 ==> n > 0
    requires prev.Some? ==> prev.value < |ps| && ps[prev.value].pid >= 0
  {
    if ReadyCount(ps) == 0 then next
    else
      var start := StartOf(ps, n, prev);
      match CyclicPick(ps, n, start, 0)
      case Some(d) => Some(CyclicSlot(n, start, d))
      case None => next
  }

  /** schedule picks a process exactly when one of the slots handed out is a
      ready user process, and the one it picks is such a slot; the first one
      met from the start position. Otherwise `next` stays. */
  lemma SchedulePicksCreated(ps: seq<Proc>, n: nat, prev: Option<nat>, next: Option<nat>)
    requires 0 < n <= |ps| && n <= MaxProcs
    requires prev.Some? ==> prev.value < |ps| && ps[prev.value].pid >= 0
    ensures var r := ScheduleNext(ps, n, prev, next);
            (exists q :: 0 <= q < n && ReadyUser(ps[q])) ==>
              r.Some? && r.value < n && ReadyUser(ps[r.value]) &&
              exists d :: 0 <= d < MaxProcs && r.value == CyclicSlot(n, StartOf(ps, n, prev), d) &&
                          forall j :: 0 <= j < d ==> !ReadyAt(ps, n, StartOf(ps, n, prev), j)
    ensures (forall q :: 0 <= q < n ==> !ReadyUser(ps[q])) ==> ScheduleNext(ps, n, prev, next) == next
  {
    var start := StartOf(ps, n, prev);
    CyclicPickComplete(ps, n, start);
    ReadyCountPositive(ps);
  }

  /** The saving half of switchcontext for the process in slot `from`
      (its resume address and stack pointers), then slot `to` RUNNING. */
  function Switched(ps: seq<Proc>, from: nat, to: nat, resume: nat, esp: nat, ebp: nat): (r: seq<Proc>)
    requires from < |ps| && to < |ps|
    ensures |r| == |ps|
  {
    var saved := ps[from := ps[from].(eip := resume, esp := esp, ebp := ebp)];
    saved[to := saved[to].(status := Running)]
  }

  class ProcessTable {
    var processes: array<Proc>
    var processIndex: nat
    var prev: Option<nat>
    var running: Option<nat>
    var next: Option<nat>
    var kernel: Option<nat>

    /** Slots below processIndex were handed out and carry their own index
        as pid; the rest still hold the zero-initialised value. */
    ghost predicate TableValid()
      reads this`processes, this`processIndex, processes
    {
      processes.Length == MaxProcs && processIndex <= MaxProcs &&
      (forall i :: 0 <= i < processIndex ==> processes[i].pid == i) &&
      (forall i :: processIndex <= i < MaxProcs ==> processes[i] == Unused)
    }

    /** The pointers only name slots handed out, and `kernel` a KERNEL one. */
    ghost predicate Valid()
      reads this, processes
    {
      TableValid() &&
      (prev.Some? ==> prev.value < processIndex) &&
      (running.Some? ==> running.value < processIndex) &&
      (next.Some? ==> next.value < processIndex) &&
      (kernel.Some? ==> kernel.value < processIndex && processes[kernel.value].kind == Kernel)
    }

    /** The boot state: every slot zero-initialised, nothing handed out,
        every pointer null. Six ready user processes are counted already. */
    constructor ()
      ensures Valid() && fresh(processes)
      ensures processIndex == 0 && prev.None? && running.None? && next.None? && kernel.None?
      ensures ReadyCount(processes[..]) == MaxProcs
    {
      processes := new Proc[MaxProcs](_ => Unused);
      processIndex := 0;
      prev, running, next, kernel := None, None, None, None;
      new;
      UnusedSlotsCount(processes[..], 0);
    }

    /** schedule's first loop: counts the ready user slots over the whole
        array, handed out or not. */
    method CountReady() returns (count: nat)
      requires Valid()
      ensures count == ReadyCount(processes[..])
    {
      count := 0;
      var i := 0;
      while i < MaxProcs
        invariant 0 <= i <= MaxProcs
        invariant count == ReadyCount(processes[..i])
      {
        assert processes[..i + 1][..i] == processes[..i];
        if processes[i].kind == User && processes[i].status == Ready {
          count := count + 1;
        }
        i := i + 1;
      }
      assert processes[..MaxProcs] == processes[..];
    }

    /** schedule's second loop: MaxProcs steps over the slots handed out,
        cyclically from `start`; the step of the first ready user slot. */
    method PickNext(start: nat) returns (found: Option<nat>)
      requires Valid() && 0 < processIndex && start < processIndex
      ensures found == CyclicPick(processes[..], processIndex, start, 0)
    {
      var i := 0;
      while i < MaxProcs
        invariant 0 <= i <= MaxProcs
        invariant CyclicPick(processes[..], processIndex, start, 0) == CyclicPick(processes[..], processIndex, start, i)
      {
        var pid := (start + i) % processIndex;
        if processes[pid].kind == User && processes[pid].status == Ready {
          return Some(i);
        }
        i := i + 1;
      }
      return None;
    }

    /** schedule: returns the count of ready user slots and, when it is
        positive, points `next` at the first ready user slot handed out,
        in cyclic order from one past `prev`. Nothing else changes. The
        modulo by processIndex needs a slot handed out once the count is
        positive. */
    method Schedule() returns (count: nat)
      requires Valid()
      requires ReadyCount(processes[..]) > 0 ==> processIndex > 0
      modifies this`next
      ensures Valid()
      ensures count == ReadyCount(processes[..])
      ensures next == ScheduleNext(processes[..], processIndex, prev, old(next))
    {
      ghost var ps := processes[..];
      count := CountReady();
      if count > 0 {
        var start := if prev.Some? then (processes[prev.value].pid + 1) % processIndex else 0;
        assert start == StartOf(ps, processIndex, prev);
        var d := PickNext(start);
        if d.Some? {
          next := Some((start + d.value) % processIndex);
          assert next == Some(CyclicSlot(processIndex, start, d.value));
        }
      }
    }

    /** createproc: with the table full, -1 and no change; otherwise the
        next slot becomes a ready user process that starts at `func` with
        both stack pointers at `stack`, `next` points at it, and the slot
        count grows by one. */
    method CreateProc(func: nat, stack: nat) returns (r: int)
      requires Valid()
      modifies processes, this`processIndex, this`next
      ensures Valid()
      ensures old(processIndex) >= MaxProcs ==>
                r == -1 && processes[..] == old(processes[..]) &&
                processIndex == old(processIndex) && next == old(next)
      ensures old(processIndex) < MaxProcs ==>
                r == 0 && processIndex == old(processIndex) + 1 && next == Some(old(processIndex)) &&
                processes[..] == old(processes[..])[old(processIndex) := Proc(old(processIndex), User, Ready, func, stack, stack)]
      ensures ReadyCount(processes[..]) == ReadyCount(old(processes[..]))
    {
      if processIndex >= MaxProcs {
        return -1;
      }
      // the slot filled was an unused one, which counted as ready already
      ReadyCountUpdate(processes[..], processIndex, Proc(processIndex, User, Ready, func, stack, stack));
      processes[processIndex] := Proc(processIndex, User, Ready, func, stack, stack);
      next := Some(processIndex);
      processIndex := processIndex + 1;
      return 0;
    }

    /** startkernel up to the call of the kernel function: with the table
        full, -1 and no change; otherwise the next slot becomes the running
        kernel process and both `kernel` and `running` point at it. The
        local record is never initialised beyond pid, type and status:
        `junk` is what its other fields happen to hold. */
    method StartKernel(junk: Proc) returns (r: int)
      requires Valid()
      modifies processes, this`processIndex, this`kernel, this`running
      ensures Valid()
      ensures old(processIndex) >= MaxProcs ==>
                r == -1 && processes[..] == old(processes[..]) && processIndex == old(processIndex) &&
                kernel == old(kernel) && running == old(running)
      ensures old(processIndex) < MaxProcs ==>
                r == 0 && processIndex == old(processIndex) + 1 &&
                kernel == Some(old(processIndex)) && running == kernel &&
                processes[..] == old(processes[..])[old(processIndex) := junk.(pid := old(processIndex), kind := Kernel, status := Running)]
    {
      if processIndex >= MaxProcs {
        return -1;
      }
      processes[processIndex] := junk.(pid := processIndex, kind := Kernel, status := Running);
      kernel := Some(processIndex);
      processIndex := processIndex + 1;
      running := kernel;
      return 0;
    }

    /** The bookkeeping of switchcontext: the running process keeps its
        resume address and stack pointers, `prev` takes `running`, `running`
        takes `next`, and the new running process is RUNNING. */
    method SwitchContext(resume: nat, esp: nat, ebp: nat)
      requires Valid() && running.Some? && next.Some?
      modifies processes, this`prev, this`running
      ensures Valid()
      ensures prev == old(running) && running == old(next)
      ensures processes[..] == Switched(old(processes[..]), old(running.value), old(next.value), resume, esp, ebp)
    {
      var r := running.value;
      processes[r] := processes[r].(eip := resume, esp := esp, ebp := ebp);
      prev := running;
      running := next;
      var n := running.value;
      processes[n] := processes[n].(status := Running);
    }

    /** exit: the running process is TERMINATED; a user process then hands
        over to the kernel through a context switch, the kernel just
        returns. */
    method Exit(resume: nat, esp: nat, ebp: nat)
      requires Valid() && running.Some?
      requires processes[running.value].kind == User ==> kernel.Some?
      modifies processes, this`prev, this`running, this`next
      ensures Valid()
      ensures var r := old(running.value);
              var ended := old(processes[..])[r := old(processes[r]).(status := Terminated)];
              if old(processes[r].kind) == User then
                next == old(kernel) && prev == old(running) && running == old(kernel) &&
                processes[..] == Switched(ended, r, old(kernel.value), resume, esp, ebp)
              else
                next == old(next) && prev == old(prev) && running == old(running) && processes[..] == ended
    {
      var r := running.value;
      processes[r] := processes[r].(status := Terminated);
      if processes[r].kind == User {
        next := kernel;
        SwitchContext(resume, esp, ebp);
      }
    }

    /** yield: a user process becomes READY and hands over to the kernel;
        the kernel schedules and switches to the process picked. When
        schedule counts nothing the kernel stops for good: `halted`, with
        nothing changed. */
    method Yield(resume: nat, esp: nat, ebp: nat) returns (halted: bool)
      requires Valid() && running.Some?
      requires processes[running.value].kind == User ==> kernel.Some?
      requires processes[running.value].kind == Kernel ==>
                 ScheduleNext(processes[..], processIndex, prev, next).Some? || ReadyCount(processes[..]) == 0
      modifies processes, this`prev, this`running, this`next
      ensures Valid()
      ensures var r := old(running.value);
              old(processes[r].kind) == User ==>
                !halted && next == old(kernel) && prev == old(running) && running == old(kernel) &&
                processes[..] == Switched(old(processes[..])[r := old(processes[r]).(status := Ready)],
                                          r, old(kernel.value), resume, esp, ebp)
      ensures var r := old(running.value);
              old(processes[r].kind) == Kernel ==>
                (halted <==> ReadyCount(old(processes[..])) == 0) &&
                (halted ==> processes[..] == old(processes[..]) && next == old(next) &&
                            prev == old(prev) && running == old(running)) &&
                (!halted ==> next == ScheduleNext(old(processes[..]), processIndex, old(prev), old(next)) &&
                             prev == old(running) && running == next &&
                             processes[..] == Switched(old(processes[..]), r, next.value, resume, esp, ebp))
    {
      var r := running.value;
      if processes[r].kind == User {
        processes[r] := processes[r].(status := Ready);
        next := kernel;
      } else {
        var count := Schedule();
        if count == 0 {
          return true;
        }
      }
      SwitchContext(resume, esp, ebp);
      return false;
    }
  }
}
