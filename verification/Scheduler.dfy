/** The scheduler in place: thread table, stacks and active address space (src/kernel/scheduler/scheduler.c). */
module Scheduler {
  import opened Words
  import opened Pmm
  import opened Ownership
  import opened Paging
  import opened Blocks
  import opened Heap
  import opened Scheduling
  import Processes
  import Threads

  /** Threads belong to processes that exist. */
  ghost predicate ProcessesKnown(ts: seq<Thread>, ps: seq<Processes.Process>)
    requires |ps| == Processes.PROCESS_MAX
  {
    forall i: nat :: i < |ts| && ts[i].process.Some? ==>
      ts[i].process.value < Processes.PROCESS_MAX && !ps[ts[i].process.value].state.Unused?
  }

  /** The directory of an address space; an unused slot or null has none. */
  function DirectoryOf(space: SpaceRef, spaces: seq<Space>, kernelDirectory: uint32): Option<uint32>
    requires space.Slot? ==> space.i < |spaces|
  {
    match space
    case NullSpace => None
    case KernelSpace => Some(kernelDirectory)
    case Slot(i) => if spaces[i].used then Some(spaces[i].directory) else None
  }

  /** The address space of the thread's process. */
  function SpaceOf(t: Thread, ps: seq<Processes.Process>): SpaceRef
    requires t.process.Some? ==> t.process.value < |ps|
  {
    if t.process.Some? then ps[t.process.value].space else NullSpace
  }

  /** The active directory once the thread's address space has been switched to. */
  function Loaded(t: Thread, ps: seq<Processes.Process>, spaces: seq<Space>, kernelDirectory: uint32,
                  active: uint32): uint32 {
    if (t.process.Some? ==> t.process.value < |ps|) && (SpaceOf(t, ps).Slot? ==> SpaceOf(t, ps).i < |spaces|)
       && DirectoryOf(SpaceOf(t, ps), spaces, kernelDirectory).Some?
    then DirectoryOf(SpaceOf(t, ps), spaces, kernelDirectory).value else active
  }

  /** Without a process, without an address space, or on one that is gone, the processor stays on the active directory;
      a kernel process is on the kernel's, and another one on its own. */
  lemma LoadedCases(t: Thread, ps: seq<Processes.Process>, spaces: seq<Space>, kernelDirectory: uint32, active: uint32)
    requires t.process.Some? ==> t.process.value < |ps| && (ps[t.process.value].space.Slot? ==>
                                                              ps[t.process.value].space.i < |spaces|)
    ensures var loaded := Loaded(t, ps, spaces, kernelDirectory, active);
            match t.process
            case None => loaded == active
            case Some(p) =>
              match ps[p].space
              case NullSpace => loaded == active
              case KernelSpace => loaded == kernelDirectory
              case Slot(i) => loaded == if spaces[i].used then spaces[i].directory else active
  {
  }

  /** The processor runs on the directory of the thread's process. */
  ghost predicate OnDirectory(t: Thread, ps: seq<Processes.Process>, v: View, kernelDirectory: uint32, active: uint32) {
    (t.process.Some? ==> t.process.value < |ps|)
    && var space := SpaceOf(t, ps);
       (space.Slot? ==> space.i < |v.spaces|)
       && var directory := DirectoryOf(space, v.spaces, kernelDirectory);
          directory.Some? ==> active == directory.value
  }

  /** An allocation is the payload of an allocated block. */
  lemma {:induction false} LiveIndex(bs: seq<Block>, a: nat, p: nat) returns (k: nat)
    requires p in Live(bs, a)
    ensures k < |bs| && !bs[k].free && p == a + Extent(bs[..k]) + HEADER
  {
    if !bs[0].free && p == a + HEADER {
      k := 0;
    } else {
      var j := LiveIndex(bs[1..], a + HEADER + bs[0].size, p);
      k := j + 1;
      assert bs[..k][1..] == bs[1..][..j];
    }
  }

  /** Only ids, stacks and whether a slot is in use matter for the table. */
  lemma SameTable(ts: seq<Thread>, us: seq<Thread>, allocations: map<nat, nat>)
    requires Threads.TableOk(ts, allocations) && |us| == |ts|
    requires forall i: nat :: i < |ts| ==> us[i].id == ts[i].id && us[i].kernelStack == ts[i].kernelStack
                                           && (us[i].state.Unused? ==> ts[i].state.Unused?)
    ensures Threads.TableOk(us, allocations)
  {
  }

  lemma StacklessTable(ts: seq<Thread>, allocations: map<nat, nat>, i: nat)
    requires Threads.TableOk(ts, allocations) && i < |ts| && ts[i].kernelStack != 0
    ensures Threads.TableOk(ts[i := ts[i].(kernelStack := 0)], allocations - {ts[i].kernelStack})
  {
  }

  lemma ClearedTable(ts: seq<Thread>, allocations: map<nat, nat>, i: nat)
    requires Threads.TableOk(ts, allocations) && i < |ts| && ts[i].kernelStack == 0
    ensures Threads.TableOk(ts[i := ts[i].(state := Unused)], allocations)
  {
  }

  lemma StackIsLive(table: Threads.ThreadTable, i: nat)
    requires table.Valid() && i < THREAD_MAX && table.threads[i].kernelStack != 0
    ensures table.threads[i].kernelStack in table.heap.Allocations()
  {
  }

  /** kfree of a live allocation. */
  method FreeAllocation(heap: KernelHeap, pointer: nat)
    requires heap.Valid() && pointer in heap.Allocations()
    modifies heap`headers, heap`blocks, heap`used
    ensures heap.Valid() && heap.Allocations() == old(heap.Allocations()) - {pointer}
  {
    hide KernelHeap.Valid;
    ghost var k := LiveIndex(heap.blocks, HEAP_START, pointer);
    heap.Kfree(pointer, k);
  }

  lemma NoNullAllocation(heap: KernelHeap)
    ensures 0 !in heap.Allocations()
  {
    LiveAbove(heap.blocks, HEAP_START);
  }

  lemma NextReadyUnfolds(ts: seq<Thread>, start: nat, offset: nat)
    requires |ts| == THREAD_MAX && start < THREAD_MAX && 1 <= offset <= THREAD_MAX + 1
    ensures NextReady(ts, start, offset) ==
            if offset > THREAD_MAX then None
            else if ts[(start + offset) % THREAD_MAX].state.Ready? then Some((start + offset) % THREAD_MAX)
            else NextReady(ts, start, offset + 1)
  {
  }

  /** A call of the scheduler changes no thread's process. */
  lemma TickKeepsKnown(m: Machine, context: nat, ps: seq<Processes.Process>)
    requires Shaped(m) && |ps| == Processes.PROCESS_MAX && ProcessesKnown(m.threads, ps)
    ensures ProcessesKnown(Scheduling.Schedule(m, context).threads, ps)
    ensures Scheduling.Schedule(m, context).current == m.current ==>
              Scheduling.Schedule(m, context).threads[m.current].process == m.threads[m.current].process
  {
    hide NextReady;
  }

  /** A call of the scheduler in terms of the saved machine. */
  lemma ScheduleParts(m: Machine, context: nat, ps: seq<Processes.Process>)
    requires Shaped(m) && |ps| == Processes.PROCESS_MAX && ProcessesKnown(m.threads, ps)
    ensures ProcessesKnown(Save(m, context).threads, ps)
    ensures context == 0 ==>
              Scheduling.Schedule(m, context) == m && Resumed(m, context) == 0 && FreedStack(m, context) == 0
    ensures var saved, next := Save(m, context), NextReady(Save(m, context).threads, m.current, 1);
            && saved.threads[m.current].process == m.threads[m.current].process
            && (context != 0 ==>
                  && Scheduling.Schedule(m, context) == Switch(saved, next)
                  && Resumed(m, context) == (if next.Some? then saved.threads[next.value].esp else context)
                  && FreedStack(m, context) ==
                     (if next.Some? && next.value != m.current && saved.threads[m.current].state.Terminated?
                      then saved.threads[m.current].kernelStack else 0)
                  && !Switch(saved, next).threads[Switch(saved, next).current].state.Unused?
                  && (next.None? ==> Switch(saved, next).current == m.current))
  {
    hide NextReady;
  }

  /** Loading the address space of the running thread again changes nothing. */
  lemma DirectoryKept(t: Thread, ps: seq<Processes.Process>, vm: AddressSpaces)
    requires OnDirectory(t, ps, vm.State(), vm.kernelDirectory, vm.current)
    ensures forall u: Thread :: u.process == t.process ==>
              OnDirectory(u, ps, vm.State(), vm.kernelDirectory, vm.current)
              && Loaded(u, ps, vm.spaces, vm.kernelDirectory, vm.current) == vm.current
  {
  }

  lemma DirectoryLoaded(ts: seq<Thread>, i: nat, ps: seq<Processes.Process>, vm: AddressSpaces, active: uint32)
    requires i < |ts| && |ps| == Processes.PROCESS_MAX && ProcessesKnown(ts, ps) && Processes.TableOk(ps) && vm.Valid()
    ensures var t := ts[i];
            OnDirectory(t, ps, vm.State(), vm.kernelDirectory, Loaded(t, ps, vm.spaces, vm.kernelDirectory, active))
  {
  }

  class KernelScheduler {
    const table: Threads.ThreadTable
    const processes: Processes.ProcessTable
    var current: nat

    ghost function State(): Machine
      reads this, table.threads
    {
      Machine(table.threads[..], current)
    }

    /** None of the tables is an object that the allocator writes. */
    ghost predicate Apart() {
      table.Apart() && processes.vm == table.heap.vm && this !in table.heap.vm.pmm.Repr
    }

    ghost predicate Valid()
      reads this, table, table.threads, table.heap, table.heap.vm, table.heap.vm.pmm, table.heap.vm.pmm.Repr
      reads table.heap.vm.pmm.frameBitmap, table.heap.vm.pmm.reservedBitmap
      reads table.heap.vm.pmm.frameBitmap.bytes, table.heap.vm.pmm.reservedBitmap.bytes
      reads processes, processes.processes
    {
      && Apart() && table.Valid() && processes.Valid() && Shaped(State()) && OneRunning(State())
      && !table.threads[current].state.Unused?
      && ProcessesKnown(table.threads[..], processes.processes[..])
      && OnDirectory(table.threads[current], processes.processes[..], table.heap.vm.State(),
                     table.heap.vm.kernelDirectory, table.heap.vm.current)
    }

    constructor (table: Threads.ThreadTable, processes: Processes.ProcessTable)
      ensures this.table == table && this.processes == processes
    {
      this.table, this.processes, current := table, processes, 0;
    }

    /** `scheduler_initialize` */
    method Initialize()
      requires Apart() && table.heap.Valid()
      modifies this`current, table`current, table.threads
      ensures table.Valid() && current == 0 && table.current == 0
      ensures table.threads[0].state.Running? && table.threads[0].process.None?
      ensures forall i: nat :: 0 < i < THREAD_MAX ==> table.threads[i].state.Unused? && table.threads[i].process.None?
    {
      table.Initialize();
      current := table.current;
    }

    /** The first stores of `scheduler_schedule`. */
    method SaveContext(context: nat)
      requires Apart() && table.Valid() && current < THREAD_MAX
      modifies table.threads
      ensures table.Valid() && State() == Save(old(State()), context)
    {
      hide Inv, AddressSpaces.State;
      ghost var ts := table.threads[..];
      hide AddressSpaces.Valid, KernelHeap.Valid, Live;
      HeapFootprint(table.heap);
      var t := table.threads[current].(esp := context);
      if t.state.Running? {
        t := t.(state := Ready);
      }
      table.threads[current] := t;
      SameTable(ts, table.threads[..], table.heap.Allocations());
    }

    /** The ring scan. */
    method FindNext() returns (next: Option<nat>)
      requires table.threads.Length == THREAD_MAX && current < THREAD_MAX && Shaped(State())
      ensures next == NextReady(table.threads[..], current, 1)
    {
      hide NextReady;
      var start := table.threads[current].id;
      for offset := 1 to THREAD_MAX + 1
        invariant NextReady(table.threads[..], current, 1) == NextReady(table.threads[..], current, offset)
      {
        var index := (start + offset) % THREAD_MAX;
        NextReadyUnfolds(table.threads[..], current, offset);
        if table.threads[index].state.Ready? {
          return Some(index);
        }
      }
      NextReadyUnfolds(table.threads[..], current, THREAD_MAX + 1);
      next := None;
    }

    /** The selected thread becomes the current one. */
    method DispatchTo(next: nat)
      requires Apart() && table.Valid() && current < THREAD_MAX && next < THREAD_MAX
      modifies this`current, table.threads
      ensures table.Valid() && State() == Dispatch(old(State()), next)
    {
      hide Accounted, KernelPde;
      ghost var ts := table.threads[..];
      hide AddressSpaces.Valid, KernelHeap.Valid, Live;
      HeapFootprint(table.heap);
      current := next;
      var t := table.threads[next];
      table.threads[next] := t.(state := Running, switches := (t.switches + 1) % TWO_32);
      SameTable(ts, table.threads[..], table.heap.Allocations());
    }

    /** The processor moves to the address space of the current thread's process, if it has one. */
    method LoadSpace()
      requires Apart() && table.Valid() && processes.Valid() && current < THREAD_MAX
      requires ProcessesKnown(table.threads[..], processes.processes[..])
      modifies table.heap.vm`current
      ensures table.Valid()
      ensures table.heap.vm.current ==
              Loaded(table.threads[current], processes.processes[..], table.heap.vm.spaces,
                     table.heap.vm.kernelDirectory, old(table.heap.vm.current))
    {
      HeapFootprint(table.heap);
      hide FrameAllocator.Valid, KernelHeap.ListOk, HeapPages, Live, Threads.TableOk, Inv, Accounted, Booted;
      var process := table.threads[current].process;
      if process.Some? {
        var space := processes.processes[process.value].space;
        if space != NullSpace {
          table.heap.vm.SwitchAddressSpace(space);
        }
      }
    }

    /** The last lines of `scheduler_schedule`: the stack of a dead thread goes back to the heap. */
    method ReapThread(previous: nat)
      requires Apart() && table.Valid() && previous < THREAD_MAX && current < THREAD_MAX
      modifies table.threads, table.heap`headers, table.heap`blocks, table.heap`used
      ensures table.Valid() && State() == Reap(old(State()), previous)
      ensures table.heap.Allocations() ==
              if previous != current && old(table.threads[previous]).state.Terminated?
              then old(table.heap.Allocations()) - {old(table.threads[previous]).kernelStack}
              else old(table.heap.Allocations())
    {
      ghost var ts := table.threads[..];
      hide AddressSpaces.Valid, FrameAllocator.Valid, Threads.TableOk, KernelHeap.Valid, Live;
      if previous == current || !table.threads[previous].state.Terminated? {
        return;
      }
      FreeSlot(previous);
    }

    method FreeSlot(previous: nat)
      requires Apart() && table.Valid() && previous < THREAD_MAX
      modifies table.threads, table.heap`headers, table.heap`blocks, table.heap`used
      ensures table.Valid()
      ensures table.threads[..] == old(table.threads[..])[previous :=
                                     old(table.threads[..])[previous].(state := Unused, kernelStack := 0)]
      ensures table.heap.Allocations() == old(table.heap.Allocations()) - {old(table.threads[previous]).kernelStack}
    {
      hide KernelHeap.Valid, Threads.TableOk, Live;
      NoNullAllocation(table.heap);
      if table.threads[previous].kernelStack != 0 {
        FreeStack(previous);
      }
      ClearSlot(previous);
    }

    method ClearSlot(previous: nat)
      requires Apart() && table.Valid() && previous < THREAD_MAX && table.threads[previous].kernelStack == 0
      modifies table.threads
      ensures table.Valid()
      ensures table.threads[..] ==
                old(table.threads[..])[previous := old(table.threads[..])[previous].(state := Unused)]
    {
      ghost var ts := table.threads[..];
      hide KernelHeap.Valid, Threads.TableOk, Live;
      HeapFootprint(table.heap);
      table.threads[previous] := table.threads[previous].(state := Unused);
      ClearedTable(ts, table.heap.Allocations(), previous);
    }

    method FreeStack(previous: nat)
      requires Apart() && table.Valid() && previous < THREAD_MAX && table.threads[previous].kernelStack != 0
      modifies table.threads, table.heap`headers, table.heap`blocks, table.heap`used
      ensures table.Valid()
      ensures table.threads[..] ==
                old(table.threads[..])[previous := old(table.threads[..])[previous].(kernelStack := 0)]
      ensures table.heap.Allocations() == old(table.heap.Allocations()) - {old(table.threads[previous]).kernelStack}
    {
      ghost var ts, allocations := table.threads[..], table.heap.Allocations();
      hide AddressSpaces.Valid, KernelHeap.Valid, KernelHeap.ListOk, HeapPages, Threads.TableOk, Live;
      HeapFootprint(table.heap);
      StackIsLive(table, previous);
      var t := table.threads[previous];
      FreeAllocation(table.heap, t.kernelStack);
      ForgetStack(previous, ts, allocations);
    }

    /** The stack of the thread has been freed. */
    method ForgetStack(previous: nat, ghost ts: seq<Thread>, ghost allocations: map<nat, nat>)
      requires Apart() && table.heap.Valid() && previous < THREAD_MAX && table.threads[previous].kernelStack != 0
      requires ts == table.threads[..] && Threads.TableOk(ts, allocations)
      requires table.heap.Allocations() == allocations - {ts[previous].kernelStack}
      modifies table.threads
      ensures table.Valid() && table.threads[..] == ts[previous := ts[previous].(kernelStack := 0)]
    {
      hide AddressSpaces.Valid, KernelHeap.Valid, KernelHeap.ListOk, HeapPages, Threads.TableOk, Live;
      HeapFootprint(table.heap);
      var t := table.threads[previous];
      table.threads[previous] := t.(kernelStack := 0);
      StacklessTable(ts, allocations, previous);
    }

    /** Nobody else can run. */
    method ResumeCurrent()
      requires Apart() && table.Valid() && current < THREAD_MAX
      modifies table.threads
      ensures table.Valid() && State() == Switch(old(State()), None)
    {
      ghost var ts := table.threads[..];
      hide AddressSpaces.Valid, KernelHeap.Valid, Live;
      HeapFootprint(table.heap);
      table.threads[current] := table.threads[current].(state := Running);
      SameTable(ts, table.threads[..], table.heap.Allocations());
    }

    /** `scheduler_schedule`: the state, the returned context, the active directory and the freed stack. */
    method Schedule(context: nat) returns (resumed: nat)
      requires Valid()
      modifies this`current, table.threads, table.heap`headers, table.heap`blocks, table.heap`used
      modifies table.heap.vm`current
      ensures Valid()
      ensures State() == Scheduling.Schedule(old(State()), context) && resumed == Resumed(old(State()), context)
      ensures table.heap.Allocations() == old(table.heap.Allocations()) - {FreedStack(old(State()), context)}
      ensures table.heap.vm.State() == old(table.heap.vm.State())
      ensures table.heap.vm.current ==
              Loaded(table.threads[current], processes.processes[..], table.heap.vm.spaces,
                     table.heap.vm.kernelDirectory, old(table.heap.vm.current))
    {
      hide AddressSpaces.Valid, KernelHeap.Valid, Live, Threads.TableOk, NextReady, Scheduling.Schedule, Resumed;
      hide FreedStack, Save, Switch, OneRunning, ProcessesKnown, OnDirectory, Loaded, Processes.TableOk;
      ghost var m := State();
      HeapFootprint(table.heap);
      StepKeepsRunning(m, Tick(context));
      TickKeepsKnown(m, context, processes.processes[..]);
      NoNullAllocation(table.heap);
      ScheduleParts(m, context, processes.processes[..]);
      DirectoryKept(table.threads[current], processes.processes[..], table.heap.vm);
      if context == 0 {
        return context;
      }
      SaveContext(context);
      resumed := SelectNext(context);
      HeapFootprint(table.heap);
      DirectoryLoaded(table.threads[..], current, processes.processes[..], table.heap.vm, old(table.heap.vm.current));
    }

    /** The rest of `scheduler_schedule` once the context is saved. */
    method SelectNext(context: nat) returns (resumed: nat)
      requires Apart() && table.Valid() && processes.Valid() && Shaped(State())
      requires ProcessesKnown(table.threads[..], processes.processes[..])
      modifies this`current, table.threads, table.heap`headers, table.heap`blocks, table.heap`used
      modifies table.heap.vm`current
      ensures table.Valid()
      ensures var next := NextReady(old(table.threads[..]), old(current), 1);
              && State() == Switch(old(State()), next)
              && resumed == (if next.Some? then old(table.threads[..])[next.value].esp else context)
              && table.heap.Allocations() ==
                 (if next.Some? && next.value != old(current) && old(table.threads[current]).state.Terminated?
                  then old(table.heap.Allocations()) - {old(table.threads[current]).kernelStack}
                  else old(table.heap.Allocations()))
              && table.heap.vm.current ==
                 if next.Some?
                 then Loaded(table.threads[current], processes.processes[..], table.heap.vm.spaces,
                             table.heap.vm.kernelDirectory, old(table.heap.vm.current))
                 else old(table.heap.vm.current)
    {
      hide AddressSpaces.Valid, KernelHeap.Valid, Live, Threads.TableOk, NextReady, Switch, Loaded;
      var next := FindNext();
      if next.None? {
        ResumeCurrent();
        return context;
      }
      resumed := SwitchTo(next.value);
    }

    /** The second half of `scheduler_schedule`. */
    method SwitchTo(next: nat) returns (resumed: nat)
      requires Apart() && table.Valid() && processes.Valid() && Shaped(State()) && next < THREAD_MAX
      requires ProcessesKnown(table.threads[..], processes.processes[..])
      modifies this`current, table.threads, table.heap`headers, table.heap`blocks, table.heap`used
      modifies table.heap.vm`current
      ensures table.Valid() && State() == Switch(old(State()), Some(next))
      ensures current == next && resumed == old(table.threads[next]).esp
      ensures table.heap.Allocations() ==
              if next != old(current) && old(table.threads[current]).state.Terminated?
              then old(table.heap.Allocations()) - {old(table.threads[current]).kernelStack}
              else old(table.heap.Allocations())
      ensures table.heap.vm.current ==
              Loaded(table.threads[current], processes.processes[..], table.heap.vm.spaces,
                     table.heap.vm.kernelDirectory, old(table.heap.vm.current))
    {
      hide AddressSpaces.Valid, KernelHeap.Valid, Live, Threads.TableOk;
      HeapFootprint(table.heap);
      var previous := current;
      DispatchTo(next);
      LoadSpace();
      ReapThread(previous);
      resumed := table.threads[current].esp;
    }

    /** `scheduler_block` */
    method Block(thread: Option<nat>)
      requires Valid() && (thread.Some? ==> thread.value < THREAD_MAX)
      modifies table.threads
      ensures Valid() && State() == if thread.Some? then Step(old(State()), Event.Block(thread.value)) else old(State())
    {
      hide OnDirectory, OneRunning, ProcessesKnown, Threads.TableOk, Processes.TableOk, KernelHeap.Valid, Live;
      if thread.Some? {
        ChangeState(thread.value, Blocked);
      }
    }

    /** `scheduler_unblock` */
    method Unblock(thread: Option<nat>)
      requires Valid() && (thread.Some? ==> thread.value < THREAD_MAX)
      modifies table.threads
      ensures Valid()
              && State() == if thread.Some? then Step(old(State()), Event.Unblock(thread.value)) else old(State())
    {
      hide OnDirectory, OneRunning, ProcessesKnown, Threads.TableOk, Processes.TableOk, KernelHeap.Valid, Live;
      if thread.Some? && table.threads[thread.value].state.Blocked? {
        ChangeState(thread.value, Ready);
      }
    }

    /** `thread_terminate` */
    method Terminate(thread: Option<nat>)
      requires Valid() && (thread.Some? ==> thread.value < THREAD_MAX)
      modifies table.threads
      ensures Valid()
              && State() == if thread.Some? then Step(old(State()), Event.Terminate(thread.value)) else old(State())
    {
      hide OnDirectory, OneRunning, ProcessesKnown, Threads.TableOk, Processes.TableOk, KernelHeap.Valid, Live;
      if thread.Some? {
        ChangeState(thread.value, Terminated);
      }
    }

    method ChangeState(i: nat, s: ThreadState)
      requires Valid() && i < THREAD_MAX && !s.Unused? && !s.Running?
      modifies table.threads
      ensures Valid() && State() == WithState(old(State()), i, s)
    {
      hide Accounted;
      ghost var ts := table.threads[..];
      hide AddressSpaces.Valid, KernelHeap.Valid, KernelHeap.ListOk, HeapPages, Live, Threads.TableOk;
      HeapFootprint(table.heap);
      table.threads[i] := table.threads[i].(state := s);
      SameTable(ts, table.threads[..], table.heap.Allocations());
    }
  }
}
