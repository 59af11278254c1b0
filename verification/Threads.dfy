/** The thread table: slots and kernel stacks (src/kernel/process/thread.c). */
module Threads {
  import opened Words
  import opened Pmm
  import opened Paging
  import opened Blocks
  import opened Heap
  import opened Scheduling

  const THREAD_STACK_SIZE: int := 16 * 1024

  /** Every kernel stack is a live allocation of the heap. */
  ghost predicate StacksLive(ts: seq<Thread>, allocations: map<nat, nat>)
    requires |ts| == THREAD_MAX
  {
    forall i: nat :: i < THREAD_MAX && ts[i].kernelStack != 0 ==>
      ts[i].kernelStack in allocations && allocations[ts[i].kernelStack] >= THREAD_STACK_SIZE
  }

  ghost predicate TableOk(ts: seq<Thread>, allocations: map<nat, nat>) {
    Shaped(Machine(ts, 0)) && StacksOk(Machine(ts, 0)) && StacksLive(ts, allocations)
  }

  /** The slot i with a new thread in it. */
  function Fresh(previous: Thread, i: nat, process: nat, stack: nat, entry: nat, argument: nat): Thread {
    previous.(id := i, state := Ready, process := Some(process), esp := 0, kernelStack := stack, entry := entry,
          argument := argument, switches := 0, workCounter := 0)
  }

  /** A thread of the process that is READY to begin at entry with the argument, and has a stack. */
  predicate Begins(t: Thread, i: nat, process: nat, entry: nat, argument: nat) {
    && t.id == i && t.state.Ready? && t.process == Some(process) && t.kernelStack != 0
    && t.entry == entry && t.argument == argument && t.switches == 0 && t.workCounter == 0
  }

  lemma FreshKeepsTable(ts: seq<Thread>, before: map<nat, nat>, i: nat, t: Thread, stack: nat, size: nat)
    requires TableOk(ts, before) && i < THREAD_MAX && ts[i].state.Unused?
    requires t.id == i && t.kernelStack == stack && !t.state.Unused?
    requires stack != 0 && stack !in before && size >= THREAD_STACK_SIZE
    ensures TableOk(ts[i := t], before[stack := size])
    ensures forall j: nat :: j < THREAD_MAX ==> ts[j].kernelStack != stack
  {
  }

  /** A stack request never wraps. */
  lemma StackRequest(heap: KernelHeap)
    requires heap.Valid()
    ensures !Wraps(heap.blocks, THREAD_STACK_SIZE) && !Overruns(heap.blocks, THREAD_STACK_SIZE)
  {
  }

  class ThreadTable {
    const heap: KernelHeap
    const threads: array<Thread>
    var current: nat

    /** The table is none of the objects that the heap writes. */
    ghost predicate Apart()
    {
      && threads.Length == THREAD_MAX
      && threads !in heap.vm.pmm.Repr && this !in heap.vm.pmm.Repr
    }

    ghost predicate Valid()
      reads this, threads, heap, heap.vm, heap.vm.pmm.Repr, heap.vm.pmm, heap.vm.pmm.frameBitmap
      reads heap.vm.pmm.reservedBitmap
      reads heap.vm.pmm.frameBitmap.bytes, heap.vm.pmm.reservedBitmap.bytes
    {
      Apart() && heap.Valid() && TableOk(threads[..], heap.Allocations())
    }

    constructor (heap: KernelHeap)
      ensures this.heap == heap && fresh(threads) && threads.Length == THREAD_MAX
    {
      this.heap := heap;
      threads := new Thread[THREAD_MAX](i => Thread(0, Unused, None, 0, 0, 0, 0, KernelThread, 0, 0, 0, 0));
      current := 0;
    }

    /** `thread_initialize` */
    method Initialize()
      requires Apart() && heap.Valid()
      modifies this`current, threads
      ensures Valid() && current == 0 && threads[0].state.Running? && threads[0].process.None?
      ensures forall i: nat :: 0 < i < THREAD_MAX ==> threads[i].state.Unused? && threads[i].process.None?
    {
      hide AddressSpaces.Valid, FrameAllocator.Valid;
      Footprint(heap.vm);
      for i := 0 to THREAD_MAX
        invariant heap.Valid()
        invariant forall j: nat :: j < i ==> threads[j].id == j && threads[j].state.Unused? && threads[j].process.None?
                                             && threads[j].kernelStack == 0
      {
        threads[i] := threads[i].(id := i, state := Unused, process := None, esp := 0, kernelStack := 0, entry := 0,
                                  argument := 0, switches := 0, workCounter := 0);
      }
      threads[0] := threads[0].(state := Running);
      current := 0;
    }

    /** A new thread needs a process, a free slot, and a stack from the heap. */
    ghost predicate CanCreate(process: Option<nat>)
      requires threads.Length == THREAD_MAX
      reads this, threads, heap, heap.vm, heap.vm.pmm
    {
      process.Some? && FirstUnused(threads[..], 1) < THREAD_MAX && heap.CanAllocate(THREAD_STACK_SIZE)
    }

    /** `thread_create`: the first unused slot behind slot 0 with a stack of its own, or no change at all. */
    method Create(process: Option<nat>, entry: nat, argument: nat) returns (thread: Option<nat>)
      requires Valid()
      modifies threads, heap, heap.vm`ram, heap.vm`owner, heap.vm.pmm.Repr
      ensures Valid() && heap.vm.pmm.Reserved() == old(heap.vm.pmm.Reserved())
      ensures thread.Some? <==> old(CanCreate(process))
      ensures thread.None? ==>
                && threads[..] == old(threads[..]) && heap.vm.State() == old(heap.vm.State())
                && heap.State() == old(heap.State())
      ensures thread.Some? ==>
                var i := FirstUnused(old(threads[..]), 1);
                && thread == Some(i) && Begins(threads[i], i, process.value, entry, argument) && threads[i].esp == 0
                && threads[i].kernelStack !in old(heap.Allocations())
                && threads[..] ==
                   old(threads[..])[i := Fresh(old(threads[..])[i], i, process.value, threads[i].kernelStack, entry,
                                               argument)]
                && heap.Allocations() == old(heap.Allocations())[threads[i].kernelStack :=
                                                                   heap.Allocations()[threads[i].kernelStack]]
      ensures Grown(old(heap.vm.State()), heap.vm.State())
    {
      hide KernelHeap.Valid, Live, Grown, TableOk, KernelHeap.CanAllocate;
      HeapFootprint(heap);
      NothingGrown(heap.vm.State());
      if process.None? {
        return None;
      }
      for i := 1 to THREAD_MAX
        invariant forall j: nat :: 1 <= j < i ==> !threads[j].state.Unused?
        invariant threads[..] == old(threads[..])
      {
        if threads[i].state.Unused? {
          FirstUnusedIs(threads[..], 1, i);
          thread := Fill(i, process.value, entry, argument);
          return;
        }
      }
      FirstUnusedIs(threads[..], 1, THREAD_MAX);
      thread := None;
    }

    /** The unused slot i gets its stack. */
    method Fill(i: nat, process: nat, entry: nat, argument: nat) returns (thread: Option<nat>)
      requires Valid() && i < THREAD_MAX && threads[i].state.Unused?
      modifies threads, heap, heap.vm`ram, heap.vm`owner, heap.vm.pmm.Repr
      ensures Valid() && heap.vm.pmm.Reserved() == old(heap.vm.pmm.Reserved())
      ensures thread == if old(heap.CanAllocate(THREAD_STACK_SIZE)) then Some(i) else None
      ensures thread.None? ==>
                && threads[..] == old(threads[..]) && heap.vm.State() == old(heap.vm.State())
                && heap.State() == old(heap.State())
      ensures thread.Some? ==>
                && Begins(threads[i], i, process, entry, argument) && threads[i].esp == 0
                && threads[i].kernelStack !in old(heap.Allocations())
                && threads[..] == old(threads[..])[i := Fresh(old(threads[..])[i], i, process, threads[i].kernelStack,
                                                              entry, argument)]
                && heap.Allocations() == old(heap.Allocations())[threads[i].kernelStack :=
                                                                   heap.Allocations()[threads[i].kernelStack]]
      ensures Grown(old(heap.vm.State()), heap.vm.State())
    {
      hide KernelHeap.Valid, Live, Grown, TableOk, Wraps, Overruns, FindFirst, Reuse, Append, AlignUp, PageAlignUp;
      hide RequiredEnd;
      hide At;
      hide KernelHeap.CanAllocate;
      ghost var ts, before := threads[..], heap.Allocations();
      StackRequest(heap);
      var stack := heap.Kmalloc(THREAD_STACK_SIZE);
      if stack == 0 {
        return None;
      }
      HeapFootprint(heap);
      threads[i] := Fresh(threads[i], i, process, stack, entry, argument);
      FreshKeepsTable(ts, before, i, threads[i], stack, heap.Allocations()[stack]);
      thread := Some(i);
    }

    /** `thread_terminate` */
    method Terminate(thread: Option<nat>)
      requires Valid() && (thread.Some? ==> thread.value < THREAD_MAX)
      modifies threads
      ensures Valid()
      ensures threads[..] ==
              if thread.Some? then WithState(Machine(old(threads[..]), 0), thread.value, Terminated).threads
              else old(threads[..])
    {
      hide AddressSpaces.Valid, FrameAllocator.Valid, Live, HeapPages, KernelHeap.ListOk;
      Footprint(heap.vm);
      if thread.Some? {
        threads[thread.value] := threads[thread.value].(state := Terminated);
      }
    }
  }
}
