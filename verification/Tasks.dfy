/** Creating tasks: the chain of allocations and its rollback (src/kernel/task.c). */
module Tasks {
  import opened Words
  import opened Pmm
  import opened Ownership
  import opened Paging
  import opened Blocks
  import opened Heap
  import opened ElfImage
  import opened ElfLoader
  import opened NewSpace
  import opened SpaceBuilding
  import opened Scheduling
  import opened Scheduler
  import Processes
  import Threads
  import Keyboard

  const TASK_MAX: int := THREAD_MAX
  const USER_STACK_TOP: int := 0x8000_0000

  /** Bytes of the initial frame of a kernel task and of a user task. */
  const KERNEL_FRAME: int := 13 * 4
  const USER_FRAME: int := 15 * 4

  /** The initial stack pointer: below the aligned end of the stack, by the size of the frame. */
  function InitialEsp(stack: nat, frame: nat): nat
    requires frame <= USER_FRAME
  {
    (stack + Threads.THREAD_STACK_SIZE) / 16 * 16 - frame
  }

  /** The initial frame lies inside the stack. */
  lemma FrameFits(stack: nat, frame: nat)
    requires frame <= USER_FRAME
    ensures stack < InitialEsp(stack, frame) && InitialEsp(stack, frame) + frame <= stack + Threads.THREAD_STACK_SIZE
  {
  }

  /** Everything outside memory that a task creation may touch: what a failing one must leave as it was. */
  datatype Snapshot = Snapshot(
    processes: seq<Processes.Process>, threads: seq<Thread>, current: nat, spaces: seq<Space>, owner: map<nat, Role>,
    free: set<nat>, active: uint32, heap: HeapState, taskCount: nat, keyboard: Keyboard.Owner)

  /** The tables, the heap and the active directory make sense together on the machine v. */
  ghost predicate Consistent(s: Snapshot, v: View, kernelDirectory: uint32) {
    && WellTyped(v) && Processes.TableOk(s.processes) && WellLinked(s.heap) && HeapPages(v, s.heap.frames)
    && Threads.TableOk(s.threads, Live(s.heap.blocks, HEAP_START))
    && Shaped(Machine(s.threads, s.current)) && OneRunning(Machine(s.threads, s.current))
    && !s.threads[s.current].state.Unused? && ProcessesKnown(s.threads, s.processes)
    && OnDirectory(s.threads[s.current], s.processes, v, kernelDirectory, s.active)
    && Processes.SpacesOwned(s.processes, v.spaces)
  }

  /** The machine has changed, but not for the heap, the kernel, or the address spaces in use. */
  ghost predicate Kept(v: View, w: View) {
    && Undisturbed(v, w) && (forall f: nat :: f in w.owner && w.owner[f].HeapPage? ==> f in v.owner)
    && forall j: nat :: Used(v, j) ==> w.spaces[j] == v.spaces[j]
  }

  lemma GraftKeeps(v: View, w: View, i: nat, lost: Option<nat>)
    requires Grafted(v, w, i, lost)
    ensures Kept(v, w)
  {
  }

  lemma RestoredKeeps(v: View, w: View, lost: Option<nat>)
    requires Undisturbed(v, w) && w.spaces == v.spaces && w.owner == WithLost(v.owner, lost)
    ensures Kept(v, w)
  {
  }

  lemma StillOnDirectory(t: Thread, ps: seq<Processes.Process>, v: View, w: View, kernelDirectory: uint32,
                         active: uint32)
    requires |ps| == Processes.PROCESS_MAX && WellTyped(v) && Processes.SpacesOwned(ps, v.spaces)
    requires WellTyped(w) && forall j: nat :: Used(v, j) ==> w.spaces[j] == v.spaces[j]
    requires OnDirectory(t, ps, v, kernelDirectory, active)
    ensures OnDirectory(t, ps, w, kernelDirectory, active)
  {
  }

  /** A machine on which nothing that matters has changed. */
  lemma StillConsistent(s: Snapshot, v: View, w: View, kernelDirectory: uint32)
    requires Consistent(s, v, kernelDirectory) && Kept(v, w)
    ensures Processes.SpacesOwned(s.processes, w.spaces) ==> Consistent(s, w, kernelDirectory)
    ensures HeapPages(w, s.heap.frames) && OnDirectory(s.threads[s.current], s.processes, w, kernelDirectory, s.active)
  {
    hide WellLinked, Threads.TableOk, OnDirectory, Processes.SpacesOwned;
    StillOnDirectory(s.threads[s.current], s.processes, v, w, kernelDirectory, s.active);
    HeapUndisturbed(v, w, s.heap.frames);
  }

  /** The slot i holds a new thread of the new process p. */
  predicate NewThread(s: Snapshot, t: Snapshot, i: nat, p: nat) {
    && i < |s.threads| && |t.threads| == |s.threads| && t.threads == s.threads[i := t.threads[i]]
    && s.threads[i].state.Unused? && t.threads[i].state.Ready? && t.threads[i].process == Some(p)
  }

  /** A new process with the new space i, with its thread, on a machine with that space. */
  lemma ConsistentWithTask(s: Snapshot, t: Snapshot, v: View, w: View, kernelDirectory: uint32, p: nat, thread: nat,
                           space: SpaceRef)
    requires Consistent(s, v, kernelDirectory) && WellTyped(w) && NewThread(s, t, thread, p)
    requires p < Processes.PROCESS_MAX && s.processes[p].state.Unused?
             && t.processes == Processes.Claim(s.processes, p, space)
    requires space.Slot? ==> space.i < MAX_ADDRESS_SPACES
    requires WellLinked(t.heap) && HeapPages(w, t.heap.frames) && t.current == s.current && t.active == s.active
    requires Threads.TableOk(t.threads, Live(t.heap.blocks, HEAP_START)) && t.threads[thread].id == thread
    requires forall j: nat :: Used(v, j) ==> w.spaces[j] == v.spaces[j]
    requires Processes.SpacesOwned(t.processes, w.spaces)
    ensures Consistent(t, w, kernelDirectory)
  {
    hide WellLinked, Live, HeapPages;
    var c := s.threads[s.current];
    assert c.process.Some? ==> t.processes[c.process.value] == s.processes[c.process.value];
    StillOnDirectory(c, s.processes, v, w, kernelDirectory, s.active);
  }

  /** One more task: the first unused process and the first unused thread are taken, the thread on a new stack. */
  ghost predicate WithTask(s: Snapshot, t: Snapshot, space: SpaceRef, id: int) {
    && |s.processes| == Processes.PROCESS_MAX && |s.threads| == |t.threads| == THREAD_MAX
    && Processes.FirstUnused(s.processes, 1) < Processes.PROCESS_MAX
    && t.processes == Processes.Claim(s.processes, Processes.FirstUnused(s.processes, 1), space)
    && id == FirstUnused(s.threads, 1) < THREAD_MAX && t.threads == s.threads[id := t.threads[id]]
    && OneMore(Live(s.heap.blocks, HEAP_START), Live(t.heap.blocks, HEAP_START), t.threads[id].kernelStack)
    && t.current == s.current && t.active == s.active && t.taskCount == s.taskCount + 1
  }

  /** `thread_create` has filled slot t for the new process p, which has the given address space. */
  ghost predicate ThreadMade(s: Snapshot, now: Snapshot, p: nat, space: SpaceRef, t: nat, entry: nat, argument: nat) {
    && |s.processes| == Processes.PROCESS_MAX && |s.threads| == |now.threads| == THREAD_MAX
    && p == Processes.FirstUnused(s.processes, 1) < Processes.PROCESS_MAX
    && now.processes == Processes.Claim(s.processes, p, space)
    && t == FirstUnused(s.threads, 1) < THREAD_MAX
    && now.threads == s.threads[t := Threads.Fresh(s.threads[t], t, p, now.threads[t].kernelStack, entry, argument)]
    && OneMore(Live(s.heap.blocks, HEAP_START), Live(now.heap.blocks, HEAP_START), now.threads[t].kernelStack)
    && now.current == s.current && now.active == s.active && now.taskCount == s.taskCount && now.keyboard == s.keyboard
  }

  /** The allocation p is new, and the only new one. */
  ghost predicate OneMore(before: map<nat, nat>, after: map<nat, nat>, p: nat) {
    p != 0 && p !in before && p in after && after == before[p := after[p]]
  }

  /** The stack pointer lies so many words below the end of the stack, which counts to the last multiple of 16. */
  predicate FrameOnTop(t: Thread, words: nat) {
    var top := t.esp + 4 * words;
    top % 16 == 0 && top <= t.kernelStack + Threads.THREAD_STACK_SIZE < top + 16
  }

  /** A kernel thread that is to call entry with the argument, on an initial frame of 13 words. */
  predicate KernelTask(t: Thread, id: nat, process: nat, entry: nat, argument: nat) {
    Threads.Begins(t, id, process, entry, argument) && t.kind == KernelThread && FrameOnTop(t, 13)
  }

  /** A user thread that is to begin at entry on the user stack, on an initial frame of 15 words. */
  predicate UserTask(t: Thread, id: nat, process: nat, entry: nat) {
    && Threads.Begins(t, id, process, 0, 0) && t.kind == UserThread && t.userEntry == entry
    && t.userStack == 0x8000_0000 && FrameOnTop(t, 15)
  }

  lemma MadeBegins(s: Snapshot, now: Snapshot, p: nat, space: SpaceRef, t: nat, entry: nat, argument: nat)
    requires ThreadMade(s, now, p, space, t, entry, argument)
    ensures Threads.Begins(now.threads[t], t, p, entry, argument)
  {
  }

  lemma BecomesUser(t: Thread, id: nat, process: nat, entry: nat)
    requires Threads.Begins(t, id, process, 0, 0)
    ensures UserTask(t.(kind := UserThread, userEntry := entry, userStack := USER_STACK_TOP,
                        esp := InitialEsp(t.kernelStack, USER_FRAME)), id, process, entry)
  {
  }

  lemma BecomesKernel(t: Thread, id: nat, process: nat, entry: nat, argument: nat)
    requires Threads.Begins(t, id, process, entry, argument)
    ensures KernelTask(t.(kind := KernelThread, esp := InitialEsp(t.kernelStack, KERNEL_FRAME)), id, process, entry,
                       argument)
  {
  }

  /** One more task with a kernel process, in the slots that were the first unused ones. */
  ghost predicate WithKernelTask(s: Snapshot, t: Snapshot, id: int, entry: nat, argument: nat) {
    && WithTask(s, t, KernelSpace, id) && t.keyboard == s.keyboard
    && KernelTask(t.threads[id], id, Processes.FirstUnused(s.processes, 1), entry, argument)
  }

  lemma ConsistentMeans(s: Snapshot, v: View, kernelDirectory: uint32)
    requires Consistent(s, v, kernelDirectory)
    ensures Processes.TableOk(s.processes) && |s.processes| == Processes.PROCESS_MAX && |s.threads| == THREAD_MAX
    ensures WellTyped(v) && Processes.SpacesOwned(s.processes, v.spaces)
  {
  }

  /** One process in the kernel's address space, and one thread that runs. */
  lemma OnlyKernel(ts: seq<Thread>, ps: seq<Processes.Process>, vm: AddressSpaces)
    requires |ts| == THREAD_MAX && Processes.TableOk(ps) && WellTyped(vm.State()) && vm.current == vm.kernelDirectory
    requires ts[0].process == Some(0) && ts[0].state.Running?
    requires ps[0] == Processes.Process(0, Processes.Running, KernelSpace)
    requires forall i: nat :: 0 < i < THREAD_MAX ==> ts[i].state.Unused? && ts[i].process.None?
    requires forall p: nat :: 0 < p < Processes.PROCESS_MAX ==> ps[p].space.NullSpace?
    requires forall i: nat :: i < MAX_ADDRESS_SPACES ==> !vm.spaces[i].used
    requires forall i: nat :: i < THREAD_MAX ==> ts[i].id == i
    ensures Shaped(Machine(ts, 0)) && OneRunning(Machine(ts, 0)) && ProcessesKnown(ts, ps)
    ensures OnDirectory(ts[0], ps, vm.State(), vm.kernelDirectory, vm.current)
    ensures Processes.SpacesOwned(ps, vm.spaces)
  {
  }

  /** For the scheduler, adding a task is one creation event. */
  lemma TaskIsCreation(s: Snapshot, t: Snapshot, space: SpaceRef, id: int)
    requires WithTask(s, t, space, id) && t.threads[id].state.Ready? && t.threads[id].id == id
    requires Shaped(Machine(s.threads, s.current)) && Threads.TableOk(s.threads, Live(s.heap.blocks, HEAP_START))
    ensures var m, e := Machine(s.threads, s.current), Event.Create(t.threads[id]);
            Enabled(m, e) && Machine(t.threads, t.current) == Step(m, e)
  {
    hide Live;
    var thread := t.threads[id];
    assert thread.(id := id) == thread;
  }

  /** How `task_create_user_elf` ends: before its address space is complete, after that, or with a new task. */
  datatype Outcome = NotBuilt | Late | Done

  /** The end of the call, from the state before it. */
  ghost function Verdict(s: Snapshot, v: View, image: seq<uint8>): Outcome
    requires WellTyped(v) && |s.processes| == Processes.PROCESS_MAX && |s.threads| == THREAD_MAX
  {
    if s.taskCount >= TASK_MAX || !CanBuild(v, s.free, image) then NotBuilt
    else if NoRoom(s, BuildCost(v, s.free, Headers(image)).value.total) then Late
    else Done
  }

  /** There is no process, no thread, or no kernel stack left for one more task. */
  ghost predicate NoRoom(s: Snapshot, freeFrames: int)
    requires |s.processes| == Processes.PROCESS_MAX && |s.threads| == THREAD_MAX
  {
    || Processes.FirstUnused(s.processes, 1) == Processes.PROCESS_MAX || FirstUnused(s.threads, 1) == THREAD_MAX
    || !CanServe(s.heap, Threads.THREAD_STACK_SIZE, freeFrames)
  }

  lemma NoProcessLeft(s: Snapshot, freeFrames: int)
    requires |s.processes| == Processes.PROCESS_MAX && |s.threads| == THREAD_MAX
    ensures Processes.FirstUnused(s.processes, 1) == Processes.PROCESS_MAX ==> NoRoom(s, freeFrames)
  {
  }

  /** The call fails late, and the image covers the page of the stack: the inputs on which a frame is lost. */
  ghost predicate LosesFrame(s: Snapshot, v: View, image: seq<uint8>)
    requires WellTyped(v) && |s.processes| == Processes.PROCESS_MAX && |s.threads| == THREAD_MAX
  {
    Verdict(s, v, image).Late? && CoversPage(Headers(image), STACK_PAGE)
  }

  lemma NotBuiltMeans(s: Snapshot, v: View, image: seq<uint8>)
    requires WellTyped(v) && |s.processes| == Processes.PROCESS_MAX && |s.threads| == THREAD_MAX
    requires s.taskCount >= TASK_MAX || image == [] || !CanBuild(v, s.free, image)
    ensures Verdict(s, v, image).NotBuilt?
  {
    ValidImage(image);
  }

  lemma BuiltMeans(s: Snapshot, v: View, image: seq<uint8>, freeFrames: int)
    requires WellTyped(v) && |s.processes| == Processes.PROCESS_MAX && |s.threads| == THREAD_MAX
    requires s.taskCount < TASK_MAX && CanBuild(v, s.free, image)
    requires freeFrames == BuildCost(v, s.free, Headers(image)).value.total
    ensures Verdict(s, v, image) == if NoRoom(s, freeFrames) then Late else Done
    ensures ValidElf(image) && !Overlapping(Headers(image))
  {
  }

  /** The frame, if any, as a set. */
  function SetOf(lost: Option<nat>): set<nat> {
    if lost.Some? then {lost.value} else {}
  }

  class TaskManager {
    const scheduler: KernelScheduler
    const keyboard: Keyboard.KeyboardBuffer
    var taskCount: nat

    ghost function Vm(): AddressSpaces {
      scheduler.table.heap.vm
    }

    /** None of the objects is one that the allocator writes. */
    ghost predicate Apart() {
      && scheduler.Apart() && this !in Vm().pmm.Repr && keyboard !in Vm().pmm.Repr
      && scheduler.table.heap !in Vm().pmm.Repr
      && scheduler.processes.processes.Length == Processes.PROCESS_MAX
      && scheduler.processes.processes !in Vm().pmm.Repr && scheduler.processes !in Vm().pmm.Repr
    }

    ghost function Now(): Snapshot
      reads this, scheduler, scheduler.table.threads, scheduler.table.heap, scheduler.table.heap.vm
      reads scheduler.table.heap.vm.pmm.frameBitmap
      reads scheduler.processes.processes, keyboard
    {
      Snapshot(scheduler.processes.processes[..], scheduler.table.threads[..], scheduler.current, Vm().spaces,
               Vm().owner, Vm().pmm.Free(), Vm().current, scheduler.table.heap.State(), taskCount, keyboard.owner)
    }

    ghost predicate Valid()
      reads this, scheduler, scheduler.table.threads, scheduler.table.heap, scheduler.table.heap.vm
      reads scheduler.table.heap.vm.pmm, scheduler.table.heap.vm.pmm.Repr
      reads scheduler.table.heap.vm.pmm.frameBitmap, scheduler.table.heap.vm.pmm.reservedBitmap
      reads scheduler.table.heap.vm.pmm.frameBitmap.bytes, scheduler.table.heap.vm.pmm.reservedBitmap.bytes
      reads scheduler.processes.processes, keyboard
    {
      Apart() && Vm().Valid() && Consistent(Now(), Vm().State(), Vm().kernelDirectory) && 1 <= taskCount <= TASK_MAX
    }

    constructor (scheduler: KernelScheduler, keyboard: Keyboard.KeyboardBuffer)
      ensures this.scheduler == scheduler && this.keyboard == keyboard && taskCount == 1
    {
      this.scheduler, this.keyboard, taskCount := scheduler, keyboard, 1;
    }

    /** The same from the scheduler's side. */
    lemma SchedulerValid()
      requires Valid()
      ensures scheduler.Valid() && scheduler.table.Valid() && scheduler.processes.Valid()
    {
      hide AddressSpaces.Valid, WellLinked, Live, Threads.TableOk, OnDirectory, Processes.SpacesOwned;
    }

    lemma FromScheduler()
      requires Apart() && scheduler.Valid() && 1 <= taskCount <= TASK_MAX && WellTyped(Vm().State())
      requires Processes.SpacesOwned(scheduler.processes.processes[..], Vm().spaces)
      ensures Valid()
    {
      TableMeans(scheduler.table);
    }

    /** `task_initialize`: the first process runs in the kernel's address space, the first thread belongs to it. */
    method Initialize()
      requires Apart() && scheduler.table.heap.Valid() && Vm().current == Vm().kernelDirectory
      requires |Vm().spaces| == MAX_ADDRESS_SPACES && forall i: nat :: i < MAX_ADDRESS_SPACES ==> !Vm().spaces[i].used
      modifies this`taskCount, scheduler`current, scheduler.table`current, scheduler.table.threads
      modifies scheduler.processes`current, scheduler.processes.processes
      ensures Valid() && taskCount == 1 && scheduler.table.current == 0
    {
      hide AddressSpaces.Valid, KernelHeap.Valid, Live, HeapPages, U32;
      HeapFootprint(scheduler.table.heap);
      scheduler.processes.Initialize();
      HeapFootprint(scheduler.table.heap);
      scheduler.Initialize();
      taskCount := 1;
      AdoptFirst();
    }

    /** The first thread becomes the kernel process's. */
    method AdoptFirst()
      requires Apart() && scheduler.table.Valid() && scheduler.processes.Valid() && taskCount == 1
      requires Vm().current == Vm().kernelDirectory && scheduler.current == scheduler.table.current == 0
      requires forall i: nat :: i < MAX_ADDRESS_SPACES ==> !Vm().spaces[i].used
      requires scheduler.table.threads[0].state.Running? && scheduler.processes.current == 0
      requires forall i: nat :: 0 < i < THREAD_MAX ==>
                 scheduler.table.threads[i].state.Unused? && scheduler.table.threads[i].process.None?
      requires scheduler.processes.processes[0] == Processes.Process(0, Processes.Running, KernelSpace)
      requires forall p: nat :: 0 < p < Processes.PROCESS_MAX ==> scheduler.processes.processes[p].space.NullSpace?
      modifies scheduler.table.threads
      ensures Valid()
    {
      hide AddressSpaces.Valid, KernelHeap.Valid, Live, HeapPages, U32;
      HeapFootprint(scheduler.table.heap);
      var current := scheduler.table.current;
      ghost var ts := scheduler.table.threads[..];
      var first := scheduler.table.threads[current];
      scheduler.table.threads[current] := first.(process := Some(scheduler.processes.current), kind := KernelThread);
      SameTable(ts, scheduler.table.threads[..], scheduler.table.heap.Allocations());
      OnlyKernel(scheduler.table.threads[..], scheduler.processes.processes[..], Vm());
      hide Processes.SpacesOwned, OnDirectory, ProcessesKnown, Threads.TableOk, Processes.TableOk, Shaped, OneRunning;
      FromScheduler();
    }

    /** `task_schedule` */
    method Schedule(context: nat) returns (resumed: nat)
      requires Valid()
      modifies scheduler`current, scheduler.table.threads, scheduler.table.heap`headers, scheduler.table.heap`blocks
      modifies scheduler.table.heap`used, scheduler.table.heap.vm`current
      ensures Valid() && Vm().State() == old(Vm().State())
      ensures scheduler.State() == Scheduling.Schedule(old(scheduler.State()), context)
      ensures resumed == Resumed(old(scheduler.State()), context)
    {
      SchedulerValid();
      ConsistentMeans(Now(), Vm().State(), Vm().kernelDirectory);
      ValidIsTyped(Vm());
      hide AddressSpaces.Valid, KernelHeap.Valid, Live, Threads.TableOk, Processes.TableOk, KernelScheduler.Valid;
      resumed := scheduler.Schedule(context);
      FromScheduler();
    }

    /** Everything is as before, but for one lost frame, if any. */
    ghost predicate Unwound(before: Snapshot, v0: View, lost: Option<nat>)
      reads this, scheduler, scheduler.table.threads, scheduler.table.heap, scheduler.table.heap.vm
      reads scheduler.table.heap.vm.pmm.frameBitmap
      reads scheduler.processes.processes, keyboard
    {
      && (lost.Some? ==> lost.value !in before.owner)
      && Now() == before.(owner := WithLost(before.owner, lost), free := before.free - SetOf(lost))
      && Undisturbed(v0, Vm().State())
    }

    lemma NothingLost(before: Snapshot, v0: View, lost: Option<nat>)
      requires Unwound(before, v0, lost)
      ensures Now() == before <==> lost.None?
    {
      if lost.Some? {
        assert lost.value in Now().owner;
      } else {
        assert before.free - {} == before.free;
      }
    }

    /** Only memory has changed since the state `before` on the machine v0. */
    ghost predicate OnlyMemory(before: Snapshot, v0: View)
      reads this, scheduler, scheduler.table.threads, scheduler.table.heap, scheduler.table.heap.vm
      reads scheduler.table.heap.vm.pmm.frameBitmap
      reads scheduler.processes.processes, keyboard
    {
      && Apart() && Consistent(before, v0, Vm().kernelDirectory) && 1 <= before.taskCount <= TASK_MAX
      && before.spaces == v0.spaces && before.owner == v0.owner && before.free == Vm().managed - v0.owner.Keys
      && Now() == before.(spaces := Vm().spaces, owner := Vm().owner, free := Vm().pmm.Free())
    }

    lemma NothingYet()
      requires Valid()
      ensures OnlyMemory(Now(), Vm().State()) && Unwound(Now(), Vm().State(), None)
      ensures Vm().current / PAGE_SIZE in Vm().owner
    {
      hide Consistent;
      FreeIsTheRest(Vm());
      ActiveOwned(Vm());
      ValidIsTyped(Vm());
      NothingGrafted(Vm().State());
    }

    /** The new space is gone again. */
    lemma Unwinds(before: Snapshot, v0: View, lost: Option<nat>)
      requires OnlyMemory(before, v0) && Vm().Valid() && (lost.Some? ==> lost.value !in v0.owner)
      requires Vm().spaces == v0.spaces && Vm().owner == WithLost(v0.owner, lost) && Undisturbed(v0, Vm().State())
      ensures Valid() && Unwound(before, v0, lost)
    {
      hide AddressSpaces.Valid, HeapPages, WellLinked, Live, Threads.TableOk, OnDirectory, Undisturbed;
      FreeIsTheRest(Vm());
      RestoredKeeps(v0, Vm().State(), lost);
      StillConsistent(before, v0, Vm().State(), Vm().kernelDirectory);
      assert Vm().managed - WithLost(v0.owner, lost).Keys == before.free - SetOf(lost);
    }

    /** A task has been added: a process that owns the new address space, and a READY thread on a stack of its own. */
    ghost predicate Admitted(before: Snapshot, v0: View, built: View, i: nat, lost: Option<nat>, id: int, entry: uint32)
      reads this, scheduler, scheduler.table.threads, scheduler.table.heap, scheduler.table.heap.vm
      reads scheduler.table.heap.vm.pmm.frameBitmap
      reads scheduler.processes.processes, keyboard
    {
      && Grafted(v0, built, i, lost) && Grown(built, Vm().State())
      && WithTask(before, Now(), Slot(i), id) && Now().keyboard == Keyboard.UserOwner
      && UserTask(Now().threads[id], id, Processes.FirstUnused(before.processes, 1), entry)
    }

    /** The last stores of `task_create_user_elf`. */
    method StartUser(i: nat, entry: uint32)
      requires scheduler.table.Valid() && i < THREAD_MAX
      modifies scheduler.table.threads
      ensures scheduler.table.Valid()
      ensures var t := old(scheduler.table.threads[i]);
              scheduler.table.threads[..] == old(scheduler.table.threads[..])[i :=
                t.(kind := UserThread, userEntry := entry, userStack := USER_STACK_TOP,
                   esp := InitialEsp(t.kernelStack, USER_FRAME))]
    {
      ghost var ts := scheduler.table.threads[..];
      hide KernelHeap.Valid, Live;
      HeapFootprint(scheduler.table.heap);
      var t := scheduler.table.threads[i];
      scheduler.table.threads[i] := t.(kind := UserThread, userEntry := entry, userStack := USER_STACK_TOP,
                                       esp := InitialEsp(t.kernelStack, USER_FRAME));
      SameTable(ts, scheduler.table.threads[..], scheduler.table.heap.Allocations());
    }

    lemma ReadyForThread(before: Snapshot, v0: View, i: nat, lost: Option<nat>)
      requires OnlyMemory(before, v0) && Vm().Valid() && Grafted(v0, Vm().State(), i, lost)
      ensures scheduler.table.Valid() && scheduler.processes.Valid()
    {
      hide AddressSpaces.Valid, Grafted, WellLinked, Live, Threads.TableOk, OnDirectory, Processes.SpacesOwned;
      GraftKeeps(v0, Vm().State(), i, lost);
      StillConsistent(before, v0, Vm().State(), Vm().kernelDirectory);
    }

    /** The second half of `task_create_user_elf`: process, thread, initial frame; or everything back. */
    method Admit(i: nat, entry: uint32, ghost before: Snapshot, ghost v0: View, ghost lost: Option<nat>)
      returns (id: int, ghost built: View)
      requires OnlyMemory(before, v0) && Vm().Valid() && Grafted(v0, Vm().State(), i, lost)
      requires before.taskCount < TASK_MAX && before.active / PAGE_SIZE in v0.owner
      requires |before.processes| == Processes.PROCESS_MAX && |before.threads| == THREAD_MAX
      modifies this`taskCount, keyboard`owner, scheduler.table.threads, scheduler.processes.processes
      modifies scheduler.table.heap
      modifies scheduler.table.heap.vm`ram, scheduler.table.heap.vm`spaces, scheduler.table.heap.vm`owner
      modifies scheduler.table.heap.vm`current, scheduler.table.heap.vm.pmm.Repr
      ensures Valid() && built == old(Vm().State())
      ensures id == -1 <==> NoRoom(before, old(Vm().pmm.freeFrames))
      ensures id == -1 ==> Unwound(before, v0, lost)
      ensures id != -1 ==> Admitted(before, v0, built, i, lost, id, entry)
    {
      hide AddressSpaces.Valid, FrameAllocator.Valid, FrameAllocator.Free, KernelHeap.Valid, Consistent, Grafted;
      hide Undisturbed, Inv, Destroyed, Live, Grown, Threads.TableOk, Processes.TableOk, WithLost, WithTask;
      var vm := scheduler.table.heap.vm;
      built := vm.State();
      ReadyForThread(before, v0, i, lost);
      GraftMeans(v0, vm.State(), i, lost);
      LostIsNew(v0, vm.State(), i, lost);
      Footprint(vm);
      var process := scheduler.processes.CreateUser(Slot(i));
      if process.None? {
        Abandon(vm, i, v0, lost);
        Unwinds(before, v0, lost);
        return -1, built;
      }
      id := AdmitThread(process.value, i, entry, before, v0, built, lost);
    }

    /** The process p is the only thing, besides memory, that is new since the state `before` on the machine v0. */
    ghost predicate OnlyProcess(before: Snapshot, v0: View, p: nat, i: nat, lost: Option<nat>)
      reads this, scheduler, scheduler.table.threads, scheduler.table.heap, scheduler.table.heap.vm
      reads scheduler.table.heap.vm.pmm.frameBitmap
      reads scheduler.processes.processes, keyboard
    {
      && Apart() && Consistent(before, v0, Vm().kernelDirectory) && Grafted(v0, Vm().State(), i, lost)
      && before.spaces == v0.spaces && before.owner == v0.owner && before.free == Vm().managed - v0.owner.Keys
      && |before.threads| == THREAD_MAX && |before.processes| == Processes.PROCESS_MAX && 1 <= p < Processes.PROCESS_MAX
      && p == Processes.FirstUnused(before.processes, 1)
      && Now() == before.(processes := Processes.Claim(before.processes, p, Slot(i)),
                          spaces := Vm().spaces, owner := Vm().owner, free := Vm().pmm.Free())
      && 1 <= before.taskCount < TASK_MAX && before.active / PAGE_SIZE in v0.owner
    }

    /** The thread of the new process p; without it the process and its address space go again. */
    method AdmitThread(p: nat, i: nat, entry: uint32, ghost before: Snapshot, ghost v0: View, ghost built: View,
                       ghost lost: Option<nat>)
      returns (id: int)
      requires OnlyProcess(before, v0, p, i, lost) && scheduler.table.Valid() && scheduler.processes.Valid()
      requires built == Vm().State()
      modifies this`taskCount, keyboard`owner, scheduler.table.threads, scheduler.processes.processes
      modifies scheduler.table.heap
      modifies scheduler.table.heap.vm`ram, scheduler.table.heap.vm`spaces, scheduler.table.heap.vm`owner
      modifies scheduler.table.heap.vm`current, scheduler.table.heap.vm.pmm.Repr
      ensures Valid()
      ensures id == -1 <==> NoRoom(before, old(Vm().pmm.freeFrames))
      ensures id == -1 ==> Unwound(before, v0, lost)
      ensures id != -1 ==> Admitted(before, v0, built, i, lost, id, entry)
    {
      hide AddressSpaces.Valid, FrameAllocator.Valid, FrameAllocator.Free, KernelHeap.Valid, Grafted, Consistent;
      hide Live, Grown, Threads.TableOk, Processes.TableOk, Inv, WellLinked;
      TableMeans(scheduler.table);
      Footprint(scheduler.table.heap.vm);
      var thread := scheduler.table.Create(Some(p), 0, 0);
      TableMeans(scheduler.table);
      if thread.None? {
        DropProcess(p, i, before, v0, lost);
        return -1;
      }
      FinishUser(p, i, thread.value, entry, before, v0, built, lost);
      id := thread.value;
    }

    /** The last stores of a successful `task_create_user_elf`. */
    method FinishUser(ghost p: nat, ghost i: nat, thread: nat, entry: uint32, ghost before: Snapshot, ghost v0: View,
                      ghost built: View, ghost lost: Option<nat>)
      requires Apart() && scheduler.table.Valid() && Consistent(before, v0, Vm().kernelDirectory)
      requires Grafted(v0, built, i, lost) && Grown(built, Vm().State())
      requires ThreadMade(before, Now(), p, Slot(i), thread, 0, 0) && 1 <= taskCount < TASK_MAX
      modifies this`taskCount, keyboard`owner, scheduler.table.threads
      ensures Valid() && Admitted(before, v0, built, i, lost, thread, entry)
    {
      hide AddressSpaces.Valid, FrameAllocator.Free, KernelHeap.Valid, Grafted, Consistent, Live, Grown;
      hide Threads.TableOk;
      hide OneMore, UserTask, Threads.Begins, InitialEsp;
      TableMeans(scheduler.table);
      Footprint(scheduler.table.heap.vm);
      MadeBegins(before, Now(), p, Slot(i), thread, 0, 0);
      BecomesUser(scheduler.table.threads[thread], thread, p, entry);
      StartUser(thread, entry);
      taskCount := taskCount + 1;
      keyboard.SetOwner(Keyboard.UserOwner);
      TaskAdded(before, v0, built, i, lost, p, thread);
    }

    /** The rollback of the process stage. */
    method DropProcess(p: nat, i: nat, ghost before: Snapshot, ghost v0: View, ghost lost: Option<nat>)
      requires OnlyProcess(before, v0, p, i, lost) && Vm().Valid() && scheduler.processes.Valid()
      modifies scheduler.processes.processes
      modifies scheduler.table.heap.vm`ram, scheduler.table.heap.vm`spaces, scheduler.table.heap.vm`owner
      modifies scheduler.table.heap.vm`current, scheduler.table.heap.vm.pmm.Repr
      ensures Valid() && Unwound(before, v0, lost)
    {
      hide AddressSpaces.Valid, FrameAllocator.Valid, FrameAllocator.Free, Grafted, Undisturbed, Inv, Destroyed, Live;
      hide Threads.TableOk, Processes.TableOk, WithLost, HeapPages;
      var vm := scheduler.table.heap.vm;
      ghost var built := vm.State();
      ConsistentMeans(before, v0, vm.kernelDirectory);
      hide Consistent;
      GraftMeans(v0, built, i, lost);
      LostIsNew(v0, built, i, lost);
      ValidMeans(vm);
      Footprint(vm);
      ActiveIsOther(v0, built, i, lost, vm.current);
      scheduler.processes.Destroy(Some(p));
      GraftDestroyed(v0, built, vm.State(), i, lost);
      Processes.ReleaseUndoesClaim(before.processes, p, Slot(i));
      Unwinds(before, v0, lost);
    }

    /** `task_create_user_elf`: it ends as Verdict says. A failing call leaves everything as it was, down to the bytes
        of the frame bitmap, except that one frame is lost exactly if LosesFrame says so. */
    method CreateUserElf(image: seq<uint8>)
      returns (id: int, ghost lost: Option<nat>, ghost built: View, ghost space: nat)
      requires Valid() && |image| < TWO_32
      modifies this`taskCount, keyboard`owner, scheduler.table.threads, scheduler.processes.processes
      modifies scheduler.table.heap
      modifies scheduler.table.heap.vm`ram, scheduler.table.heap.vm`spaces, scheduler.table.heap.vm`owner
      modifies scheduler.table.heap.vm`current, scheduler.table.heap.vm.pmm.Repr
      ensures Valid()
      ensures id == -1 <==> !Verdict(old(Now()), old(Vm().State()), image).Done?
      ensures id == -1 ==> Unwound(old(Now()), old(Vm().State()), lost)
      ensures id == -1 ==> (lost.Some? <==> LosesFrame(old(Now()), old(Vm().State()), image))
      ensures id == -1 ==> (Now() == old(Now()) <==> !LosesFrame(old(Now()), old(Vm().State()), image))
      ensures id == -1 && lost.None? ==> Vm().pmm.frameBitmap.bytes[..] == old(Vm().pmm.frameBitmap.bytes[..])
                                         && Vm().pmm.freeFrames == old(Vm().pmm.freeFrames)
      ensures id != -1 ==>
                && ValidElf(image) && !Overlapping(Headers(image)) && old(taskCount) < TASK_MAX
                && Admitted(old(Now()), old(Vm().State()), built, space, lost, id, EntryPoint(image))
                && ProgramLoaded(Vm().State(), space, image, Headers(image))
                && (lost.Some? <==> CoversPage(Headers(image), STACK_PAGE))
    {
      hide AddressSpaces.Valid, FrameAllocator.Valid, FrameAllocator.Free, KernelHeap.Valid, Consistent, Grafted;
      hide Undisturbed;
      hide Inv, Live, Grown, Processes.TableOk, ProgramLoaded, CoversPage, ValidElf, HeaderOk, SegmentsOk, Headers;
      hide WithTask;
      hide EntryPoint, Overlapping, UserTask, CanBuild, BuildCost, SomeLow, NoRoom, Verdict, Unwound, Admitted;
      var vm := scheduler.table.heap.vm;
      ghost var before, v0 := Now(), vm.State();
      id, lost, built, space := -1, None, v0, 0;
      NothingYet();
      ValidSizes();
      Footprint(vm);
      ValidImage(image);
      if image == [] || taskCount >= TASK_MAX {
        NotBuiltMeans(before, v0, image);
        NothingLost(before, v0, None);
        return;
      }
      var made, entry;
      made, entry, lost := BuildSpace(vm, image);
      if made.None? {
        NotBuiltMeans(before, v0, image);
        lost := None;
        Unwinds(before, v0, None);
        NothingLost(before, v0, None);
        SameAllocator(before);
        return;
      }
      space := made.value;
      BuiltMeans(before, v0, image, vm.pmm.freeFrames);
      id, built := Admit(made.value, entry, before, v0, lost);
      if id == -1 {
        NothingLost(before, v0, lost);
        if lost.None? {
          SameAllocator(before);
        }
      } else {
        ValidMeans(vm);
        AdmittedGrown(before, v0, built, space, lost, id, entry);
        ProgramKept(built, vm.State(), space, image, Headers(image));
      }
    }

    lemma AdmittedGrown(before: Snapshot, v0: View, built: View, i: nat, lost: Option<nat>, id: int, entry: uint32)
      requires Admitted(before, v0, built, i, lost, id, entry)
      ensures Grown(built, Vm().State())
    {
    }

    /** With the same free frames the frame bitmap is the same, byte for byte. */
    twostate lemma SameAllocator(before: Snapshot)
      requires old(Valid()) && Valid() && before == old(Now()) && Now() == before
      ensures Vm().pmm.frameBitmap.bytes[..] == old(Vm().pmm.frameBitmap.bytes[..])
      ensures Vm().pmm.freeFrames == old(Vm().pmm.freeFrames)
    {
      hide Consistent;
      SameFreeSameBytes(Vm().pmm);
    }

    lemma ValidSizes()
      requires Valid()
      ensures WellTyped(Vm().State())
      ensures |Now().processes| == Processes.PROCESS_MAX && |Now().threads| == THREAD_MAX
    {
      ValidIsTyped(Vm());
    }

    /** `task_create`: a kernel process with one thread, or no change at all. */
    method Create(entry: nat, argument: nat) returns (id: int)
      requires Valid()
      modifies this`taskCount, scheduler.table.threads, scheduler.processes.processes, scheduler.table.heap
      modifies scheduler.table.heap.vm`ram, scheduler.table.heap.vm`spaces, scheduler.table.heap.vm`owner
      modifies scheduler.table.heap.vm`current, scheduler.table.heap.vm.pmm.Repr
      ensures Valid() && Grown(old(Vm().State()), Vm().State())
      ensures id == -1 <==> entry == 0 || old(taskCount) >= TASK_MAX || NoRoom(old(Now()), old(Vm().pmm.freeFrames))
      ensures id == -1 ==> Now() == old(Now()) && Vm().State() == old(Vm().State())
      ensures id == -1 ==> Vm().pmm.frameBitmap.bytes[..] == old(Vm().pmm.frameBitmap.bytes[..])
                           && Vm().pmm.freeFrames == old(Vm().pmm.freeFrames)
      ensures id != -1 ==> WithKernelTask(old(Now()), Now(), id, entry, argument)
    {
      hide AddressSpaces.Valid, FrameAllocator.Valid, FrameAllocator.Free, KernelHeap.Valid, Consistent;
      hide Inv, Destroyed, Live, Grown, Threads.TableOk, Processes.TableOk, WithKernelTask, NoRoom, U32;
      hide KernelScheduler.Valid, Threads.ThreadTable.Valid, FrameAllocator.Reserved;
      ghost var before, v0 := Now(), Vm().State();
      ConsistentMeans(before, v0, Vm().kernelDirectory);
      NothingYet();
      NothingGrown(v0);
      if entry == 0 || taskCount >= TASK_MAX {
        return -1;
      }
      SchedulerValid();
      Footprint(Vm());
      FreeIsTheRest(Vm());
      NoProcessLeft(before, Vm().pmm.freeFrames);
      var process := scheduler.processes.CreateKernel();
      if process.None? {
        return -1;
      }
      id := AdmitKernel(process.value, entry, argument, before, v0);
      if id == -1 {
        SameAllocator(before);
      }
    }

    /** The thread of the new kernel process p; without it the process goes again. */
    method AdmitKernel(p: nat, entry: nat, argument: nat, ghost before: Snapshot, ghost v0: View) returns (id: int)
      requires Apart() && scheduler.table.Valid() && scheduler.processes.Valid() && v0 == Vm().State()
      requires Consistent(before, v0, Vm().kernelDirectory) && 1 <= taskCount < TASK_MAX
      requires |before.processes| == Processes.PROCESS_MAX && |before.threads| == THREAD_MAX
      requires 1 <= p == Processes.FirstUnused(before.processes, 1) < Processes.PROCESS_MAX
      requires Now() == before.(processes := Processes.Claim(before.processes, p, KernelSpace))
      modifies this`taskCount, scheduler.table.threads, scheduler.processes.processes, scheduler.table.heap
      modifies scheduler.table.heap.vm`ram, scheduler.table.heap.vm`spaces, scheduler.table.heap.vm`owner
      modifies scheduler.table.heap.vm`current, scheduler.table.heap.vm.pmm.Repr
      ensures Valid() && Grown(v0, Vm().State())
      ensures id == -1 <==> NoRoom(before, old(Vm().pmm.freeFrames))
      ensures id == -1 ==> Now() == before && Vm().State() == v0
      ensures id != -1 ==> WithKernelTask(before, Now(), id, entry, argument)
    {
      hide AddressSpaces.Valid, FrameAllocator.Valid, FrameAllocator.Free, KernelHeap.Valid;
      hide Inv, Destroyed, Live, Grown, Threads.TableOk, Processes.TableOk, CanServe, HeapPages, KernelHeap.ListOk;
      hide Used, WithKernelTask, Consistent, WellLinked, U32, FrameAllocator.Reserved;
      ConsistentMeans(before, v0, Vm().kernelDirectory);
      TableMeans(scheduler.table);
      Footprint(Vm());
      FreeIsTheRest(Vm());
      var thread := scheduler.table.Create(Some(p), entry, argument);
      TableMeans(scheduler.table);
      FreeIsTheRest(Vm());
      if thread.None? {
        DropKernelProcess(p, before, v0);
        return -1;
      }
      FinishKernel(p, thread.value, entry, argument, before, v0);
      id := thread.value;
    }

    /** The rollback of the process stage. */
    method DropKernelProcess(p: nat, ghost before: Snapshot, ghost v0: View)
      requires Apart() && Vm().Valid() && scheduler.processes.Valid() && v0 == Vm().State()
      requires Consistent(before, v0, Vm().kernelDirectory) && 1 <= taskCount < TASK_MAX
      requires |before.processes| == Processes.PROCESS_MAX && 1 <= p < Processes.PROCESS_MAX
      requires before.processes[p].state.Unused?
      requires Now() == before.(processes := Processes.Claim(before.processes, p, KernelSpace))
      modifies scheduler.processes.processes
      modifies scheduler.table.heap.vm`ram, scheduler.table.heap.vm`spaces, scheduler.table.heap.vm`owner
      modifies scheduler.table.heap.vm`current, scheduler.table.heap.vm.pmm.Repr
      ensures Valid() && Now() == before && Vm().State() == v0
    {
      hide AddressSpaces.Valid, FrameAllocator.Valid, FrameAllocator.Free, KernelHeap.Valid, Live, Threads.TableOk;
      hide Processes.TableOk;
      ConsistentMeans(before, v0, Vm().kernelDirectory);
      hide Consistent;
      Footprint(Vm());
      FreeIsTheRest(Vm());
      scheduler.processes.Destroy(Some(p));
      Processes.ReleaseUndoesClaim(before.processes, p, KernelSpace);
      FreeIsTheRest(Vm());
    }

    /** The last stores of a successful `task_create`. */
    method FinishKernel(ghost p: nat, thread: nat, ghost entry: nat, ghost argument: nat, ghost before: Snapshot,
                        ghost v0: View)
      requires Apart() && scheduler.table.Valid() && Consistent(before, v0, Vm().kernelDirectory)
      requires Grown(v0, Vm().State()) && ThreadMade(before, Now(), p, KernelSpace, thread, entry, argument)
      requires 1 <= taskCount < TASK_MAX
      modifies this`taskCount, scheduler.table.threads
      ensures Valid() && WithKernelTask(before, Now(), thread, entry, argument)
    {
      hide AddressSpaces.Valid, FrameAllocator.Free, KernelHeap.Valid, Consistent, Live, Grown, Threads.TableOk;
      hide OneMore, KernelTask, Threads.Begins, InitialEsp;
      TableMeans(scheduler.table);
      Footprint(scheduler.table.heap.vm);
      MadeBegins(before, Now(), p, KernelSpace, thread, entry, argument);
      BecomesKernel(scheduler.table.threads[thread], thread, p, entry, argument);
      StartKernel(thread);
      taskCount := taskCount + 1;
      KernelTaskAdded(before, v0, p, thread);
    }

    /** The last stores of `task_create`. */
    method StartKernel(i: nat)
      requires scheduler.table.Valid() && i < THREAD_MAX
      modifies scheduler.table.threads
      ensures scheduler.table.Valid()
      ensures var t := old(scheduler.table.threads[i]);
              scheduler.table.threads[..] == old(scheduler.table.threads[..])[i :=
                t.(kind := KernelThread, esp := InitialEsp(t.kernelStack, KERNEL_FRAME))]
    {
      ghost var ts := scheduler.table.threads[..];
      hide KernelHeap.Valid, Live;
      HeapFootprint(scheduler.table.heap);
      var t := scheduler.table.threads[i];
      scheduler.table.threads[i] := t.(kind := KernelThread, esp := InitialEsp(t.kernelStack, KERNEL_FRAME));
      SameTable(ts, scheduler.table.threads[..], scheduler.table.heap.Allocations());
    }

    lemma KernelTaskAdded(before: Snapshot, v0: View, p: nat, thread: nat)
      requires Apart() && scheduler.table.Valid() && Consistent(before, v0, Vm().kernelDirectory)
      requires Grown(v0, Vm().State()) && NewThread(before, Now(), thread, p)
      requires p < |before.processes| == Processes.PROCESS_MAX && before.processes[p].state.Unused?
      requires Now().processes == Processes.Claim(before.processes, p, KernelSpace)
               && Now().threads[thread].id == thread
      requires Now().current == before.current && Now().active == before.active && 1 <= taskCount <= TASK_MAX
      ensures Valid()
    {
      hide AddressSpaces.Valid, KernelHeap.Valid, Live, Threads.TableOk, OnDirectory, HeapPages, WellLinked;
      TableMeans(scheduler.table);
      hide Threads.ThreadTable.Valid;
      Processes.KernelKeepsOwned(before.processes, p, v0.spaces);
      ConsistentWithTask(before, Now(), v0, Vm().State(), Vm().kernelDirectory, p, thread, KernelSpace);
    }

    lemma TaskAdded(before: Snapshot, v0: View, built: View, i: nat, lost: Option<nat>, p: nat, thread: nat)
      requires Apart() && scheduler.table.Valid() && Consistent(before, v0, Vm().kernelDirectory)
      requires Grafted(v0, built, i, lost) && Grown(built, Vm().State()) && NewThread(before, Now(), thread, p)
      requires p < |before.processes| == Processes.PROCESS_MAX && before.processes[p].state.Unused?
      requires Now().processes == Processes.Claim(before.processes, p, Slot(i)) && Now().threads[thread].id == thread
      requires Now().current == before.current && Now().active == before.active && 1 <= taskCount <= TASK_MAX
      ensures Valid()
    {
      hide AddressSpaces.Valid, KernelHeap.Valid, Live, Threads.TableOk, OnDirectory, HeapPages, WellLinked;
      TableMeans(scheduler.table);
      hide Threads.ThreadTable.Valid;
      Processes.ClaimKeepsOwned(before.processes, p, v0.spaces, Vm().spaces, i);
      ConsistentWithTask(before, Now(), v0, Vm().State(), Vm().kernelDirectory, p, thread, Slot(i));
    }
  }

  lemma TableMeans(table: Threads.ThreadTable)
    requires table.Valid()
    ensures table.heap.Valid() && table.heap.vm.Valid() && table.heap.ListOk() && WellTyped(table.heap.vm.State())
    ensures HeapPages(table.heap.vm.State(), table.heap.frames)
    ensures Threads.TableOk(table.threads[..], table.heap.Allocations())
  {
  }

  lemma LostIsNew(v: View, w: View, i: nat, lost: Option<nat>)
    requires Grafted(v, w, i, lost)
    ensures lost.Some? ==> lost.value !in v.owner
  {
  }
}
