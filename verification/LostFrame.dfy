/** A run from start-up to a frame that is lost (src/kernel/task.c). */
module LostFrame {
  import opened Words
  import opened Multiboot
  import opened Pmm
  import opened PageTables
  import opened Ownership
  import opened Paging
  import opened Heap
  import opened Budgets
  import opened ElfImage
  import opened ElfLoader
  import opened NewSpace
  import opened SpaceBuilding
  import opened Scheduling
  import opened Tasks
  import Processes
  import Boot
  import Framebuffer

  /** Room for the address space of the image over the stack page. */
  ghost predicate RoomForSpace(s: Snapshot, v: View)
    requires WellTyped(v)
  {
    && (exists i: nat :: i < MAX_ADDRESS_SPACES && !Used(v, i)) && !Present(KernelPde(v, STACK_PAGE / ENTRIES))
    && 0 !in s.free && CountBelow(s.free, LOW_FRAMES) >= 4
  }

  /** The inputs on which a frame is lost exist: an image that asks for the page of the stack, when there is room for
      its address space but none for its process, its thread or its kernel stack. */
  lemma StackImageLosesFrame(s: Snapshot, v: View)
    requires WellTyped(v) && |s.processes| == Processes.PROCESS_MAX && |s.threads| == THREAD_MAX
    requires s.taskCount < TASK_MAX && NoRoom(s, CountBelow(s.free, MAX_FRAMES)) && RoomForSpace(s, v)
    ensures LosesFrame(s, v, StackImage())
  {
    hide StackImage, Headers, ValidElf, HeaderOk, Overlapping, CoversPage, BuildCost, SomeLow;
    hide PagesFrom, Loads, SegmentsOk, NoRoom, CountBelow, KernelPde;
    StackImageAccepted();
    ValidImage(StackImage());
    StackPageTwice(v, s.free, Headers(StackImage()));
    BuildTakes(v, s.free, Headers(StackImage()));
    NoRoomWithFewer(s, CountBelow(s.free, MAX_FRAMES), BuildCost(v, s.free, Headers(StackImage())).value.total);
  }

  lemma NoRoomWithFewer(s: Snapshot, more: nat, fewer: nat)
    requires |s.processes| == Processes.PROCESS_MAX && |s.threads| == THREAD_MAX && fewer <= more
    ensures NoRoom(s, more) ==> NoRoom(s, fewer)
  {
  }

  lemma StackPageTwice(v: View, free: set<nat>, hs: seq<Segment>)
    requires WellTyped(v) && PagesFrom(hs, 0) == [STACK_PAGE] && !Present(KernelPde(v, STACK_PAGE / ENTRIES))
    requires 0 !in free && CountBelow(free, LOW_FRAMES) >= 4
    ensures SomeLow(free) && BuildCost(v, free, hs).Some?
  {
    var pages := [STACK_PAGE, STACK_PAGE];
    hide PagesFrom, BuildCost, SomeLow, CountBelow, KernelPde;
    assert TablesOf(pages) == {STACK_PAGE / ENTRIES} by {
      assert pages[0] / ENTRIES == pages[1] / ENTRIES == STACK_PAGE / ENTRIES;
    }
    assert PagesFrom(hs, 0) + [STACK_PAGE] == pages;
    EnoughToBuild(v, free, hs);
  }

  /** Such a call: everything is as before, but for one frame. */
  method LoseFrame(tasks: TaskManager) returns (ghost lost: nat)
    requires tasks.Valid() && tasks.taskCount < TASK_MAX && WellTyped(tasks.Vm().State())
    requires |tasks.Now().processes| == Processes.PROCESS_MAX && |tasks.Now().threads| == THREAD_MAX
    requires NoRoom(tasks.Now(), tasks.Vm().pmm.freeFrames) && RoomForSpace(tasks.Now(), tasks.Vm().State())
    modifies tasks`taskCount, tasks.keyboard`owner, tasks.scheduler.table.threads, tasks.scheduler.processes.processes
    modifies tasks.scheduler.table.heap, tasks.Vm()`ram, tasks.Vm()`spaces, tasks.Vm()`owner, tasks.Vm()`current
    modifies tasks.Vm().pmm.Repr
    ensures tasks.Valid() && lost in old(tasks.Now()).free
    ensures tasks.Now() == old(tasks.Now()).(owner := old(tasks.Now()).owner[lost := Held],
                                             free := old(tasks.Now()).free - {lost})
  {
    hide TaskManager.Valid, FrameAllocator.Free, StackImage, LosesFrame, Verdict, NoRoom, RoomForSpace, CountBelow;
    hide Undisturbed, TaskManager.Admitted, ProgramLoaded, CoversPage, ValidElf, HeaderOk, Headers, Overlapping;
    ghost var before, v := tasks.Now(), tasks.Vm().State();
    FreeMeans(tasks);
    StackImageLosesFrame(before, v);
    LosesMeans(before, v, StackImage());
    var id, gone, _, _ := tasks.CreateUserElf(StackImage());
    FreeMeans(tasks);
    lost := gone.value;
    LostWasFree(tasks.Vm().managed, before.owner, before.free, lost);
  }

  lemma FreeMeans(tasks: TaskManager)
    requires tasks.Valid()
    ensures tasks.Vm() !in tasks.Vm().pmm.Repr && tasks.Now().owner.Keys <= tasks.Vm().managed
    ensures tasks.Now().free == tasks.Vm().managed - tasks.Now().owner.Keys
    ensures tasks.Vm().pmm.freeFrames == CountBelow(tasks.Now().free, MAX_FRAMES)
  {
    hide AddressSpaces.Valid, Consistent;
    Footprint(tasks.Vm());
    FreeIsTheRest(tasks.Vm());
    CountsFree(tasks.Vm());
  }

  lemma LosesMeans(s: Snapshot, v: View, image: seq<uint8>)
    requires WellTyped(v) && |s.processes| == Processes.PROCESS_MAX && |s.threads| == THREAD_MAX
    requires LosesFrame(s, v, image)
    ensures !Verdict(s, v, image).Done?
  {
  }

  lemma LostWasFree(managed: set<nat>, owner: map<nat, Role>, free: set<nat>, lost: nat)
    requires free == managed - owner.Keys && lost !in owner && owner[lost := Held].Keys <= managed
    ensures lost in free
  {
    assert lost in owner[lost := Held];
  }

  // ---- Reaching such a state ----

  lemma NextUnused(ps: seq<Processes.Process>, space: SpaceRef)
    requires |ps| == Processes.PROCESS_MAX && Processes.FirstUnused(ps, 1) < Processes.PROCESS_MAX
    ensures var p := Processes.FirstUnused(ps, 1);
            Processes.FirstUnused(Processes.Claim(ps, p, space), 1) > p
  {
    var p := Processes.FirstUnused(ps, 1);
    var qs := Processes.Claim(ps, p, space);
    assert forall q: nat :: 1 <= q <= p ==> !qs[q].state.Unused?;
  }

  /** Kernel tasks until there is no room for one more; only the heap has grown. */
  method FillUp(tasks: TaskManager)
    requires tasks.Valid() && tasks.taskCount == 1
    modifies tasks`taskCount, tasks.scheduler.table.threads, tasks.scheduler.processes.processes
    modifies tasks.scheduler.table.heap, tasks.Vm()`ram, tasks.Vm()`spaces, tasks.Vm()`owner, tasks.Vm()`current
    modifies tasks.Vm().pmm.Repr
    ensures tasks.Valid() && tasks.taskCount < TASK_MAX
    ensures |tasks.Now().processes| == Processes.PROCESS_MAX && |tasks.Now().threads| == THREAD_MAX
    ensures NoRoom(tasks.Now(), tasks.Vm().pmm.freeFrames) && Grown(old(tasks.Vm().State()), tasks.Vm().State())
  {
    hide Consistent, NoRoom, Grown, AddressSpaces.Valid, FrameAllocator.Free, OneMore, Processes.FirstUnused;
    hide FirstUnused, KernelTask, TaskManager.Valid;
    tasks.ValidSizes();
    NothingGrown(tasks.Vm().State());
    var id := 0;
    while id != -1
      invariant tasks.Valid() && Grown(old(tasks.Vm().State()), tasks.Vm().State())
      invariant |tasks.Now().processes| == Processes.PROCESS_MAX && |tasks.Now().threads| == THREAD_MAX
      invariant 1 <= tasks.taskCount <= Processes.FirstUnused(tasks.Now().processes, 1)
      invariant id == -1 ==> NoRoom(tasks.Now(), tasks.Vm().pmm.freeFrames)
      decreases TASK_MAX - tasks.taskCount, if id == -1 then 0 else 1
    {
      ghost var s, v := tasks.Now(), tasks.Vm().State();
      id := tasks.Create(1, 0);
      tasks.ValidSizes();
      GrownTrans(old(tasks.Vm().State()), v, tasks.Vm().State());
      if id != -1 {
        NextUnused(s.processes, KernelSpace);
      }
    }
  }

  lemma {:induction false} CountOfUnion(s: set<nat>, t: set<nat>, g: set<nat>, n: nat)
    requires s <= t + g
    ensures CountBelow(s, n) <= CountBelow(t, n) + CountBelow(g, n)
  {
    if n == 0 {
    } else {
      CountOfUnion(s, t, g, n - 1);
    }
  }

  lemma {:induction false} CountOfFrames(fs: seq<nat>, n: nat)
    ensures CountBelow(FrameSet(fs), n) <= |fs|
    decreases |fs|
  {
    if fs == [] {
      NoneFree(FrameSet(fs), n);
    } else {
      CountOfFrames(fs[1..], n);
      if fs[0] !in FrameSet(fs[1..]) {
        CountInsert(FrameSet(fs[1..]), FrameSet(fs), fs[0], n);
      } else {
        assert FrameSet(fs) == FrameSet(fs[1..]);
      }
    }
  }

  /** The heap takes no more frames than its window has pages. */
  lemma HeapTakes(v: View, w: View, frames: seq<nat>, managed: set<nat>, n: nat)
    requires Grown(v, w) && HeapPages(w, frames)
    ensures CountBelow(managed - v.owner.Keys, n) <= CountBelow(managed - w.owner.Keys, n) + HEAP_PAGES
  {
    hide IdentityOutside, WindowStep, Walk;
    CountOfFrames(frames, n);
    CountOfUnion(managed - v.owner.Keys, managed - w.owner.Keys, FrameSet(frames), n);
  }

  /** The growth of the heap makes no table. */
  lemma NoTableGrown(v: View, w: View, d: nat)
    requires Grown(v, w) && NoUserTables(v) && Inv(w) && IsUserIndex(d)
    ensures !Present(KernelPde(w, d))
  {
    hide WindowStep, Walk;
    assert Present(KernelPde(w, d)) ==> Has(w, FrameOf(KernelPde(w, d)), KernelTable(d));
  }

  lemma RoomLeft(tasks: TaskManager, v: View)
    requires tasks.Valid() && Grown(v, tasks.Vm().State()) && NoUserTables(v)
    requires v.spaces == NO_SPACES
    requires CountBelow(tasks.Vm().managed - v.owner.Keys, LOW_FRAMES) >= HEAP_PAGES + 4
    ensures RoomForSpace(tasks.Now(), tasks.Vm().State())
  {
    hide AddressSpaces.Valid, Consistent, Inv, KernelHeap.Valid, WindowStep, HeapPages;
    tasks.SchedulerValid();
    TableMeans(tasks.scheduler.table);
    ValidMeans(tasks.Vm());
    FreeIsTheRest(tasks.Vm());
    HeapTakes(v, tasks.Vm().State(), tasks.scheduler.table.heap.frames, tasks.Vm().managed, LOW_FRAMES);
    NoTableGrown(v, tasks.Vm().State(), STACK_PAGE / ENTRIES);
    NoSpaceGrown(v, tasks.Vm().State());
  }

  lemma NoSpaceGrown(v: View, w: View)
    requires Grown(v, w) && v.spaces == NO_SPACES
    ensures !Used(w, 0)
  {
  }

  /** Kernel tasks until there is no room for one more, and then the image over the stack page. */
  method FillUpAndLose(tasks: TaskManager) returns (ghost before: Snapshot, ghost lost: nat)
    requires tasks.Valid() && tasks.taskCount == 1 && NoUserTables(tasks.Vm().State())
    requires tasks.Vm().spaces == NO_SPACES
    requires CountBelow(tasks.Vm().pmm.Free(), LOW_FRAMES) >= HEAP_PAGES + 4
    modifies tasks`taskCount, tasks.keyboard`owner, tasks.scheduler.table.threads, tasks.scheduler.processes.processes
    modifies tasks.scheduler.table.heap, tasks.Vm()`ram, tasks.Vm()`spaces, tasks.Vm()`owner, tasks.Vm()`current
    modifies tasks.Vm().pmm.Repr
    ensures tasks.Valid() && lost in before.free
    ensures tasks.Now() == before.(owner := before.owner[lost := Held], free := before.free - {lost})
  {
    hide Consistent, Grown, NoRoom, CountBelow, RoomForSpace, NoUserTables, FrameAllocator.Free, TaskManager.Valid;
    FreeMeans(tasks);
    ghost var v := tasks.Vm().State();
    FillUp(tasks);
    RoomLeft(tasks, v);
    tasks.ValidSizes();
    before := tasks.Now();
    lost := LoseFrame(tasks);
  }

  /** From start-up: kernel tasks until there is no room for one more, and then the image over the stack page. One frame
      is held by nobody who would free it, and all else is as before. */
  method LoseFromStart(infoAddress: uint32, info: seq<uint8>, kernelStart: uint32, kernelEnd: uint32, ram: Ram,
                       directory: uint32, tables: seq<uint32>, temporary: uint32)
    returns (tasks: TaskManager, ghost before: Snapshot, ghost lost: nat)
    requires WellFormed(info) && Boot.Linked(kernelStart, kernelEnd, directory, tables, temporary)
    requires Framebuffer.HasMode(info) && Framebuffer.Screen(info).1 <= Framebuffer.SCREEN_PAGES
    requires var given := Boot.Given(infoAddress, info, kernelStart, kernelEnd);
             CountBelow(given, LOW_FRAMES) >= HEAP_PAGES + 5 + Boot.ScreenTables(info, given)
    ensures tasks.Valid() && lost in before.free
    ensures tasks.Now() == before.(owner := before.owner[lost := Held], free := before.free - {lost})
  {
    assert kernelStart <= kernelEnd;
    hide SetByRange, AllEntries, ClearedByAll, Boot.Linked, AddressSpaces.Valid, Consistent, Grown, NoRoom, CountBelow;
    hide RoomForSpace, NoUserTables, FrameAllocator.Free, FrameAllocator.Reserved, TaskManager.Valid, Boot.Started;
    hide Boot.ScreenTables, Framebuffer.Screen, Framebuffer.HasMode, Boot.Given;
    tasks := Boot.Start(infoAddress, info, kernelStart, kernelEnd, ram, directory, tables, temporary);
    EnoughLeft(Boot.Given(infoAddress, info, kernelStart, kernelEnd), info, tasks.Vm().pmm.Free());
    before, lost := FillUpAndLose(tasks);
  }

  lemma EnoughLeft(given: set<nat>, info: seq<uint8>, free: set<nat>)
    requires WellFormed(info) && Framebuffer.HasMode(info) && Boot.Started(given, info, free)
    requires CountBelow(given, LOW_FRAMES) >= HEAP_PAGES + 5 + Boot.ScreenTables(info, given)
    ensures CountBelow(free, LOW_FRAMES) >= HEAP_PAGES + 4
  {
    CountMonotone(given, LOW_FRAMES, MAX_FRAMES);
  }
}
