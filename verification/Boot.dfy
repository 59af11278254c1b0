/** Start-up: the initialisation functions in the order of src/kernel.c, from the boot loader's memory map to the
    invariant of the whole machine. */
module Boot {
  import opened Words
  import opened Multiboot
  import opened Pmm
  import opened PageTables
  import opened Ownership
  import opened Paging
  import Heap
  import Processes
  import Threads
  import Scheduler
  import Tasks
  import Keyboard
  import Framebuffer
  import KernelReach
  import SelfTests

  /** The static tables lie, page by page, in the kernel image [start, end), which linker.ld puts at 1 MiB. */
  ghost predicate Linked(start: uint32, end: uint32, directory: uint32, tables: seq<uint32>, temporary: uint32) {
    && start < end <= LOW_FRAMES * PAGE_SIZE && |tables| == TEMPORARY_DIRECTORY
    && var all := [directory, temporary] + tables;
       (forall k: nat :: k < |all| ==> all[k] % PAGE_SIZE == 0 && 0 < start <= all[k] && all[k] + PAGE_SIZE <= end)
       && forall j: nat, k: nat :: j < k < |all| ==> all[j] != all[k]
  }

  lemma InImage(start: uint32, end: uint32, table: uint32)
    requires start < end <= LOW_FRAMES * PAGE_SIZE && table % PAGE_SIZE == 0 && 0 < start <= table
             && table + PAGE_SIZE <= end
    ensures table / PAGE_SIZE in SetByRange(start, end - start) && Editable(table / PAGE_SIZE)
  {
    RangeReserved(start, end - start);
  }

  /** The linker's layout is what `paging_initialize` needs. */
  lemma LayoutHolds(vm: AddressSpaces, start: uint32, end: uint32)
    requires Linked(start, end, vm.kernelDirectory, vm.initialTables, vm.temporaryTable)
    requires SetByRange(start, end - start) <= vm.pmm.Reserved()
    ensures vm.StaticLayout()
  {
    hide SetByRange;
    var all := [vm.kernelDirectory, vm.temporaryTable] + vm.initialTables;
    assert all[0] == vm.kernelDirectory;
    InImage(start, end, vm.kernelDirectory);
    forall d: nat | d <= TEMPORARY_DIRECTORY
      ensures vm.StaticTable(d) == all[if d == TEMPORARY_DIRECTORY then 1 else d + 2]
      ensures vm.StaticTable(d) % PAGE_SIZE == 0 && vm.StaticFrame(d) in vm.pmm.Reserved()
              && Editable(vm.StaticFrame(d))
      ensures vm.StaticFrame(d) != vm.kernelDirectory / PAGE_SIZE
    {
      assert all[if d == TEMPORARY_DIRECTORY then 1 else d + 2] == vm.StaticTable(d);
      InImage(start, end, vm.StaticTable(d));
      PagesApart(vm.StaticTable(d), vm.kernelDirectory);
    }
    forall d: nat, e: nat | d < e <= TEMPORARY_DIRECTORY
      ensures vm.StaticFrame(d) != vm.StaticFrame(e)
    {
      PagesApart(vm.StaticTable(d), vm.StaticTable(e));
    }
  }

  lemma PagesApart(a: uint32, b: uint32)
    requires a % PAGE_SIZE == 0 && b % PAGE_SIZE == 0 && a != b
    ensures a / PAGE_SIZE != b / PAGE_SIZE
  {
  }

  lemma OwnObjects(vm: AddressSpaces)
    requires vm.Valid()
    ensures vm.pmm.Repr == {vm.pmm, vm.pmm.frameBitmap, vm.pmm.frameBitmap.bytes, vm.pmm.reservedBitmap,
                            vm.pmm.reservedBitmap.bytes}
  {
  }

  lemma NoHeapYet(v: View)
    requires WellTyped(v)
    requires OnlyBootTables(v)
    requires forall page: nat :: page < ALL_PAGES ==>
               Walk(v.ram, v.kernel, page) ==
               if page < LOW_FRAMES then Some(Leaf(page, PAGE_PRESENT + PAGE_WRITABLE)) else None
    ensures Heap.HeapPages(v, [])
  {
  }

  /** `pmm_initialize` and `paging_initialize`. */
  method StartPaging(infoAddress: uint32, info: seq<uint8>, kernelStart: uint32, kernelEnd: uint32, ram: Ram,
                     directory: uint32, tables: seq<uint32>, temporary: uint32)
    returns (vm: AddressSpaces)
    requires WellFormed(info) && Linked(kernelStart, kernelEnd, directory, tables, temporary)
    ensures vm.Valid() && WellTyped(vm.State()) && Heap.HeapPages(vm.State(), []) && OnlyBootTables(vm.State())
    ensures fresh(vm) && fresh(vm.pmm) && fresh(vm.pmm.Repr)
    ensures vm.current == vm.kernelDirectory && vm.spaces == NO_SPACES
    ensures vm.pmm.Reserved() ==
            {0} + SetByRange(infoAddress, TotalSize(info)) + SetByRange(kernelStart, kernelEnd - kernelStart)
    ensures vm.pmm.Free() == ClearedByAll(AllEntries(info, 8)) - vm.pmm.Reserved()
  {
    hide FromBytes, Pow256, Inv, WellFormed;
    assert kernelStart <= kernelEnd;
    hide FrameAllocator.Valid, FrameAllocator.Free, FrameAllocator.Reserved, MapHarmless, Offered, Cleared, Touches;
    hide ClearedByAll;
    hide SetByRange, AllEntries, Linked, AddressSpaces.Valid, AddressSpaces.StaticLayout, Walk, Heap.HeapPages;
    var pmm := new FrameAllocator();
    pmm.Initialize(infoAddress, info, kernelStart, kernelEnd);
    vm := new AddressSpaces(pmm, ram, directory, tables, temporary);
    LayoutHolds(vm, kernelStart, kernelEnd);
    vm.Initialize();
    ValidIsTyped(vm);
    NoHeapYet(vm.State());
  }

  function Min(a: nat, b: nat): nat {
    if a < b then a else b
  }

  /** The frames that the memory map gives, without those that are in use from the beginning. */
  ghost function Given(infoAddress: uint32, info: seq<uint8>, kernelStart: uint32, kernelEnd: uint32): set<nat>
    requires WellFormed(info) && kernelStart <= kernelEnd
  {
    ClearedByAll(AllEntries(info, 8)) - {0} - SetByRange(infoAddress, TotalSize(info))
    - SetByRange(kernelStart, kernelEnd - kernelStart)
  }

  /** The low frames that the tables of the framebuffer take: one for each 4 MiB, as long as there are any. */
  ghost function ScreenTables(info: seq<uint8>, free: set<nat>): nat
    requires WellFormed(info) && Framebuffer.HasMode(info)
  {
    Min(Framebuffer.Directories(Framebuffer.Screen(info).1), CountBelow(free, LOW_FRAMES))
  }

  /** `framebuffer_initialize` after `paging_initialize`. */
  method StartScreen(vm: AddressSpaces, info: seq<uint8>) returns (ok: bool)
    requires vm.Valid() && WellTyped(vm.State()) && Heap.HeapPages(vm.State(), []) && OnlyBootTables(vm.State())
    requires WellFormed(info) && Framebuffer.HasMode(info)
    requires Framebuffer.Screen(info).1 <= Framebuffer.SCREEN_PAGES
    modifies vm`ram, vm`owner, vm.pmm.Repr
    ensures vm.Valid() && vm.pmm.Reserved() == old(vm.pmm.Reserved()) && WellTyped(vm.State())
    ensures Heap.HeapPages(vm.State(), []) && NoUserTables(vm.State()) && vm.State().kernel == old(vm.State()).kernel
    ensures vm.spaces == old(vm.spaces) && vm.current == old(vm.current) && vm.pmm.Free() <= old(vm.pmm.Free())
    ensures ok <==> 0 < Framebuffer.Screen(info).1
                    && Framebuffer.Directories(Framebuffer.Screen(info).1) <= CountBelow(old(vm.pmm.Free()), LOW_FRAMES)
    ensures var t := ScreenTables(info, old(vm.pmm.Free()));
            && CountBelow(old(vm.pmm.Free()), LOW_FRAMES) == CountBelow(vm.pmm.Free(), LOW_FRAMES) + t
            && CountBelow(old(vm.pmm.Free()), MAX_FRAMES) == CountBelow(vm.pmm.Free(), MAX_FRAMES) + t
  {
    hide AddressSpaces.Valid, Heap.HeapPages, Framebuffer.Shown, Framebuffer.TablesMade, FrameAllocator.Free;
    hide CountBelow;
    hide OnlyBootTables, FrameAllocator.Reserved, Framebuffer.Screen, NoUserTables;
    ghost var v0, free0, base, pages :=
        vm.State(), vm.pmm.Free(), Framebuffer.Screen(info).0, Framebuffer.Screen(info).1;
    ValidMeans(vm);
    Footprint(vm);
    ghost var n;
    ok, n := Framebuffer.Initialize(vm, info);
    ValidIsTyped(vm);
    Framebuffer.HeapStillEmpty(v0, vm.State(), base, n, free0, vm.pmm.Free());
    Framebuffer.ScreenOutsideUser(v0, free0, vm.State(), vm.pmm.Free(), n);
    ScreenCounts(v0, free0, vm.State(), vm.pmm.Free(), base, n, pages);
  }

  lemma ScreenCounts(v0: View, free0: set<nat>, v: View, free: set<nat>, base: nat, n: nat, pages: nat)
    requires Inv(v0) && OnlyBootTables(v0) && Framebuffer.TablesMade(v0, free0, v, free, n)
    requires Framebuffer.Shown(v0, v, base, n) && n <= pages <= Framebuffer.SCREEN_PAGES
    requires n < pages ==> CountBelow(free, LOW_FRAMES) == 0
    ensures v.kernel == v0.kernel && v.spaces == v0.spaces && free <= free0
    ensures Framebuffer.Missing(v0, Framebuffer.Directories(pages)) == Framebuffer.Directories(pages)
    ensures var t := Min(Framebuffer.Directories(pages), CountBelow(free0, LOW_FRAMES));
            && CountBelow(free0, LOW_FRAMES) == CountBelow(free, LOW_FRAMES) + t
            && CountBelow(free0, MAX_FRAMES) == CountBelow(free, MAX_FRAMES) + t
  {
    hide Inv, OnlyBootTables, CountBelow;
    Framebuffer.MissingAtBoot(v0, Framebuffer.Directories(n));
    Framebuffer.MissingAtBoot(v0, Framebuffer.Directories(pages));
  }

  /** `test_pmm`, `heap_initialize` and `test_heap`. */
  method StartHeap(vm: AddressSpaces) returns (heap: Heap.KernelHeap)
    requires vm.Valid() && WellTyped(vm.State()) && Heap.HeapPages(vm.State(), []) && NoUserTables(vm.State())
    modifies vm`ram, vm`owner, vm.pmm.Repr
    ensures fresh(heap) && heap.vm == vm && heap.Valid() && vm.pmm.Reserved() == old(vm.pmm.Reserved())
    ensures vm.spaces == old(vm.spaces) && vm.current == old(vm.current) && NoUserTables(vm.State())
    ensures if old(vm.pmm.freeFrames) >= SelfTests.TEST_FRAMES
            then heap.blocks == SelfTests.ALL_FREED && LessOne(old(vm.pmm.Free()), vm.pmm.Free())
            else heap.blocks == [] && vm.pmm.Free() == {}
  {
    hide AddressSpaces.Valid, Heap.HeapPages, FrameAllocator.Free, FrameAllocator.Reserved, NoUserTables, Heap.Grown;
    hide Heap.KernelHeap.Valid, CountBelow;
    ghost var v0, free0 := vm.State(), vm.pmm.Free();
    OwnObjects(vm);
    Footprint(vm);
    FreeIsTheRest(vm);
    CountsFree(vm);
    var counted := SelfTests.TestPmm(vm);
    ValidIsTyped(vm);
    FreeIsTheRest(vm);
    CountsFree(vm);
    ghost var v := vm.State();
    HeldOnly(v0, v);
    heap := new Heap.KernelHeap(vm);
    InitializeHeap(heap);
    var tested := SelfTests.TestHeap(heap);
    Heap.HeapFootprint(heap);
    FreeIsTheRest(vm);
    GrownOutsideUser(v, vm.State());
    if tested {
      KernelReach.HeapMeans(heap);
      OnePage(v, vm.State(), heap.frames, vm.managed);
    }
  }

  method InitializeHeap(heap: Heap.KernelHeap)
    requires heap.vm.Valid() && WellTyped(heap.vm.State()) && Heap.HeapPages(heap.vm.State(), [])
    requires heap !in heap.vm.pmm.Repr
    modifies heap
    ensures heap.Valid() && heap.blocks == [] && heap.committed == 0
  {
    hide AddressSpaces.Valid;
    Footprint(heap.vm);
    heap.Initialize();
  }

  /** All but one of the frames. */
  ghost predicate LessOne(before: set<nat>, after: set<nat>) {
    exists f :: f in before && after == before - {f}
  }

  lemma HeldOnly(v: View, w: View)
    requires WellTyped(v) && WellTyped(w) && w == v.(owner := w.owner)
    requires forall f: nat :: f in v.owner ==> f in w.owner && w.owner[f] == v.owner[f]
    requires forall f: nat :: f in w.owner && f !in v.owner ==> w.owner[f].Held?
    ensures Heap.HeapPages(v, []) ==> Heap.HeapPages(w, [])
    ensures NoUserTables(v) ==> NoUserTables(w)
  {
  }

  lemma GrownOutsideUser(v: View, w: View)
    requires Heap.Grown(v, w)
    ensures NoUserTables(v) ==> NoUserTables(w)
  {
  }

  /** The first page of the heap takes one frame. */
  lemma OnePage(v: View, w: View, frames: seq<nat>, managed: set<nat>)
    requires Heap.Grown(v, w) && Heap.HeapPages(v, []) && Heap.HeapPages(w, frames) && |frames| == 1
    requires w.owner.Keys <= managed
    ensures LessOne(managed - v.owner.Keys, managed - w.owner.Keys)
  {
    hide Heap.WindowStep, Heap.IdentityOutside, Walk;
    var f := frames[0];
    assert Has(w, f, HeapPage(0));
    assert f !in v.owner;
    assert w.owner.Keys == v.owner.Keys + {f};
    assert managed - w.owner.Keys == (managed - v.owner.Keys) - {f};
    assert f in managed - v.owner.Keys;
  }

  /** From nothing to the invariant: `kernel_main` up to `task_initialize`. Free afterwards are the frames that the
      memory map gives, less those for the tables of the framebuffer and one for the first page of the heap; or none
      at all, if the test of the allocator found fewer than 16. */
  method Start(infoAddress: uint32, info: seq<uint8>, kernelStart: uint32, kernelEnd: uint32, ram: Ram,
               directory: uint32, tables: seq<uint32>, temporary: uint32)
    returns (tasks: Tasks.TaskManager)
    requires WellFormed(info) && Linked(kernelStart, kernelEnd, directory, tables, temporary)
    requires Framebuffer.HasMode(info) && Framebuffer.Screen(info).1 <= Framebuffer.SCREEN_PAGES
    ensures tasks.Valid() && tasks.taskCount == 1 && tasks.scheduler.table.current == 0
    ensures fresh(tasks) && fresh(tasks.keyboard) && fresh(tasks.scheduler.table.threads)
    ensures fresh(tasks.scheduler.processes.processes) && fresh(tasks.scheduler.table.heap)
    ensures fresh(tasks.Vm()) && fresh(tasks.Vm().pmm.Repr)
    ensures tasks.Vm().pmm.Reserved() ==
            {0} + SetByRange(infoAddress, TotalSize(info)) + SetByRange(kernelStart, kernelEnd - kernelStart)
    ensures Started(Given(infoAddress, info, kernelStart, kernelEnd), info, tasks.Vm().pmm.Free())
    ensures NoUserTables(tasks.Vm().State()) && tasks.Vm().spaces == NO_SPACES
  {
    assert kernelStart <= kernelEnd;
    hide FrameAllocator.Free, FrameAllocator.Reserved, SetByRange, AddressSpaces.Valid, Linked, NoUserTables, Given;
    hide Heap.KernelHeap.Valid, Framebuffer.Screen, Framebuffer.HasMode, Started, U32;
    var heap := StartMemory(infoAddress, info, kernelStart, kernelEnd, ram, directory, tables, temporary);
    tasks := StartTasks(heap);
  }

  /** The part of start-up before the tasks. */
  method StartMemory(infoAddress: uint32, info: seq<uint8>, kernelStart: uint32, kernelEnd: uint32, ram: Ram,
                     directory: uint32, tables: seq<uint32>, temporary: uint32)
    returns (heap: Heap.KernelHeap)
    requires WellFormed(info) && Linked(kernelStart, kernelEnd, directory, tables, temporary)
    requires Framebuffer.HasMode(info) && Framebuffer.Screen(info).1 <= Framebuffer.SCREEN_PAGES
    ensures heap.Valid() && fresh(heap) && fresh(heap.vm) && fresh(heap.vm.pmm.Repr)
    ensures heap.vm.current == heap.vm.kernelDirectory && heap.vm.spaces == NO_SPACES
    ensures heap.vm.pmm.Reserved() ==
            {0} + SetByRange(infoAddress, TotalSize(info)) + SetByRange(kernelStart, kernelEnd - kernelStart)
    ensures Started(Given(infoAddress, info, kernelStart, kernelEnd), info, heap.vm.pmm.Free())
    ensures NoUserTables(heap.vm.State())
  {
    assert kernelStart <= kernelEnd;
    hide FrameAllocator.Valid, FrameAllocator.Free, FrameAllocator.Reserved, ClearedByAll, SetByRange, AllEntries;
    hide AddressSpaces.Valid, Heap.HeapPages, Heap.WellLinked, Linked, NoUserTables, Heap.KernelHeap.Valid, LessOne;
    hide Framebuffer.Screen, Framebuffer.HasMode, CountBelow, Started, ScreenTables, U32, Entry;
    ghost var given := Given(infoAddress, info, kernelStart, kernelEnd);
    var vm := StartPaging(infoAddress, info, kernelStart, kernelEnd, ram, directory, tables, temporary);
    assert vm.pmm.Free() == given;
    var shown := StartScreen(vm, info);
    ghost var left, counted := vm.pmm.Free(), vm.pmm.freeFrames;
    CountsFree(vm);
    heap := StartHeap(vm);
    StartedWith(given, info, left, vm.pmm.Free(), counted);
  }

  /** The frames that are free after start-up, of those that the memory map gives. */
  ghost predicate Started(given: set<nat>, info: seq<uint8>, free: set<nat>)
    requires WellFormed(info) && Framebuffer.HasMode(info)
  {
    var left := CountBelow(given, MAX_FRAMES) - ScreenTables(info, given);
    && free <= given
    && CountBelow(free, MAX_FRAMES) == (if left >= SelfTests.TEST_FRAMES then left - 1 else 0)
    && (left >= SelfTests.TEST_FRAMES ==>
          CountBelow(free, LOW_FRAMES) >= CountBelow(given, LOW_FRAMES) - ScreenTables(info, given) - 1)
  }

  lemma StartedWith(given: set<nat>, info: seq<uint8>, left: set<nat>, free: set<nat>, counted: int)
    requires WellFormed(info) && Framebuffer.HasMode(info) && left <= given && counted == CountBelow(left, MAX_FRAMES)
    requires CountBelow(given, LOW_FRAMES) == CountBelow(left, LOW_FRAMES) + ScreenTables(info, given)
    requires CountBelow(given, MAX_FRAMES) == CountBelow(left, MAX_FRAMES) + ScreenTables(info, given)
    requires if counted >= SelfTests.TEST_FRAMES then LessOne(left, free) else free == {}
    requires forall f :: f in left ==> f < MAX_FRAMES
    ensures Started(given, info, free)
  {
    hide CountBelow, ScreenTables;
    if counted >= SelfTests.TEST_FRAMES {
      var f :| f in left && free == left - {f};
      assert free + {f} == left;
      CountInsert(free, left, f, LOW_FRAMES);
      CountInsert(free, left, f, MAX_FRAMES);
    } else {
      NoneFree(free, MAX_FRAMES);
    }
  }

  /** `task_initialize` and the tables it needs. */
  method StartTasks(heap: Heap.KernelHeap) returns (tasks: Tasks.TaskManager)
    requires heap.Valid() && heap.vm.current == heap.vm.kernelDirectory && |heap.vm.spaces| == MAX_ADDRESS_SPACES
    requires forall i: nat :: i < MAX_ADDRESS_SPACES ==> !heap.vm.spaces[i].used
    ensures tasks.Valid() && tasks.taskCount == 1 && tasks.scheduler.table.heap == heap
    ensures tasks.scheduler.table.current == 0
    ensures fresh(tasks) && fresh(tasks.keyboard) && fresh(tasks.scheduler.table.threads)
    ensures fresh(tasks.scheduler.processes.processes)
  {
    hide AddressSpaces.Valid, Heap.KernelHeap.Valid;
    Heap.HeapFootprint(heap);
    OwnObjects(heap.vm);
    var processes := new Processes.ProcessTable(heap.vm);
    var threads := new Threads.ThreadTable(heap);
    var scheduler := new Scheduler.KernelScheduler(threads, processes);
    var keyboard := new Keyboard.KeyboardBuffer();
    tasks := new Tasks.TaskManager(scheduler, keyboard);
    tasks.Initialize();
  }
}
