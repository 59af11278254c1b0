/** How the kernel reaches page tables by their physical addresses, and where the heap window gets in the way
    (src/kernel/paging.c, src/kernel/heap.c). */
module KernelReach {
  import opened Words
  import opened Pmm
  import opened PageTables
  import opened Ownership
  import opened Heap
  import opened Paging

  /** The kernel's own address of frame f, which the code uses to edit a table in it, leads to frame f. */
  predicate Reaches(v: View, f: nat)
    requires WellTyped(v) && f < ALL_PAGES
  {
    var leaf := Walk(v.ram, v.kernel, f);
    leaf.Some? && leaf.value.frame == f
  }

  /** The kernel reaches a low frame by its own address if and only if the heap has not mapped another frame there. */
  lemma KernelReaches(v: View, frames: seq<nat>, f: nat)
    requires WellTyped(v) && HeapPages(v, frames) && f < LOW_FRAMES
    ensures Reaches(v, f) <==> !(HEAP_PAGE <= f < HEAP_PAGE + |frames|) || frames[f - HEAP_PAGE] == f
  {
    if HEAP_PAGE <= f < HEAP_PAGE + |frames| {
      assert Walk(v.ram, v.kernel, HEAP_PAGE + (f - HEAP_PAGE)) == Some(Leaf(frames[f - HEAP_PAGE], HEAP_FLAGS));
    }
  }

  /** The frame that a store to virtual page `page` of the kernel really changes. */
  function Target(ram: Ram, kernel: nat, page: nat): (f: nat)
    requires kernel < ALL_FRAMES && page < ALL_PAGES && Walk(ram, kernel, page).Some?
  {
    Walk(ram, kernel, page).value.frame
  }

  /** Memory after the first n rounds of the loop that clears a new table in frame f, each store going through the
      kernel's own translation as the code has it. */
  ghost function ClearedThroughKernel(ram: Ram, kernel: nat, f: nat, n: nat): Ram
    requires kernel < ALL_FRAMES && f < ALL_PAGES && n <= ENTRIES
  {
    if n == 0 then ram
    else
      var r := ClearedThroughKernel(ram, kernel, f, n - 1);
      if Walk(r, kernel, f).None? || Target(r, kernel, f) >= ALL_FRAMES then r
      else SetEntry(r, Target(r, kernel, f), n - 1, 0)
  }

  /** The frame of a kernel walk is none that the walk itself goes through. */
  ghost predicate OffPath(v: View, page: nat, target: nat)
    requires WellTyped(v) && page < ALL_PAGES
  {
    target != v.kernel && (Present(KernelPde(v, page / ENTRIES)) ==> target != FrameOf(KernelPde(v, page / ENTRIES)))
  }

  /** The first n words of the frame are zero. */
  ghost predicate Zeroes(ram: Ram, f: nat, n: nat)
    requires f < ALL_FRAMES && n <= ENTRIES
  {
    forall i: nat :: i < n ==> Entry(ram, f, i) == 0
  }

  lemma NoneCleared(ram: Ram, f: nat)
    requires f < ALL_FRAMES
    ensures Zeroes(ram, f, 0)
  {
  }

  lemma ClearsOne(v: View, mid: Ram, f: nat, target: nat, n: nat)
    requires WellTyped(v) && f < ALL_PAGES && n < ENTRIES && target < ALL_FRAMES
    requires Walk(v.ram, v.kernel, f).Some? && OffPath(v, f, target)
    requires (forall g: nat :: g < ALL_FRAMES && g != target ==> mid[g] == v.ram[g]) && Zeroes(mid, target, n)
    ensures var r := SetEntry(mid, target, n, 0);
            && (forall g: nat :: g < ALL_FRAMES && g != target ==> r[g] == v.ram[g])
            && Zeroes(r, target, n + 1) && Walk(r, v.kernel, f) == Walk(v.ram, v.kernel, f)
  {
    var r := SetEntry(mid, target, n, 0);
    assert r[v.kernel] == v.ram[v.kernel];
    assert Entry(r, v.kernel, f / ENTRIES) == KernelPde(v, f / ENTRIES);
  }

  lemma {:induction false} ClearsTarget(v: View, f: nat, target: nat, n: nat)
    requires WellTyped(v) && f < ALL_PAGES && n <= ENTRIES && target < ALL_FRAMES
    requires Walk(v.ram, v.kernel, f).Some? && Target(v.ram, v.kernel, f) == target && OffPath(v, f, target)
    ensures var r := ClearedThroughKernel(v.ram, v.kernel, f, n);
            && (forall g: nat :: g < ALL_FRAMES && g != target ==> r[g] == v.ram[g])
            && Zeroes(r, target, n)
            && Walk(r, v.kernel, f) == Walk(v.ram, v.kernel, f)
    decreases n
  {
    hide Walk, Entry, SetEntry, Zeroes, OffPath;
    if n == 0 {
      NoneCleared(v.ram, target);
    } else {
      ClearsTarget(v, f, target, n - 1);
      ClearsOne(v, ClearedThroughKernel(v.ram, v.kernel, f, n - 1), f, target, n - 1);
    }
  }

  /** Where the kernel's own address of low frame f leads. */
  function Landing(frames: seq<nat>, f: nat): nat {
    if HEAP_PAGE <= f < HEAP_PAGE + |frames| then frames[f - HEAP_PAGE] else f
  }

  lemma LandsThere(v: View, frames: seq<nat>, f: nat)
    requires Inv(v) && HeapPages(v, frames) && f < LOW_FRAMES && f !in v.owner
    ensures Walk(v.ram, v.kernel, f) == Some(Leaf(Landing(frames, f), HEAP_FLAGS))
    ensures Landing(frames, f) < ALL_FRAMES && OffPath(v, f, Landing(frames, f))
    ensures Reaches(v, f) <==> Landing(frames, f) == f
  {
    assert Has(v, v.kernel, KernelDirectory);
    if HEAP_PAGE <= f < HEAP_PAGE + |frames| {
      var k := f - HEAP_PAGE;
      assert Has(v, frames[k], HeapPage(k));
      assert Walk(v.ram, v.kernel, HEAP_PAGE + k) == Some(Leaf(frames[k], HEAP_FLAGS));
    }
  }

  /** Clearing a new table in the free low frame f clears that frame if the kernel reaches it. Otherwise it clears the
      page of the heap that is mapped there, and the table keeps whatever the frame held before. */
  lemma ClearsTableOrHeap(v: View, frames: seq<nat>, f: nat)
    requires Inv(v) && HeapPages(v, frames) && f < LOW_FRAMES && f !in v.owner
    ensures var r := ClearedThroughKernel(v.ram, v.kernel, f, ENTRIES);
            if Reaches(v, f)
            then Zeroes(r, f, ENTRIES) && forall g: nat :: g < ALL_FRAMES && g != f ==> r[g] == v.ram[g]
            else HEAP_PAGE <= f < HEAP_PAGE + |frames| && r[f] == v.ram[f] && Zeroes(r, frames[f - HEAP_PAGE], ENTRIES)
  {
    hide Inv, HeapPages, Walk, OffPath, Zeroes, Reaches, ClearedThroughKernel;
    InvIsTyped(v);
    LandsThere(v, frames, f);
    ClearsTarget(v, f, Landing(frames, f), ENTRIES);
  }

  /** The failing input: when a new heap commits its first page while lower frames are free, the kernel loses sight of
      frame 4096, which the allocator still gives out. A table made there is written through the heap. */
  method FirstPageHides(heap: KernelHeap, ghost lower: nat)
    requires heap.Valid() && heap.committed == 0 && HEAP_PAGE in heap.vm.pmm.Free()
    requires lower in heap.vm.pmm.Free() && lower < HEAP_PAGE
    modifies heap, heap.vm`ram, heap.vm`owner, heap.vm.pmm.Repr
    ensures heap.Valid() && HEAP_PAGE in heap.vm.pmm.Free() && !Reaches(heap.vm.State(), HEAP_PAGE)
  {
    ghost var before, vm := heap.vm.State(), heap.vm;
    hide KernelHeap.Valid, AddressSpaces.Valid, HeapPages, Grown, LeastGained, Reaches, FrameAllocator.Free;
    hide FrameAllocator.Reserved;
    HeapFootprint(heap);
    FreeIsTheRest(vm);
    FramesConserved(vm);
    HeapMeans(heap);
    var ok := heap.CommitPages(1);
    HeapFootprint(heap);
    FreeIsTheRest(vm);
    HeapMeans(heap);
    KernelReaches(vm.State(), heap.frames, HEAP_PAGE);
    FirstFrame(before, vm.State(), heap.frames, vm.managed, lower);
  }

  lemma HeapMeans(heap: KernelHeap)
    requires heap.Valid()
    ensures WellTyped(heap.vm.State()) && HeapPages(heap.vm.State(), heap.frames)
    ensures heap.committed == |heap.frames| * PAGE_SIZE
  {
  }

  lemma FirstFrame(v: View, w: View, frames: seq<nat>, managed: set<nat>, lower: nat)
    requires WellTyped(w) && HeapPages(w, frames) && |frames| == 1 && Grown(v, w)
    requires lower in managed && lower !in v.owner && HEAP_PAGE in managed && HEAP_PAGE !in v.owner && lower < HEAP_PAGE
    requires LeastGained(v.owner, w.owner, managed - w.owner.Keys)
    ensures HEAP_PAGE !in w.owner && frames[0] != HEAP_PAGE
  {
    hide IdentityOutside, WindowStep, Walk;
    assert Has(w, frames[0], HeapPage(0));
    if lower in w.owner {
      assert w.owner[lower].HeapPage? && frames[0] == lower;
    } else {
      assert lower in managed - w.owner.Keys;
      assert HEAP_PAGE !in w.owner;
    }
  }
}
