/** The two tests that the kernel runs on itself while it starts (src/kernel.c). */
module SelfTests {
  import opened Words
  import opened Pmm
  import opened Ownership
  import opened Paging
  import opened Blocks
  import opened Heap

  const TEST_FRAMES: int := 16

  /** The second pair of loops of `test_pmm`. */
  method AllDifferent(frames: array<uint32>) returns (unique: bool)
    ensures unique <==> forall i: nat, j: nat :: i < j < frames.Length ==> frames[i] != frames[j]
  {
    for i := 0 to frames.Length
      invariant forall k: nat, l: nat :: k < i && k < l < frames.Length ==> frames[k] != frames[l]
    {
      for j := i + 1 to frames.Length
        invariant forall l: nat :: i < l < j ==> frames[i] != frames[l]
      {
        if frames[i] == frames[j] {
          return false;
        }
      }
    }
    unique := true;
  }

  /** `test_pmm`: takes 16 frames, looks at their number and whether they differ, and gives them back. It passes
      exactly if 16 frames are free, and then changes nothing. Otherwise it gives up with every free frame in its
      hands. */
  method TestPmm(vm: AddressSpaces) returns (passed: bool)
    requires vm.Valid()
    modifies vm`owner, vm.pmm.Repr
    ensures vm.Valid() && vm.pmm.Reserved() == old(vm.pmm.Reserved())
    ensures passed <==> old(vm.pmm.freeFrames) >= TEST_FRAMES
    ensures passed ==> vm.owner == old(vm.owner) && vm.pmm.Free() == old(vm.pmm.Free())
    ensures !passed ==> vm.pmm.Free() == {} && vm.pmm.freeFrames == 0
    ensures forall f: nat :: f in old(vm.owner) ==> f in vm.owner && vm.owner[f] == old(vm.owner)[f]
    ensures forall f: nat :: f in vm.owner && f !in old(vm.owner) ==> vm.owner[f].Held?
  {
    hide AddressSpaces.Valid, FrameAllocator.Valid, FrameAllocator.Free, FrameAllocator.Reserved, Taken;
    ghost var owner := vm.owner;
    FreeIsTheRest(vm);
    Footprint(vm);
    CountIsNatural(vm);
    var freeBefore := vm.pmm.freeFrames;
    var frames := new uint32[TEST_FRAMES](i => 0);
    ghost var fs: seq<nat> := [];
    TakenNone(owner);
    for i := 0 to TEST_FRAMES
      invariant vm.Valid() && vm.pmm.Reserved() == old(vm.pmm.Reserved())
      invariant |fs| == i && Taken(owner, vm.owner, fs)
      invariant forall j: nat :: j < i ==> frames[j] / PAGE_SIZE == fs[j] && frames[j] % PAGE_SIZE == 0
      invariant vm.pmm.freeFrames == freeBefore - i && vm.pmm.freeFrames >= 0
    {
      ghost var mid := vm.owner;
      FreeIsUnowned(vm);
      var frame := vm.TakeFrame();
      Footprint(vm);
      frames[i] := frame;
      if frame == 0 {
        OnlyHeld(owner, vm.owner, fs);
        return false;
      }
      TakenNext(owner, mid, vm.owner, fs, frame / PAGE_SIZE);
      fs := fs + [frame / PAGE_SIZE];
    }
    var freeAfter := vm.pmm.freeFrames;
    if freeAfter != freeBefore - TEST_FRAMES {
      // Never reached: every frame that is taken is counted.
      assert false;
    }
    TakenDistinct(owner, vm.owner, fs);
    var unique := AllDifferent(frames);
    if !unique {
      // Never reached: the frames that are taken are all different.
      assert false;
    }
    GiveBackTested(vm, frames, fs, owner);
    FreeIsTheRest(vm);
    passed := true;
  }

  lemma OnlyHeld(before: map<nat, Role>, after: map<nat, Role>, fs: seq<nat>)
    requires Taken(before, after, fs)
    ensures forall f: nat :: f in before ==> f in after && after[f] == before[f]
    ensures forall f: nat :: f in after && f !in before ==> after[f].Held?
  {
  }

  lemma TakenDistinct(before: map<nat, Role>, after: map<nat, Role>, fs: seq<nat>)
    requires Taken(before, after, fs)
    ensures Distinct(fs) && after == AddHeld(before, fs) && forall f :: f in fs ==> f !in before
  {
  }

  /** The last loop of `test_pmm`. */
  method GiveBackTested(vm: AddressSpaces, frames: array<uint32>, ghost fs: seq<nat>, ghost owner: map<nat, Role>)
    requires vm.Valid() && |fs| == frames.Length == TEST_FRAMES && Taken(owner, vm.owner, fs)
    requires forall j: nat :: j < TEST_FRAMES ==> frames[j] / PAGE_SIZE == fs[j]
    requires frames !in vm.pmm.Repr && vm != frames as object
    modifies vm`owner, vm.pmm.Repr
    ensures vm.Valid() && vm.pmm.Reserved() == old(vm.pmm.Reserved()) && vm.owner == owner
  {
    hide AddressSpaces.Valid, FrameAllocator.Valid, FrameAllocator.Free, FrameAllocator.Reserved, AddHeld;
    TakenDistinct(owner, vm.owner, fs);
    hide Taken;
    assert fs[0..] == fs;
    for j := 0 to TEST_FRAMES
      invariant vm.Valid() && vm.pmm.Reserved() == old(vm.pmm.Reserved()) && vm.owner == AddHeld(owner, fs[j..])
      invariant forall j: nat :: j < TEST_FRAMES ==> frames[j] / PAGE_SIZE == fs[j]
    {
      NextHeld(owner, fs, j);
      vm.GiveBack(frames[j]);
    }
    assert fs[TEST_FRAMES..] == [];
    AddHeldNone(owner);
  }

  lemma NextHeld(owner: map<nat, Role>, fs: seq<nat>, j: nat)
    requires j < |fs| && Distinct(fs) && forall f :: f in fs ==> f !in owner
    ensures fs[j] in AddHeld(owner, fs[j..]) && AddHeld(owner, fs[j..])[fs[j]] == Held
    ensures AddHeld(owner, fs[j..]) - {fs[j]} == AddHeld(owner, fs[j + 1..])
  {
    assert fs[j..][0] == fs[j] && fs[j..][1..] == fs[j + 1..];
    assert fs[j] !in fs[j + 1..];
    RemoveHeld(owner, fs[j..]);
  }

  // ---- The heap ----

  lemma TestSizes()
    ensures AlignUp(256) == 256 && AlignUp(64) == 64 && AlignUp(400) == 400
  {
  }

  /** The lists of blocks that `test_heap` goes through. */
  const ONE: seq<Block> := [Block(256, false)]
  const TWO: seq<Block> := [Block(256, false), Block(256, false)]
  const FREED: seq<Block> := [Block(256, true), Block(256, false)]
  const REUSED: seq<Block> := [Block(64, false), Block(180, true), Block(256, false)]
  const LAST_FREED: seq<Block> := [Block(64, false), Block(448, true)]
  const ALL_FREED: seq<Block> := [Block(524, true)]
  const AGAIN: seq<Block> := [Block(400, false), Block(112, true)]

  lemma FirstRequests()
    ensures FindFirst([], 256) == 0 && Append([], 256) == ONE && RequiredEnd([], 256) == 268
    ensures FindFirst(ONE, 256) == 1 && Append(ONE, 256) == TWO && RequiredEnd(ONE, 256) == 536
    ensures PageAlignUp(268) == PAGE_SIZE && PageAlignUp(536) == PAGE_SIZE && !Overruns([], 256) && !Overruns(ONE, 256)
    ensures At([], 0) == HEAP_START && At(ONE, 0) == HEAP_START && At(ONE, 1) == HEAP_START + 268
  {
    assert Extent([]) == 0 && Extent(ONE) == 268;
    assert ONE[1..] == [] && ONE[..1] == ONE && ONE[..0] == [];
  }

  lemma CoalesceTwo(b: Block, c: Block)
    ensures Coalesce([b, c]) == if b.free && c.free then [Merged(b, c)] else [b, c]
  {
    assert [b, c][1..] == [c] && [Merged(b, c)] + [b, c][2..] == [Merged(b, c)];
  }

  lemma Releases()
    ensures Release(TWO, 0) == FREED && Release(REUSED, 2) == LAST_FREED
    ensures Release(LAST_FREED, 0) == ALL_FREED && Release(AGAIN, 0) == ALL_FREED
  {
    CoalesceTwo(Block(256, true), Block(256, false));
    CoalesceTwo(Block(64, true), Block(448, true));
    CoalesceTwo(Block(400, true), Block(112, true));
    CoalesceTwo(Block(180, true), Block(256, true));
    assert SetFree(TWO, 0, true) == [Block(256, true), Block(256, false)];
    assert SetFree(LAST_FREED, 0, true) == [Block(64, true), Block(448, true)];
    assert SetFree(AGAIN, 0, true) == [Block(400, true), Block(112, true)];
    var s := SetFree(REUSED, 2, true);
    assert s[1..] == [Block(180, true), Block(256, true)];
  }

  lemma Reuses()
    ensures FindFirst(FREED, 64) == 0 && Reuse(FREED, 0, 64) == REUSED && !Overruns(FREED, 64)
    ensures FindFirst(ALL_FREED, 400) == 0 && Reuse(ALL_FREED, 0, 400) == AGAIN && !Overruns(ALL_FREED, 400)
  {
    assert AlignUp(64) == 64 && AlignUp(400) == 400;
  }

  lemma Addresses()
    ensures At(FREED, 0) == HEAP_START && At(REUSED, 0) == HEAP_START && At(REUSED, 2) == HEAP_START + 268
    ensures At(LAST_FREED, 0) == HEAP_START && At(ALL_FREED, 0) == HEAP_START && At(AGAIN, 0) == HEAP_START
    ensures At(TWO, 0) == HEAP_START && At(TWO, 1) == HEAP_START + 268
  {
    assert REUSED[..2] == [Block(64, false), Block(180, true)] && TWO[..1] == ONE;
    assert Extent([Block(64, false), Block(180, true)]) == 268 by {
      assert [Block(64, false), Block(180, true)][1..] == [Block(180, true)];
      assert Extent([Block(180, true)]) == 192;
    }
    assert Extent(ONE) == 268;
  }

  /** The second request: still on the first page. */
  method SecondRequest(heap: KernelHeap) returns (b: nat)
    requires heap.Valid() && heap.blocks == ONE && heap.committed == PAGE_SIZE
    modifies heap, heap.vm`ram, heap.vm`owner, heap.vm.pmm.Repr
    ensures heap.Valid() && heap.vm.pmm.Reserved() == old(heap.vm.pmm.Reserved())
    ensures heap.blocks == TWO && heap.committed == PAGE_SIZE && b == HEAP_START + 268 + HEADER
    ensures Grown(old(heap.vm.State()), heap.vm.State())
  {
    hide AddressSpaces.Valid, KernelHeap.Valid, FrameAllocator.Reserved, Grown, Live, KernelHeap.Usable, Overruns, At;
    hide FindFirst, Append, Reuse, Release, RequiredEnd, PageAlignUp, AlignUp, Wraps;
    TestSizes();
    FirstRequests();
    b := heap.Kmalloc(256);
  }

  /** A request that is served from the list. */
  method FromList(heap: KernelHeap, request: uint32, ghost after: seq<Block>) returns (p: nat)
    requires heap.Valid() && request != 0 && heap.blocks != [] && FindFirst(heap.blocks, AlignUp(request)) == 0
    requires !Overruns(heap.blocks, request) && Reuse(heap.blocks, 0, AlignUp(request)) == after
    modifies heap, heap.vm`ram, heap.vm`owner, heap.vm.pmm.Repr
    ensures heap.Valid() && heap.vm.pmm.Reserved() == old(heap.vm.pmm.Reserved())
    ensures heap.blocks == after && heap.committed == old(heap.committed) && heap.vm.State() == old(heap.vm.State())
    ensures p == At(old(heap.blocks), 0) + HEADER
  {
    hide AddressSpaces.Valid, KernelHeap.Valid, FrameAllocator.Reserved, Grown, Live, KernelHeap.Usable, Overruns, At;
    hide FindFirst, Append, Reuse, RequiredEnd, PageAlignUp, AlignUp, Wraps;
    p := heap.Kmalloc(request);
  }

  /** The rest of the test: free the first block, reuse and split it, free everything, and find it merged. */
  method ReuseAndMerge(heap: KernelHeap, a: nat, b: nat) returns (passed: bool)
    requires heap.Valid() && heap.blocks == TWO && a == HEAP_START + HEADER && b == HEAP_START + 268 + HEADER
    modifies heap, heap.vm`ram, heap.vm`owner, heap.vm.pmm.Repr
    ensures heap.Valid() && heap.vm.pmm.Reserved() == old(heap.vm.pmm.Reserved())
    ensures passed && heap.blocks == ALL_FREED && heap.committed == old(heap.committed)
    ensures heap.vm.State() == old(heap.vm.State())
  {
    hide AddressSpaces.Valid, KernelHeap.Valid, FrameAllocator.Reserved, Live, Overruns, At, FindFirst, Reuse, Release;
    hide AlignUp;
    TestSizes();
    Addresses();
    Releases();
    Reuses();
    heap.Kfree(a, 0);
    var c := FromList(heap, 64, REUSED);
    if c != a {
      return false;
    }
    heap.Kfree(b, 2);
    heap.Kfree(c, 0);
    var d := FromList(heap, 400, AGAIN);
    if d != a {
      return false;
    }
    heap.Kfree(d, 0);
    passed := true;
  }

  /** `test_heap`: it passes exactly if there is a frame for the first page of the heap. It leaves one free block, the
      result of splitting and merging, and no allocation. */
  method TestHeap(heap: KernelHeap) returns (passed: bool)
    requires heap.Valid() && heap.blocks == [] && heap.committed == 0
    modifies heap, heap.vm`ram, heap.vm`owner, heap.vm.pmm.Repr
    ensures heap.Valid() && heap.vm.pmm.Reserved() == old(heap.vm.pmm.Reserved())
    ensures passed <==> old(heap.vm.pmm.freeFrames) > 0
    ensures heap.blocks == (if passed then ALL_FREED else []) && heap.committed == if passed then PAGE_SIZE else 0
    ensures !passed ==> heap.vm.State() == old(heap.vm.State())
    ensures Grown(old(heap.vm.State()), heap.vm.State())
  {
    hide AddressSpaces.Valid, KernelHeap.Valid, FrameAllocator.Reserved, Grown, Live, KernelHeap.Usable, Overruns, At;
    hide FindFirst, Append, Reuse, Release, RequiredEnd, PageAlignUp, AlignUp, Wraps;
    TestSizes();
    FirstRequests();
    var a := heap.Kmalloc(256);
    if a == 0 {
      return false;
    }
    ghost var v, w := old(heap.vm.State()), heap.vm.State();
    var b := SecondRequest(heap);
    GrownTrans(v, w, heap.vm.State());
    passed := ReuseAndMerge(heap, a, b);
  }
}
