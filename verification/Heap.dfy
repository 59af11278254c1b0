/** The kernel heap: a linked list of headers in place, over pages committed on demand (src/kernel/heap.c). */
module Heap {
  import opened Words
  import opened Pmm
  import opened PageTables
  import opened Ownership
  import opened Paging
  import opened Blocks

  /** The first virtual page of the heap window. */
  const HEAP_PAGE: int := HEAP_START / PAGE_SIZE
  const HEAP_PAGES: int := HEAP_SIZE / PAGE_SIZE
  const HEAP_FLAGS: int := PAGE_PRESENT + PAGE_WRITABLE

  /** A heap_block_t as it lies in memory; next is an address, 0 at the end of the list. */
  datatype Header = Header(size: nat, free: bool, next: nat)

  function AlignUp(value: uint32): nat {
    (value + HEAP_ALIGNMENT - 1) % TWO_32 / HEAP_ALIGNMENT * HEAP_ALIGNMENT
  }

  function PageAlignUp(value: uint32): (r: nat)
    ensures r % PAGE_SIZE == 0
  {
    (value + PAGE_SIZE - 1) % TWO_32 / PAGE_SIZE * PAGE_SIZE
  }

  /** The end of the heap that an appended block needs, as the 32-bit code computes it. */
  function RequiredEnd(bs: seq<Block>, size: nat): uint32 {
    (Extent(bs) + HEADER + size) % TWO_32
  }

  /** The request is served behind the last block, and the end of the new block wraps around. */
  predicate Overruns(bs: seq<Block>, request: uint32) {
    FindFirst(bs, AlignUp(request)) == |bs| && Extent(bs) + HEADER + AlignUp(request) + PAGE_SIZE - 1 >= TWO_32
  }

  /** One of the 32-bit additions of kmalloc wraps around. */
  predicate Wraps(bs: seq<Block>, request: uint32) {
    request + HEAP_ALIGNMENT - 1 >= TWO_32 || Overruns(bs, request)
  }

  /** Below 32 MiB the kernel finds every page outside the first n pages of the heap window at its own address. */
  ghost predicate IdentityOutside(v: View, n: nat)
    requires WellTyped(v)
  {
    forall page: nat :: page < LOW_FRAMES && !(HEAP_PAGE <= page < HEAP_PAGE + n) ==>
      Walk(v.ram, v.kernel, page) == Some(Leaf(page, HEAP_FLAGS))
  }

  /** The committed pages of the window are mapped one to one on frames that belong to the heap; the rest of low memory
      is mapped onto itself. */
  ghost predicate HeapPages(v: View, frames: seq<nat>)
    requires WellTyped(v)
  {
    && |frames| <= HEAP_PAGES && IdentityOutside(v, |frames|)
    && (forall k: nat :: k < |frames| ==>
          Has(v, frames[k], HeapPage(k)) && Walk(v.ram, v.kernel, HEAP_PAGE + k) == Some(Leaf(frames[k], HEAP_FLAGS)))
    && (forall f: nat :: f in v.owner && v.owner[f].HeapPage? ==>
          v.owner[f].k < |frames| && frames[v.owner[f].k] == f)
  }

  /** A step that keeps the heap's frames and the kernel's translation keeps the heap pages. */
  lemma HeapPagesKept(v: View, w: View, frames: seq<nat>)
    requires WellTyped(v) && WellTyped(w) && HeapPages(v, frames)
    requires forall f: nat, k: nat :: Has(w, f, HeapPage(k)) <==> Has(v, f, HeapPage(k))
    requires forall page: nat :: page < LOW_FRAMES ==> Walk(w.ram, w.kernel, page) == Walk(v.ram, v.kernel, page)
    ensures HeapPages(w, frames)
  {
    forall f: nat | f in w.owner && w.owner[f].HeapPage?
      ensures w.owner[f].k < |frames| && frames[w.owner[f].k] == f
    {
      assert Has(w, f, HeapPage(w.owner[f].k));
    }
  }

  /** The header list of the blocks bs: every header at its block's address, linked to the next one. */
  ghost predicate Linked(headers: map<nat, Header>, bs: seq<Block>) {
    forall k: nat :: k < |bs| ==> At(bs, k) in headers && headers[At(bs, k)] == HeaderOf(bs, k)
  }

  function NextOf(bs: seq<Block>, k: nat): nat
    requires k < |bs|
  {
    if k + 1 < |bs| then At(bs, k + 1) else 0
  }

  function HeaderOf(bs: seq<Block>, k: nat): Header
    requires k < |bs|
  {
    Header(bs[k].size, bs[k].free, NextOf(bs, k))
  }

  /** Changing the header of block k, without its size, changes that block only. */
  lemma SetFreeLinked(headers: map<nat, Header>, bs: seq<Block>, k: nat, free: bool)
    requires Linked(headers, bs) && k < |bs|
    ensures Linked(headers[At(bs, k) := headers[At(bs, k)].(free := free)], SetFree(bs, k, free))
  {
    var cs := SetFree(bs, k, free);
    forall j: nat | j < |cs|
      ensures At(cs, j) == At(bs, j) && NextOf(cs, j) == NextOf(bs, j)
      ensures j != k ==> At(bs, j) != At(bs, k)
    {
      SetFreeAt(bs, k, free, j);
      SetFreeAt(bs, k, free, j + 1);
      if j < k {
        AtOrder(bs, j, k);
      } else if k < j {
        AtOrder(bs, k, j);
      }
    }
  }

  /** The headers of a list in which block k has been split in two. */
  lemma RefineHeader(bs: seq<Block>, k: nat, b: Block, c: Block, j: nat)
    requires k < |bs| && b.size + HEADER + c.size == bs[k].size && j <= |bs|
    ensures var cs := Refine(bs, k, b, c);
            && At(cs, j) ==
                 (if j <= k then At(bs, j) else if j == k + 1 then At(bs, k) + HEADER + b.size else At(bs, j - 1))
            && HeaderOf(cs, j) ==
               if j < k then HeaderOf(bs, j)
               else if j == k then Header(b.size, b.free, At(bs, k) + HEADER + b.size)
               else if j == k + 1 then Header(c.size, c.free, NextOf(bs, k))
               else HeaderOf(bs, j - 1)
  {
    RefineAt(bs, k, b, c, j);
    RefineAt(bs, k, b, c, j + 1);
  }

  lemma AtDistinct(bs: seq<Block>, j: nat, k: nat)
    requires j < |bs| && k < |bs| && j != k
    ensures At(bs, j) != At(bs, k)
    ensures k < j ==> At(bs, k) + HEADER + bs[k].size <= At(bs, j)
    ensures j < k ==> At(bs, j) < At(bs, k)
  {
    if j < k {
      AtOrder(bs, j, k);
    } else {
      AtOrder(bs, k, j);
    }
  }

  /** The two stores of a split. */
  lemma SplitLinked(headers: map<nat, Header>, bs: seq<Block>, k: nat, b: Block, c: Block)
    requires Linked(headers, bs) && k < |bs| && b.size + HEADER + c.size == bs[k].size
    ensures var right := At(bs, k) + HEADER + b.size;
            Linked(headers[right := Header(c.size, c.free, NextOf(bs, k))][At(bs, k) := Header(b.size, b.free, right)],
                   Refine(bs, k, b, c))
  {
    hide At, NextOf, HeaderOf;
    var cs, right := Refine(bs, k, b, c), At(bs, k) + HEADER + b.size;
    var h := headers[right := Header(c.size, c.free, NextOf(bs, k))][At(bs, k) := Header(b.size, b.free, right)];
    forall j: nat | j < |cs|
      ensures At(cs, j) in h && h[At(cs, j)] == HeaderOf(cs, j)
    {
      RefineHeader(bs, k, b, c, j);
      if j < k {
        AtDistinct(bs, j, k);
      } else if j > k + 1 {
        AtDistinct(bs, j - 1, k);
      }
    }
  }

  lemma MergeHeader(bs: seq<Block>, k: nat, j: nat)
    requires k + 1 < |bs| && j + 1 < |bs|
    ensures var ms := Merge(bs, k);
            && At(ms, j) == At(bs, if j <= k then j else j + 1)
            && HeaderOf(ms, j) ==
               if j < k then HeaderOf(bs, j)
               else if j == k then Header(Merged(bs[k], bs[k + 1]).size, bs[k].free, NextOf(bs, k + 1))
               else HeaderOf(bs, j + 1)
  {
    var ms := Merge(bs, k);
    assert bs == Refine(ms, k, bs[k], bs[k + 1]);
    RefineHeader(ms, k, bs[k], bs[k + 1], j);
    RefineHeader(ms, k, bs[k], bs[k + 1], j + 1);
  }

  /** The two stores of a merge: size and next of the left block. */
  lemma MergeLinked(headers: map<nat, Header>, bs: seq<Block>, k: nat)
    requires Linked(headers, bs) && k + 1 < |bs|
    ensures Linked(headers[At(bs, k) := Header(Merged(bs[k], bs[k + 1]).size, bs[k].free, NextOf(bs, k + 1))],
                   Merge(bs, k))
  {
    hide At, NextOf, HeaderOf;
    var ms := Merge(bs, k);
    var h := headers[At(bs, k) := Header(Merged(bs[k], bs[k + 1]).size, bs[k].free, NextOf(bs, k + 1))];
    forall j: nat | j < |ms|
      ensures At(ms, j) in h && h[At(ms, j)] == HeaderOf(ms, j)
    {
      MergeHeader(bs, k, j);
      if j != k {
        AtDistinct(bs, if j < k then j else j + 1, k);
      }
    }
  }

  /** The list with blocks k and k + 1 merged. */
  function Merge(bs: seq<Block>, k: nat): seq<Block>
    requires k + 1 < |bs|
  {
    bs[..k] + [Merged(bs[k], bs[k + 1])] + bs[k + 2..]
  }

  lemma AppendLinked(headers: map<nat, Header>, bs: seq<Block>, size: nat)
    requires Linked(headers, bs)
    ensures var h := headers[At(bs, |bs|) := Header(size, false, 0)];
            Linked(if bs == [] then h
                   else h[At(bs, |bs| - 1) := Header(bs[|bs| - 1].size, bs[|bs| - 1].free, At(bs, |bs|))],
                   Append(bs, size))
  {
    var cs := Append(bs, size);
    forall j: nat | j <= |bs|
      ensures At(cs, j) == At(bs, j) && (j < |bs| ==> At(bs, j) < At(bs, |bs|))
      ensures j + 1 < |bs| ==> At(bs, j) != At(bs, |bs| - 1)
    {
      assert cs[..j] == bs[..j];
      if j < |bs| {
        AtOrder(bs, j, |bs|);
        if j + 1 < |bs| {
          AtOrder(bs, j, |bs| - 1);
        }
      }
    }
  }

  ghost function FrameSet(fs: seq<nat>): (s: set<nat>)
    ensures forall f :: f in s <==> f in fs
  {
    if fs == [] then {} else {fs[0]} + FrameSet(fs[1..])
  }

  /** The frames fs are those that the allocator gives out first. */
  ghost predicate AllBelow(fs: seq<nat>, free: set<nat>) {
    forall f: nat, g: nat :: f in fs && g in free ==> f < g
  }

  /** No frame that the heap has gained lies above one that is still free. */
  ghost predicate LeastGained(before: map<nat, Role>, after: map<nat, Role>, free: set<nat>) {
    forall f: nat, g: nat :: f in after && f !in before && g in free ==> f < g
  }

  ghost predicate Distinct(fs: seq<nat>) {
    forall j: nat, l: nat :: j < l < |fs| ==> fs[j] != fs[l]
  }

  ghost function AddHeld(owner: map<nat, Role>, fs: seq<nat>): map<nat, Role> {
    owner + map f | f in FrameSet(fs) :: Held
  }

  lemma AddHeldBehind(owner: map<nat, Role>, fs: seq<nat>, f: nat)
    ensures AddHeld(owner, fs)[f := Held] == AddHeld(owner, fs + [f])
  {
  }

  /** The frames fs, all different and all new, are held by the caller. */
  ghost predicate Taken(before: map<nat, Role>, after: map<nat, Role>, fs: seq<nat>) {
    Distinct(fs) && after == AddHeld(before, fs) && forall f :: f in fs ==> f !in before
  }

  lemma TakenNext(before: map<nat, Role>, mid: map<nat, Role>, after: map<nat, Role>, fs: seq<nat>, f: nat)
    requires Taken(before, mid, fs) && f !in mid && after == mid[f := Held]
    ensures Taken(before, after, fs + [f])
  {
    AddHeldBehind(before, fs, f);
  }

  lemma TakenNone(before: map<nat, Role>)
    ensures Taken(before, before, [])
  {
    AddHeldNone(before);
  }

  lemma AddHeldNone(owner: map<nat, Role>)
    ensures AddHeld(owner, []) == owner
  {
  }

  lemma RemoveHeld(owner: map<nat, Role>, fs: seq<nat>)
    requires fs != [] && fs[0] !in owner && fs[0] !in fs[1..]
    ensures AddHeld(owner, fs) - {fs[0]} == AddHeld(owner, fs[1..])
  {
    assert FrameSet(fs) == {fs[0]} + FrameSet(fs[1..]);
  }

  /** The page lies in the heap window. */
  predicate InWindow(page: nat) {
    HEAP_PAGE <= page < HEAP_PAGE + HEAP_PAGES
  }

  /** A step of the heap: only kernel tables are written, and only the window is translated anew. */
  ghost predicate WindowStep(v: View, w: View) {
    && WellTyped(v) && WellTyped(w) && w.kernel == v.kernel && w.spaces == v.spaces
    && (forall f: nat :: f in v.owner && !v.owner[f].KernelTable? && !v.owner[f].KernelDirectory? ==>
          w.ram[f] == v.ram[f])
    && (forall page: nat :: page < ALL_PAGES && !InWindow(page) ==>
          Walk(w.ram, w.kernel, page) == Walk(v.ram, v.kernel, page))
    && (forall i: nat, page: nat :: Used(v, i) && page < ALL_PAGES && !InWindow(page) ==>
          Walk(w.ram, DirOf(w, i), page) == Walk(v.ram, DirOf(v, i), page))
  }

  lemma WindowStepTrans(u: View, v: View, w: View)
    requires WindowStep(u, v) && WindowStep(v, w)
    requires forall f: nat :: f in u.owner && !u.owner[f].KernelTable? && !u.owner[f].KernelDirectory? ==>
               f in v.owner && !v.owner[f].KernelTable? && !v.owner[f].KernelDirectory?
    ensures WindowStep(u, w)
  {
  }

  /** Mapping one page of the window on a held frame. */
  lemma MapInWindow(v: View, w: View, m: KernelMap)
    requires KernelMapped(v, w, m) && m.newTable.None? && InWindow(m.page)
    ensures WindowStep(v, w)
    ensures forall page: nat :: page < ALL_PAGES && page != m.page ==>
              Walk(w.ram, w.kernel, page) == Walk(v.ram, v.kernel, page)
    ensures Walk(w.ram, w.kernel, m.page) == LeafOf(m.pte)
  {
    KernelMapKeepsKernel(v, w, m);
    forall page: nat | page < ALL_PAGES
      ensures Walk(w.ram, w.kernel, page) == if page == m.page then LeafOf(m.pte) else Walk(v.ram, v.kernel, page)
      ensures forall i: nat :: Used(v, i) && page != m.page ==>
                Walk(w.ram, DirOf(w, i), page) == Walk(v.ram, DirOf(v, i), page)
    {
      KernelMapRefines(v, w, m, page);
    }
    assert Has(v, FrameOf(m.pde), KernelTable(m.page / ENTRIES)) by {
      assert Present(KernelPde(v, m.page / ENTRIES));
    }
  }

  /** The heap has mapped the first i of the frames fs that it took. */
  ghost predicate Growing(base: View, v: View, fs: seq<nat>, i: nat)
    requires i <= |fs|
  {
    && WindowStep(base, v)
    && (forall f: nat :: f in base.owner ==> Has(v, f, base.owner[f]))
    && (forall j: nat :: i <= j < |fs| ==> Has(v, fs[j], Held))
    && (forall f: nat :: f in v.owner ==> f in base.owner || v.owner[f].HeapPage? || f in fs[i..])
    && v.owner.Keys == base.owner.Keys + FrameSet(fs)
  }

  lemma GrowStart(base: View, v: View, fs: seq<nat>)
    requires WellTyped(base) && WellTyped(v) && v.owner == AddHeld(base.owner, fs)
    requires forall f :: f in fs ==> f !in base.owner
    requires v.ram == base.ram && v.spaces == base.spaces && v.kernel == base.kernel
    ensures Growing(base, v, fs, 0)
  {
    assert fs[0..] == fs;
    assert v.owner.Keys == base.owner.Keys + FrameSet(fs);
  }

  lemma SameKeys(owner: map<nat, Role>, f: nat, r: Role)
    requires f in owner
    ensures owner[f := r].Keys == owner.Keys
  {
    assert owner[f := r].Keys == owner.Keys + {f};
  }

  lemma GrowStep(base: View, v: View, w: View, fs: seq<nat>, i: nat, k: nat)
    requires i < |fs| && Distinct(fs) && Growing(base, v, fs, i) && WindowStep(v, w)
    requires w.owner == v.owner[fs[i] := HeapPage(k)] && fs[i] !in base.owner
    ensures Growing(base, w, fs, i + 1)
  {
    hide Entry, Editable;
    assert fs[i..] == [fs[i]] + fs[i + 1..];
    WindowStepTrans(base, v, w);
    SameKeys(v.owner, fs[i], HeapPage(k));
    hide WindowStep, FrameSet;
  }

  lemma GrowEnd(base: View, v: View, fs: seq<nat>)
    requires Growing(base, v, fs, |fs|)
    ensures Grown(base, v) && v.owner.Keys == base.owner.Keys + FrameSet(fs)
  {
  }

  /** The heap has taken new frames and given none away. */
  ghost predicate Grown(v: View, w: View) {
    && WindowStep(v, w)
    && (forall f: nat :: f in v.owner ==> Has(w, f, v.owner[f]))
    && (forall f: nat :: f in w.owner && f !in v.owner ==> w.owner[f].HeapPage?)
  }

  /** The address of block k, or 0 behind the last one: the value of a list pointer. */
  function Pointer(bs: seq<Block>, k: nat): nat
    requires k <= |bs|
  {
    if k < |bs| then At(bs, k) else 0
  }

  /** The last block has none to merge with. */
  lemma CoalesceEnd(bs: seq<Block>, k: nat)
    requires k <= |bs| <= k + 1
    ensures bs[..k] + Coalesce(bs[k..]) == bs
  {
    assert Coalesce(bs[k..]) == bs[k..];
    assert bs[..k] + bs[k..] == bs;
  }

  lemma CoalesceStep(bs: seq<Block>, k: nat)
    requires k + 1 < |bs|
    ensures if bs[k].free && bs[k + 1].free
            then Merge(bs, k)[..k] == bs[..k] && Coalesce(Merge(bs, k)[k..]) == Coalesce(bs[k..])
            else bs[..k] + Coalesce(bs[k..]) == bs[..k + 1] + Coalesce(bs[k + 1..])
  {
    if bs[k].free && bs[k + 1].free {
      assert Merge(bs, k)[k..] == [Merged(bs[k], bs[k + 1])] + bs[k..][2..];
    } else {
      assert bs[k..][1..] == bs[k + 1..];
      assert bs[..k] + ([bs[k]] + Coalesce(bs[k + 1..])) == bs[..k + 1] + Coalesce(bs[k + 1..]);
    }
  }

  /** The variables of the heap, with the blocks and frames that they stand for. */
  datatype HeapState = HeapState(headers: map<nat, Header>, blocks: seq<Block>, first: nat, used: int, committed: nat,
                                 frames: seq<nat>)

  /** The header list is the block list: contiguous, canonical, counted, and inside the committed pages. */
  ghost predicate WellLinked(h: HeapState) {
    && Linked(h.headers, h.blocks) && Canonical(h.blocks) && Aligned(h.blocks)
    && h.first == Pointer(h.blocks, 0) && h.used == UsedSum(h.blocks)
    && Extent(h.blocks) <= h.committed <= HEAP_SIZE && h.committed == |h.frames| * PAGE_SIZE
  }

  /** The sum of two unsigned integers of 32 bits. */
  function Sum32(a: int, b: int): int {
    (a + b) % TWO_32
  }

  lemma SmallSum(a: int, b: int)
    requires 0 <= a + b < TWO_32
    ensures Sum32(a, b) == a + b
  {
  }

  /** The list with one more block behind it. */
  ghost function Appended(h: HeapState, size: nat): HeapState
    requires WellLinked(h)
  {
    var n, a := |h.blocks|, At(h.blocks, |h.blocks|);
    var grown := h.headers[a := Header(size, false, 0)];
    h.(headers := if n == 0 then grown else grown[At(h.blocks, n - 1) := HeaderOf(h.blocks, n - 1).(next := a)],
       blocks := Append(h.blocks, size), first := if n == 0 then a else h.first, used := Sum32(h.used, size))
  }

  /** It is in order exactly if it ends inside the committed pages. */
  lemma AppendedList(h: HeapState, size: nat)
    requires WellLinked(h) && size < TWO_32 && WholeWords(size)
    ensures WellLinked(Appended(h, size)) <==> Extent(h.blocks) + HEADER + size <= h.committed
    ensures var n := |h.blocks|;
            n > 0 ==> At(h.blocks, n - 1) > 0 && At(h.blocks, n - 1) != At(h.blocks, n)
                      && At(h.blocks, n - 1) in h.headers && h.headers[At(h.blocks, n - 1)] == HeaderOf(h.blocks, n - 1)
  {
    var bs := h.blocks;
    AppendAllocates(bs, size);
    AppendLinked(h.headers, bs, size);
    UsedInExtent(bs);
    AppendAligned(bs, size);
    EndAddress(bs);
    assert At(Append(bs, size), 0) == At(bs, 0);
    hide Linked, Canonical, Aligned, WholeWords, UsedSum, Extent, Append, Sum32;
    if Extent(bs) + HEADER + size <= h.committed {
      SmallSum(h.used, size);
    }
  }

  lemma CanonicalList(h: HeapState)
    requires WellLinked(h)
    ensures Canonical(h.blocks) && h.used == UsedSum(h.blocks)
  {
  }

  class KernelHeap {
    const vm: AddressSpaces
    var first: nat
    var used: int
    var committed: nat
    var headers: map<nat, Header>
    ghost var blocks: seq<Block>
    ghost var frames: seq<nat>

    ghost function State(): HeapState
      reads this
    {
      HeapState(headers, blocks, first, used, committed, frames)
    }

    ghost predicate ListOk()
      reads this
    {
      WellLinked(State())
    }

    ghost predicate Valid()
      reads this, vm, vm.pmm.Repr, vm.pmm, vm.pmm.frameBitmap, vm.pmm.reservedBitmap
      reads vm.pmm.frameBitmap.bytes, vm.pmm.reservedBitmap.bytes
    {
      this !in vm.pmm.Repr && vm.Valid() && ListOk() && HeapPages(vm.State(), frames)
    }

    constructor (vm: AddressSpaces)
      ensures this.vm == vm
    {
      this.vm := vm;
      first, used, committed, headers, blocks, frames := 0, 0, 0, map[], [], [];
    }

    /** `heap_initialize` */
    method Initialize()
      requires this !in vm.pmm.Repr && vm.Valid() && HeapPages(vm.State(), [])
      modifies this
      ensures Valid() && blocks == [] && committed == 0
    {
      hide AddressSpaces.Valid;
      first, used, committed := 0, 0, 0;
      headers, blocks, frames := map[], [], [];
    }

    /** `find_free_block` returns the first fit. */
    method FindFreeBlock(size: nat) returns (block: nat)
      requires ListOk()
      ensures block == Pointer(blocks, FindFirst(blocks, size))
    {
      block := first;
      ghost var k := 0;
      while block != 0
        invariant k <= |blocks| && block == Pointer(blocks, k)
        invariant forall j :: 0 <= j < k ==> !Fits(blocks[j], size)
        decreases |blocks| - k
      {
        if headers[block].free && headers[block].size >= size {
          FirstFitUnique(blocks, size, k);
          return;
        }
        block := headers[block].next;
        k := k + 1;
      }
      FirstFitUnique(blocks, size, k);
    }

    /** `get_last_block` */
    method GetLastBlock() returns (block: nat)
      requires ListOk()
      ensures block == if blocks == [] then 0 else At(blocks, |blocks| - 1)
    {
      block := first;
      if block == 0 {
        return;
      }
      ghost var k := 0;
      while headers[block].next != 0
        invariant k < |blocks| && block == At(blocks, k)
        decreases |blocks| - k
      {
        block := headers[block].next;
        k := k + 1;
      }
    }

    /** `split_block` */
    method SplitBlock(block: nat, size: nat, ghost k: nat)
      requires Linked(headers, blocks) && k < |blocks| && block == At(blocks, k)
      modifies this`headers, this`blocks
      ensures Linked(headers, blocks) && blocks == Split(old(blocks), k, size)
    {
      if headers[block].size < size {
        return;
      }
      var remaining := headers[block].size - size;
      if remaining < HEADER + HEAP_MIN_SPLIT {
        return;
      }
      var newBlock := block + HEADER + size;
      ghost var b, c := Block(size, blocks[k].free), Block(remaining - HEADER, true);
      SplitLinked(headers, blocks, k, b, c);
      headers := headers[newBlock := Header(remaining - HEADER, true, headers[block].next)];
      headers := headers[block := headers[block].(size := size, next := newBlock)];
      blocks := Refine(blocks, k, b, c);
    }

    /** `coalesce_free_blocks` */
    method CoalesceFreeBlocks()
      requires Linked(headers, blocks) && first == Pointer(blocks, 0)
      modifies this`headers, this`blocks
      ensures Linked(headers, blocks) && first == Pointer(blocks, 0) && blocks == Coalesce(old(blocks))
    {
      hide Extent;
      var current := first;
      ghost var k := 0;
      while current != 0 && headers[current].next != 0
        invariant Linked(headers, blocks) && k <= |blocks| && current == Pointer(blocks, k)
        invariant first == Pointer(blocks, 0)
        invariant blocks[..k] + Coalesce(blocks[k..]) == Coalesce(old(blocks))
        decreases |blocks| - k
      {
        var next := headers[current].next;
        CoalesceStep(blocks, k);
        if headers[current].free && headers[next].free {
          MergeLinked(headers, blocks, k);
          MergeHeader(blocks, k, k);
          headers := headers[current := headers[current].(size := headers[current].size + HEADER + headers[next].size,
                                                         next := headers[next].next)];
          blocks := Merge(blocks, k);
        } else {
          current := next;
          k := k + 1;
        }
      }
      CoalesceEnd(blocks, k);
    }

    /** Allocates all frames first; if one is missing, every frame taken is given back. */
    method TakeFrames(taken: array<uint32>, pages: nat) returns (ok: bool, ghost fs: seq<nat>)
      requires vm.Valid() && taken.Length == HEAP_PAGES && pages <= HEAP_PAGES && taken !in vm.pmm.Repr
               && vm != taken as object
      modifies taken, vm`owner, vm.pmm.Repr
      ensures vm.Valid() && vm.pmm.Reserved() == old(vm.pmm.Reserved())
      ensures ok <==> pages <= old(vm.pmm.freeFrames)
      ensures !ok ==> vm.owner == old(vm.owner)
      ensures ok ==> |fs| == pages && Taken(old(vm.owner), vm.owner, fs) && AllBelow(fs, vm.pmm.Free())
                     && (forall j: nat :: j < pages ==> taken[j] / PAGE_SIZE == fs[j])
    {
      hide AddressSpaces.Valid, FrameAllocator.Valid, FrameAllocator.Free, Taken;
      fs := [];
      TakenNone(vm.owner);
      CountIsNatural(vm);
      for i := 0 to pages
        invariant vm.Valid() && vm.pmm.Reserved() == old(vm.pmm.Reserved())
        invariant |fs| == i && Taken(old(vm.owner), vm.owner, fs) && AllBelow(fs, vm.pmm.Free())
        invariant forall j: nat :: j < i ==> taken[j] / PAGE_SIZE == fs[j]
        invariant vm.pmm.freeFrames == old(vm.pmm.freeFrames) - i && vm.pmm.freeFrames >= 0
      {
        ghost var mid := vm.owner;
        FreeIsUnowned(vm);
        var frame := vm.TakeFrame();
        Footprint(vm);
        taken[i] := frame;
        if frame == 0 {
          GiveBackAll(taken, i, fs, old(vm.owner));
          return false, fs;
        }
        TakenNext(old(vm.owner), mid, vm.owner, fs, frame / PAGE_SIZE);
        fs := fs + [frame / PAGE_SIZE];
      }
      ok := true;
    }

    /** The rollback loop of `commit_pages`. */
    method GiveBackAll(taken: array<uint32>, count: nat, ghost fs: seq<nat>, ghost owner: map<nat, Role>)
      requires vm.Valid() && |fs| == count <= taken.Length && Taken(owner, vm.owner, fs)
      requires forall j: nat :: j < count ==> taken[j] / PAGE_SIZE == fs[j]
      requires taken !in vm.pmm.Repr && vm != taken as object
      modifies vm`owner, vm.pmm.Repr
      ensures vm.Valid() && vm.pmm.Reserved() == old(vm.pmm.Reserved()) && vm.owner == owner
    {
      for j := 0 to count
        invariant vm.Valid() && vm.pmm.Reserved() == old(vm.pmm.Reserved()) && vm.owner == AddHeld(owner, fs[j..])
        invariant forall j: nat :: j < count ==> taken[j] / PAGE_SIZE == fs[j]
      {
        assert fs[j..][0] == fs[j] && fs[j..][1..] == fs[j + 1..];
        assert fs[j] !in fs[j + 1..];
        RemoveHeld(owner, fs[j..]);
        vm.GiveBack(taken[j]);
      }
      AddHeldNone(owner);
    }

    /** Maps one more page of the window; the table is in place since start-up, so this cannot fail. */
    method CommitPage(va: uint32, frame: uint32)
      requires this !in vm.pmm.Repr && vm.Valid() && HeapPages(vm.State(), frames) && |frames| < HEAP_PAGES
      requires va == HEAP_START + |frames| * PAGE_SIZE && Has(vm.State(), frame / PAGE_SIZE, Held)
      modifies this`frames, vm`ram, vm`owner, vm.pmm.Repr
      ensures vm.Valid() && vm.pmm.Reserved() == old(vm.pmm.Reserved()) && HeapPages(vm.State(), frames)
      ensures frames == old(frames) + [frame / PAGE_SIZE]
      ensures vm.owner == old(vm.owner)[frame / PAGE_SIZE := HeapPage(|old(frames)|)]
      ensures WindowStep(old(vm.State()), vm.State())
    {
      hide AddressSpaces.Valid, FrameAllocator.Reserved, Inv, Booted, HeapPages, WindowStep, KernelMapped;
      ValidMeans(vm);
      Footprint(vm);
      ghost var before := vm.State();
      ghost var k, f := |frames|, frame / PAGE_SIZE;
      WindowAddresses(va, k);
      var ok;
      ghost var m;
      ok, m := vm.MapPage(va, frame, PAGE_PRESENT + PAGE_WRITABLE);
      if !ok {
        // The rollback of `commit_pages` is never reached: no table of the window can be missing.
        assert false;
      }
      PageMapped(before, vm.State(), m, vm.temporaryTable / PAGE_SIZE, frames, frame);
      vm.GiveToHeap(f, k);
      frames := frames + [f];
    }

    method CommitNext(va: uint32, frame: uint32, ghost fs: seq<nat>, ghost i: nat, ghost base: View)
      requires this !in vm.pmm.Repr && vm.Valid() && HeapPages(vm.State(), frames) && |frames| < HEAP_PAGES
      requires va == HEAP_START + |frames| * PAGE_SIZE && i < |fs| && frame / PAGE_SIZE == fs[i]
      requires Distinct(fs) && fs[i] !in base.owner && Growing(base, vm.State(), fs, i)
      modifies this`frames, vm`ram, vm`owner, vm.pmm.Repr
      ensures vm.Valid() && vm.pmm.Reserved() == old(vm.pmm.Reserved()) && HeapPages(vm.State(), frames)
      ensures old(frames) <= frames && |frames| == |old(frames)| + 1 && Growing(base, vm.State(), fs, i + 1)
    {
      ghost var mid := vm.State();
      CommitPage(va, frame);
      GrowStep(base, mid, vm.State(), fs, i, |old(frames)|);
    }

    /** The mapping loop of `commit_pages`. */
    method MapFrames(taken: array<uint32>, pages: nat, ghost fs: seq<nat>, ghost base: View)
      requires this !in vm.pmm.Repr && vm.Valid() && HeapPages(vm.State(), frames) && |frames| + pages <= HEAP_PAGES
      requires |fs| == pages <= taken.Length && Distinct(fs) && committed == |frames| * PAGE_SIZE
      requires forall j: nat :: j < pages ==> taken[j] / PAGE_SIZE == fs[j]
      requires vm.owner == AddHeld(base.owner, fs) && vm.ram == base.ram && vm.spaces == base.spaces
      requires vm.State().kernel == base.kernel && WellTyped(base)
      requires forall f :: f in fs ==> f !in base.owner
      requires taken !in vm.pmm.Repr && vm != taken as object
      modifies this`frames, vm`ram, vm`owner, vm.pmm.Repr
      ensures vm.Valid() && vm.pmm.Reserved() == old(vm.pmm.Reserved()) && HeapPages(vm.State(), frames)
      ensures old(frames) <= frames && |frames| == |old(frames)| + pages && Grown(base, vm.State())
      ensures vm.owner.Keys == base.owner.Keys + FrameSet(fs)
    {
      hide AddressSpaces.Valid, FrameAllocator.Valid, FrameAllocator.Reserved, Growing, HeapPages, Grown, AddHeld;
      ValidIsTyped(vm);
      GrowStart(base, vm.State(), fs);
      for i := 0 to pages
        invariant vm.Valid() && vm.pmm.Reserved() == old(vm.pmm.Reserved())
        invariant WellTyped(vm.State()) && HeapPages(vm.State(), frames)
        invariant old(frames) <= frames && |frames| == |old(frames)| + i && committed == |old(frames)| * PAGE_SIZE
        invariant forall j: nat :: j < pages ==> taken[j] / PAGE_SIZE == fs[j]
        invariant Growing(base, vm.State(), fs, i)
      {
        CommitNext(HEAP_START + committed + i * PAGE_SIZE, taken[i], fs, i, base);
        ValidIsTyped(vm);
      }
      ValidIsTyped(vm);
      GrowEnd(base, vm.State(), fs);
    }

    /** The two loops of `commit_pages`. */
    method ObtainPages(pages: nat) returns (ok: bool)
      requires this !in vm.pmm.Repr && vm.Valid() && HeapPages(vm.State(), frames) && |frames| + pages <= HEAP_PAGES
      requires committed == |frames| * PAGE_SIZE
      modifies this`frames, vm`ram, vm`owner, vm.pmm.Repr
      ensures vm.Valid() && vm.pmm.Reserved() == old(vm.pmm.Reserved()) && HeapPages(vm.State(), frames)
      ensures ok <==> pages <= old(vm.pmm.freeFrames)
      ensures !ok ==> frames == old(frames) && vm.State() == old(vm.State())
      ensures ok ==> old(frames) <= frames && |frames| == |old(frames)| + pages && Grown(old(vm.State()), vm.State())
                     && LeastGained(old(vm.owner), vm.owner, vm.pmm.Free())
    {
      hide FrameAllocator.Reserved, Growing, Inv, Booted, WindowStep;
      ValidIsTyped(vm);
      ghost var base := vm.State();
      var taken := new uint32[HEAP_PAGES](i => 0);
      ghost var fs;
      ok, fs := TakeFrames(taken, pages);
      ValidIsTyped(vm);
      FreeIsTheRest(vm);
      ghost var free := vm.pmm.Free();
      if ok {
        HeapPagesTaken(base, vm.State(), frames, fs);
        MapFrames(taken, pages, fs, base);
        FreeIsTheRest(vm);
        assert vm.pmm.Free() == free;
      }
    }

    /** `commit_pages` is atomic: it raises the committed size to the page-rounded end, on as many new frames as
        new pages, or it changes nothing. */
    method CommitPages(requiredEnd: uint32) returns (ok: bool)
      requires Valid()
      modifies this`committed, this`frames, vm`ram, vm`owner, vm.pmm.Repr
      ensures Valid() && vm.pmm.Reserved() == old(vm.pmm.Reserved())
      ensures ok <==> CanCommit(PageAlignUp(requiredEnd), old(committed), old(vm.pmm.freeFrames))
      ensures !ok ==> committed == old(committed) && frames == old(frames) && vm.State() == old(vm.State())
      ensures ok ==> committed == Larger(PageAlignUp(requiredEnd), old(committed)) && old(frames) <= frames
                     && Grown(old(vm.State()), vm.State()) && LeastGained(old(vm.owner), vm.owner, vm.pmm.Free())
    {
      ok := CommitTo(PageAlignUp(requiredEnd));
    }

    method CommitTo(requiredCommitted: nat) returns (ok: bool)
      requires Valid() && requiredCommitted % PAGE_SIZE == 0
      modifies this`committed, this`frames, vm`ram, vm`owner, vm.pmm.Repr
      ensures Valid() && vm.pmm.Reserved() == old(vm.pmm.Reserved())
      ensures ok <==> CanCommit(requiredCommitted, old(committed), old(vm.pmm.freeFrames))
      ensures !ok ==> committed == old(committed) && frames == old(frames) && vm.State() == old(vm.State())
      ensures ok ==> committed == Larger(requiredCommitted, old(committed)) && old(frames) <= frames
                     && Grown(old(vm.State()), vm.State()) && LeastGained(old(vm.owner), vm.owner, vm.pmm.Free())
    {
      hide FrameAllocator.Counted, KernelOk, KernelPde;
      if requiredCommitted > HEAP_SIZE {
        return false;
      }
      if requiredCommitted <= committed {
        NothingGrown(vm.State());
        return true;
      }
      var additional := requiredCommitted - committed;
      var pages := additional / PAGE_SIZE;
      PageCount(committed, requiredCommitted, |frames|, pages);
      ok := ObtainPages(pages);
      if ok {
        committed := requiredCommitted;
      }
    }

    /** The payload address and size of every allocation. */
    ghost function Allocations(): map<nat, nat>
      reads this
    {
      Live(blocks, HEAP_START)
    }

    ghost predicate CanAllocate(request: uint32)
      reads this, vm, vm.pmm
    {
      CanServe(State(), request, vm.pmm.freeFrames)
    }

    /** The allocation at the pointer holds the request and lies inside the committed pages. */
    ghost predicate Usable(pointer: nat, request: uint32)
      reads this
    {
      pointer in Allocations() && request <= Allocations()[pointer]
        && pointer + Allocations()[pointer] <= HEAP_START + committed
    }

    /** `kmalloc`: first fit, split, or append behind the last block after committing pages for it. A failing call
        changes nothing at all; a result is usable if and only if none of the 32-bit additions wraps. */
    method Kmalloc(request: uint32) returns (pointer: nat)
      requires Valid()
      modifies this, vm`ram, vm`owner, vm.pmm.Repr
      ensures Valid() <==> pointer == 0 || !old(Overruns(blocks, request))
      ensures pointer != 0 ==> (Usable(pointer, request) <==> !old(Wraps(blocks, request)))
      ensures vm.Valid() && vm.pmm.Reserved() == old(vm.pmm.Reserved())
      ensures var size, k := AlignUp(request), FindFirst(old(blocks), AlignUp(request));
              && (pointer != 0 <==> old(CanAllocate(request)))
              && (pointer != 0 ==>
                    pointer == At(old(blocks), k) + HEADER
                    && blocks == if k < |old(blocks)| then Reuse(old(blocks), k, size) else Append(old(blocks), size))
              && (pointer == 0 || k < |old(blocks)| ==>
                    committed == old(committed) && frames == old(frames) && vm.State() == old(vm.State()))
              && (pointer != 0 && k == |old(blocks)| ==>
                    committed == Larger(PageAlignUp(RequiredEnd(old(blocks), size)), old(committed)))
      ensures pointer == 0 ==> State() == old(State())
      ensures request == 0 ==> pointer == 0
      ensures pointer != 0 ==>
                pointer !in old(Allocations()) && pointer in Allocations()
                && Allocations() == old(Allocations())[pointer := Allocations()[pointer]]
      ensures Grown(old(vm.State()), vm.State())
    {
      hide AddressSpaces.Valid, FrameAllocator.Valid, FrameAllocator.Reserved, Linked, Canonical, Live, HeapPages;
      hide Grown;
      hide FindFirst, Reuse, Append, Extent, RequiredEnd, PageAlignUp, AlignUp, KernelHeap.Usable, Aligned, WholeWords;
      ValidIsTyped(vm);
      NothingGrown(vm.State());
      if request == 0 {
        return 0;
      }
      AlignedCovers(request);
      var size := AlignUp(request);
      ghost var k, bs := FindFirst(blocks, size), blocks;
      var block := FindFreeBlock(size);
      if block != 0 {
        TakeBlock(block, size, k);
        UsableFromList(bs, k, request);
        return block + HEADER;
      }
      pointer := AppendBlock(size);
      if pointer != 0 {
        UsableAtEnd(bs, request, pointer);
      }
    }

    /** A block of the list is usable unless the request is so large that its alignment wraps to 0. */
    lemma UsableFromList(bs: seq<Block>, k: nat, request: uint32)
      requires ListOk() && request != 0 && k == FindFirst(bs, AlignUp(request)) < |bs|
      requires blocks == Reuse(bs, k, AlignUp(request)) && At(bs, k) + HEADER in Allocations()
      requires Allocations()[At(bs, k) + HEADER] >= AlignUp(request)
      ensures Usable(At(bs, k) + HEADER, request) <==> !Wraps(bs, request)
    {
      hide Linked, Canonical, Live, At, Reuse, FindFirst, UsedSum, Pointer, AlignUp, Extent;
      LiveInside(blocks, HEAP_START, At(bs, k) + HEADER);
      AlignedCovers(request);
    }

    /** A block behind the last one is usable unless its size or its end wraps. */
    lemma UsableAtEnd(bs: seq<Block>, request: uint32, pointer: nat)
      requires request != 0 && FindFirst(bs, AlignUp(request)) == |bs| && Extent(bs) <= committed <= HEAP_SIZE
      requires pointer == At(bs, |bs|) + HEADER && pointer in Allocations()
               && Allocations()[pointer] == AlignUp(request)
      requires Extent(bs) + HEADER + AlignUp(request) + PAGE_SIZE - 1 < TWO_32 ==>
                 Extent(bs) + HEADER + AlignUp(request) <= committed
      ensures Usable(pointer, request) <==> !Wraps(bs, request)
    {
      EndAddress(bs);
      AlignedCovers(request);
    }

    /** kmalloc served from the list. */
    method TakeBlock(block: nat, size: nat, ghost k: nat)
      requires ListOk() && k < |blocks| && block == At(blocks, k) && Fits(blocks[k], size)
               && WholeWords(size)
      modifies this`headers, this`blocks, this`used
      ensures ListOk() && blocks == Reuse(old(blocks), k, size)
      ensures block + HEADER !in old(Allocations()) && block + HEADER in Allocations()
              && Allocations()[block + HEADER] >= size
      ensures Allocations() == old(Allocations())[block + HEADER := Allocations()[block + HEADER]]
    {
      hide Canonical, Aligned, WholeWords, Live;
      ghost var bs, cs := blocks, Reuse(blocks, k, size);
      ReuseAllocates(bs, k, size);
      ReuseAligned(bs, k, size);
      SplitBlock(block, size, k);
      assert At(cs, k) == At(bs, k) && At(cs, 0) == At(bs, 0);
      MarkUsed(block, k, cs);
    }

    /** The last stores of kmalloc from the list. */
    method MarkUsed(block: nat, ghost k: nat, ghost cs: seq<Block>)
      requires Linked(headers, blocks) && k < |blocks| && cs == SetFree(blocks, k, false) && block == At(cs, k)
      modifies this`headers, this`blocks, this`used
      ensures blocks == cs && Linked(headers, cs) && used == old(used) + cs[k].size
    {
      SetFreeLinked(headers, blocks, k, false);
      SetFreeAt(blocks, k, false, k);
      headers := headers[block := headers[block].(free := false)];
      blocks := SetFree(blocks, k, false);
      used := used + headers[block].size;
    }

    /** kmalloc behind the last block. */
    method AppendBlock(size: nat) returns (pointer: nat)
      requires Valid() && size < TWO_32 && WholeWords(size)
      modifies this, vm`ram, vm`owner, vm.pmm.Repr
      ensures vm.Valid() && vm.pmm.Reserved() == old(vm.pmm.Reserved()) && committed <= HEAP_SIZE
      ensures Valid() <==> pointer == 0 || Extent(old(blocks)) + HEADER + size + PAGE_SIZE - 1 < TWO_32
      ensures Extent(old(blocks)) <= committed
      ensures pointer != 0 ==> committed == Larger(PageAlignUp(RequiredEnd(old(blocks), size)), old(committed))
      ensures pointer != 0 && Extent(old(blocks)) + HEADER + size + PAGE_SIZE - 1 < TWO_32 ==>
                Extent(old(blocks)) + HEADER + size <= committed
      ensures pointer != 0 <==>
                CanCommit(PageAlignUp(RequiredEnd(old(blocks), size)), old(committed), old(vm.pmm.freeFrames))
      ensures pointer == 0 ==>
                blocks == old(blocks) && headers == old(headers) && used == old(used) && first == old(first)
                && committed == old(committed) && frames == old(frames) && vm.State() == old(vm.State())
      ensures pointer != 0 ==> pointer == At(old(blocks), |old(blocks)|) + HEADER && blocks == Append(old(blocks), size)
      ensures pointer != 0 ==> pointer !in old(Allocations()) && Allocations() == old(Allocations())[pointer := size]
      ensures Grown(old(vm.State()), vm.State())
    {
      hide AddressSpaces.Valid, FrameAllocator.Valid, FrameAllocator.Reserved, Linked, Canonical, Live, HeapPages;
      hide Grown, KernelPde, Inv, AllFrames, CanCommit, PageAlignUp, LeastGained, U32, WellTyped, Aligned, WholeWords;
      ValidIsTyped(vm);
      NothingGrown(vm.State());
      var last, blockAddress := EndOfList();
      var requiredEnd := (blockAddress - HEAP_START + HEADER + size) % TWO_32;
      assert requiredEnd == RequiredEnd(blocks, size);
      RequiredFits(blocks, size);
      var ok := CommitPages(requiredEnd);
      if !ok {
        return 0;
      }
      LinkBlock(blockAddress, last, size);
      pointer := blockAddress + HEADER;
    }

    /** The last block, and where the next one goes. */
    method EndOfList() returns (last: nat, blockAddress: nat)
      requires ListOk()
      ensures last == (if blocks == [] then 0 else At(blocks, |blocks| - 1)) && blockAddress == At(blocks, |blocks|)
      ensures blockAddress == HEAP_START + Extent(blocks)
    {
      hide AddressSpaces.Valid, Canonical, Live, HeapPages;
      if blocks != [] {
        LastHeader(headers, blocks);
      }
      last := GetLastBlock();
      blockAddress := if last == 0 then HEAP_START else last + HEADER + headers[last].size;
      EndAddress(blocks);
    }

    /** The stores of kmalloc that append the new block. */
    method LinkBlock(blockAddress: nat, last: nat, size: nat)
      requires ListOk() && size < TWO_32 && WholeWords(size)
      requires blockAddress == At(blocks, |blocks|) && last == if blocks == [] then 0 else At(blocks, |blocks| - 1)
      modifies this`headers, this`blocks, this`used, this`first
      ensures ListOk() <==> Extent(old(blocks)) + HEADER + size <= committed
      ensures blocks == Append(old(blocks), size)
      ensures blockAddress + HEADER !in old(Allocations())
      ensures Allocations() == old(Allocations())[blockAddress + HEADER := size]
    {
      hide Pointer;
      AppendLive(blocks, size);
      AppendedList(State(), size);
      hide Linked, Live, Canonical, UsedSum, At, Extent, Append, WellLinked, Sum32;
      headers := headers[blockAddress := Header(size, false, 0)];
      if last == 0 {
        first := blockAddress;
      } else {
        headers := headers[last := headers[last].(next := blockAddress)];
      }
      blocks := Append(blocks, size);
      used := Sum32(used, size);
    }

    /** `kfree` of a block of the list: null and a free block are left alone. */
    method Kfree(pointer: nat, ghost k: nat)
      requires Valid() && (pointer != 0 ==> k < |blocks| && pointer == At(blocks, k) + HEADER)
      modifies this`headers, this`blocks, this`used
      ensures Valid()
      ensures blocks == if pointer != 0 && !old(blocks)[k].free then Release(old(blocks), k) else old(blocks)
      ensures Allocations() == old(Allocations()) - {pointer}
    {
      hide AddressSpaces.Valid, Canonical, Live, HeapPages, Pointer;
      ValidIsTyped(vm);
      if pointer == 0 {
        LiveAbove(blocks, HEAP_START);
        return;
      }
      var block := pointer - HEADER;
      if headers[block].free {
        FreeNotLive(blocks, k);
        return;
      }
      ReleaseBlock(block, k);
    }

    /** kmalloc and kfree of its result: no allocation is left and none is lost; from the list, the blocks are the
        same. */
    method MallocThenFree(request: uint32)
      requires Valid() && !Overruns(blocks, request)
      modifies this, vm`ram, vm`owner, vm.pmm.Repr
      ensures Valid() && Allocations() == old(Allocations()) && used == old(used)
      ensures blocks == if FindFirst(old(blocks), AlignUp(request)) < |old(blocks)| || !old(CanAllocate(request))
                        then old(blocks) else TailFree(old(blocks), AlignUp(request))
    {
      ghost var bs, size := blocks, AlignUp(request);
      ghost var k := FindFirst(bs, size);
      CanonicalList(State());
      hide AddressSpaces.Valid, FrameAllocator.Valid, FrameAllocator.Reserved, Linked, Canonical, Live, HeapPages;
      hide Grown;
      hide UsedSum, At, Release, Reuse, WellLinked;
      var pointer := Kmalloc(request);
      if pointer == 0 {
        return;
      }
      if k < |bs| {
        ReuseAllocates(bs, k, size);
        ReleaseUndoesReuse(bs, k, size);
      } else {
        ReleaseUndoesAppend(bs, size);
        SameEnd(bs, Block(size, false));
      }
      Kfree(pointer, k);
      CanonicalList(State());
    }

    method ReleaseBlock(block: nat, ghost k: nat)
      requires ListOk() && k < |blocks| && block == At(blocks, k) && !blocks[k].free
      modifies this`headers, this`blocks, this`used
      ensures ListOk() && blocks == Release(old(blocks), k)
      ensures Allocations() == old(Allocations()) - {block + HEADER}
    {
      hide Live, At, Canonical, Aligned, WholeWords, Sum32;
      ReleaseAligned(blocks, k);
      ReleaseFrees(blocks, k);
      UsedAround(blocks, k);
      SetFreeLinked(headers, blocks, k, true);
      SetFreeAt(blocks, k, true, 0);
      headers := headers[block := headers[block].(free := true)];
      blocks := SetFree(blocks, k, true);
      used := if used >= headers[block].size then used - headers[block].size else 0;
      CoalesceFreeBlocks();
    }
  }

  /** What the heap's state depends on besides its own fields. */
  lemma HeapFootprint(heap: KernelHeap)
    requires heap.Valid()
    ensures heap.vm.Valid() && WellTyped(heap.vm.State())
    ensures {heap.vm.pmm, heap.vm.pmm.frameBitmap, heap.vm.pmm.reservedBitmap} <= heap.vm.pmm.Repr
    ensures {heap.vm.pmm.frameBitmap.bytes, heap.vm.pmm.reservedBitmap.bytes} <= heap.vm.pmm.Repr
  {
  }

  lemma LastHeader(headers: map<nat, Header>, bs: seq<Block>)
    requires Linked(headers, bs) && bs != []
    ensures At(bs, |bs| - 1) in headers && headers[At(bs, |bs| - 1)].size == bs[|bs| - 1].size
  {
  }

  lemma AlignedCovers(request: uint32)
    ensures if request + HEAP_ALIGNMENT - 1 < TWO_32 then request <= AlignUp(request) < request + HEAP_ALIGNMENT
            else AlignUp(request) == 0
    ensures AlignUp(request) < TWO_32 && WholeWords(AlignUp(request))
  {
  }

  /** Everything that kmalloc has given out lies at a multiple of 4, after every sequence of calls. */
  lemma PointersAligned(heap: KernelHeap, p: nat)
    requires heap.Valid() && p in heap.Allocations()
    ensures p % 4 == 0 && heap.Allocations()[p] % 4 == 0
  {
    LiveAligned(heap.blocks, HEAP_START, p);
  }

  /** The size of a block is the least multiple of 8 that holds the request, unless the addition wraps. */
  lemma AlignUpLeast(request: uint32, size: nat)
    requires request + HEAP_ALIGNMENT - 1 < TWO_32
    ensures AlignUp(request) % 8 == 0 && request <= AlignUp(request)
    ensures size % 8 == 0 && request <= size ==> AlignUp(request) <= size
  {
    AlignedCovers(request);
  }

  /** The heap grows to the end of the new block, rounded up to the least multiple of 4096, unless an addition wraps. */
  lemma GrowsToEnd(bs: seq<Block>, size: nat, end: nat)
    requires Extent(Append(bs, size)) + PAGE_SIZE - 1 < TWO_32
    ensures var required := PageAlignUp(RequiredEnd(bs, size));
            && required % 4096 == 0 && Extent(Append(bs, size)) <= required
            && (end % 4096 == 0 && Extent(Append(bs, size)) <= end ==> required <= end)
  {
    var last := [Block(size, false)];
    assert last[1..] == [];
    ExtentConcat(bs, last);
    hide Append;
    LeastPages(Extent(bs) + HEADER + size, end);
  }

  lemma LeastPages(value: nat, end: nat)
    requires value + PAGE_SIZE - 1 < TWO_32
    ensures value % TWO_32 == value <= PageAlignUp(value)
    ensures end % 4096 == 0 && value <= end ==> PageAlignUp(value) <= end
  {
  }

  /** Without wrap-around the page-rounded end covers the new block. */
  lemma RequiredFits(bs: seq<Block>, size: nat)
    ensures Extent(bs) + HEADER + size + PAGE_SIZE - 1 < TWO_32 ==>
              RequiredEnd(bs, size) == Extent(bs) + HEADER + size <= PageAlignUp(RequiredEnd(bs, size))
  {
  }

  /** A block of the list fits the request, or the window can grow for a new one. */
  ghost predicate CanServe(h: HeapState, request: uint32, freeFrames: int) {
    request != 0
    && (FindFirst(h.blocks, AlignUp(request)) < |h.blocks|
        || CanCommit(PageAlignUp(RequiredEnd(h.blocks, AlignUp(request))), h.committed, freeFrames))
  }

  /** The heap may grow to the required size, and there is a frame for every new page. */
  predicate CanCommit(required: nat, committed: nat, freeFrames: int) {
    required <= HEAP_SIZE && (required <= committed || required - committed <= freeFrames * PAGE_SIZE)
  }

  /** The window holds 1024 pages, one frame each, and no more. */
  lemma WholeWindow(committed: nat, freeFrames: nat)
    requires committed <= 0x40_0000 && committed % PAGE_SIZE == 0
    ensures CanCommit(0x40_0000, committed, freeFrames) <==> freeFrames >= 1024 - committed / PAGE_SIZE
    ensures !CanCommit(0x40_0001, committed, freeFrames) && CanCommit(committed, committed, freeFrames)
  {
  }

  function Larger(a: nat, b: nat): nat {
    if a > b then a else b
  }

  lemma PageCount(committed: nat, required: nat, n: nat, pages: nat)
    requires committed == n * PAGE_SIZE && required % PAGE_SIZE == 0 && committed < required <= HEAP_SIZE
    requires pages == (required - committed) / PAGE_SIZE
    ensures required - committed == pages * PAGE_SIZE && n + pages <= HEAP_PAGES
  {
  }

  lemma GrownTrans(u: View, v: View, w: View)
    requires Grown(u, v) && Grown(v, w)
    ensures Grown(u, w)
  {
    WindowStepTrans(u, v, w);
    hide WindowStep;
  }

  lemma NothingGrown(v: View)
    requires WellTyped(v)
    ensures Grown(v, v)
  {
  }

  lemma HeapLeaf(frame: uint32)
    ensures LeafOf(WithPresent(MakeEntry(frame, PAGE_PRESENT + PAGE_WRITABLE))) ==
              Some(Leaf(frame / PAGE_SIZE, HEAP_FLAGS))
  {
  }

  lemma WindowAddresses(va: uint32, k: nat)
    requires k < HEAP_PAGES && va == HEAP_START + k * PAGE_SIZE
    ensures va / PAGE_SIZE == HEAP_PAGE + k && DirectoryIndex(va) == HEAP_PAGE / ENTRIES
  {
  }

  /** What mapping the next page of the window and recording its owner achieve together. */
  lemma PageMapped(before: View, mid: View, m: KernelMap, temporary: nat, frames: seq<nat>, frame: uint32)
    requires Inv(before) && Booted(before, temporary) && KernelMapped(before, mid, m)
    requires HeapPages(before, frames) && |frames| < HEAP_PAGES && m.page == HEAP_PAGE + |frames|
    requires m.pte == WithPresent(MakeEntry(frame, PAGE_PRESENT + PAGE_WRITABLE))
    requires Has(before, frame / PAGE_SIZE, Held)
    ensures mid.owner == before.owner
    ensures var after := mid.(owner := mid.owner[frame / PAGE_SIZE := HeapPage(|frames|)]);
            WellTyped(after) && HeapPages(after, frames + [frame / PAGE_SIZE]) && WindowStep(before, after)
  {
    assert Present(KernelPde(before, m.page / ENTRIES));
    MapInWindow(before, mid, m);
    HeapLeaf(frame);
    HeapPageAdded(before, mid, mid.(owner := mid.owner[frame / PAGE_SIZE := HeapPage(|frames|)]), frames,
                  frame / PAGE_SIZE);
  }

  lemma IdentityShrinks(v: View, w: View, n: nat)
    requires WellTyped(v) && WellTyped(w) && IdentityOutside(v, n)
    requires forall page: nat :: page < ALL_PAGES && page != HEAP_PAGE + n ==>
               Walk(w.ram, w.kernel, page) == Walk(v.ram, v.kernel, page)
    ensures IdentityOutside(w, n + 1)
  {
  }

  lemma HeapPageAdded(before: View, mid: View, after: View, frames: seq<nat>, f: nat)
    requires WindowStep(before, mid) && HeapPages(before, frames) && |frames| < HEAP_PAGES
    requires Has(before, f, Held) && mid.owner == before.owner
    requires after == mid.(owner := mid.owner[f := HeapPage(|frames|)]) && WellTyped(after)
    requires forall page: nat :: page < ALL_PAGES && page != HEAP_PAGE + |frames| ==>
               Walk(mid.ram, mid.kernel, page) == Walk(before.ram, before.kernel, page)
    requires Walk(mid.ram, mid.kernel, HEAP_PAGE + |frames|) == Some(Leaf(f, HEAP_FLAGS))
    ensures HeapPages(after, frames + [f]) && WindowStep(before, after)
  {
    hide Entry, LeafOf, FromBytes;
    IdentityShrinks(before, after, |frames|);
    hide IdentityOutside, Walk;
    var gs := frames + [f];
    forall k: nat | k < |gs|
      ensures Has(after, gs[k], HeapPage(k))
              && Walk(after.ram, after.kernel, HEAP_PAGE + k) == Some(Leaf(gs[k], HEAP_FLAGS))
    {
      if k < |frames| {
        assert Has(before, frames[k], HeapPage(k));
      }
    }
  }

  lemma HeapPagesTaken(v: View, w: View, frames: seq<nat>, fs: seq<nat>)
    requires WellTyped(v) && WellTyped(w) && HeapPages(v, frames)
    requires w.ram == v.ram && w.kernel == v.kernel && w.owner == AddHeld(v.owner, fs)
    requires forall f :: f in fs ==> f !in v.owner
    ensures HeapPages(w, frames)
  {
    assert forall f: nat :: f in w.owner && w.owner[f].HeapPage? ==> f in v.owner && v.owner[f] == w.owner[f];
  }

  /** A request that wraps, on a heap without blocks: kmalloc hands out a block that runs far past the heap, and
      commits no page for it. */
  method WrappingRequest(heap: KernelHeap) returns (pointer: nat)
    requires heap.Valid() && heap.blocks == []
    modifies heap, heap.vm`ram, heap.vm`owner, heap.vm.pmm.Repr
    ensures pointer == HEAP_START + HEADER && heap.blocks == [Block(0xFFFF_FFF0, false)]
    ensures heap.committed == old(heap.committed) && !heap.Usable(pointer, 0xFFFF_FFF0) && !heap.Valid()
  {
    hide AddressSpaces.Valid, KernelHeap.Valid, KernelHeap.Usable, Grown, Live;
    assert AlignUp(0xFFFF_FFF0) == 0xFFFF_FFF0;
    assert RequiredEnd([], 0xFFFF_FFF0) == 0xFFFF_FFFC;
    assert PageAlignUp(0xFFFF_FFFC) == 0;
    CommitsNothing(heap);
    pointer := heap.Kmalloc(0xFFFF_FFF0);
  }

  lemma CommitsNothing(heap: KernelHeap)
    requires heap.Valid()
    ensures 0 <= heap.committed <= HEAP_SIZE && heap.vm.pmm.freeFrames >= 0
  {
    hide AddressSpaces.Valid;
    CountIsNatural(heap.vm);
  }
}
