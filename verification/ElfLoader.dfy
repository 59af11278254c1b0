/** Loading the segments of an ELF image page by page into one address space (src/kernel/elf.c). */
module ElfLoader {
  import opened Words
  import opened Pmm
  import opened PageTables
  import opened Ownership
  import opened PhysicalCopy
  import opened Paging
  import opened ElfImage
  import opened Budgets
  import opened SpaceSteps
  import opened PagePlacing

  function AlignUpPage(value: uint32): uint32 {
    if value > 0xFFFF_F000 then 0 else PageBase(value + PAGE_SIZE - 1)
  }

  /** The page is one of those that the memory part of the segment touches. */
  predicate Covers(s: Segment, page: nat) {
    page * PAGE_SIZE < s.vaddr + s.memsz && s.vaddr < (page + 1) * PAGE_SIZE
  }

  /** What a page of the segment allows: always ring 3, writable exactly if PF_W is set. */
  function FlagsOf(s: Segment): nat {
    PAGE_PRESENT + PAGE_USER + if Writable(s.flags) then PAGE_WRITABLE else 0
  }

  /** The byte that the program must find at address a of the segment. */
  function SegmentByte(image: seq<uint8>, s: Segment, a: nat): uint8
    requires SegmentOk(s, |image|)
  {
    if s.vaddr <= a < s.vaddr + s.filesz then image[s.offset + a - s.vaddr] else 0
  }

  /** The page is mapped on a frame of its own, with the segment's rights and the segment's bytes. */
  ghost predicate PageLoaded(v: View, sp: nat, page: nat, image: seq<uint8>, s: Segment)
    requires SegmentOk(s, |image|)
  {
    && WellTyped(v) && Used(v, sp) && page < ALL_PAGES
    && var leaf := Walk(v.ram, DirOf(v, sp), page);
    && leaf.Some? && leaf.value.flags == FlagsOf(s)
    && leaf.value.frame in v.owner && v.owner[leaf.value.frame] == UserPage(sp, page)
    && forall k: nat :: k < PAGE_SIZE ==> v.ram[leaf.value.frame][k] == SegmentByte(image, s, page * PAGE_SIZE + k)
  }

  /** Loading other pages keeps a loaded page. */
  lemma PageStaysLoaded(v: View, w: View, sp: nat, page: nat, other: nat, image: seq<uint8>, s: Segment)
    requires SegmentOk(s, |image|) && PageLoaded(v, sp, page, image, s) && page != other && Steady(page)
    requires WellTyped(w) && Used(w, sp) && OwnKept(v, w, sp, other)
    ensures PageLoaded(w, sp, page, image, s)
  {
    assert IsOtherPage(UserPage(sp, page), sp, other);
  }

  /** The bytes of a page that come from the file. */
  function CopyStart(s: Segment, va: nat): nat {
    if s.vaddr > va then s.vaddr else va
  }

  function CopyEnd(s: Segment, va: nat): nat {
    if s.vaddr + s.filesz < va + PAGE_SIZE then s.vaddr + s.filesz else va + PAGE_SIZE
  }

  /** Over a cleared frame the file part completes the page. */
  lemma FilePartCopied(before: Ram, after: Ram, window: nat, f: nat, va: nat, image: seq<uint8>, s: Segment,
                       data: seq<uint8>)
    requires SegmentOk(s, |image|) && f < ALL_FRAMES && f != window && CopyStart(s, va) < CopyEnd(s, va)
    requires forall k: nat :: k < PAGE_SIZE ==> before[f][k] == 0
    requires s.offset + (CopyEnd(s, va) - s.vaddr) <= |image|
    requires data == image[s.offset + (CopyStart(s, va) - s.vaddr)..s.offset + (CopyEnd(s, va) - s.vaddr)]
    requires Written(before, after, window, f * PAGE_SIZE + (CopyStart(s, va) - va), data)
    ensures forall k: nat :: k < PAGE_SIZE ==> after[f][k] == SegmentByte(image, s, va + k)
  {
    var from, to := CopyStart(s, va), CopyEnd(s, va);
    forall k: nat | k < PAGE_SIZE
      ensures after[f][k] == SegmentByte(image, s, va + k)
    {
      var a: uint32 := f * PAGE_SIZE + k;
      assert a / PAGE_SIZE == f && a % PAGE_SIZE == k;
      assert ByteAt(before, a) == 0;
      assert ByteAt(after, a) == if from - va <= k < to - va then data[k - (from - va)] else 0;
    }
  }

  /** A cleared page without a file part is complete. */
  lemma NoFilePart(ram: Ram, f: nat, va: nat, image: seq<uint8>, s: Segment)
    requires SegmentOk(s, |image|) && f < ALL_FRAMES && CopyStart(s, va) >= CopyEnd(s, va)
    requires forall k: nat :: k < PAGE_SIZE ==> ram[f][k] == 0
    ensures forall k: nat :: k < PAGE_SIZE ==> ram[f][k] == SegmentByte(image, s, va + k)
  {
  }

  /** The last action for one page: copy the file part. */
  lemma FileCopied(v0: View, v3: View, v4: View, window: nat, f: nat, pa: uint32, data: seq<uint8>, sp: nat, page: nat)
    requires Prepared(v0, v3, sp, page, f) && Inv(v3) && Booted(v3, window) && window < ALL_FRAMES && Steady(page)
    requires v4 == v3.(ram := v4.ram) && Written(v3.ram, v4.ram, window, pa, data) && InFrame(f, pa, |data|)
    ensures Prepared(v0, v4, sp, page, f)
    ensures Walk(v4.ram, DirOf(v4, sp), page) == Walk(v3.ram, DirOf(v3, sp), page)
    ensures WellTyped(v3) && Used(v3, sp) && Foreign(v4, sp) == Foreign(v3, sp)
  {
    PreparedMeans(v0, v3, sp, page, f);
    hide Inv, Booted, StepExcept, OwnKept, Written, Entry, Walk, MappedFrame;
    InvIsTyped(v3);
    CopyIsStep(v3, v4, window, f, pa, data, sp);
    StepTrans(v0, v3, v4, sp, f);
    CopyKeepsOwn(v3, v4, window, f, pa, data, sp, page);
    OwnKeptTrans(v0, v3, v4, sp, page);
    SameForeign(v3, v4, sp);
  }

  lemma SameForeign(v: View, w: View, sp: nat)
    requires WellTyped(v) && WellTyped(w) && Used(v, sp) && w.spaces == v.spaces
    requires forall d: nat :: d < ENTRIES ==> Pde(w, sp, d) == Pde(v, sp, d)
    ensures Foreign(w, sp) == Foreign(v, sp)
  {
    assert forall d: nat :: d < ENTRIES ==> Owns(w, sp, d) == Owns(v, sp, d);
  }

  /** Where the pages of a valid segment lie. */
  lemma PageInUserRange(s: Segment, imageSize: nat, page: nat)
    requires SegmentOk(s, imageSize) && Covers(s, page)
    ensures page < ALL_PAGES && Steady(page) && IsUserIndex(page / ENTRIES)
    ensures page * PAGE_SIZE < TWO_32 && DirectoryIndex(page * PAGE_SIZE) == page / ENTRIES
  {
  }

  lemma LeafFlags(pa: uint32, s: Segment)
    ensures var flags := PAGE_PRESENT + if Writable(s.flags) then PAGE_WRITABLE else 0;
            LeafOf(WithPresent(MakeEntry(pa, WithPresent(WithUser(flags))))) == Some(Leaf(pa / PAGE_SIZE, FlagsOf(s)))
  {
  }

  lemma WholePages(a: uint32)
    requires a % PAGE_SIZE == 0
    ensures a / PAGE_SIZE * PAGE_SIZE == a
  {
  }

  /** The range of the file part within the image and within the frame. */
  lemma CopyRange(s: Segment, imageSize: nat, va: uint32, frame: uint32)
    requires SegmentOk(s, imageSize) && va % PAGE_SIZE == 0 && frame % PAGE_SIZE == 0
    requires Covers(s, va / PAGE_SIZE) && CopyStart(s, va) < CopyEnd(s, va)
    ensures s.vaddr <= CopyStart(s, va) && va <= CopyStart(s, va) && CopyEnd(s, va) <= va + PAGE_SIZE
    ensures s.offset + (CopyEnd(s, va) - s.vaddr) <= imageSize
    ensures frame + PAGE_SIZE <= TWO_32
    ensures InFrame(frame / PAGE_SIZE, frame + (CopyStart(s, va) - va), CopyEnd(s, va) - CopyStart(s, va))
  {
  }

  /** The loop body of `elf_load` for one page. */
  method LoadPage(vm: AddressSpaces, sp: nat, va: uint32, s: Segment, image: seq<uint8>) returns (ok: bool)
    requires vm.Valid() && Used(vm.State(), sp) && |image| < TWO_32 && SegmentOk(s, |image|)
    requires va % PAGE_SIZE == 0 && Covers(s, va / PAGE_SIZE)
    modifies vm`ram, vm`spaces, vm`owner, vm.pmm.Repr
    ensures vm.Valid() && vm.pmm.Reserved() == old(vm.pmm.Reserved())
    ensures SpaceStep(old(vm.State()), vm.State(), sp) && OwnKept(old(vm.State()), vm.State(), sp, va / PAGE_SIZE)
    ensures MappedFrame(old(vm.State()), sp, va / PAGE_SIZE).None? ==> NoLeak(old(vm.State()), vm.State(), ALL_FRAMES)
    ensures ok ==> PageLoaded(vm.State(), sp, va / PAGE_SIZE, image, s)
    ensures Used(vm.State(), sp)
    ensures ok ==> Paid(old(vm.State()), old(vm.pmm.Free()), vm.State(), vm.pmm.Free(), sp, va / PAGE_SIZE)
    ensures !ok ==> Unaffordable(old(vm.State()), old(vm.pmm.Free()), sp, va / PAGE_SIZE)
  {
    hide AddressSpaces.Valid, FrameAllocator.Free, FrameAllocator.Reserved, Walk, MappedFrame, PageLoaded, Inv;
    hide Foreign, PayPage;
    ghost var v0 := vm.State();
    PageInUserRange(s, |image|, va / PAGE_SIZE);
    var pageFlags := PAGE_PRESENT + if Writable(s.flags) then PAGE_WRITABLE else 0;
    var frame;
    ok, frame := PlaceClearedPage(vm, sp, va, pageFlags);
    if ok {
      LeafFlags(frame, s);
      CopyFilePart(vm, sp, va, frame, s, image, v0);
      DropException(v0, vm.State(), sp, frame / PAGE_SIZE);
    }
  }

  /** The last part of the loop body: the bytes of the file that belong on the page. */
  method CopyFilePart(vm: AddressSpaces, ghost sp: nat, va: uint32, frame: uint32, s: Segment, image: seq<uint8>,
                      ghost v0: View)
    requires vm.Valid() && |image| < TWO_32 && SegmentOk(s, |image|) && Used(vm.State(), sp)
    requires va % PAGE_SIZE == 0 && frame % PAGE_SIZE == 0 && Covers(s, va / PAGE_SIZE)
    requires Prepared(v0, vm.State(), sp, va / PAGE_SIZE, frame / PAGE_SIZE)
    requires Walk(vm.ram, DirOf(vm.State(), sp), va / PAGE_SIZE) == Some(Leaf(frame / PAGE_SIZE, FlagsOf(s)))
    requires forall k: nat :: k < PAGE_SIZE ==> vm.ram[frame / PAGE_SIZE][k] == 0
    modifies vm`ram
    ensures vm.Valid() && Prepared(v0, vm.State(), sp, va / PAGE_SIZE, frame / PAGE_SIZE)
    ensures PageLoaded(vm.State(), sp, va / PAGE_SIZE, image, s)
    ensures Foreign(vm.State(), sp) == Foreign(old(vm.State()), sp)
  {
    hide AddressSpaces.Valid, FrameAllocator.Valid, Inv, Booted, Prepared, PageLoaded, SegmentByte, Walk, Covers;
    hide SegmentOk, Written, OnlyFirstEntry, Entry;
    ghost var v3, f, page := vm.State(), frame / PAGE_SIZE, va / PAGE_SIZE;
    ValidMeans(vm);
    PageInUserRange(s, |image|, page);
    PreparedMeans(v0, v3, sp, page, f);
    WindowOwner(v3, vm.Window());
    WholePages(va);
    WholePages(frame);
    var copyStart := CopyStart(s, va);
    var copyEnd := CopyEnd(s, va);
    if copyEnd > copyStart {
      CopyRange(s, |image|, va, frame);
      hide InFrame, CopyStart, CopyEnd;
      var source := image[s.offset + (copyStart - s.vaddr)..s.offset + (copyEnd - s.vaddr)];
      var destination := frame + (copyStart - va);
      InFrameIsData(vm.owner, f, destination, |source|);
      DataKeepsOff(vm, destination, |source|);
      var copied := vm.CopyToPhysical(destination, source);
      assert destination == f * PAGE_SIZE + (copyStart - va);
      FileCopied(v0, v3, vm.State(), vm.Window(), f, destination, source, sp, page);
      FilePartCopied(v3.ram, vm.ram, vm.Window(), f, va, image, s, source);
    } else {
      NoFilePart(v3.ram, f, va, image, s);
    }
    BytesOnPage(vm.State(), sp, va, f, image, s);
  }

  lemma BytesOnPage(v: View, sp: nat, va: uint32, f: nat, image: seq<uint8>, s: Segment)
    requires SegmentOk(s, |image|) && WellTyped(v) && Used(v, sp) && va % PAGE_SIZE == 0 && f < ALL_FRAMES
    requires Walk(v.ram, DirOf(v, sp), va / PAGE_SIZE) == Some(Leaf(f, FlagsOf(s)))
    requires f in v.owner && v.owner[f] == UserPage(sp, va / PAGE_SIZE)
    requires forall k: nat :: k < PAGE_SIZE ==> v.ram[f][k] == SegmentByte(image, s, va + k)
    ensures PageLoaded(v, sp, va / PAGE_SIZE, image, s)
  {
    WholePages(va);
  }

  /** The page ranges of two segments, as the loader compares them. */
  predicate Overlap(a: Segment, b: Segment, imageSize: nat)
    requires SegmentOk(a, imageSize) && SegmentOk(b, imageSize)
  {
    PageBase(a.vaddr) < AlignUpPage(b.vaddr + b.memsz) && PageBase(b.vaddr) < AlignUpPage(a.vaddr + a.memsz)
  }

  /** The comparison is exact: it finds the segments that have a page in common. */
  lemma OverlapMeans(a: Segment, b: Segment, imageSize: nat)
    requires SegmentOk(a, imageSize) && SegmentOk(b, imageSize)
    ensures Overlap(a, b, imageSize) <==> exists page: nat :: Covers(a, page) && Covers(b, page)
  {
    CoversRange(a, imageSize);
    CoversRange(b, imageSize);
    if Overlap(a, b, imageSize) {
      var page: nat := if a.vaddr / PAGE_SIZE > b.vaddr / PAGE_SIZE then a.vaddr / PAGE_SIZE else b.vaddr / PAGE_SIZE;
      assert Covers(a, page) && Covers(b, page);
    }
  }

  lemma CoversRange(s: Segment, imageSize: nat)
    requires SegmentOk(s, imageSize)
    ensures PageBase(s.vaddr) % PAGE_SIZE == 0 && AlignUpPage(s.vaddr + s.memsz) % PAGE_SIZE == 0
    ensures PageBase(s.vaddr) / PAGE_SIZE == s.vaddr / PAGE_SIZE && 0 < AlignUpPage(s.vaddr + s.memsz) <= USER_LAST + 1
    ensures forall page: nat ::
              Covers(s, page) <==> PageBase(s.vaddr) <= page * PAGE_SIZE < AlignUpPage(s.vaddr + s.memsz)
  {
  }

  /** Two segments to load have a page in common. */
  ghost predicate Overlapping(hs: seq<Segment>) {
    exists i: nat, j: nat, page: nat ::
      j < i && Loads(hs, i) && Loads(hs, j) && Covers(hs[i], page) && Covers(hs[j], page)
  }

  /** Page p belongs to segment j and comes before page `next` of segment i in the order of loading. */
  predicate Done(hs: seq<Segment>, i: nat, next: nat, j: nat, p: nat) {
    Loads(hs, j) && Covers(hs[j], p) && (j < i || (j == i && p < next))
  }

  /** The space has no page of its own where a segment goes. */
  ghost predicate Clean(v: View, sp: nat, hs: seq<Segment>)
    requires WellTyped(v)
  {
    forall j: nat, p: nat :: Loads(hs, j) && Covers(hs[j], p) && p < ALL_PAGES ==> MappedFrame(v, sp, p).None?
  }

  /** The page has the translation and the frame that it had at the start. */
  ghost predicate Untouched(v0: View, v: View, sp: nat, p: nat)
    requires WellTyped(v0) && Used(v0, sp) && WellTyped(v) && Used(v, sp) && p < ALL_PAGES
  {
    Walk(v.ram, DirOf(v, sp), p) == Walk(v0.ram, DirOf(v0, sp), p) && MappedFrame(v, sp, p) == MappedFrame(v0, sp, p)
  }

  /** The loader has done the pages before page `next` of segment i, and nothing else. */
  ghost predicate Progress(v0: View, v: View, sp: nat, image: seq<uint8>, hs: seq<Segment>, i: nat, next: nat)
    requires SegmentsOk(hs, |image|)
  {
    && SpaceStep(v0, v, sp) && Used(v, sp)
    && (Clean(v0, sp, hs) ==> NoLeak(v0, v, ALL_FRAMES))
    && (forall j: nat, p: nat :: Done(hs, i, next, j, p) ==> PageLoaded(v, sp, p, image, hs[j]))
    && (forall p: nat :: Steady(p) && !IsDone(hs, i, next, p) ==> Untouched(v0, v, sp, p))
  }

  ghost predicate IsDone(hs: seq<Segment>, i: nat, next: nat, p: nat) {
    exists j: nat :: Done(hs, i, next, j, p)
  }

  lemma ProgressStart(v: View, sp: nat, image: seq<uint8>, hs: seq<Segment>)
    requires WellTyped(v) && Used(v, sp) && SegmentsOk(hs, |image|)
    ensures Progress(v, v, sp, image, hs, 0, 0)
  {
    NothingDone(v, sp, 0);
  }

  /** Segment i is none to load, or all its pages are done. */
  lemma ProgressSegment(v0: View, v: View, sp: nat, image: seq<uint8>, hs: seq<Segment>, i: nat, next: nat)
    requires SegmentsOk(hs, |image|) && i < |hs| && Progress(v0, v, sp, image, hs, i, next)
    requires Loads(hs, i) ==> forall p: nat :: Covers(hs[i], p) ==> p < next
    ensures Progress(v0, v, sp, image, hs, i + 1, 0)
  {
    forall j: nat, p: nat
      ensures Done(hs, i + 1, 0, j, p) == Done(hs, i, next, j, p)
    {
    }
    forall p: nat | Steady(p)
      ensures IsDone(hs, i + 1, 0, p) == IsDone(hs, i, next, p)
    {
      SameDone(hs, i, next, i + 1, 0, p);
    }
  }

  lemma SameDone(hs: seq<Segment>, i: nat, next: nat, i': nat, next': nat, p: nat)
    requires forall j: nat :: Done(hs, i', next', j, p) == Done(hs, i, next, j, p)
    ensures IsDone(hs, i', next', p) == IsDone(hs, i, next, p)
  {
    if j: nat :| Done(hs, i, next, j, p) {
      assert Done(hs, i', next', j, p);
    }
    if j: nat :| Done(hs, i', next', j, p) {
      assert Done(hs, i, next, j, p);
    }
  }

  /** One more page, for the pages that are done ... */
  lemma StillLoaded(v: View, w: View, sp: nat, image: seq<uint8>, hs: seq<Segment>, i: nat, page: nat)
    requires SegmentsOk(hs, |image|) && WellTyped(v) && Used(v, sp) && WellTyped(w) && Used(w, sp)
    requires forall j: nat, p: nat :: Done(hs, i, page, j, p) ==> PageLoaded(v, sp, p, image, hs[j])
    requires forall j: nat :: j < i && Loads(hs, j) ==> !Covers(hs[j], page)
    requires OwnKept(v, w, sp, page) && Loads(hs, i) && PageLoaded(w, sp, page, image, hs[i])
    ensures forall j: nat, p: nat :: Done(hs, i, page + 1, j, p) ==> PageLoaded(w, sp, p, image, hs[j])
  {
    hide PageLoaded, OwnKept, Covers, SegmentOk;
    forall j: nat, p: nat | Done(hs, i, page + 1, j, p)
      ensures PageLoaded(w, sp, p, image, hs[j])
    {
      if p != page {
        assert Done(hs, i, page, j, p);
        PageInUserRange(hs[j], |image|, p);
        PageStaysLoaded(v, w, sp, p, page, image, hs[j]);
      }
    }
  }

  lemma DoneGrows(hs: seq<Segment>, i: nat, page: nat, p: nat)
    ensures IsDone(hs, i, page, p) ==> IsDone(hs, i, page + 1, p)
  {
    if j: nat :| Done(hs, i, page, j, p) {
      assert Done(hs, i, page + 1, j, p);
    }
  }

  /** ... and for the others. */
  lemma StillUntouched(v0: View, v: View, w: View, sp: nat, hs: seq<Segment>, i: nat, page: nat)
    requires WellTyped(v0) && Used(v0, sp) && WellTyped(v) && Used(v, sp) && WellTyped(w) && Used(w, sp)
    requires forall p: nat :: Steady(p) && !IsDone(hs, i, page, p) ==> Untouched(v0, v, sp, p)
    requires OwnKept(v, w, sp, page) && Loads(hs, i) && Covers(hs[i], page)
    ensures forall p: nat :: Steady(p) && !IsDone(hs, i, page + 1, p) ==> Untouched(v0, w, sp, p)
  {
    hide Walk, MappedFrame, Covers, Entry;
    forall p: nat | Steady(p) && !IsDone(hs, i, page + 1, p)
      ensures Untouched(v0, w, sp, p)
    {
      assert Done(hs, i, page + 1, i, page);
      DoneGrows(hs, i, page, p);
    }
  }

  /** One more page. */
  lemma ProgressPage(v0: View, v: View, w: View, sp: nat, image: seq<uint8>, hs: seq<Segment>, i: nat, page: nat)
    requires SegmentsOk(hs, |image|) && Progress(v0, v, sp, image, hs, i, page) && Loads(hs, i) && Covers(hs[i], page)
    requires forall j: nat :: j < i && Loads(hs, j) ==> !Covers(hs[j], page)
    requires SpaceStep(v, w, sp) && Used(w, sp) && OwnKept(v, w, sp, page) && PageLoaded(w, sp, page, image, hs[i])
    requires MappedFrame(v, sp, page).None? ==> NoLeak(v, w, ALL_FRAMES)
    ensures Progress(v0, w, sp, image, hs, i, page + 1)
  {
    hide Walk, MappedFrame, Covers, SegmentOk, PageLoaded, OwnKept, NoLeak, Untouched;
    PageInUserRange(hs[i], |image|, page);
    assert !IsDone(hs, i, page, page);
    ProgressOfOthers(v0, v, w, sp, image, hs, i, page);
    StillLoaded(v, w, sp, image, hs, i, page);
    StillUntouched(v0, v, w, sp, hs, i, page);
    hide SpaceStep, StepExcept;
  }

  lemma ProgressOfOthers(v0: View, v: View, w: View, sp: nat, image: seq<uint8>, hs: seq<Segment>, i: nat, page: nat)
    requires SegmentsOk(hs, |image|) && Progress(v0, v, sp, image, hs, i, page) && Loads(hs, i) && Covers(hs[i], page)
    requires SpaceStep(v, w, sp) && Steady(page) && !IsDone(hs, i, page, page)
    requires MappedFrame(v, sp, page).None? ==> NoLeak(v, w, ALL_FRAMES)
    ensures WellTyped(v0) && Used(v0, sp) && WellTyped(v) && Used(v, sp) && WellTyped(w)
    ensures SpaceStep(v0, w, sp) && (Clean(v0, sp, hs) ==> NoLeak(v0, w, ALL_FRAMES))
  {
    hide Walk, MappedFrame, Covers, SegmentOk, PageLoaded;
    assert Untouched(v0, v, sp, page);
    StepTrans(v0, v, w, sp, ALL_FRAMES);
  }

  /** What one call for one page means for the whole load. */
  lemma PageOutcome(v0: View, v: View, w: View, sp: nat, image: seq<uint8>, hs: seq<Segment>, i: nat, page: nat,
                    ok: bool)
    requires SegmentsOk(hs, |image|) && Progress(v0, v, sp, image, hs, i, page) && Loads(hs, i) && Covers(hs[i], page)
    requires forall j: nat :: j < i && Loads(hs, j) ==> !Covers(hs[j], page)
    requires SpaceStep(v, w, sp) && Used(w, sp) && OwnKept(v, w, sp, page) && page < ALL_PAGES
    requires MappedFrame(v, sp, page).None? ==> NoLeak(v, w, ALL_FRAMES)
    requires ok ==> PageLoaded(w, sp, page, image, hs[i])
    ensures ok ==> Progress(v0, w, sp, image, hs, i, page + 1)
    ensures !ok ==> Stopped(v0, w, sp, hs)
  {
    PageInUserRange(hs[i], |image|, page);
    assert !IsDone(hs, i, page, page);
    if ok {
      ProgressPage(v0, v, w, sp, image, hs, i, page);
    } else {
      ProgressFailed(v0, v, w, sp, hs, page, i);
    }
  }

  /** A page that could not be loaded changes nothing that the caller can see. */
  lemma ProgressFailed(v0: View, v: View, w: View, sp: nat, hs: seq<Segment>, page: nat, i: nat)
    requires SpaceStep(v0, v, sp) && SpaceStep(v, w, sp)
    requires Clean(v0, sp, hs) ==> NoLeak(v0, v, ALL_FRAMES)
    requires Loads(hs, i) && Covers(hs[i], page) && page < ALL_PAGES
             && MappedFrame(v, sp, page) == MappedFrame(v0, sp, page)
    requires MappedFrame(v, sp, page).None? ==> NoLeak(v, w, ALL_FRAMES)
    ensures SpaceStep(v0, w, sp) && (Clean(v0, sp, hs) ==> NoLeak(v0, w, ALL_FRAMES))
  {
    StepTrans(v0, v, w, sp, ALL_FRAMES);
  }

  /** Loading stopped half-way: everything taken so far belongs to the space. */
  ghost predicate Stopped(v0: View, v: View, sp: nat, hs: seq<Segment>) {
    SpaceStep(v0, v, sp) && Used(v, sp) && (Clean(v0, sp, hs) ==> NoLeak(v0, v, ALL_FRAMES))
  }

  // ---- The order of loading ----

  /** The numbers from first on, before end. */
  function PageRange(first: nat, end: nat): seq<nat>
    decreases end - first
  {
    if first >= end then [] else [first] + PageRange(first + 1, end)
  }

  function PagesOf(s: Segment): seq<nat> {
    PageRange(s.vaddr / PAGE_SIZE, (s.vaddr + s.memsz + PAGE_SIZE - 1) / PAGE_SIZE)
  }

  /** The pages of the segments from i on. */
  function PagesFrom(hs: seq<Segment>, i: nat): seq<nat>
    decreases |hs| - i
  {
    if i >= |hs| then [] else (if Loads(hs, i) then PagesOf(hs[i]) else []) + PagesFrom(hs, i + 1)
  }

  lemma {:induction false} PageRangeHolds(first: nat, end: nat, page: nat)
    ensures page in PageRange(first, end) <==> first <= page < end
    decreases end - first
  {
    if first >= end {
    } else {
      PageRangeHolds(first + 1, end, page);
    }
  }

  lemma PagesOfRange(s: Segment, imageSize: nat)
    requires SegmentOk(s, imageSize)
    ensures PagesOf(s) == PageRange(PageBase(s.vaddr) / PAGE_SIZE, AlignUpPage(s.vaddr + s.memsz) / PAGE_SIZE)
  {
  }

  lemma PagesOfHolds(s: Segment, imageSize: nat, page: nat)
    requires SegmentOk(s, imageSize)
    ensures page in PagesOf(s) <==> Covers(s, page)
  {
    PagesOfRange(s, imageSize);
    CoversRange(s, imageSize);
    PageRangeHolds(PageBase(s.vaddr) / PAGE_SIZE, AlignUpPage(s.vaddr + s.memsz) / PAGE_SIZE, page);
  }

  /** The pages that the loader goes through are those that some segment covers. */
  lemma {:induction false} PagesFromHolds(hs: seq<Segment>, imageSize: nat, i: nat, page: nat)
    requires SegmentsOk(hs, imageSize)
    ensures page in PagesFrom(hs, i) <==> exists j: nat :: i <= j && Loads(hs, j) && Covers(hs[j], page)
    decreases |hs| - i
  {
    if i >= |hs| {
    } else {
      PagesFromHolds(hs, imageSize, i + 1, page);
      if Loads(hs, i) {
        PagesOfHolds(hs[i], imageSize, page);
      }
      hide PagesOf, Covers, SegmentsOk, PageRange;
    }
  }

  datatype LoadResult = LoadResult(entry: uint32, lowest: nat, highest: nat)

  /** The loop over the pages of segment i. */
  method LoadSegment(vm: AddressSpaces, sp: nat, s: Segment, image: seq<uint8>, ghost v0: View, ghost hs: seq<Segment>,
                     ghost i: nat, ghost foreign: set<nat>, ghost rest: seq<nat>, ghost goal: Option<Purse>)
    returns (ok: bool)
    requires vm.Valid() && |image| < TWO_32 && SegmentsOk(hs, |image|) && Loads(hs, i) && s == hs[i]
    requires Progress(v0, vm.State(), sp, image, hs, i, 0) && Used(vm.State(), sp)
    requires forall j: nat, p: nat :: j < i && Loads(hs, j) && Covers(s, p) ==> !Covers(hs[j], p)
    requires OnCourse(vm.State(), vm.pmm.Free(), sp, foreign, PagesOf(s) + rest, goal)
    modifies vm`ram, vm`spaces, vm`owner, vm.pmm.Repr
    ensures vm.Valid() && vm.pmm.Reserved() == old(vm.pmm.Reserved())
    ensures Used(vm.State(), sp)
    ensures ok ==> Progress(v0, vm.State(), sp, image, hs, i + 1, 0)
    ensures ok ==> OnCourse(vm.State(), vm.pmm.Free(), sp, foreign, rest, goal)
    ensures !ok ==> Stopped(v0, vm.State(), sp, hs) && goal.None?
  {
    hide AddressSpaces.Valid, FrameAllocator.Free, FrameAllocator.Reserved, Progress, Stopped, OnCourse;
    PagesOfRange(s, |image|);
    CoversRange(s, |image|);
    var virtualAddress, segmentEnd := PageBase(s.vaddr), AlignUpPage(s.vaddr + s.memsz);
    if segmentEnd == 0 {
      // The check of `elf_load` for a wrapped end is never reached: a valid segment ends in user space.
      assert false;
    }
    SegmentStart(v0, vm.State(), sp, image, hs, i, virtualAddress / PAGE_SIZE);
    while virtualAddress < segmentEnd
      invariant vm.Valid() && vm.pmm.Reserved() == old(vm.pmm.Reserved())
      invariant virtualAddress % PAGE_SIZE == 0 && PageBase(s.vaddr) <= virtualAddress <= segmentEnd
      invariant Progress(v0, vm.State(), sp, image, hs, i, virtualAddress / PAGE_SIZE) && Used(vm.State(), sp)
      invariant OnCourse(vm.State(), vm.pmm.Free(), sp, foreign,
                         PageRange(virtualAddress / PAGE_SIZE, segmentEnd / PAGE_SIZE) + rest, goal)
    {
      assert Covers(s, virtualAddress / PAGE_SIZE);
      NextPages(virtualAddress, segmentEnd, rest);
      var loaded := LoadNext(vm, sp, virtualAddress, s, image, v0, hs, i, foreign,
                             PageRange(virtualAddress / PAGE_SIZE + 1, segmentEnd / PAGE_SIZE) + rest, goal);
      if !loaded {
        return false;
      }
      NextPage(virtualAddress, segmentEnd);
      virtualAddress := virtualAddress + PAGE_SIZE;
    }
    ProgressSegment(v0, vm.State(), sp, image, hs, i, virtualAddress / PAGE_SIZE);
    assert PageRange(virtualAddress / PAGE_SIZE, segmentEnd / PAGE_SIZE) + rest == rest;
    ok := true;
  }

  /** One round of the loop over the pages. */
  method LoadNext(vm: AddressSpaces, sp: nat, va: uint32, s: Segment, image: seq<uint8>, ghost v0: View,
                  ghost hs: seq<Segment>, ghost i: nat, ghost foreign: set<nat>, ghost rest: seq<nat>,
                  ghost goal: Option<Purse>)
    returns (ok: bool)
    requires vm.Valid() && |image| < TWO_32 && SegmentsOk(hs, |image|) && Loads(hs, i) && s == hs[i]
    requires va % PAGE_SIZE == 0 && Covers(s, va / PAGE_SIZE) && va / PAGE_SIZE < ALL_PAGES && Used(vm.State(), sp)
    requires Progress(v0, vm.State(), sp, image, hs, i, va / PAGE_SIZE)
    requires forall j: nat :: j < i && Loads(hs, j) ==> !Covers(hs[j], va / PAGE_SIZE)
    requires OnCourse(vm.State(), vm.pmm.Free(), sp, foreign, [va / PAGE_SIZE] + rest, goal)
    modifies vm`ram, vm`spaces, vm`owner, vm.pmm.Repr
    ensures vm.Valid() && vm.pmm.Reserved() == old(vm.pmm.Reserved())
    ensures Used(vm.State(), sp)
    ensures ok ==> Progress(v0, vm.State(), sp, image, hs, i, va / PAGE_SIZE + 1)
    ensures ok ==> OnCourse(vm.State(), vm.pmm.Free(), sp, foreign, rest, goal)
    ensures !ok ==> Stopped(v0, vm.State(), sp, hs) && goal.None?
  {
    hide Progress, Stopped, SpaceStep, StepExcept, OwnKept, PageLoaded, NoLeak, Covers, SegmentOk, OnCourse, Paid;
    hide Unaffordable;
    hide AddressSpaces.Valid, FrameAllocator.Free, FrameAllocator.Reserved;
    ghost var v, free := vm.State(), vm.pmm.Free();
    ok := LoadPage(vm, sp, va, s, image);
    ValidIsTyped(vm);
    PageOutcome(v0, v, vm.State(), sp, image, hs, i, va / PAGE_SIZE, ok);
    CourseStep(v, free, vm.State(), vm.pmm.Free(), sp, foreign, va / PAGE_SIZE, rest, goal);
  }

  lemma NextPage(va: nat, end: nat)
    requires va % PAGE_SIZE == 0 && end % PAGE_SIZE == 0 && va < end
    ensures va + PAGE_SIZE <= end && (va + PAGE_SIZE) % PAGE_SIZE == 0
            && (va + PAGE_SIZE) / PAGE_SIZE == va / PAGE_SIZE + 1
  {
  }

  lemma NextPages(va: nat, end: nat, rest: seq<nat>)
    requires va % PAGE_SIZE == 0 && end % PAGE_SIZE == 0 && va < end
    ensures PageRange(va / PAGE_SIZE, end / PAGE_SIZE) + rest ==
            [va / PAGE_SIZE] + (PageRange(va / PAGE_SIZE + 1, end / PAGE_SIZE) + rest)
  {
  }

  lemma SegmentStart(v0: View, v: View, sp: nat, image: seq<uint8>, hs: seq<Segment>, i: nat, first: nat)
    requires SegmentsOk(hs, |image|) && Loads(hs, i) && Progress(v0, v, sp, image, hs, i, 0)
    requires first == hs[i].vaddr / PAGE_SIZE
    ensures Progress(v0, v, sp, image, hs, i, first)
  {
    assert forall p: nat :: Covers(hs[i], p) ==> p >= first;
    assert forall j: nat, p: nat :: Done(hs, i, first, j, p) == Done(hs, i, 0, j, p);
  }

  /** Every segment is in place: its pages hold its bytes with its rights, and no other page has changed. */
  ghost predicate ImageLoaded(v0: View, v: View, sp: nat, image: seq<uint8>, hs: seq<Segment>)
    requires SegmentsOk(hs, |image|) && WellTyped(v0) && WellTyped(v) && Used(v0, sp) && Used(v, sp)
  {
    && (forall j: nat, p: nat :: Loads(hs, j) && Covers(hs[j], p) ==> PageLoaded(v, sp, p, image, hs[j]))
    && (forall p: nat :: Steady(p) && (forall j: nat :: Loads(hs, j) ==> !Covers(hs[j], p)) ==>
          Untouched(v0, v, sp, p))
  }

  lemma ProgressEnd(v0: View, v: View, sp: nat, image: seq<uint8>, hs: seq<Segment>)
    requires SegmentsOk(hs, |image|) && Progress(v0, v, sp, image, hs, |hs|, 0)
    ensures ImageLoaded(v0, v, sp, image, hs)
  {
    assert forall j: nat, p: nat :: Loads(hs, j) && Covers(hs[j], p) ==> Done(hs, |hs|, 0, j, p);
    forall p: nat | Steady(p) && forall j: nat :: Loads(hs, j) ==> !Covers(hs[j], p)
      ensures !IsDone(hs, |hs|, 0, p)
    {
    }
  }

  /** The comparison of segment i with the earlier ones. */
  method OverlapsEarlier(image: seq<uint8>, ghost hs: seq<Segment>, i: nat) returns (overlaps: bool)
    requires HeaderOk(image) && hs == Headers(image) && SegmentsOk(hs, |image|) && Loads(hs, i)
    ensures overlaps <==>
              exists j: nat, page: nat :: j < i && Loads(hs, j) && Covers(hs[i], page) && Covers(hs[j], page)
  {
    hide SegmentAt, SegmentOk, Covers;
    var ph := SegmentAt(image, i);
    assert ph == hs[i];
    for j := 0 to i
      invariant forall k: nat, page: nat :: k < j && Loads(hs, k) && Covers(hs[i], page) ==> !Covers(hs[k], page)
    {
      var previous := SegmentAt(image, j);
      assert previous == hs[j];
      if previous.kind == PT_LOAD {
        assert Loads(hs, j);
        OverlapMeans(ph, previous, |image|);
        if Overlap(ph, previous, |image|) {
          return true;
        }
      }
    }
    overlaps := false;
  }

  /** The first n segments to load have no page in common. */
  ghost predicate ApartBelow(hs: seq<Segment>, n: nat) {
    forall k: nat, j: nat, page: nat ::
      j < k < n && Loads(hs, k) && Loads(hs, j) && Covers(hs[k], page) ==> !Covers(hs[j], page)
  }

  /** Segment i has no page in common with an earlier one. */
  ghost predicate ApartFrom(hs: seq<Segment>, i: nat) {
    Loads(hs, i) ==> forall j: nat, page: nat :: j < i && Loads(hs, j) && Covers(hs[i], page) ==> !Covers(hs[j], page)
  }

  lemma ApartNext(hs: seq<Segment>, i: nat)
    requires ApartBelow(hs, i) && ApartFrom(hs, i)
    ensures ApartBelow(hs, i + 1)
  {
    forall k: nat, j: nat, page: nat | j < k < i + 1 && Loads(hs, k) && Loads(hs, j) && Covers(hs[k], page)
      ensures !Covers(hs[j], page)
    {
      assert k < i || k == i;
    }
  }

  lemma ApartEnd(hs: seq<Segment>)
    requires ApartBelow(hs, |hs|)
    ensures !Overlapping(hs)
  {
  }

  /** One header: nothing to load, or a segment that is compared with the earlier ones and then loaded. */
  method LoadOne(vm: AddressSpaces, sp: nat, image: seq<uint8>, ghost hs: seq<Segment>, i: nat, ghost v0: View,
                 ghost foreign: set<nat>, ghost goal: Option<Purse>)
    returns (ok: bool)
    requires vm.Valid() && Used(vm.State(), sp) && |image| < TWO_32
    requires HeaderOk(image) && hs == Headers(image) && SegmentsOk(hs, |image|) && i < |hs|
    requires Progress(v0, vm.State(), sp, image, hs, i, 0)
    requires OnCourse(vm.State(), vm.pmm.Free(), sp, foreign, PagesFrom(hs, i), goal)
    modifies vm`ram, vm`spaces, vm`owner, vm.pmm.Repr
    ensures vm.Valid() && vm.pmm.Reserved() == old(vm.pmm.Reserved()) && Used(vm.State(), sp)
    ensures ok ==> Progress(v0, vm.State(), sp, image, hs, i + 1, 0) && ApartFrom(hs, i)
    ensures ok ==> OnCourse(vm.State(), vm.pmm.Free(), sp, foreign, PagesFrom(hs, i + 1), goal)
    ensures !ok ==> Stopped(v0, vm.State(), sp, hs) && (Overlapping(hs) || goal.None?)
  {
    hide SegmentAt, SegmentOk, Covers, Progress, Overlapping, Stopped, OnCourse, PagesOf;
    hide AddressSpaces.Valid, FrameAllocator.Free, FrameAllocator.Reserved;
    var ph := SegmentAt(image, i);
    assert ph == hs[i];
    if ph.kind != PT_LOAD {
      ProgressSegment(v0, vm.State(), sp, image, hs, i, 0);
      assert PagesFrom(hs, i) == PagesFrom(hs, i + 1);
      return true;
    }
    assert Loads(hs, i);
    var overlaps := OverlapsEarlier(image, hs, i);
    if overlaps {
      StoppedByOverlap(v0, vm.State(), sp, image, hs, i);
      return false;
    }
    ok := LoadSegment(vm, sp, ph, image, v0, hs, i, foreign, PagesFrom(hs, i + 1), goal);
  }

  lemma StoppedByOverlap(v0: View, v: View, sp: nat, image: seq<uint8>, hs: seq<Segment>, i: nat)
    requires SegmentsOk(hs, |image|) && Progress(v0, v, sp, image, hs, i, 0) && Loads(hs, i)
    requires exists j: nat, page: nat :: j < i && Loads(hs, j) && Covers(hs[i], page) && Covers(hs[j], page)
    ensures Stopped(v0, v, sp, hs) && Overlapping(hs)
  {
    ProgressMeans(v0, v, sp, image, hs, i, 0);
  }

  /** Loading is complete. */
  ghost predicate Finished(v0: View, v: View, sp: nat, image: seq<uint8>, hs: seq<Segment>)
    requires SegmentsOk(hs, |image|)
  {
    && SpaceStep(v0, v, sp) && (Clean(v0, sp, hs) ==> NoLeak(v0, v, ALL_FRAMES))
    && Used(v, sp) && !Overlapping(hs) && ImageLoaded(v0, v, sp, image, hs)
  }

  lemma FinishedAtEnd(v0: View, v: View, sp: nat, image: seq<uint8>, hs: seq<Segment>)
    requires SegmentsOk(hs, |image|) && Progress(v0, v, sp, image, hs, |hs|, 0) && ApartBelow(hs, |hs|)
    ensures Finished(v0, v, sp, image, hs) && !Overlapping(hs)
  {
    ApartEnd(hs);
    ProgressEnd(v0, v, sp, image, hs);
    ProgressMeans(v0, v, sp, image, hs, |hs|, 0);
  }

  /** The address range that the loader reports. */
  datatype Bounds = Bounds(lowest: nat, highest: nat)

  /** One more header for the bounds. */
  method Widen(image: seq<uint8>, ghost hs: seq<Segment>, i: nat, b: Bounds) returns (c: Bounds)
    requires HeaderOk(image) && hs == Headers(image) && i < |hs| && b == Bounds(Lowest(hs, i), Highest(hs, i))
    ensures c == Bounds(Lowest(hs, i + 1), Highest(hs, i + 1))
  {
    hide SegmentAt;
    c := b;
    var ph := SegmentAt(image, i);
    assert ph == hs[i];
    if ph.kind == PT_LOAD {
      if ph.vaddr < c.lowest {
        c := c.(lowest := ph.vaddr);
      }
      if ph.vaddr + ph.memsz > c.highest {
        c := c.(highest := ph.vaddr + ph.memsz);
      }
    }
  }

  /** The main loop of `elf_load`. */
  method LoadSegments(vm: AddressSpaces, sp: nat, image: seq<uint8>, ghost hs: seq<Segment>)
    returns (ok: bool, bounds: Bounds)
    requires vm.Valid() && Used(vm.State(), sp) && |image| < TWO_32
    requires HeaderOk(image) && hs == Headers(image) && SegmentsOk(hs, |image|)
    modifies vm`ram, vm`spaces, vm`owner, vm.pmm.Repr
    ensures vm.Valid() && vm.pmm.Reserved() == old(vm.pmm.Reserved())
    ensures Used(vm.State(), sp)
    ensures ok ==> Finished(old(vm.State()), vm.State(), sp, image, hs)
    ensures ok ==> bounds == Bounds(Lowest(hs, |hs|), Highest(hs, |hs|))
    ensures !ok ==> Stopped(old(vm.State()), vm.State(), sp, hs)
    ensures ok <==> !Overlapping(hs) && Cost(old(vm.State()), old(vm.pmm.Free()), sp, PagesFrom(hs, 0)).Some?
    ensures ok ==> HasPaid(old(vm.State()), old(vm.pmm.Free()), vm.State(), vm.pmm.Free(), sp, PagesFrom(hs, 0))
  {
    hide *;
    ValidIsTyped(vm);
    ghost var v0, free, foreign := vm.State(), vm.pmm.Free(), Foreign(vm.State(), sp);
    ghost var goal := Cost(v0, free, sp, PagesFrom(hs, 0));
    CourseStart(v0, free, sp, PagesFrom(hs, 0));
    HeaderSize(image);
    var count := PhNum(image);
    LoadStart(v0, sp, image, hs);
    bounds := Bounds(0xFFFF_FFFF, 0);
    for i := 0 to count
      invariant vm.Valid() && vm.pmm.Reserved() == old(vm.pmm.Reserved()) && Used(vm.State(), sp)
      invariant Progress(v0, vm.State(), sp, image, hs, i, 0) && ApartBelow(hs, i)
      invariant OnCourse(vm.State(), vm.pmm.Free(), sp, foreign, PagesFrom(hs, i), goal)
      invariant bounds == Bounds(Lowest(hs, i), Highest(hs, i))
    {
      var loaded := LoadOne(vm, sp, image, hs, i, v0, foreign, goal);
      if !loaded {
        return false, bounds;
      }
      ApartNext(hs, i);
      bounds := Widen(image, hs, i, bounds);
    }
    FinishedAtEnd(v0, vm.State(), sp, image, hs);
    ValidIsTyped(vm);
    CourseEnd(v0, free, vm.State(), vm.pmm.Free(), sp, hs);
    ok := true;
  }

  lemma CourseEnd(v0: View, free: set<nat>, v: View, left: set<nat>, sp: nat, hs: seq<Segment>)
    requires WellTyped(v0) && Used(v0, sp) && WellTyped(v) && Used(v, sp)
    requires OnCourse(v, left, sp, Foreign(v0, sp), PagesFrom(hs, |hs|), Cost(v0, free, sp, PagesFrom(hs, 0)))
    ensures HasPaid(v0, free, v, left, sp, PagesFrom(hs, 0))
  {
  }

  lemma HeaderSize(image: seq<uint8>)
    requires HeaderOk(image)
    ensures |image| >= EHDR_SIZE
  {
  }

  lemma LoadStart(v: View, sp: nat, image: seq<uint8>, hs: seq<Segment>)
    requires WellTyped(v) && Used(v, sp) && HeaderOk(image) && hs == Headers(image) && SegmentsOk(hs, |image|)
    ensures Progress(v, v, sp, image, hs, 0, 0) && ApartBelow(hs, 0)
    ensures Lowest(hs, 0) == 0xFFFF_FFFF && Highest(hs, 0) == 0 && PhNum(image) == |hs|
  {
    ProgressStart(v, sp, image, hs);
  }

  lemma ProgressMeans(v0: View, v: View, sp: nat, image: seq<uint8>, hs: seq<Segment>, i: nat, next: nat)
    requires SegmentsOk(hs, |image|) && Progress(v0, v, sp, image, hs, i, next)
    ensures SpaceStep(v0, v, sp) && (Clean(v0, sp, hs) ==> NoLeak(v0, v, ALL_FRAMES))
  {
  }

  /** `elf_load` succeeds exactly for a space and a valid image without overlap whose pages can be paid for. It then
      maps exactly those pages, each on a frame of its own, with the bytes of the file and zeros elsewhere, and takes
      exactly the frames that they cost; otherwise whatever it has taken belongs to the space. */
  method Load(vm: AddressSpaces, space: Option<nat>, image: seq<uint8>) returns (ok: bool, result: LoadResult)
    requires vm.Valid() && |image| < TWO_32 && (space.Some? ==> Used(vm.State(), space.value))
    modifies vm`ram, vm`spaces, vm`owner, vm.pmm.Repr
    ensures vm.Valid() && vm.pmm.Reserved() == old(vm.pmm.Reserved())
    ensures space.None? || !ValidElf(image) ==> !ok && vm.State() == old(vm.State())
    ensures space.Some? && ValidElf(image) ==>
              var hs := Headers(image);
              && (ok ==> Finished(old(vm.State()), vm.State(), space.value, image, hs)
                         && result == LoadResult(EntryPoint(image), Lowest(hs, |hs|), Highest(hs, |hs|)))
              && (!ok ==> Stopped(old(vm.State()), vm.State(), space.value, hs))
    ensures ok <==> space.Some? && ValidElf(image) && !Overlapping(Headers(image))
                    && Cost(old(vm.State()), old(vm.pmm.Free()), space.value, PagesFrom(Headers(image), 0)).Some?
    ensures ok ==> Used(vm.State(), space.value)
                   && HasPaid(old(vm.State()), old(vm.pmm.Free()), vm.State(), vm.pmm.Free(), space.value,
                              PagesFrom(Headers(image), 0))
  {
    result := LoadResult(0, 0, 0);
    if space.None? {
      return false, result;
    }
    var valid := Validate(image);
    if !valid {
      return false, result;
    }
    var bounds;
    ok, bounds := LoadSegments(vm, space.value, image, Headers(image));
    if ok {
      result := LoadResult(EntryPoint(image), bounds.lowest, bounds.highest);
    }
  }
}
