/** Building the address space of a program, and taking it down again (src/kernel/task.c). */
module SpaceBuilding {
  import opened Words
  import opened Pmm
  import opened PageTables
  import opened Ownership
  import opened Paging
  import opened Budgets
  import opened SpaceSteps
  import opened PagePlacing
  import opened ElfImage
  import opened ElfLoader
  import opened NewSpace

  lemma ActiveOwned(vm: AddressSpaces)
    requires vm.Valid()
    ensures vm.current / PAGE_SIZE in vm.owner
  {
    if vm.current == vm.kernelDirectory {
      assert Has(vm.State(), vm.State().kernel, KernelDirectory);
    } else {
      var i: nat :| IsDirectory(vm.spaces, i, vm.current);
      assert Has(vm.State(), DirOf(vm.State(), i), Directory(i));
    }
  }

  /** The processor does not run on the directory of a space that was just added. */
  lemma ActiveIsOther(v0: View, v: View, i: nat, lost: Option<nat>, active: uint32)
    requires Grafted(v0, v, i, lost) && Inv(v) && active / PAGE_SIZE in v0.owner
    ensures active != v.spaces[i].directory
  {
    NobodyThere(v0, i);
    DirectoryOwned(v, i);
  }

  /** `paging_destroy_address_space` as the last step of a failed task creation. */
  method Abandon(vm: AddressSpaces, i: nat, ghost v0: View, ghost lost: Option<nat>)
    requires vm.Valid() && Grafted(v0, vm.State(), i, lost) && vm.current / PAGE_SIZE in v0.owner
    modifies vm`ram, vm`spaces, vm`owner, vm`current, vm.pmm.Repr
    ensures vm.Valid() && vm.pmm.Reserved() == old(vm.pmm.Reserved()) && vm.current == old(vm.current)
    ensures vm.spaces == v0.spaces && vm.owner == WithLost(v0.owner, lost) && Undisturbed(v0, vm.State())
  {
    hide AddressSpaces.Valid, FrameAllocator.Valid, FrameAllocator.Free, Inv, Undisturbed, OnlyNew, Destroyed;
    ValidMeans(vm);
    ghost var v := vm.State();
    ActiveIsOther(v0, v, i, lost, vm.current);
    vm.DestroyAddressSpace(Slot(i));
    GraftDestroyed(v0, v, vm.State(), i, lost);
  }

  /** The image is loaded or the space is as new as it was made, up to pages of its own. */
  lemma GraftLoaded(v0: View, v1: View, v2: View, i: nat, image: seq<uint8>, ok: bool)
    requires Grafted(v0, v1, i, None) && forall p: nat :: p < ALL_PAGES ==> MappedFrame(v1, i, p).None?
    requires !ValidElf(image) ==> !ok && v2 == v1
    requires ValidElf(image) ==>
               if ok then Finished(v1, v2, i, image, Headers(image)) else Stopped(v1, v2, i, Headers(image))
    ensures Grafted(v0, v2, i, None)
  {
    if ValidElf(image) {
      assert Clean(v1, i, Headers(image));
      GraftStep(v0, v1, v2, i);
    }
  }

  /** The stack page is in place. */
  lemma GraftStack(v0: View, v1: View, v2: View, v3: View, i: nat, f: nat, image: seq<uint8>)
    returns (lost: Option<nat>)
    requires Grafted(v0, v2, i, None) && Inv(v2) && Inv(v3) && ValidElf(image)
    requires Finished(v1, v2, i, image, Headers(image))
    requires forall p: nat :: p < ALL_PAGES ==> MappedFrame(v1, i, p).None?
    requires Prepared(v2, v3, i, STACK_PAGE, f) && Walk(v3.ram, DirOf(v3, i), STACK_PAGE) == Some(Leaf(f, STACK_FLAGS))
    requires f < ALL_FRAMES && forall k: nat :: k < PAGE_SIZE ==> v3.ram[f][k] == 0
    ensures Grafted(v0, v3, i, lost) && ProgramLoaded(v3, i, image, Headers(image))
    ensures lost.Some? <==> CoversPage(Headers(image), STACK_PAGE)
  {
    var hs := Headers(image);
    FinishedPages(v1, v2, i, image, hs, STACK_PAGE);
    ProgramComplete(v1, v2, v3, i, image, hs, f);
    DropException(v2, v3, i, f);
    lost := MappedFrame(v2, i, STACK_PAGE);
    if lost.Some? {
      MappedIsOwnPage(v2, i, STACK_PAGE);
    }
    GraftStep(v0, v2, v3, i);
  }

  lemma StackLeaf(frame: uint32)
    requires frame % PAGE_SIZE == 0
    ensures LeafOf(WithPresent(MakeEntry(frame, WithPresent(WithUser(STACK_FLAGS))))) ==
            Some(Leaf(frame / PAGE_SIZE, STACK_FLAGS))
  {
  }

  lemma NothingGrafted(v: View)
    requires WellTyped(v)
    ensures Undisturbed(v, v)
  {
  }

  // ---- What a new program costs ----

  /** What a new address space has to spend: all but the frame of its directory, and no table of its own. */
  ghost function NewPurse(free: set<nat>): Purse
    requires SomeLow(free)
  {
    CountLow(free, LOW_FRAMES);
    CountLow(free, MAX_FRAMES);
    Purse(CountBelow(free, LOW_FRAMES) - 1, CountBelow(free, MAX_FRAMES) - 1, {})
  }

  /** The directory entries that every new address space shares with the kernel. */
  ghost function KernelTables(v: View): set<nat>
    requires WellTyped(v)
  {
    set d: nat | d < ENTRIES && Present(KernelPde(v, d))
  }

  /** What is left after a directory, the pages of the segments, a stack page, and the tables for them. */
  ghost function BuildCost(v: View, free: set<nat>, hs: seq<Segment>): Option<Purse>
    requires WellTyped(v) && SomeLow(free)
  {
    Pay(NewPurse(free), KernelTables(v), PagesFrom(hs, 0) + [STACK_PAGE])
  }

  /** There is a slot and a low frame for the directory, the image is in order, and its pages can be paid for. */
  ghost predicate CanBuild(v: View, free: set<nat>, image: seq<uint8>)
    requires WellTyped(v)
  {
    && (exists i: nat :: i < MAX_ADDRESS_SPACES && !Used(v, i)) && SomeLow(free)
    && ValidElf(image) && !Overlapping(Headers(image)) && BuildCost(v, free, Headers(image)).Some?
  }

  /** The number of frames that a new program takes: the directory, the pages, the stack page, and one for each
      table. */
  lemma BuildTakes(v: View, free: set<nat>, hs: seq<Segment>)
    requires WellTyped(v) && SomeLow(free) && BuildCost(v, free, hs).Some?
    ensures CountBelow(free, MAX_FRAMES) - BuildCost(v, free, hs).value.total ==
            2 + |PagesFrom(hs, 0)| + |TablesOf(PagesFrom(hs, 0) + [STACK_PAGE])|
    ensures TablesOf(PagesFrom(hs, 0) + [STACK_PAGE]) !! KernelTables(v)
  {
    var pages := PagesFrom(hs, 0) + [STACK_PAGE];
    PayTakes(NewPurse(free), KernelTables(v), pages);
    assert TablesOf(pages) - {} == TablesOf(pages);
  }

  /** That many low frames are enough, unless a table of the kernel is in the way. */
  lemma EnoughToBuild(v: View, free: set<nat>, hs: seq<Segment>)
    requires WellTyped(v) && 0 !in free && TablesOf(PagesFrom(hs, 0) + [STACK_PAGE]) !! KernelTables(v)
    requires 2 + |PagesFrom(hs, 0)| + |TablesOf(PagesFrom(hs, 0) + [STACK_PAGE])| <= CountBelow(free, LOW_FRAMES)
    ensures SomeLow(free) && BuildCost(v, free, hs).Some?
  {
    var pages := PagesFrom(hs, 0) + [STACK_PAGE];
    CountLow(free, LOW_FRAMES);
    CountMonotone(free, LOW_FRAMES, MAX_FRAMES);
    assert TablesOf(pages) - {} == TablesOf(pages);
    EnoughLow(NewPurse(free), KernelTables(v), pages);
  }

  lemma NoSlot(v: View, free: set<nat>, image: seq<uint8>)
    requires WellTyped(v)
    requires (forall i: nat :: i < MAX_ADDRESS_SPACES ==> Used(v, i)) || !SomeLow(free)
    ensures !CanBuild(v, free, image)
  {
  }

  lemma NewSpacePurse(managed: set<nat>, v0: View, free: set<nat>, v1: View, left: set<nat>, i: nat, f: nat)
    requires Created(v0, v1, i, f) && f in free && free == managed - v0.owner.Keys && left == managed - v1.owner.Keys
    ensures WellTyped(v0) && WellTyped(v1) && Used(v1, i) && SomeLow(free) && !Used(v0, i)
    ensures PurseOf(v1, left, i) == NewPurse(free) && Foreign(v1, i) == KernelTables(v0)
  {
    CreateKeepsKernel(v0, v1, i, f);
    assert left + {f} == free;
    CountInsert(left, free, f, LOW_FRAMES);
    CountInsert(left, free, f, MAX_FRAMES);
    forall d: nat | d < ENTRIES
      ensures (Present(Pde(v1, i, d)) && !Owns(v1, i, d)) <==> Present(KernelPde(v0, d))
    {
    }
  }

  /** The stack page comes last. */
  lemma StackLast(p: Purse, foreign: set<nat>, pages: seq<nat>, page: nat)
    ensures Pay(p, foreign, pages + [page]) ==
            if Pay(p, foreign, pages).None? then None else PayPage(Pay(p, foreign, pages).value, foreign, page)
  {
    PayConcat(p, foreign, pages, [page]);
  }

  lemma NotLoaded(v0: View, free0: set<nat>, v1: View, free1: set<nat>, i: nat, image: seq<uint8>)
    requires WellTyped(v0) && SomeLow(free0) && WellTyped(v1) && Used(v1, i)
    requires PurseOf(v1, free1, i) == NewPurse(free0) && Foreign(v1, i) == KernelTables(v0)
    requires !(ValidElf(image) && !Overlapping(Headers(image))
               && Cost(v1, free1, i, PagesFrom(Headers(image), 0)).Some?)
    ensures !CanBuild(v0, free0, image)
  {
    if ValidElf(image) {
      StackLast(NewPurse(free0), KernelTables(v0), PagesFrom(Headers(image), 0), STACK_PAGE);
    }
  }

  lemma NoStack(v0: View, free0: set<nat>, v1: View, free1: set<nat>, v2: View, free2: set<nat>, i: nat,
                image: seq<uint8>)
    requires WellTyped(v0) && SomeLow(free0) && WellTyped(v1) && Used(v1, i) && WellTyped(v2) && Used(v2, i)
    requires PurseOf(v1, free1, i) == NewPurse(free0) && Foreign(v1, i) == KernelTables(v0) && HeaderOk(image)
    requires HasPaid(v1, free1, v2, free2, i, PagesFrom(Headers(image), 0)) && Unaffordable(v2, free2, i, STACK_PAGE)
    ensures !CanBuild(v0, free0, image)
  {
    StackLast(NewPurse(free0), KernelTables(v0), PagesFrom(Headers(image), 0), STACK_PAGE);
  }

  lemma Built(v0: View, free0: set<nat>, v1: View, free1: set<nat>, v2: View, free2: set<nat>, v3: View,
              free3: set<nat>, i: nat, image: seq<uint8>)
    requires WellTyped(v0) && SomeLow(free0) && WellTyped(v1) && Used(v1, i) && WellTyped(v2) && Used(v2, i)
    requires PurseOf(v1, free1, i) == NewPurse(free0) && Foreign(v1, i) == KernelTables(v0)
    requires ValidElf(image) && !Overlapping(Headers(image)) && i < MAX_ADDRESS_SPACES && !Used(v0, i)
    requires WellTyped(v3) && Used(v3, i)
    requires HasPaid(v1, free1, v2, free2, i, PagesFrom(Headers(image), 0)) && Paid(v2, free2, v3, free3, i, STACK_PAGE)
    ensures CanBuild(v0, free0, image)
    ensures BuildCost(v0, free0, Headers(image)) == Some(PurseOf(v3, free3, i))
  {
    StackLast(NewPurse(free0), KernelTables(v0), PagesFrom(Headers(image), 0), STACK_PAGE);
  }

  /** The first half of `task_create_user_elf`: an address space with the image and a stack page, or no change. It
      succeeds exactly if CanBuild says so, and leaves as many frames as BuildCost says; one of them is lost exactly
      if the image covers the stack page. */
  method BuildSpace(vm: AddressSpaces, image: seq<uint8>)
    returns (space: Option<nat>, entry: uint32, ghost lost: Option<nat>)
    requires vm.Valid() && |image| < TWO_32
    modifies vm`ram, vm`spaces, vm`owner, vm`current, vm.pmm.Repr
    ensures vm.Valid() && vm.pmm.Reserved() == old(vm.pmm.Reserved()) && vm.current == old(vm.current)
    ensures space.Some? <==> CanBuild(old(vm.State()), old(vm.pmm.Free()), image)
    ensures space.Some? ==>
              vm.pmm.freeFrames == BuildCost(old(vm.State()), old(vm.pmm.Free()), Headers(image)).value.total
    ensures space.None? ==>
              vm.spaces == old(vm.spaces) && vm.owner == old(vm.owner) && Undisturbed(old(vm.State()), vm.State())
    ensures space.Some? ==>
              && ValidElf(image) && !Overlapping(Headers(image)) && entry == EntryPoint(image)
              && Grafted(old(vm.State()), vm.State(), space.value, lost)
              && ProgramLoaded(vm.State(), space.value, image, Headers(image))
              && (lost.Some? <==> CoversPage(Headers(image), STACK_PAGE))
  {
    hide AddressSpaces.Valid, FrameAllocator.Valid, FrameAllocator.Free, Inv, Created, Grafted, Undisturbed;
    hide ProgramLoaded, Prepared, SpaceStep, OwnKept, NoLeak, Stopped, Finished, Walk, MappedFrame, CoversPage;
    hide ValidElf, HeaderOk, SegmentsOk, Headers, Overlapping, EntryPoint, MakeEntry, WithPresent, WithUser, LeafOf;
    hide Lowest, Highest, CanBuild, BuildCost, NewPurse, KernelTables, Foreign, Paid, Cost, HasPaid, SomeLow, Has;
    hide U32;
    ghost var v0, free0 := vm.State(), vm.pmm.Free();
    ValidImage(image);
    ValidMeans(vm);
    ActiveOwned(vm);
    FreeIsTheRest(vm);
    NothingGrafted(v0);
    Footprint(vm);
    lost, entry := None, 0;
    space := vm.CreateAddressSpace();
    if space.None? {
      NoSlot(v0, free0, image);
      return;
    }
    var i := space.value;
    ghost var v1, free1 := vm.State(), vm.pmm.Free();
    FreeIsTheRest(vm);
    NewSpacePurse(vm.managed, v0, free0, v1, free1, i, DirOf(v1, i));
    GraftCreated(v0, v1, i, DirOf(v1, i));
    GraftMeans(v0, v1, i, None);
    var loaded, result := Load(vm, Some(i), image);
    ghost var v2, free2 := vm.State(), vm.pmm.Free();
    GraftLoaded(v0, v1, v2, i, image, loaded);
    if !loaded {
      NotLoaded(v0, free0, v1, free1, i, image);
      Abandon(vm, i, v0, None);
      return None, 0, None;
    }
    GraftMeans(v0, v2, i, None);
    ValidMeans(vm);
    var placed, frame := PlaceClearedPage(vm, i, 0x7FFF_F000, PAGE_PRESENT + PAGE_WRITABLE + PAGE_USER);
    if !placed {
      NoStack(v0, free0, v1, free1, v2, free2, i, image);
      GraftStep(v0, v2, vm.State(), i);
      Abandon(vm, i, v0, None);
      return None, 0, None;
    }
    ValidMeans(vm);
    StackLeaf(frame);
    PreparedMeans(v2, vm.State(), i, STACK_PAGE, frame / PAGE_SIZE);
    lost := GraftStack(v0, v1, v2, vm.State(), i, frame / PAGE_SIZE, image);
    FinishedMeans(v1, v2, i, image, Headers(image));
    Built(v0, free0, v1, free1, v2, free2, vm.State(), vm.pmm.Free(), i, image);
    CountsFree(vm);
    entry := result.entry;
  }

  lemma ValidImage(image: seq<uint8>)
    ensures ValidElf(image) ==> HeaderOk(image) && SegmentsOk(Headers(image), |image|) && |image| >= EHDR_SIZE
  {
  }

  lemma GraftMeans(v: View, w: View, i: nat, lost: Option<nat>)
    requires Grafted(v, w, i, lost)
    ensures WellTyped(w) && Used(w, i) && i < MAX_ADDRESS_SPACES
  {
  }

  lemma FinishedMeans(v0: View, v: View, sp: nat, image: seq<uint8>, hs: seq<Segment>)
    requires SegmentsOk(hs, |image|) && Finished(v0, v, sp, image, hs)
    ensures !Overlapping(hs)
  {
  }
}
