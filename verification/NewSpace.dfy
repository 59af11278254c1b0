/** A machine with one more address space: what building it step by step leaves alone, and what tearing it down
    restores (src/kernel/task.c). */
module NewSpace {
  import opened Words
  import opened PageTables
  import opened Ownership
  import opened Heap
  import opened SpaceSteps
  import opened PagePlacing
  import opened ElfImage
  import opened ElfFormat
  import opened ElfLoader

  /** The kernel and every address space of v translate as before, and no frame in use has lost its owner or its
      bytes. */
  ghost predicate Undisturbed(v: View, w: View) {
    && WellTyped(v) && WellTyped(w) && w.kernel == v.kernel
    && (forall f: nat :: f in v.owner ==> Has(w, f, v.owner[f]) && (!v.owner[f].KernelTable? ==> w.ram[f] == v.ram[f]))
    && (forall page: nat :: Steady(page) ==> Walk(w.ram, w.kernel, page) == Walk(v.ram, v.kernel, page))
    && (forall j: nat :: Used(v, j) ==> Used(w, j))
    && (forall j: nat, page: nat :: Used(v, j) && Steady(page) ==>
          Walk(w.ram, DirOf(w, j), page) == Walk(v.ram, DirOf(v, j), page))
  }

  /** Every new frame belongs to space i, except the lost one, which nobody will free. */
  ghost predicate OnlyNew(v: View, w: View, i: nat, lost: Option<nat>) {
    && (forall f: nat :: f in w.owner && lost != Some(f) ==> OfSpace(w.owner[f], i) || Has(v, f, w.owner[f]))
    && (lost.Some? ==> lost.value !in v.owner && Has(w, lost.value, Held))
  }

  /** w is v with address space i added, at the price of the lost frame, if any. */
  ghost predicate Grafted(v: View, w: View, i: nat, lost: Option<nat>) {
    && Inv(v) && Undisturbed(v, w) && i < MAX_ADDRESS_SPACES && !Used(v, i) && Used(w, i)
    && w.spaces == v.spaces[i := w.spaces[i]] && OnlyNew(v, w, i, lost)
  }

  /** Nothing belongs to a space that is not in use. */
  lemma NobodyThere(v: View, i: nat)
    requires Inv(v) && !Used(v, i)
    ensures forall f: nat :: f in v.owner ==> !OfSpace(v.owner[f], i)
  {
    forall f: nat | f in v.owner
      ensures !OfSpace(v.owner[f], i)
    {
      assert InUse(v, f, v.owner[f]);
    }
  }

  lemma GraftCreated(v: View, w: View, i: nat, f: nat)
    requires Created(v, w, i, f)
    ensures Grafted(v, w, i, None) && Inv(w)
    ensures forall p: nat :: p < ALL_PAGES ==> MappedFrame(w, i, p).None?
  {
    CreateKeepsInv(v, w, i, f);
    CreateKeepsKernel(v, w, i, f);
    forall page: nat | Steady(page)
      ensures Walk(w.ram, w.kernel, page) == Walk(v.ram, v.kernel, page)
      ensures forall j: nat :: Used(v, j) ==>
                Used(w, j) && Walk(w.ram, DirOf(w, j), page) == Walk(v.ram, DirOf(v, j), page)
    {
      CreateRefines(v, w, i, f, page);
    }
  }

  /** A step on the new space keeps the graft. */
  lemma GraftStep(u: View, v: View, w: View, i: nat)
    requires Grafted(u, v, i, None) && SpaceStep(v, w, i) && Used(w, i)
    ensures NoLeak(v, w, ALL_FRAMES) ==> Grafted(u, w, i, None)
    ensures forall x: nat :: x in v.owner && OfSpace(v.owner[x], i) && Has(w, x, Held) && NoLeak(v, w, x) ==>
              Grafted(u, w, i, Some(x))
  {
    hide Inv;
    NobodyThere(u, i);
    GraftStepUndisturbed(u, v, w, i);
  }

  lemma GraftStepUndisturbed(u: View, v: View, w: View, i: nat)
    requires Undisturbed(u, v) && SpaceStep(v, w, i) && !Used(u, i)
    requires forall f: nat :: f in u.owner ==> !OfSpace(u.owner[f], i)
    ensures Undisturbed(u, w)
  {
    forall j: nat, page: nat | Used(u, j) && Steady(page)
      ensures Used(w, j) && Walk(w.ram, DirOf(w, j), page) == Walk(u.ram, DirOf(u, j), page)
    {
      assert Used(v, j);
    }
  }

  /** The owners with the lost frame, if any, out of reach. */
  function WithLost(owner: map<nat, Role>, lost: Option<nat>): map<nat, Role> {
    if lost.Some? then owner[lost.value := Held] else owner
  }

  lemma OwnersRestored(before: map<nat, Role>, after: map<nat, Role>, i: nat, lost: Option<nat>)
    requires forall f: nat :: f in before ==> f in after && after[f] == before[f] && !OfSpace(before[f], i)
    requires forall f: nat :: f in after && lost != Some(f) ==>
               OfSpace(after[f], i) || (f in before && before[f] == after[f])
    requires lost.Some? ==> lost.value !in before && lost.value in after && after[lost.value] == Held
    ensures WithoutSpace(after, i) == WithLost(before, lost)
  {
  }

  /** Tearing the new space down restores the owners and the address-space table; only a lost frame stays lost. */
  lemma GraftDestroyed(u: View, v: View, w: View, i: nat, lost: Option<nat>)
    requires Grafted(u, v, i, lost) && Destroyed(v, w, i)
    ensures w.spaces == u.spaces && w.owner == WithLost(u.owner, lost) && Undisturbed(u, w)
  {
    NobodyThere(u, i);
    SlotRestored(u, v, w, i);
    OwnersRestored(u.owner, v.owner, i, lost);
    DestroyUndisturbed(u, v, w, i);
  }

  lemma SlotRestored(u: View, v: View, w: View, i: nat)
    requires Inv(u) && i < |v.spaces| == MAX_ADDRESS_SPACES && !Used(u, i) && v.spaces == u.spaces[i := v.spaces[i]]
    requires w.spaces == v.spaces[i := UNUSED_SPACE]
    ensures w.spaces == u.spaces
  {
    assert u.spaces[i] == UNUSED_SPACE;
  }

  lemma DestroyKeepsOwners(u: View, v: View, w: View, i: nat)
    requires Undisturbed(u, v) && Destroyed(v, w, i) && !Used(u, i)
    requires forall f: nat :: f in u.owner ==> !OfSpace(u.owner[f], i)
    ensures forall f: nat :: f in u.owner ==>
              Has(w, f, u.owner[f]) && (!u.owner[f].KernelTable? ==> w.ram[f] == u.ram[f])
    ensures w.kernel == u.kernel && forall j: nat :: Used(u, j) ==> j != i && Used(w, j)
  {
    hide Inv, Walk;
    DestroyKeepsKernel(v, w, i);
  }

  lemma DestroyUndisturbed(u: View, v: View, w: View, i: nat)
    requires Undisturbed(u, v) && Destroyed(v, w, i) && !Used(u, i)
    requires forall f: nat :: f in u.owner ==> !OfSpace(u.owner[f], i)
    ensures Undisturbed(u, w)
  {
    DestroyKeepsOwners(u, v, w, i);
    DestroyKeepsKernel(v, w, i);
    hide Inv, Walk, Destroyed, KernelOk, DirectoriesOk;
    forall page: nat | Steady(page)
      ensures Walk(w.ram, w.kernel, page) == Walk(u.ram, u.kernel, page)
      ensures forall j: nat :: Used(u, j) ==> Walk(w.ram, DirOf(w, j), page) == Walk(u.ram, DirOf(u, j), page)
    {
      DestroyRefines(v, w, i, page);
    }
  }

  /** The heap's pages outlast all of this. */
  lemma HeapUndisturbed(v: View, w: View, frames: seq<nat>)
    requires Undisturbed(v, w) && HeapPages(v, frames)
    requires forall f: nat :: f in w.owner && w.owner[f].HeapPage? ==> f in v.owner
    ensures HeapPages(w, frames)
  {
    forall f: nat, k: nat
      ensures Has(w, f, HeapPage(k)) <==> Has(v, f, HeapPage(k))
    {
    }
    forall page: nat | page < LOW_FRAMES
      ensures Walk(w.ram, w.kernel, page) == Walk(v.ram, v.kernel, page)
    {
      assert Steady(page);
    }
    HeapPagesKept(v, w, frames);
  }

  // ---- What the new space holds ----

  const STACK_PAGE: int := 0x7FFFF

  /** What the stack page allows: reading and writing from ring 3. */
  const STACK_FLAGS: int := PAGE_PRESENT + PAGE_WRITABLE + PAGE_USER

  /** Some segment has a page of the given number. */
  ghost predicate CoversPage(hs: seq<Segment>, page: nat) {
    exists j: nat :: Loads(hs, j) && Covers(hs[j], page)
  }

  ghost predicate StackLoaded(v: View, sp: nat) {
    && WellTyped(v) && Used(v, sp)
    && var leaf := Walk(v.ram, DirOf(v, sp), STACK_PAGE);
       leaf.Some? && leaf.value.flags == STACK_FLAGS && Has(v, leaf.value.frame, UserPage(sp, STACK_PAGE))
       && forall k: nat :: k < PAGE_SIZE ==> v.ram[leaf.value.frame][k] == 0
  }

  /** The space holds the pages of the image, a cleared stack page, and no page else. */
  ghost predicate ProgramLoaded(v: View, sp: nat, image: seq<uint8>, hs: seq<Segment>)
    requires SegmentsOk(hs, |image|)
  {
    && StackLoaded(v, sp)
    && (forall j: nat, p: nat :: Loads(hs, j) && Covers(hs[j], p) && p != STACK_PAGE ==>
          PageLoaded(v, sp, p, image, hs[j]))
    && (forall f: nat, p: nat :: Has(v, f, UserPage(sp, p)) ==> p == STACK_PAGE || CoversPage(hs, p))
  }

  /** The frames of a space's pages are those that its tables map. */
  lemma OwnPageIsMapped(v: View, sp: nat, f: nat, p: nat)
    requires Inv(v) && Has(v, f, UserPage(sp, p))
    ensures p < ALL_PAGES && Steady(p) && Used(v, sp) && MappedFrame(v, sp, p) == Some(f)
  {
    assert InUse(v, f, UserPage(sp, p));
    assert Owns(v, sp, p / ENTRIES);
  }

  lemma MappedIsOwnPage(v: View, sp: nat, p: nat)
    requires Inv(v) && p < ALL_PAGES && MappedFrame(v, sp, p).Some?
    ensures Has(v, MappedFrame(v, sp, p).value, UserPage(sp, p))
  {
    assert p == p / ENTRIES * ENTRIES + p % ENTRIES;
  }

  /** In a fresh space the loader leaves exactly the pages of the image. */
  lemma FinishedPages(v0: View, v: View, sp: nat, image: seq<uint8>, hs: seq<Segment>, p: nat)
    requires SegmentsOk(hs, |image|) && Finished(v0, v, sp, image, hs) && Inv(v) && p < ALL_PAGES && Steady(p)
    requires forall q: nat :: q < ALL_PAGES ==> MappedFrame(v0, sp, q).None?
    ensures MappedFrame(v, sp, p).Some? <==> CoversPage(hs, p)
  {
    if CoversPage(hs, p) {
      var j: nat :| Loads(hs, j) && Covers(hs[j], p);
      assert PageLoaded(v, sp, p, image, hs[j]);
      OwnPageIsMapped(v, sp, Walk(v.ram, DirOf(v, sp), p).value.frame, p);
    }
  }

  /** The stack page on top of the loaded image. */
  lemma ProgramComplete(v0: View, v: View, w: View, sp: nat, image: seq<uint8>, hs: seq<Segment>, f: nat)
    requires SegmentsOk(hs, |image|) && Finished(v0, v, sp, image, hs) && Inv(v) && Inv(w)
    requires forall q: nat :: q < ALL_PAGES ==> MappedFrame(v0, sp, q).None?
    requires Prepared(v, w, sp, STACK_PAGE, f) && f < ALL_FRAMES
    requires Walk(w.ram, DirOf(w, sp), STACK_PAGE) == Some(Leaf(f, STACK_FLAGS))
    requires forall k: nat :: k < PAGE_SIZE ==> w.ram[f][k] == 0
    ensures ProgramLoaded(w, sp, image, hs)
  {
    forall j: nat, p: nat | Loads(hs, j) && Covers(hs[j], p) && p != STACK_PAGE
      ensures PageLoaded(w, sp, p, image, hs[j])
    {
      PageInUserRange(hs[j], |image|, p);
      PageStaysLoaded(v, w, sp, p, STACK_PAGE, image, hs[j]);
    }
    forall g: nat, p: nat | Has(w, g, UserPage(sp, p)) && p != STACK_PAGE
      ensures CoversPage(hs, p)
    {
      OwnPageIsMapped(w, sp, g, p);
      assert MappedFrame(v, sp, p) == Some(g);
      FinishedPages(v0, v, sp, image, hs, p);
    }
  }

  /** The growth of the heap leaves the program alone. */
  lemma ProgramKept(v: View, w: View, sp: nat, image: seq<uint8>, hs: seq<Segment>)
    requires SegmentsOk(hs, |image|) && ProgramLoaded(v, sp, image, hs) && Grown(v, w) && Inv(w)
    ensures ProgramLoaded(w, sp, image, hs)
  {
    forall j: nat, p: nat | Loads(hs, j) && Covers(hs[j], p) && p != STACK_PAGE
      ensures PageLoaded(w, sp, p, image, hs[j])
    {
      PageInUserRange(hs[j], |image|, p);
      assert PageLoaded(v, sp, p, image, hs[j]) && !InWindow(p);
    }
    forall f: nat, p: nat | Has(w, f, UserPage(sp, p))
      ensures p == STACK_PAGE || CoversPage(hs, p)
    {
      assert Has(v, f, UserPage(sp, p));
    }
  }

  /** Ring 3 reaches exactly the pages of the image and the stack page. */
  lemma AccessibleIsProgram(v: View, sp: nat, image: seq<uint8>, hs: seq<Segment>, page: nat)
    requires SegmentsOk(hs, |image|) && ProgramLoaded(v, sp, image, hs) && Inv(v) && page < ALL_PAGES
    ensures UserAccessible(v.ram, DirOf(v, sp), page) <==> page == STACK_PAGE || CoversPage(hs, page)
  {
    if UserAccessible(v.ram, DirOf(v, sp), page) {
      Isolation(v, sp, page);
    } else if page == STACK_PAGE {
      OwnPageAccessible(v, sp, Walk(v.ram, DirOf(v, sp), page).value.frame, page);
    } else if CoversPage(hs, page) {
      var j: nat :| Loads(hs, j) && Covers(hs[j], page);
      assert PageLoaded(v, sp, page, image, hs[j]);
      OwnPageAccessible(v, sp, Walk(v.ram, DirOf(v, sp), page).value.frame, page);
    }
  }

  lemma OwnPageAccessible(v: View, sp: nat, f: nat, page: nat)
    requires Inv(v) && Used(v, sp) && page < ALL_PAGES && Has(v, f, UserPage(sp, page))
    ensures UserAccessible(v.ram, DirOf(v, sp), page)
  {
    var d := page / ENTRIES;
    assert page == d * ENTRIES + page % ENTRIES;
    assert InUse(v, f, UserPage(sp, page));
    assert Owns(v, sp, d) && Present(Pde(v, sp, d)) && User(Pde(v, sp, d));
    assert User(Pte(v, sp, d, page % ENTRIES));
  }

  /** An executable of one segment that asks for the page of the stack. */
  function StackImage(): (image: seq<uint8>)
    ensures |image| == EHDR_SIZE + PHDR_SIZE
  {
    Executable(0x7FFF_F000, [Segment(PT_LOAD, 0, 0x7FFF_F000, 0, 0x1000, 6)], [])
  }

  lemma StackSegment(hs: seq<Segment>)
    requires hs == [Segment(1, 0, 0x7FFF_F000, 0, 0x1000, 6)]
    ensures SegmentsOk(hs, 84) && Between(hs, 0x7FFF_F000) && !Overlapping(hs) && CoversPage(hs, STACK_PAGE)
    ensures PagesFrom(hs, 0) == [STACK_PAGE]
  {
    assert Loads(hs, 0) && Covers(hs[0], STACK_PAGE);
    assert PageRange(STACK_PAGE, STACK_PAGE + 1) == [STACK_PAGE] + PageRange(STACK_PAGE + 1, STACK_PAGE + 1);
    assert PagesOf(hs[0]) == PageRange(STACK_PAGE, STACK_PAGE + 1);
    assert PagesFrom(hs, 1) == [];
    assert PagesFrom(hs, 0) == PagesOf(hs[0]) + PagesFrom(hs, 1);
  }

  /** The validator and the loader accept it. */
  lemma StackImageAccepted()
    ensures ValidElf(StackImage()) && !Overlapping(Headers(StackImage()))
            && CoversPage(Headers(StackImage()), STACK_PAGE)
    ensures PagesFrom(Headers(StackImage()), 0) == [STACK_PAGE]
  {
    ExecutableRead(0x7FFF_F000, [Segment(PT_LOAD, 0, 0x7FFF_F000, 0, 0x1000, 6)], []);
    hide HeaderOk, Headers, EntryPoint, StackImage, SegmentsOk, Between, Overlapping, CoversPage;
    StackSegment(Headers(StackImage()));
  }
}
