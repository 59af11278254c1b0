/** Steps that work on one address space: what every other part of the machine keeps. */
module SpaceSteps {
  import opened Words
  import opened PageTables
  import opened Ownership
  import opened PhysicalCopy
  import opened Paging

  /** The temporary window does not translate this page. */
  predicate Steady(page: nat) {
    page < ALL_PAGES && page / ENTRIES != TEMPORARY_DIRECTORY
  }

  /** Apart from frame x, a step from v to w changes nothing that belongs to the kernel, the heap, a caller of the
      allocator or a space other than sp, except that frames of sp may end up held. */
  ghost predicate StepExcept(v: View, w: View, sp: nat, x: nat) {
    && WellTyped(v) && WellTyped(w) && w.kernel == v.kernel && Used(v, sp)
    && w.spaces == v.spaces[sp := Space(true, v.spaces[sp].directory, w.spaces[sp].owned)]
    && (forall f: nat :: f in v.owner && f != x && !OfSpace(v.owner[f], sp) ==>
          Has(w, f, v.owner[f]) && (!v.owner[f].KernelTable? ==> w.ram[f] == v.ram[f]))
    && (forall f: nat :: f in w.owner && f != x && !OfSpace(w.owner[f], sp) && !w.owner[f].Held? ==>
          Has(v, f, w.owner[f]))
    && (forall page: nat :: Steady(page) ==> Walk(w.ram, w.kernel, page) == Walk(v.ram, v.kernel, page))
    && (forall j: nat, page: nat :: Used(v, j) && j != sp && Steady(page) ==>
          Walk(w.ram, DirOf(w, j), page) == Walk(v.ram, DirOf(v, j), page))
  }

  /** The same without an exception. */
  ghost predicate SpaceStep(v: View, w: View, sp: nat) {
    StepExcept(v, w, sp, ALL_FRAMES)
  }

  /** No frame but x becomes held. */
  ghost predicate NoLeak(v: View, w: View, x: nat) {
    forall f: nat :: f in w.owner && f != x && w.owner[f].Held? ==> Has(v, f, Held)
  }

  /** The pages of sp other than the given one keep their translation, their frames and their bytes. */
  ghost predicate OwnKept(v: View, w: View, sp: nat, page: nat)
    requires WellTyped(v) && WellTyped(w) && Used(v, sp) && Used(w, sp)
  {
    && (forall p: nat :: Steady(p) && p != page ==>
          Walk(w.ram, DirOf(w, sp), p) == Walk(v.ram, DirOf(v, sp), p)
          && MappedFrame(w, sp, p) == MappedFrame(v, sp, p))
    && (forall f: nat :: f in v.owner && IsOtherPage(v.owner[f], sp, page) ==>
          f in w.owner && w.owner[f] == v.owner[f] && w.ram[f] == v.ram[f])
  }

  predicate IsOtherPage(r: Role, sp: nat, page: nat) {
    r.UserPage? && r.space == sp && r.page != page
  }

  lemma StepTrans(u: View, v: View, w: View, sp: nat, x: nat)
    requires StepExcept(u, v, sp, x) && StepExcept(v, w, sp, x)
    ensures StepExcept(u, w, sp, x)
  {
  }

  lemma OwnKeptTrans(u: View, v: View, w: View, sp: nat, page: nat)
    requires WellTyped(u) && WellTyped(v) && WellTyped(w) && Used(u, sp) && Used(v, sp) && Used(w, sp)
    requires OwnKept(u, v, sp, page) && OwnKept(v, w, sp, page)
    ensures OwnKept(u, w, sp, page)
  {
  }

  /** The exception can be dropped when the frame was free before and belongs to the space, or is free again, after. */
  lemma DropException(v: View, w: View, sp: nat, x: nat)
    requires StepExcept(v, w, sp, x) && x !in v.owner && (x in w.owner ==> OfSpace(w.owner[x], sp))
    ensures SpaceStep(v, w, sp)
  {
  }

  lemma TakeIsStep(v: View, w: View, sp: nat, f: nat)
    requires WellTyped(v) && WellTyped(w) && Used(v, sp) && f !in v.owner && w == v.(owner := v.owner[f := Held])
    ensures StepExcept(v, w, sp, f) && NoLeak(v, w, f)
  {
  }

  lemma TakeKeepsOwn(v: View, w: View, sp: nat, f: nat, page: nat)
    requires WellTyped(v) && WellTyped(w) && Used(v, sp) && f !in v.owner && w == v.(owner := v.owner[f := Held])
    ensures OwnKept(v, w, sp, page)
    ensures page < ALL_PAGES ==> MappedFrame(w, sp, page) == MappedFrame(v, sp, page)
    ensures forall d: nat :: d < ENTRIES ==> Pde(w, sp, d) == Pde(v, sp, d)
  {
    assert forall p: nat :: Steady(p) ==> MappedFrame(w, sp, p) == MappedFrame(v, sp, p);
  }

  /** The bytes [pa, pa + size) lie in frame f. */
  predicate InFrame(f: nat, pa: nat, size: nat) {
    f * PAGE_SIZE <= pa && pa + size <= (f + 1) * PAGE_SIZE
  }

  lemma InFrameIsData(owner: map<nat, Role>, f: nat, pa: uint32, size: nat)
    requires InFrame(f, pa, size) && f in owner && IsData(owner[f])
    ensures DataRange(owner, pa, size)
  {
  }

  /** A copy into one data frame changes that frame and the window only. */
  lemma CopyIsStep(v: View, w: View, window: nat, f: nat, pa: uint32, data: seq<uint8>, sp: nat)
    requires Inv(v) && Booted(v, window) && window < ALL_FRAMES && Used(v, sp)
    requires w == v.(ram := w.ram) && Written(v.ram, w.ram, window, pa, data)
    requires InFrame(f, pa, |data|) && f in v.owner && IsData(v.owner[f])
    ensures StepExcept(v, w, sp, f) && NoLeak(v, w, f)
    ensures forall g: nat :: g in v.owner && g != f && !v.owner[g].KernelTable? ==> w.ram[g] == v.ram[g]
    ensures forall page: nat :: Steady(page) ==> Walk(w.ram, DirOf(w, sp), page) == Walk(v.ram, DirOf(v, sp), page)
    ensures forall page: nat :: Steady(page) ==> MappedFrame(w, sp, page) == MappedFrame(v, sp, page)
  {
    hide U32, IsData;
    InFrameIsData(v.owner, f, pa, |data|);
    WindowOwner(v, window);
    forall g: nat | g in v.owner && g != f && !v.owner[g].KernelTable?
      ensures w.ram[g] == v.ram[g]
    {
      FrameUntouched(v.ram, w.ram, window, pa, data, g);
    }
    CopyKeepsStructure(v, w, window, pa, data);
    OnlyDataKeepsEntries(v, w);
    hide Written, Entry;
    forall page: nat | Steady(page)
      ensures Walk(w.ram, w.kernel, page) == Walk(v.ram, v.kernel, page)
      ensures forall i: nat :: Used(v, i) ==> Walk(w.ram, DirOf(w, i), page) == Walk(v.ram, DirOf(v, i), page)
      ensures MappedFrame(w, sp, page) == MappedFrame(v, sp, page)
    {
      CopyKeepsWalks(v, w, window, pa, data, page);
    }
  }

  /** A copy into a frame that is no other page of sp. */
  lemma CopyKeepsOwn(v: View, w: View, window: nat, f: nat, pa: uint32, data: seq<uint8>, sp: nat, page: nat)
    requires Inv(v) && Booted(v, window) && window < ALL_FRAMES && Used(v, sp)
    requires w == v.(ram := w.ram) && Written(v.ram, w.ram, window, pa, data)
    requires InFrame(f, pa, |data|) && f in v.owner && IsData(v.owner[f]) && !IsOtherPage(v.owner[f], sp, page)
    ensures OwnKept(v, w, sp, page)
    ensures forall d: nat :: d < ENTRIES ==> Pde(w, sp, d) == Pde(v, sp, d)
  {
    CopyIsStep(v, w, window, f, pa, data, sp);
    hide Inv, Booted, StepExcept, Written, Walk, MappedFrame;
    DirectoryOwned(v, sp);
    assert w.ram[DirOf(v, sp)] == v.ram[DirOf(v, sp)];
  }

  lemma DirectoryOwned(v: View, i: nat)
    requires Inv(v) && Used(v, i)
    ensures Has(v, DirOf(v, i), Directory(i))
  {
  }

  lemma WindowOwner(v: View, window: nat)
    requires Inv(v) && Booted(v, window)
    ensures Has(v, window, KernelTable(TEMPORARY_DIRECTORY))
  {
    assert Present(KernelPde(v, TEMPORARY_DIRECTORY));
  }

  /** Mapping a page of sp on the held frame m.p. */
  lemma MapIsStep(v: View, w: View, m: UserMap)
    requires UserMapped(v, w, m)
    ensures StepExcept(v, w, m.i, m.p)
    ensures var replaced := MappedFrame(v, m.i, m.page);
            if replaced.None? then NoLeak(v, w, m.p) else Has(w, replaced.value, Held) && NoLeak(v, w, replaced.value)
    ensures Walk(w.ram, DirOf(w, m.i), m.page) == LeafOf(m.pte) && w.ram[m.p] == v.ram[m.p]
  {
    hide U32;
    UserMapKeepsKernel(v, w, m);
    MapWalks(v, w, m);
    MapLeavesFrames(v, w, m);
    MapMovesOwners(v, w, m);
    hide Walk, Entry, Inv, Mapped, OwnerAfterMap;
  }

  /** Only frames of the space, and the frame that is mapped, are written or change hands. */
  lemma MapLeavesFrames(v: View, w: View, m: UserMap)
    requires UserMapped(v, w, m)
    ensures forall f: nat :: f in v.owner && f != m.p && !OfSpace(v.owner[f], m.i) ==>
              Has(w, f, v.owner[f]) && w.ram[f] == v.ram[f]
    ensures w.ram[m.p] == v.ram[m.p]
  {
    hide Walk, KernelOk, SharedOk, Exact;
    assert Has(v, DirOf(v, m.i), Directory(m.i));
  }

  lemma MapMovesOwners(v: View, w: View, m: UserMap)
    requires UserMapped(v, w, m)
    ensures forall f: nat :: f in w.owner && f != m.p && !OfSpace(w.owner[f], m.i) && !w.owner[f].Held? ==>
              Has(v, f, w.owner[f])
    ensures var replaced := MappedFrame(v, m.i, m.page);
            if replaced.None? then NoLeak(v, w, m.p) else Has(w, replaced.value, Held) && NoLeak(v, w, replaced.value)
  {
    hide Walk, KernelOk, SharedOk, Exact, Mapped;
    var d, t := m.page / ENTRIES, m.page % ENTRIES;
    assert m.page == d * ENTRIES + t;
  }

  lemma MapWalks(v: View, w: View, m: UserMap)
    requires UserMapped(v, w, m)
    ensures forall page: nat :: page < ALL_PAGES ==> Walk(w.ram, w.kernel, page) == Walk(v.ram, v.kernel, page)
    ensures forall j: nat, page: nat :: Used(v, j) && page < ALL_PAGES ==>
              Walk(w.ram, DirOf(w, j), page) ==
              if j == m.i && page == m.page then LeafOf(m.pte) else Walk(v.ram, DirOf(v, j), page)
  {
    hide Mapped;
    forall page: nat | page < ALL_PAGES
      ensures Walk(w.ram, w.kernel, page) == Walk(v.ram, v.kernel, page)
    {
      UserMapRefines(v, w, m, page);
    }
    forall j: nat, page: nat | Used(v, j) && page < ALL_PAGES
      ensures Walk(w.ram, DirOf(w, j), page) ==
              if j == m.i && page == m.page then LeafOf(m.pte) else Walk(v.ram, DirOf(v, j), page)
    {
      UserMapRefines(v, w, m, page);
    }
  }

  lemma MapKeepsOwn(v: View, w: View, m: UserMap)
    requires UserMapped(v, w, m) && WellTyped(w)
    ensures Used(w, m.i) && OwnKept(v, w, m.i, m.page)
  {
    UserMapKeepsOwned(v, w, m);
    assert Has(v, DirOf(v, m.i), Directory(m.i));
    forall p: nat | Steady(p) && p != m.page
      ensures Walk(w.ram, DirOf(w, m.i), p) == Walk(v.ram, DirOf(v, m.i), p)
      ensures MappedFrame(w, m.i, p) == MappedFrame(v, m.i, p)
    {
      UserMapRefines(v, w, m, p);
      UserMapMappedFrame(v, w, m, p);
    }
    UserMapKeepsFrames(v, w, m);
  }

  lemma UserMapMappedFrame(v: View, w: View, m: UserMap, p: nat)
    requires UserMapped(v, w, m) && WellTyped(w) && OwnedOk(w) && p < ALL_PAGES && p != m.page
    ensures MappedFrame(w, m.i, p) == MappedFrame(v, m.i, p)
  {
    hide U32;
    var d, t := p / ENTRIES, p % ENTRIES;
    assert p == d * ENTRIES + t && m.page == m.page / ENTRIES * ENTRIES + m.page % ENTRIES;
    if Owns(w, m.i, d) {
      UserMapPte(v, w, m, m.i, d, t);
    }
  }

  lemma UserMapKeepsFrames(v: View, w: View, m: UserMap)
    requires UserMapped(v, w, m)
    ensures forall f: nat :: f in v.owner && IsOtherPage(v.owner[f], m.i, m.page) ==>
              f in w.owner && w.owner[f] == v.owner[f] && w.ram[f] == v.ram[f]
  {
    hide U32;
    var d := m.page / ENTRIES;
    assert Has(v, DirOf(v, m.i), Directory(m.i));
    assert m.newTable.None? ==> Has(v, FrameOf(m.pde), Table(m.i, d)) by {
      assert m.newTable.None? ==> Owns(v, m.i, d);
    }
    var replaced := MappedFrame(v, m.i, m.page);
    assert replaced.Some? ==> Has(v, replaced.value, UserPage(m.i, m.page)) by {
      assert m.page == d * ENTRIES + m.page % ENTRIES;
    }
  }
}
