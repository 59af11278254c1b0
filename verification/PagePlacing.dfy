/** Putting one cleared page into an address space: the steps that loading a segment and making a stack have in common
    (src/kernel/elf.c, src/kernel/task.c). */
module PagePlacing {
  import opened Words
  import opened Pmm
  import opened PageTables
  import opened Ownership
  import opened PhysicalCopy
  import opened Paging
  import opened SpaceSteps
  import opened Budgets

  /** The frame that the page was mapped on before is held by nobody who would free it, and it is the only one. */
  ghost predicate Replaced(v: View, w: View, was: Option<nat>) {
    was.Some? ==> Has(w, was.value, Held) && NoLeak(v, w, was.value)
  }

  /** The first three actions for one page: take a frame, clear it, map it. */
  ghost predicate Prepared(v: View, w: View, sp: nat, page: nat, f: nat) {
    && StepExcept(v, w, sp, f) && f !in v.owner && Used(w, sp) && OwnKept(v, w, sp, page) && page < ALL_PAGES
    && (MappedFrame(v, sp, page).None? ==> NoLeak(v, w, f))
    && Replaced(v, w, MappedFrame(v, sp, page))
    && f in w.owner && w.owner[f] == UserPage(sp, page)
  }

  lemma ClearedAndMapped(v0: View, v1: View, v2: View, v3: View, window: nat, f: nat, m: UserMap)
    requires Inv(v0) && f < ALL_FRAMES && f !in v0.owner && Used(v0, m.i) && v1 == v0.(owner := v0.owner[f := Held])
    requires Inv(v1) && Booted(v1, window) && window < ALL_FRAMES
    requires v2 == v1.(ram := v2.ram) && Written(v1.ram, v2.ram, window, f * PAGE_SIZE, ZERO_PAGE)
    requires UserMapped(v2, v3, m) && m.p == f && Steady(m.page)
    ensures Prepared(v0, v3, m.i, m.page, f)
    ensures Walk(v3.ram, DirOf(v3, m.i), m.page) == LeafOf(m.pte)
    ensures forall k: nat :: k < PAGE_SIZE ==> v3.ram[f][k] == 0
  {
    hide Inv, Booted, StepExcept, OwnKept, UserMapped, Written, NoLeak, Entry, Walk, MappedFrame;
    TakenAndCleared(v0, v1, v2, window, f, m.i, m.page);
    MapKeepsTyped(v2, v3, m);
    MapIsStep(v2, v3, m);
    MapKeepsOwn(v2, v3, m);
    StepTrans(v0, v2, v3, m.i, f);
    OwnKeptTrans(v0, v2, v3, m.i, m.page);
    NoLeakTrans(v0, v2, v3, f);
    var was := MappedFrame(v2, m.i, m.page);
    if was.Some? {
      NoLeakBut(v0, v2, v3, f, was.value);
    }
    WindowOwner(v1, window);
    FrameZeroed(v1.ram, v2.ram, window, f);
  }

  lemma MapKeepsTyped(v: View, w: View, m: UserMap)
    requires UserMapped(v, w, m)
    ensures WellTyped(v) && WellTyped(w) && Used(v, m.i) && Used(w, m.i) && m.page < ALL_PAGES && m.p < ALL_FRAMES
    ensures Has(w, m.p, UserPage(m.i, m.page))
  {
    UserMapKeepsKernel(v, w, m);
  }

  lemma NoLeakTrans(u: View, v: View, w: View, x: nat)
    requires NoLeak(u, v, x)
    ensures NoLeak(v, w, x) ==> NoLeak(u, w, x)
  {
  }

  lemma NoLeakBut(u: View, v: View, w: View, f: nat, x: nat)
    requires NoLeak(u, v, f) && NoLeak(v, w, x) && (f in w.owner ==> !w.owner[f].Held?)
    ensures NoLeak(u, w, x)
  {
  }

  lemma FrameZeroed(before: Ram, after: Ram, window: nat, f: nat)
    requires f < ALL_FRAMES && f != window && Written(before, after, window, f * PAGE_SIZE, ZERO_PAGE)
    ensures forall k: nat :: k < PAGE_SIZE ==> after[f][k] == 0
  {
    forall k: nat | k < PAGE_SIZE
      ensures after[f][k] == 0
    {
      var a: uint32 := f * PAGE_SIZE + k;
      assert a / PAGE_SIZE == f && a % PAGE_SIZE == k;
      assert ByteAt(after, a) == 0;
    }
  }

  lemma GivenBack(v0: View, v2: View, v3: View, sp: nat, page: nat, f: nat)
    requires StepExcept(v0, v2, sp, f) && f !in v0.owner && Used(v2, sp) && OwnKept(v0, v2, sp, page)
    requires v2.owner == v0.owner[f := Held] && v3 == v2.(owner := v2.owner - {f})
    ensures v3.owner == v0.owner
    ensures SpaceStep(v0, v3, sp) && OwnKept(v0, v3, sp, page) && NoLeak(v0, v3, ALL_FRAMES)
  {
    hide Walk;
    assert v3.owner == v0.owner;
    GivenBackOwn(v0, v2, v3, sp, page);
    hide OwnKept;
    assert StepExcept(v0, v3, sp, f);
    DropException(v0, v3, sp, f);
  }

  lemma GivenBackOwn(v0: View, v2: View, v3: View, sp: nat, page: nat)
    requires WellTyped(v0) && WellTyped(v2) && WellTyped(v3) && Used(v0, sp) && Used(v2, sp)
             && OwnKept(v0, v2, sp, page)
    requires v3 == v2.(owner := v0.owner)
    ensures OwnKept(v0, v3, sp, page)
  {
    assert forall p: nat :: Steady(p) ==> MappedFrame(v3, sp, p) == MappedFrame(v2, sp, p);
  }

  lemma TakenAndCleared(v0: View, v1: View, v2: View, window: nat, f: nat, sp: nat, page: nat)
    requires Inv(v0) && f < ALL_FRAMES && f !in v0.owner && Used(v0, sp) && v1 == v0.(owner := v0.owner[f := Held])
    requires Inv(v1) && Booted(v1, window) && window < ALL_FRAMES && page < ALL_PAGES
    requires v2 == v1.(ram := v2.ram) && Written(v1.ram, v2.ram, window, f * PAGE_SIZE, ZERO_PAGE)
    ensures StepExcept(v0, v2, sp, f) && NoLeak(v0, v2, f) && OwnKept(v0, v2, sp, page)
    ensures forall d: nat :: d < ENTRIES ==> Pde(v2, sp, d) == Pde(v0, sp, d)
    ensures Steady(page) ==> MappedFrame(v2, sp, page) == MappedFrame(v0, sp, page)
  {
    hide Inv, Booted, StepExcept, OwnKept, Written, NoLeak, Entry, Walk, MappedFrame;
    InvIsTyped(v0);
    TakeIsStep(v0, v1, sp, f);
    CopyIsStep(v1, v2, window, f, f * PAGE_SIZE, ZERO_PAGE, sp);
    StepTrans(v0, v1, v2, sp, f);
    CopyKeepsOwn(v1, v2, window, f, f * PAGE_SIZE, ZERO_PAGE, sp, page);
    TakeKeepsOwn(v0, v1, sp, f, page);
    OwnKeptTrans(v0, v1, v2, sp, page);
    NoLeakTrans(v0, v1, v2, f);
  }

  // ---- What the page costs ----

  lemma NothingToTake(v: View, free: set<nat>, sp: nat, page: nat)
    requires WellTyped(v) && Used(v, sp) && free == {}
    ensures PayPage(PurseOf(v, free, sp), Foreign(v, sp), page).None?
  {
    NoneFree(free, MAX_FRAMES);
  }

  /** Without a table of its own and without a second low frame the page cannot be mapped. */
  lemma PageRefused(v: View, free: set<nat>, f: nat, sp: nat, page: nat)
    requires WellTyped(v) && Used(v, sp) && page < ALL_PAGES && f in free && forall g :: g in free ==> f <= g
    requires if Present(Pde(v, sp, page / ENTRIES)) then !Owns(v, sp, page / ENTRIES) else !SomeLow(free - {f})
    requires 0 !in free && OwnedOk(v)
    ensures PayPage(PurseOf(v, free, sp), Foreign(v, sp), page).None?
  {
    var d := page / ENTRIES;
    if !Present(Pde(v, sp, d)) {
      LeastTaken(free, f, LOW_FRAMES);
      CountLow(free - {f}, LOW_FRAMES);
      assert !Owns(v, sp, d);
    }
  }

  /** The numbers of free frames after a frame has been taken, and after a low one for the table. */
  lemma FramesPaid(free: set<nat>, f: nat, newTable: Option<nat>, tables: set<nat>, d: nat, foreign: set<nat>,
                   page: nat)
    requires f in free && forall g :: g in free ==> f <= g && g < MAX_FRAMES
    requires newTable.Some? ==> newTable.value in free - {f} && newTable.value < LOW_FRAMES
    requires d == page / ENTRIES && d !in foreign && (newTable.None? <==> d in tables)
    ensures var left := free - {f} - (if newTable.Some? then {newTable.value} else {});
            PayPage(Purse(CountBelow(free, LOW_FRAMES), CountBelow(free, MAX_FRAMES), tables), foreign, page) ==
            Some(Purse(CountBelow(left, LOW_FRAMES), CountBelow(left, MAX_FRAMES), tables + {d}))
  {
    hide CountBelow;
    LeastTaken(free, f, LOW_FRAMES);
    LeastTaken(free, f, MAX_FRAMES);
    CountLow(free, MAX_FRAMES);
    if newTable.Some? {
      var t, left := newTable.value, free - {f} - {newTable.value};
      assert left + {t} == free - {f};
      CountInsert(left, free - {f}, t, LOW_FRAMES);
      CountInsert(left, free - {f}, t, MAX_FRAMES);
    } else {
      assert tables + {d} == tables && free - {f} - {} == free - {f};
    }
  }

  /** What a mapped page has cost. */
  lemma PagePaid(v0: View, v2: View, v3: View, m: UserMap, free: set<nat>, f: nat)
    requires UserMapped(v2, v3, m) && WellTyped(v0) && v2.spaces == v0.spaces && WellTyped(v3) && Used(v3, m.i)
    requires forall d: nat :: d < ENTRIES ==> Pde(v2, m.i, d) == Pde(v0, m.i, d)
    requires f in free && forall g :: g in free ==> f <= g && g < MAX_FRAMES
    requires m.newTable.Some? ==> m.newTable.value in free - {f}
    ensures var left := free - {f} - (if m.newTable.Some? then {m.newTable.value} else {});
            PayPage(PurseOf(v0, free, m.i), Foreign(v0, m.i), m.page) == Some(PurseOf(v3, left, m.i))
    ensures Foreign(v3, m.i) == Foreign(v0, m.i)
  {
    ForeignKept(v0, v2, v3, m);
    TablesAfterMap(v2, v3, m);
    hide UserMapped, Foreign;
    FramesPaid(free, f, m.newTable, v0.spaces[m.i].owned, m.page / ENTRIES, Foreign(v0, m.i), m.page);
  }

  lemma TablesAfterMap(v: View, w: View, m: UserMap)
    requires UserMapped(v, w, m)
    ensures m.i < |w.spaces| && w.spaces[m.i].owned == v.spaces[m.i].owned + {m.page / ENTRIES}
    ensures m.newTable.Some? ==> m.newTable.value < LOW_FRAMES && m.newTable.value !in v.owner
  {
  }

  lemma ForeignKept(v0: View, v2: View, v3: View, m: UserMap)
    requires UserMapped(v2, v3, m) && WellTyped(v0) && v2.spaces == v0.spaces && WellTyped(v3) && Used(v3, m.i)
    requires forall d: nat :: d < ENTRIES ==> Pde(v2, m.i, d) == Pde(v0, m.i, d)
    ensures Foreign(v3, m.i) == Foreign(v0, m.i) && m.page / ENTRIES !in Foreign(v0, m.i)
    ensures m.newTable.None? <==> m.page / ENTRIES in v0.spaces[m.i].owned
  {
    var sp := m.i;
    assert !(m.page / ENTRIES in Foreign(v0, sp)) by {
      assert Pde(v2, sp, m.page / ENTRIES) == Pde(v0, sp, m.page / ENTRIES);
    }
    forall d: nat | d < ENTRIES && d != m.page / ENTRIES
      ensures Pde(v3, sp, d) == Pde(v0, sp, d) && Owns(v3, sp, d) == Owns(v0, sp, d)
    {
      UserMapKeepsOthers(v2, v3, m, sp, d);
    }
  }

  lemma KeysAfterMap(v: View, w: View, m: UserMap)
    requires UserMapped(v, w, m)
    ensures w.owner.Keys == v.owner.Keys + if m.newTable.Some? then {m.newTable.value} else {}
  {
    hide Entry;
    var replaced := MappedFrame(v, m.i, m.page);
    if replaced.Some? {
      assert m.page == m.page / ENTRIES * ENTRIES + m.page % ENTRIES;
      assert Has(v, replaced.value, UserPage(m.i, m.page));
    }
  }

  lemma FreeAfterMap(managed: set<nat>, owner0: map<nat, Role>, owner2: map<nat, Role>, owner3: map<nat, Role>,
                     free: set<nat>, left: set<nat>, f: nat, m: UserMap)
    requires free == managed - owner0.Keys && owner2 == owner0[f := Held] && left == managed - owner3.Keys
    requires owner3.Keys <= managed && (m.newTable.Some? ==> m.newTable.value !in owner2)
    requires owner3.Keys == owner2.Keys + if m.newTable.Some? then {m.newTable.value} else {}
    ensures left == free - {f} - if m.newTable.Some? then {m.newTable.value} else {}
    ensures m.newTable.Some? ==> m.newTable.value in free - {f}
  {
    assert owner2.Keys == owner0.Keys + {f};
  }

  /** The page is paid for. */
  lemma Settled(managed: set<nat>, v0: View, v2: View, v3: View, m: UserMap, free: set<nat>, left: set<nat>, f: nat)
    requires UserMapped(v2, v3, m) && WellTyped(v0) && v2.spaces == v0.spaces && WellTyped(v3) && Used(v3, m.i)
    requires forall d: nat :: d < ENTRIES ==> Pde(v2, m.i, d) == Pde(v0, m.i, d)
    requires f in free && forall g :: g in free ==> f <= g && g < MAX_FRAMES
    requires free == managed - v0.owner.Keys && v2.owner == v0.owner[f := Held]
    requires left == managed - v3.owner.Keys && v3.owner.Keys <= managed
    ensures Used(v0, m.i) && Paid(v0, free, v3, left, m.i, m.page)
  {
    TablesAfterMap(v2, v3, m);
    KeysAfterMap(v2, v3, m);
    FreeAfterMap(managed, v0.owner, v2.owner, v3.owner, free, left, f, m);
    PagePaid(v0, v2, v3, m, free, f);
  }

  lemma PreparedMeans(v: View, w: View, sp: nat, page: nat, f: nat)
    requires Prepared(v, w, sp, page, f)
    ensures f < ALL_FRAMES && Has(w, f, UserPage(sp, page)) && IsData(w.owner[f])
  {
  }

  lemma NothingDone(v: View, sp: nat, page: nat)
    requires WellTyped(v) && Used(v, sp)
    ensures SpaceStep(v, v, sp) && OwnKept(v, v, sp, page) && NoLeak(v, v, ALL_FRAMES)
  {
  }

  /** Takes a frame, clears it and maps it as page va of the space; or gives it back and changes nothing. It succeeds
      exactly if the page can be paid for, and costs exactly that. */
  method PlaceClearedPage(vm: AddressSpaces, sp: nat, va: uint32, pageFlags: uint32) returns (ok: bool, frame: uint32)
    requires vm.Valid() && Used(vm.State(), sp) && va % PAGE_SIZE == 0
    requires Steady(va / PAGE_SIZE) && IsUserIndex(va / PAGE_SIZE / ENTRIES)
    modifies vm`ram, vm`spaces, vm`owner, vm.pmm.Repr
    ensures vm.Valid() && vm.pmm.Reserved() == old(vm.pmm.Reserved()) && Used(vm.State(), sp)
    ensures ok ==> frame % PAGE_SIZE == 0
                   && Prepared(old(vm.State()), vm.State(), sp, va / PAGE_SIZE, frame / PAGE_SIZE)
                   && Walk(vm.ram, DirOf(vm.State(), sp), va / PAGE_SIZE) ==
                      LeafOf(WithPresent(MakeEntry(frame, WithPresent(WithUser(pageFlags)))))
                   && forall k: nat :: k < PAGE_SIZE ==> vm.ram[frame / PAGE_SIZE][k] == 0
    ensures !ok ==> SpaceStep(old(vm.State()), vm.State(), sp)
                    && OwnKept(old(vm.State()), vm.State(), sp, va / PAGE_SIZE)
                    && NoLeak(old(vm.State()), vm.State(), ALL_FRAMES)
    ensures ok ==> Paid(old(vm.State()), old(vm.pmm.Free()), vm.State(), vm.pmm.Free(), sp, va / PAGE_SIZE)
    ensures !ok ==> Unaffordable(old(vm.State()), old(vm.pmm.Free()), sp, va / PAGE_SIZE)
  {
    hide AddressSpaces.Valid, FrameAllocator.Valid, FrameAllocator.Free, Inv, Booted, Prepared;
    hide Written, OnlyFirstEntry, Entry, Walk, StepExcept, OwnKept, NoLeak, Paid, UserMapped, MappedFrame;
    ghost var v0, free, page := vm.State(), vm.pmm.Free(), va / PAGE_SIZE;
    ValidMeans(vm);
    FreeIsTheRest(vm);
    frame := vm.TakeFrame();
    if frame == 0 {
      NothingDone(v0, sp, page);
      NothingToTake(v0, free, sp, page);
      return false, frame;
    }
    ghost var f, window, v1 := frame / PAGE_SIZE, vm.Window(), vm.State();
    ValidMeans(vm);
    InFrameIsData(vm.owner, f, frame, PAGE_SIZE);
    DataKeepsOff(vm, frame, PAGE_SIZE);
    var cleared := vm.CopyToPhysical(frame, ZERO_PAGE);
    ghost var v2 := vm.State();
    TakenAndCleared(v0, v1, v2, window, f, sp, page);
    FreeIsTheRest(vm);
    if !cleared {
      // The failure branch of the callers is never reached: a page is not empty.
      assert false;
    }
    ghost var m;
    ok, m := vm.MapUserPage(Some(sp), va, frame, pageFlags);
    if !ok {
      vm.GiveBack(frame);
      GivenBack(v0, v2, vm.State(), sp, page, f);
      PageRefused(v0, free, f, sp, page);
      return false, frame;
    }
    ClearedAndMapped(v0, v1, v2, vm.State(), window, f, m);
    MapKeepsTyped(v2, vm.State(), m);
    FreeIsTheRest(vm);
    Settled(vm.managed, v0, v2, vm.State(), m, free, vm.pmm.Free(), f);
  }
}
