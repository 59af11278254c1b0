/** Page tables and address spaces in place (src/kernel/paging.c). */
module Paging {
  import opened Words
  import opened Pmm
  import opened PageTables
  import opened Ownership
  import opened PhysicalCopy
  import opened Teardown

  /** A pointer to an address space: null, `kernel_address_space`, or a slot of `address_spaces`. */
  datatype SpaceRef = NullSpace | KernelSpace | Slot(i: nat)

  const TEMPORARY_DIRECTORY: int := 8

  /** The frame would be given back to the allocator when its owner goes. */
  predicate Releasable(r: Role) {
    !r.KernelDirectory? && !r.KernelTable?
  }

  /** Every managed frame is free or has exactly one owner, never both. */
  ghost predicate Accounted(owner: map<nat, Role>, free: set<nat>, reserved: set<nat>, managed: set<nat>) {
    && free !! owner.Keys && free + owner.Keys == managed
    && forall f :: f in owner && Releasable(owner[f]) ==> f < MAX_FRAMES && f !in reserved
  }

  /** The tables of `paging_initialize` are in place: the identity map and the temporary window. */
  ghost predicate Booted(v: View, temporary: nat)
    requires WellTyped(v)
  {
    (forall d: nat :: d <= TEMPORARY_DIRECTORY ==> Present(KernelPde(v, d)))
    && FrameOf(KernelPde(v, TEMPORARY_DIRECTORY)) == temporary
  }

  function IdentityEntry(page: nat): uint32
    requires page < LOW_FRAMES
  {
    MakeEntry(page * PAGE_SIZE, PAGE_PRESENT + PAGE_WRITABLE)
  }

  lemma IdentityLeaf(page: nat)
    requires page < LOW_FRAMES
    ensures LeafOf(IdentityEntry(page)) == Some(Leaf(page, PAGE_PRESENT + PAGE_WRITABLE))
  {
  }

  /** The frames of the static kernel directory and of its first nine tables. */
  datatype StaticTables = StaticTables(directory: nat, tables: seq<nat>)

  ghost predicate LayoutOk(l: StaticTables) {
    && |l.tables| == TEMPORARY_DIRECTORY + 1 && Editable(l.directory) && l.directory !in l.tables
    && (forall d: nat :: d <= TEMPORARY_DIRECTORY ==> Editable(l.tables[d]))
    && (forall d: nat, e: nat :: d < e <= TEMPORARY_DIRECTORY ==> l.tables[d] != l.tables[e])
  }

  /** Memory after n rounds of the loop of `paging_initialize`. */
  ghost predicate BootMemory(ram: Ram, l: StaticTables, n: nat)
    requires LayoutOk(l) && n <= TEMPORARY_DIRECTORY
  {
    && (forall d: nat :: d < ENTRIES ==>
          Entry(ram, l.directory, d) ==
          if d < n || d == TEMPORARY_DIRECTORY
          then MakeEntry(l.tables[d] * PAGE_SIZE, PAGE_PRESENT + PAGE_WRITABLE) else 0)
    && (forall k: nat :: k < ENTRIES ==> Entry(ram, l.tables[TEMPORARY_DIRECTORY], k) == 0)
    && (forall c: nat, k: nat :: c < n && k < ENTRIES ==> Entry(ram, l.tables[c], k) == IdentityEntry(c * ENTRIES + k))
  }

  /** One round of the loop: the tables ... */
  lemma TablesInstalled(before: Ram, filled: Ram, after: Ram, l: StaticTables, d: nat)
    requires LayoutOk(l) && d < TEMPORARY_DIRECTORY && BootMemory(before, l, d)
    requires forall g: nat :: g < ALL_FRAMES && g != l.tables[d] ==> filled[g] == before[g]
    requires forall k: nat :: k < ENTRIES ==> Entry(filled, l.tables[d], k) == IdentityEntry(d * ENTRIES + k)
    requires forall g: nat :: g < ALL_FRAMES && g != l.directory ==> after[g] == filled[g]
    ensures forall k: nat :: k < ENTRIES ==> Entry(after, l.tables[TEMPORARY_DIRECTORY], k) == 0
    ensures forall c: nat, k: nat :: c <= d && k < ENTRIES ==>
              Entry(after, l.tables[c], k) == IdentityEntry(c * ENTRIES + k)
  {
    hide IdentityEntry;
    forall k: nat | k < ENTRIES
      ensures Entry(after, l.tables[TEMPORARY_DIRECTORY], k) == 0
    {
      assert Entry(before, l.tables[TEMPORARY_DIRECTORY], k) == 0;
    }
    forall c: nat, k: nat | c <= d && k < ENTRIES
      ensures Entry(after, l.tables[c], k) == IdentityEntry(c * ENTRIES + k)
    {
      assert after[l.tables[c]] == filled[l.tables[c]];
      if c < d {
        assert filled[l.tables[c]] == before[l.tables[c]];
        assert Entry(before, l.tables[c], k) == IdentityEntry(c * ENTRIES + k);
      } else {
        assert Entry(filled, l.tables[d], k) == IdentityEntry(d * ENTRIES + k);
      }
    }
  }

  /** ... and the directory. */
  lemma IdentityInstalled(before: Ram, filled: Ram, after: Ram, l: StaticTables, d: nat)
    requires LayoutOk(l) && d < TEMPORARY_DIRECTORY && BootMemory(before, l, d)
    requires forall g: nat :: g < ALL_FRAMES && g != l.tables[d] ==> filled[g] == before[g]
    requires forall k: nat :: k < ENTRIES ==> Entry(filled, l.tables[d], k) == IdentityEntry(d * ENTRIES + k)
    requires after == SetEntry(filled, l.directory, d, MakeEntry(l.tables[d] * PAGE_SIZE, PAGE_PRESENT + PAGE_WRITABLE))
    ensures BootMemory(after, l, d + 1)
  {
    TablesInstalled(before, filled, after, l, d);
    assert filled[l.directory] == before[l.directory];
    forall e: nat | e < ENTRIES
      ensures Entry(after, l.directory, e) ==
              if e == d then MakeEntry(l.tables[d] * PAGE_SIZE, PAGE_PRESENT + PAGE_WRITABLE)
              else Entry(before, l.directory, e)
    {
    }
    hide Entry, SetEntry, MakeEntry, IdentityEntry;
  }

  /** Nothing is in use but the kernel's directory and the tables that start-up installs. */
  ghost predicate OnlyBootTables(v: View) {
    forall f: nat :: f in v.owner ==>
      v.owner[f].KernelDirectory? || (v.owner[f].KernelTable? && v.owner[f].d <= TEMPORARY_DIRECTORY)
  }

  /** The kernel has no table of its own in the range of user programs. */
  ghost predicate NoUserTables(v: View) {
    forall f: nat :: f in v.owner && v.owner[f].KernelTable? ==> !IsUserIndex(v.owner[f].d)
  }

  ghost function BootOwner(l: StaticTables): (owner: map<nat, Role>)
    requires LayoutOk(l)
    ensures forall f :: f in owner <==> f == l.directory || f in l.tables
    ensures owner[l.directory] == KernelDirectory
    ensures forall d: nat :: d <= TEMPORARY_DIRECTORY ==> owner[l.tables[d]] == KernelTable(d)
  {
    var tables := map d: nat | d <= TEMPORARY_DIRECTORY :: l.tables[d] := KernelTable(d);
    tables[l.directory := KernelDirectory]
  }

  lemma BootInv(v: View, l: StaticTables)
    requires LayoutOk(l) && BootMemory(v.ram, l, TEMPORARY_DIRECTORY)
    requires v.kernel == l.directory && v.owner == BootOwner(l)
             && v.spaces == NO_SPACES
    ensures Inv(v) && Booted(v, l.tables[TEMPORARY_DIRECTORY])
  {
    hide U32;
    forall d: nat | d < ENTRIES
      ensures Present(KernelPde(v, d)) <==> d <= TEMPORARY_DIRECTORY
      ensures d <= TEMPORARY_DIRECTORY ==> FrameOf(KernelPde(v, d)) == l.tables[d]
    {
    }
  }

  lemma BootWalk(ram: Ram, l: StaticTables, page: nat)
    requires LayoutOk(l) && BootMemory(ram, l, TEMPORARY_DIRECTORY) && page < ALL_PAGES
    ensures Walk(ram, l.directory, page) ==
            if page < LOW_FRAMES then Some(Leaf(page, PAGE_PRESENT + PAGE_WRITABLE)) else None
  {
    hide U32;
    var d, t := page / ENTRIES, page % ENTRIES;
    assert page == d * ENTRIES + t;
    assert Present(Entry(ram, l.directory, d)) <==> d <= TEMPORARY_DIRECTORY;
    if page < LOW_FRAMES {
      assert Entry(ram, l.tables[d], t) == IdentityEntry(d * ENTRIES + t);
      IdentityLeaf(page);
    }
  }

  lemma BootWalks(ram: Ram, l: StaticTables)
    requires LayoutOk(l) && BootMemory(ram, l, TEMPORARY_DIRECTORY)
    ensures forall page: nat :: page < ALL_PAGES ==>
              Walk(ram, l.directory, page) ==
              if page < LOW_FRAMES then Some(Leaf(page, PAGE_PRESENT + PAGE_WRITABLE)) else None
  {
    forall page: nat | page < ALL_PAGES
      ensures Walk(ram, l.directory, page) ==
              if page < LOW_FRAMES then Some(Leaf(page, PAGE_PRESENT + PAGE_WRITABLE)) else None
    {
      BootWalk(ram, l, page);
    }
  }

  ghost predicate SomeLow(free: set<nat>) {
    exists f :: f in free && Editable(f)
  }

  /** The address is the directory of the used space in slot i. */
  predicate IsDirectory(spaces: seq<Space>, i: nat, address: uint32) {
    i < |spaces| && spaces[i].used && spaces[i].directory == address
  }

  lemma ActiveKept(before: seq<Space>, after: seq<Space>, address: uint32)
    requires |before| == |after|
    requires forall i: nat :: i < |before| && before[i].used ==>
               after[i].used && after[i].directory == before[i].directory
    requires exists i: nat :: IsDirectory(before, i, address)
    ensures exists i: nat :: IsDirectory(after, i, address)
  {
    var i: nat :| IsDirectory(before, i, address);
    assert IsDirectory(after, i, address);
  }

  /** What `paging_map_user_page` finds in the directory of slot i. */
  lemma UserEntry(v: View, i: nat, d: nat)
    requires Inv(v) && i < MAX_ADDRESS_SPACES && d < ENTRIES
    ensures Editable(DirOf(v, i)) <==> Used(v, i)
    ensures Used(v, i) ==> v.spaces[i].directory % PAGE_SIZE == 0 && DirOf(v, i) in v.owner
    ensures Owns(v, i, d) ==> FrameOf(Pde(v, i, d)) in v.owner && FrameOf(Pde(v, i, d)) != DirOf(v, i)
                              && Editable(FrameOf(Pde(v, i, d))) && Present(Pde(v, i, d)) && User(Pde(v, i, d))
  {
  }

  lemma BootedKept(v: View, w: View, temporary: nat)
    requires WellTyped(v) && WellTyped(w) && w.kernel == v.kernel && w.ram[w.kernel] == v.ram[v.kernel]
    requires Booted(v, temporary)
    ensures Booted(w, temporary)
  {
    assert forall d: nat :: d < ENTRIES ==> KernelPde(w, d) == KernelPde(v, d);
  }

  lemma MarkAgain(spaces: seq<Space>, i: nat, d: nat)
    requires i < |spaces| && d in spaces[i].owned
    ensures spaces[i := MarkOwned(spaces[i], d)] == spaces
  {
    assert spaces[i].owned + {d} == spaces[i].owned;
  }

  /** What `paging_map_page` finds in the kernel directory. */
  lemma KernelEntry(v: View, d: nat)
    requires Inv(v) && d < ENTRIES
    ensures v.kernel in v.owner && Editable(v.kernel)
    ensures Present(KernelPde(v, d)) ==>
              FrameOf(KernelPde(v, d)) in v.owner && FrameOf(KernelPde(v, d)) != v.kernel
                && Editable(FrameOf(KernelPde(v, d)))
  {
  }

  lemma KernelMapKeepsAll(v: View, w: View, m: KernelMap, free: set<nat>, reserved: set<nat>, managed: set<nat>,
                          temporary: nat)
    requires KernelMapped(v, w, m) && Booted(v, temporary) && Accounted(v.owner, free, reserved, managed)
    requires m.newTable.Some? ==> m.newTable.value in free
    ensures Inv(w) && Booted(w, temporary)
    ensures Accounted(w.owner, if m.newTable.Some? then free - {m.newTable.value} else free, reserved, managed)
  {
    KernelMapKeepsInv(v, w, m);
    KernelMapKeepsKernel(v, w, m);
  }

  lemma AccountedAfterMap(v: View, w: View, m: UserMap, free: set<nat>, reserved: set<nat>, managed: set<nat>)
    requires UserMapped(v, w, m) && Accounted(v.owner, free, reserved, managed) && free !! reserved
    requires m.newTable.Some? ==> m.newTable.value in free && m.newTable.value < MAX_FRAMES
    ensures Accounted(w.owner, if m.newTable.Some? then free - {m.newTable.value} else free, reserved, managed)
  {
    hide KernelOk, SharedOk, DirectoriesOk, Walk, Mapped, Entry, WellTyped;
    var replaced := MappedFrame(v, m.i, m.page);
    if replaced.Some? {
      var d, t := m.page / ENTRIES, m.page % ENTRIES;
      assert Has(v, FrameOf(Pte(v, m.i, d, t)), UserPage(m.i, d * ENTRIES + t));
    }
    assert w.owner.Keys == v.owner.Keys + if m.newTable.Some? then {m.newTable.value} else {};
  }

  lemma UserMapKeepsAll(v: View, w: View, m: UserMap, free: set<nat>, reserved: set<nat>, managed: set<nat>,
                        temporary: nat)
    requires UserMapped(v, w, m) && Booted(v, temporary)
    requires Accounted(v.owner, free, reserved, managed) && free !! reserved
    requires m.newTable.Some? ==> m.newTable.value in free && m.newTable.value < MAX_FRAMES
    ensures Inv(w) && Booted(w, temporary)
    ensures Accounted(w.owner, if m.newTable.Some? then free - {m.newTable.value} else free, reserved, managed)
  {
    UserMapKeepsInv(v, w, m);
    UserMapKeepsKernel(v, w, m);
    BootedKept(v, w, temporary);
    AccountedAfterMap(v, w, m, free, reserved, managed);
  }

  /** The frame holds bytes that no table or directory depends on. */
  predicate IsData(r: Role) {
    r.UserPage? || External(r)
  }

  /** Every owned frame that the bytes [pa, pa + size) touch is a data frame. */
  ghost predicate DataRange(owner: map<nat, Role>, pa: uint32, size: nat) {
    forall f: nat :: f in owner && pa < (f + 1) * PAGE_SIZE && f * PAGE_SIZE < pa + size ==> IsData(owner[f])
  }

  /** The bytes [pa, pa + size) keep off frame f. */
  predicate OffFrame(pa: uint32, size: nat, f: nat) {
    size == 0 || pa + size <= f * PAGE_SIZE || (f + 1) * PAGE_SIZE <= pa
  }

  lemma OffFrameAt(pa: uint32, size: nat, f: nat, a: nat)
    requires OffFrame(pa, size, f) && pa <= a < pa + size
    ensures a / PAGE_SIZE != f
  {
  }

  /** A range of data keeps off the window's table and the directory in use. */
  lemma DataKeepsOff(vm: AddressSpaces, pa: uint32, size: nat)
    requires vm.Valid() && DataRange(vm.owner, pa, size)
    ensures OffFrame(pa, size, vm.Window()) && OffFrame(pa, size, vm.current / PAGE_SIZE)
  {
    ghost var v := vm.State();
    assert Has(v, vm.Window(), KernelTable(TEMPORARY_DIRECTORY)) by {
      assert Present(KernelPde(v, TEMPORARY_DIRECTORY));
    }
    if vm.current == vm.kernelDirectory {
      assert Has(v, v.kernel, KernelDirectory);
    } else {
      var i: nat :| IsDirectory(vm.spaces, i, vm.current);
      assert Has(v, DirOf(v, i), Directory(i));
    }
  }

  lemma WindowIsNotData(v: View, window: nat, pa: uint32, size: nat, a: nat)
    requires Inv(v) && Booted(v, window) && window < ALL_FRAMES && DataRange(v.owner, pa, size) && pa <= a < pa + size
    ensures Has(v, window, KernelTable(TEMPORARY_DIRECTORY)) && a / PAGE_SIZE != window
  {
  }

  lemma CopyKeepsStructure(v: View, w: View, window: nat, pa: uint32, data: seq<uint8>)
    requires Inv(v) && window < ALL_FRAMES && Written(v.ram, w.ram, window, pa, data)
    requires DataRange(v.owner, pa, |data|) && Has(v, window, KernelTable(TEMPORARY_DIRECTORY))
    requires w.kernel == v.kernel && w.spaces == v.spaces && w.owner == v.owner
    ensures OnlyData(v, w)
  {
    forall f: nat | f in v.owner && Structural(v.owner[f])
      ensures w.ram[f] == v.ram[f]
    {
      FrameUntouched(v.ram, w.ram, window, pa, data, f);
    }
  }

  lemma DestroyKeepsAll(v: View, w: View, i: nat, free: set<nat>, reserved: set<nat>, managed: set<nat>, temporary: nat)
    requires Destroyed(v, w, i) && Booted(v, temporary) && Accounted(v.owner, free, reserved, managed)
    ensures Inv(w) && Booted(w, temporary)
    ensures Accounted(w.owner, free + FramesOf(v.owner, i), reserved, managed)
  {
    DestroyKeepsInv(v, w, i);
    DestroyKeepsKernel(v, w, i);
  }

  /** A copy into data frames changes no translation outside the temporary window. */
  lemma CopyKeepsWalks(v: View, w: View, window: nat, pa: uint32, data: seq<uint8>, page: nat)
    requires Inv(v) && Booted(v, window) && window < ALL_FRAMES && Written(v.ram, w.ram, window, pa, data)
    requires DataRange(v.owner, pa, |data|) && page < ALL_PAGES && page / ENTRIES != TEMPORARY_DIRECTORY
    requires w.kernel == v.kernel && w.spaces == v.spaces && w.owner == v.owner
    ensures Walk(w.ram, w.kernel, page) == Walk(v.ram, v.kernel, page)
    ensures forall i: nat :: Used(v, i) ==> Walk(w.ram, DirOf(w, i), page) == Walk(v.ram, DirOf(v, i), page)
  {
    var d := page / ENTRIES;
    assert Has(v, window, KernelTable(TEMPORARY_DIRECTORY)) by {
      assert Present(KernelPde(v, TEMPORARY_DIRECTORY));
    }
    FrameUntouched(v.ram, w.ram, window, pa, data, v.kernel);
    if Present(KernelPde(v, d)) {
      FrameUntouched(v.ram, w.ram, window, pa, data, FrameOf(KernelPde(v, d)));
    }
    forall i: nat | Used(v, i)
      ensures Walk(w.ram, DirOf(w, i), page) == Walk(v.ram, DirOf(v, i), page)
    {
      FrameUntouched(v.ram, w.ram, window, pa, data, DirOf(v, i));
      if Present(Pde(v, i, d)) {
        assert TableRole(v, i, d, FrameOf(Pde(v, i, d)));
        FrameUntouched(v.ram, w.ram, window, pa, data, FrameOf(Pde(v, i, d)));
      }
    }
  }

  lemma InvIsTyped(v: View)
    requires Inv(v)
    ensures WellTyped(v)
  {
  }

  lemma ZeroReserved(pmm: FrameAllocator)
    requires pmm.Valid()
    ensures 0 in pmm.Reserved()
  {
  }

  lemma OwnedTable(v: View, i: nat, d: nat)
    requires Inv(v) && Owns(v, i, d)
    ensures d < ENTRIES
  {
  }

  /** A frame that a private table maps is one that the allocator takes back. */
  lemma MappedIsReleasable(v: View, i: nat, d: nat, t: nat, free: set<nat>, reserved: set<nat>, managed: set<nat>)
    requires Inv(v) && Owns(v, i, d) && t < ENTRIES && Present(Pte(v, i, d, t))
    requires Accounted(v.owner, free, reserved, managed) && 0 in reserved
    ensures FrameOf(Pte(v, i, d, t)) < MAX_FRAMES && FrameOf(Pte(v, i, d, t)) !in reserved
            && FrameOf(Pte(v, i, d, t)) != 0
  {
    assert Has(v, FrameOf(Pte(v, i, d, t)), UserPage(i, d * ENTRIES + t));
  }

  lemma ActiveWithout(before: seq<Space>, after: seq<Space>, i: nat, address: uint32)
    requires i < |before| && after == before[i := UNUSED_SPACE] && address != before[i].directory
    requires exists j: nat :: IsDirectory(before, j, address)
    ensures exists j: nat :: IsDirectory(after, j, address)
  {
    var j: nat :| IsDirectory(before, j, address);
    assert IsDirectory(after, j, address);
  }

  lemma FreeIsGiven(pmm: FrameAllocator)
    requires pmm.Valid()
    ensures forall f :: f in pmm.Free() ==> f < MAX_FRAMES && f !in pmm.Reserved()
  {
  }

  class AddressSpaces {
    const pmm: FrameAllocator
    const kernelDirectory: uint32
    const temporaryTable: uint32
    const initialTables: seq<uint32>
    var ram: Ram
    var spaces: seq<Space>
    var current: uint32
    ghost var owner: map<nat, Role>
    ghost var managed: set<nat>

    ghost function State(): View
      reads this
    {
      View(ram, kernelDirectory / PAGE_SIZE, spaces, owner)
    }

    ghost predicate Active()
      reads this
    {
      current == kernelDirectory || exists i: nat :: IsDirectory(spaces, i, current)
    }

    ghost predicate Valid()
      reads this, pmm.Repr, pmm, pmm.frameBitmap, pmm.reservedBitmap, pmm.frameBitmap.bytes, pmm.reservedBitmap.bytes
    {
      && pmm.Valid() && this !in pmm.Repr
      && Inv(State()) && Booted(State(), temporaryTable / PAGE_SIZE)
      && kernelDirectory % PAGE_SIZE == 0 && temporaryTable % PAGE_SIZE == 0
      && Accounted(owner, pmm.Free(), pmm.Reserved(), managed)
      && Active()
    }

    constructor (pmm: FrameAllocator, ram: Ram, kernelDirectory: uint32, initialTables: seq<uint32>,
                 temporaryTable: uint32)
      ensures this.pmm == pmm && this.kernelDirectory == kernelDirectory
      ensures this.initialTables == initialTables && this.temporaryTable == temporaryTable
    {
      this.pmm, this.ram := pmm, ram;
      this.kernelDirectory, this.initialTables, this.temporaryTable := kernelDirectory, initialTables, temporaryTable;
      spaces, current, owner, managed := [], 0, map[], {};
    }

    /** The static tables of the kernel image: page aligned, low, reserved, and all different. */
    ghost predicate StaticLayout()
      reads pmm.reservedBitmap
    {
      && |initialTables| == TEMPORARY_DIRECTORY
      && kernelDirectory % PAGE_SIZE == 0 && kernelDirectory / PAGE_SIZE in pmm.Reserved()
      && (forall d: nat :: d <= TEMPORARY_DIRECTORY ==>
            StaticTable(d) % PAGE_SIZE == 0 && StaticFrame(d) in pmm.Reserved())
      && LayoutOk(Layout())
    }

    ghost function StaticTable(d: nat): uint32
      requires |initialTables| == TEMPORARY_DIRECTORY && d <= TEMPORARY_DIRECTORY
    {
      if d < TEMPORARY_DIRECTORY then initialTables[d] else temporaryTable
    }

    ghost function StaticFrame(d: nat): (f: nat)
      requires |initialTables| == TEMPORARY_DIRECTORY && d <= TEMPORARY_DIRECTORY
      ensures f < ALL_FRAMES
    {
      StaticTable(d) / PAGE_SIZE
    }

    method ZeroTable(table: uint32)
      modifies this`ram
      ensures forall g: nat :: g < ALL_FRAMES && g != table / PAGE_SIZE ==> ram[g] == old(ram)[g]
      ensures forall k: nat :: k < ENTRIES ==> Entry(ram, table / PAGE_SIZE, k) == 0
    {
      for i := 0 to ENTRIES
        invariant forall g: nat :: g < ALL_FRAMES && g != table / PAGE_SIZE ==> ram[g] == old(ram)[g]
        invariant forall k: nat :: k < i ==> Entry(ram, table / PAGE_SIZE, k) == 0
      {
        ram := SetEntry(ram, table / PAGE_SIZE, i, 0);
      }
    }

    /** The loop of `paging_initialize` over one identity-mapped table. */
    method FillIdentity(d: nat)
      requires d < TEMPORARY_DIRECTORY && |initialTables| == TEMPORARY_DIRECTORY
      modifies this`ram
      ensures forall g: nat :: g < ALL_FRAMES && g != StaticFrame(d) ==> ram[g] == old(ram)[g]
      ensures forall k: nat :: k < ENTRIES ==> Entry(ram, StaticFrame(d), k) == IdentityEntry(d * ENTRIES + k)
    {
      for entry := 0 to ENTRIES
        invariant forall g: nat :: g < ALL_FRAMES && g != StaticFrame(d) ==> ram[g] == old(ram)[g]
        invariant forall k: nat :: k < entry ==> Entry(ram, StaticFrame(d), k) == IdentityEntry(d * ENTRIES + k)
      {
        ram := SetEntry(ram, initialTables[d] / PAGE_SIZE, entry, IdentityEntry(d * ENTRIES + entry));
      }
    }

    ghost function Layout(): StaticTables
      requires |initialTables| == TEMPORARY_DIRECTORY
    {
      StaticTables(kernelDirectory / PAGE_SIZE,
                   seq(TEMPORARY_DIRECTORY + 1, d requires 0 <= d <= TEMPORARY_DIRECTORY => StaticFrame(d)))
    }

    /** One round of the loop of `paging_initialize`: an identity table and its directory entry. */
    method InstallIdentity(d: nat)
      requires StaticLayout() && d < TEMPORARY_DIRECTORY && BootMemory(ram, Layout(), d)
      modifies this`ram
      ensures BootMemory(ram, Layout(), d + 1)
    {
      ghost var before := ram;
      FillIdentity(d);
      ghost var filled := ram;
      ram := SetEntry(ram, kernelDirectory / PAGE_SIZE, d, MakeEntry(initialTables[d], PAGE_PRESENT + PAGE_WRITABLE));
      IdentityInstalled(before, filled, ram, Layout(), d);
    }

    method InstallWindow()
      requires StaticLayout()
      modifies this`ram
      ensures BootMemory(ram, Layout(), 0)
    {
      assert Layout().tables[TEMPORARY_DIRECTORY] == temporaryTable / PAGE_SIZE;
      ZeroTable(kernelDirectory);
      ghost var zeroed := ram;
      ZeroTable(temporaryTable);
      assert ram[Layout().directory] == zeroed[Layout().directory];
      assert forall d: nat :: d < ENTRIES ==> Entry(ram, Layout().directory, d) == Entry(zeroed, Layout().directory, d);
      ram := SetEntry(ram, kernelDirectory / PAGE_SIZE, TEMPORARY_DIRECTORY,
                      MakeEntry(temporaryTable, PAGE_PRESENT + PAGE_WRITABLE));
    }

    /** `paging_initialize`: the base case of the invariant. The first 32 MiB are mapped onto themselves and
        nothing else is mapped. */
    method Initialize()
      requires pmm.Valid() && this !in pmm.Repr && StaticLayout()
      modifies this
      ensures Valid() && current == kernelDirectory && spaces == NO_SPACES
      ensures OnlyBootTables(State())
      ensures forall page: nat :: page < ALL_PAGES ==>
                Walk(ram, kernelDirectory / PAGE_SIZE, page) ==
                if page < LOW_FRAMES then Some(Leaf(page, PAGE_PRESENT + PAGE_WRITABLE)) else None
    {
      hide FrameAllocator.Valid, FrameAllocator.Free, FrameAllocator.Reserved, StaticLayout, LayoutOk, Layout;
      hide StaticFrame;
      hide Inv, Booted, BootMemory, BootOwner, Walk, Accounted;
      LayoutMeans();
      InstallTables();
      current := kernelDirectory;
      spaces := NO_SPACES;
      owner := BootOwner(Layout());
      managed := pmm.Free() + owner.Keys;
      BootAccounted(pmm.Free(), pmm.Reserved());
      BootInv(State(), Layout());
      BootWalks(ram, Layout());
    }

    lemma LayoutMeans()
      requires pmm.Valid() && StaticLayout()
      ensures |initialTables| == TEMPORARY_DIRECTORY && kernelDirectory % PAGE_SIZE == 0
              && temporaryTable % PAGE_SIZE == 0
      ensures LayoutOk(Layout()) && Layout().directory == kernelDirectory / PAGE_SIZE
      ensures Layout().tables[TEMPORARY_DIRECTORY] == temporaryTable / PAGE_SIZE
      ensures pmm.Free() !! pmm.Reserved()
    {
      assert StaticTable(TEMPORARY_DIRECTORY) % PAGE_SIZE == 0;
    }

    lemma BootAccounted(free: set<nat>, reserved: set<nat>)
      requires StaticLayout() && reserved == pmm.Reserved() && free !! reserved
      ensures var owner := BootOwner(Layout()); Accounted(owner, free, reserved, free + owner.Keys)
    {
    }

    method InstallTables()
      requires StaticLayout()
      modifies this`ram
      ensures BootMemory(ram, Layout(), TEMPORARY_DIRECTORY)
    {
      InstallWindow();
      for d := 0 to TEMPORARY_DIRECTORY
        invariant BootMemory(ram, Layout(), d)
      {
        InstallIdentity(d);
      }
    }

    /** The least free frame, which goes back if it is not low. */
    method TakeLowFrame() returns (frame: uint32)
      requires pmm.Valid() && this !in pmm.Repr
      modifies pmm.Repr
      ensures pmm.Valid() && pmm.Reserved() == old(pmm.Reserved())
      ensures frame != 0 <==> SomeLow(old(pmm.Free()))
      ensures frame == 0 ==> pmm.Free() == old(pmm.Free())
      ensures frame != 0 ==> frame % PAGE_SIZE == 0 && Editable(frame / PAGE_SIZE)
      ensures frame != 0 ==> frame / PAGE_SIZE in old(pmm.Free()) && frame / PAGE_SIZE !in pmm.Reserved()
      ensures frame != 0 ==> pmm.Free() == old(pmm.Free()) - {frame / PAGE_SIZE}
    {
      FreeIsGiven(pmm);
      hide FrameAllocator.Valid, FrameAllocator.Free, FrameAllocator.Reserved;
      frame := pmm.AllocFrame();
      if frame == 0 {
        return;
      }
      if frame / PAGE_SIZE >= LOW_FRAMES {
        ghost var free := pmm.Free() + {frame / PAGE_SIZE};
        pmm.FreeFrame(frame);
        assert pmm.Free() == free;
        return 0;
      }
    }

    /** `create_page_table`: a zeroed table in the least free frame, if that frame is low. */
    method CreatePageTable(directory: uint32, d: nat) returns (ok: bool, table: uint32)
      requires pmm.Valid() && this !in pmm.Repr && d < ENTRIES
      requires directory % PAGE_SIZE == 0 && directory / PAGE_SIZE !in pmm.Free()
      modifies this`ram, pmm.Repr
      ensures pmm.Valid() && pmm.Reserved() == old(pmm.Reserved())
      ensures ok <==> Editable(directory / PAGE_SIZE) && SomeLow(old(pmm.Free()))
      ensures !ok ==> ram == old(ram) && pmm.Free() == old(pmm.Free())
      ensures ok ==>
                var f := table / PAGE_SIZE;
                && table % PAGE_SIZE == 0 && f in old(pmm.Free()) && Editable(f)
                && pmm.Free() == old(pmm.Free()) - {f}
                && (forall g: nat :: g < ALL_FRAMES && g != f && g != directory / PAGE_SIZE ==> ram[g] == old(ram)[g])
                && (forall i: nat :: i < ENTRIES ==> Entry(ram, f, i) == 0)
                && (forall i: nat :: i < ENTRIES ==>
                      Entry(ram, directory / PAGE_SIZE, i) ==
                      if i == d then MakeEntry(table, PAGE_PRESENT + PAGE_WRITABLE)
                      else Entry(old(ram), directory / PAGE_SIZE, i))
    {
      table := 0;
      if !Editable(directory / PAGE_SIZE) {
        return false, table;
      }
      table := TakeLowFrame();
      if table == 0 {
        return false, table;
      }
      ZeroTable(table);
      ram := SetEntry(ram, directory / PAGE_SIZE, d, MakeEntry(table, PAGE_PRESENT + PAGE_WRITABLE));
      ok := true;
    }

    /** `map_page_in_directory`: everything it changes, and exactly when it fails. */
    method MapPageInDirectory(directory: uint32, va: uint32, pa: uint32, flags: uint32)
      returns (ok: bool, ghost newTable: Option<nat>, ghost pde: uint32)
      requires pmm.Valid() && this !in pmm.Repr
      requires directory % PAGE_SIZE == 0 && directory / PAGE_SIZE !in pmm.Free()
      requires var e := Entry(ram, directory / PAGE_SIZE, DirectoryIndex(va));
               Present(e) ==> FrameOf(e) !in pmm.Free() && FrameOf(e) != directory / PAGE_SIZE
      modifies this`ram, pmm.Repr
      ensures pmm.Valid() && pmm.Reserved() == old(pmm.Reserved())
      ensures var e := Entry(old(ram), directory / PAGE_SIZE, DirectoryIndex(va));
              && (ok <==> Editable(directory / PAGE_SIZE)
                          && if Present(e) then Editable(FrameOf(e)) else SomeLow(old(pmm.Free())))
              && (newTable.Some? <==> ok && !Present(e))
              && (newTable.None? ==> pmm.Free() == old(pmm.Free()))
              && (newTable.Some? ==> newTable.value in old(pmm.Free()) && Editable(newTable.value)
                                     && pmm.Free() == old(pmm.Free()) - {newTable.value})
              && (ok ==> Present(pde)
                         && FrameOf(pde) == (if newTable.Some? then newTable.value else FrameOf(e))
                         && (User(pde) <==> User(flags) || (newTable.None? && User(e)))
                         && Mapped(old(ram), ram, directory / PAGE_SIZE, DirectoryIndex(va), pde, FrameOf(pde),
                                   newTable.Some?, TableIndex(va), WithPresent(MakeEntry(pa, flags))))
              && (!ok ==> ram == old(ram))
    {
      hide FrameAllocator.Valid, FrameAllocator.Free, FrameAllocator.Reserved, SetEntry, Entry;
      newTable, pde := None, 0;
      var dir, d := directory / PAGE_SIZE, DirectoryIndex(va);
      if !Editable(dir) {
        return false, newTable, pde;
      }
      var entry := Entry(ram, dir, d);
      var table: uint32;
      if !Present(entry) {
        ok, table := CreatePageTable(directory, d);
        if !ok {
          return false, newTable, pde;
        }
        newTable := Some(table / PAGE_SIZE);
      } else {
        table := PageBase(entry);
        if !Editable(table / PAGE_SIZE) {
          return false, newTable, pde;
        }
      }
      if User(flags) {
        ram := SetEntry(ram, dir, d, WithUser(Entry(ram, dir, d)));
      }
      pde := Entry(ram, dir, d);
      ram := SetEntry(ram, table / PAGE_SIZE, TableIndex(va), WithPresent(MakeEntry(pa, flags)));
      ok := true;
    }

    /** `paging_map_page`: fails exactly if a table is missing and no low frame is free for it. */
    method MapPage(va: uint32, pa: uint32, flags: uint32) returns (ok: bool, ghost m: KernelMap)
      requires Valid()
      modifies this`ram, this`owner, pmm.Repr
      ensures Valid() && pmm.Reserved() == old(pmm.Reserved())
      ensures ok <==> Present(old(KernelPde(State(), DirectoryIndex(va)))) || SomeLow(old(pmm.Free()))
      ensures !ok ==> ram == old(ram) && owner == old(owner)
      ensures ok ==> KernelMapped(old(State()), State(), m)
                     && m.page == va / PAGE_SIZE && m.pte == WithPresent(MakeEntry(pa, flags))
    {
      hide FrameAllocator.Valid, Entry, Mapped;
      ghost var before := State();
      ghost var newTable, pde;
      KernelEntry(before, DirectoryIndex(va));
      ok, newTable, pde := MapPageInDirectory(kernelDirectory, va, pa, flags);
      m := KernelMap(va / PAGE_SIZE, newTable, pde, WithPresent(MakeEntry(pa, flags)));
      if ok {
        if newTable.Some? {
          owner := owner[newTable.value := KernelTable(DirectoryIndex(va))];
        }
        KernelMapKeepsAll(before, State(), m, old(pmm.Free()), pmm.Reserved(), managed, temporaryTable / PAGE_SIZE);
      }
    }

    /** `paging_unmap_page`: clears the entry of a kernel page whose table exists. */
    method UnmapPage(va: uint32) returns (ok: bool, ghost m: KernelMap)
      requires Valid()
      modifies this`ram
      ensures Valid()
      ensures ok <==> Present(old(KernelPde(State(), DirectoryIndex(va))))
      ensures !ok ==> ram == old(ram)
      ensures ok ==> KernelMapped(old(State()), State(), m) && m.page == va / PAGE_SIZE && m.pte == 0
    {
      ghost var before := State();
      var entry := Entry(ram, kernelDirectory / PAGE_SIZE, DirectoryIndex(va));
      m := KernelMap(va / PAGE_SIZE, None, entry, 0);
      if !Present(entry) {
        return false, m;
      }
      assert entry == KernelPde(before, DirectoryIndex(va));
      ram := SetEntry(ram, FrameOf(entry), TableIndex(va), 0);
      KernelMapKeepsInv(before, State(), m);
      KernelMapKeepsKernel(before, State(), m);
      ok := true;
    }

    /** `pmm_alloc_frame` by a caller that keeps the frame. */
    method TakeFrame() returns (address: uint32)
      requires Valid()
      modifies this`owner, pmm.Repr
      ensures Valid() && pmm.Reserved() == old(pmm.Reserved())
      ensures address == 0 <==> old(pmm.Free()) == {}
      ensures address == 0 ==> owner == old(owner)
      ensures address != 0 ==> address % PAGE_SIZE == 0 && address / PAGE_SIZE in old(pmm.Free())
      ensures address != 0 ==> forall f :: f in old(pmm.Free()) ==> address / PAGE_SIZE <= f
      ensures address != 0 ==> owner == old(owner)[address / PAGE_SIZE := Held]
      ensures pmm.freeFrames == old(pmm.freeFrames) - (if address == 0 then 0 else 1) && pmm.freeFrames >= 0
      ensures address == 0 ==> pmm.freeFrames == 0
      ensures pmm.Free() == if address == 0 then old(pmm.Free()) else old(pmm.Free()) - {address / PAGE_SIZE}
    {
      ghost var before := State();
      address := pmm.AllocFrame();
      if address != 0 {
        owner := owner[address / PAGE_SIZE := Held];
        OnlyDataKeepsInv(before, State());
        OnlyDataKeepsEntries(before, State());
      }
    }

    /** `pmm_free_frame` of a frame that its caller holds. */
    method GiveBack(address: uint32)
      requires Valid() && Has(State(), address / PAGE_SIZE, Held)
      modifies this`owner, pmm.Repr
      ensures Valid() && pmm.Reserved() == old(pmm.Reserved())
      ensures owner == old(owner) - {address / PAGE_SIZE} && pmm.Free() == old(pmm.Free()) + {address / PAGE_SIZE}
    {
      ghost var before := State();
      pmm.FreeFrame(address);
      owner := owner - {address / PAGE_SIZE};
      OnlyDataKeepsInv(before, State());
      OnlyDataKeepsEntries(before, State());
    }

    /** The heap becomes the owner of a frame that its code holds. */
    ghost method GiveToHeap(f: nat, k: nat)
      requires Valid() && Has(State(), f, Held)
      modifies this`owner
      ensures Valid() && owner == old(owner)[f := HeapPage(k)]
    {
      ghost var before := State();
      owner := owner[f := HeapPage(k)];
      OnlyDataKeepsInv(before, State());
      OnlyDataKeepsEntries(before, State());
    }

    /** `paging_create_address_space`: the first unused slot and the least free frame, if that frame is low. */
    method CreateAddressSpace() returns (space: Option<nat>)
      requires Valid()
      modifies this`ram, this`spaces, this`owner, pmm.Repr
      ensures Valid() && pmm.Reserved() == old(pmm.Reserved())
      ensures space.None? <==>
                (forall i: nat :: i < MAX_ADDRESS_SPACES ==> Used(old(State()), i)) || !SomeLow(old(pmm.Free()))
      ensures space.None? ==> State() == old(State())
      ensures space.Some? ==>
                space.value < |spaces|
                && Created(old(State()), State(), space.value, DirOf(State(), space.value))
                && DirOf(State(), space.value) in old(pmm.Free())
                && forall i: nat :: i < space.value ==> Used(old(State()), i)
    {
      hide Booted, Created, FrameAllocator.Reserved, KernelOk, SharedOk, Exact, SomeLow, Accounted;
      ghost var before := State();
      for i := 0 to MAX_ADDRESS_SPACES
        invariant forall j: nat :: j < i ==> spaces[j].used
        invariant State() == before && Valid() && pmm.Free() == old(pmm.Free()) && pmm.Reserved() == old(pmm.Reserved())
      {
        if !spaces[i].used {
          var done := ClaimSlot(i);
          return if done then Some(i) else None;
        }
      }
      return None;
    }

    /** The rest of the function, for the first unused slot. */
    method ClaimSlot(i: nat) returns (done: bool)
      requires Valid() && i < MAX_ADDRESS_SPACES && !Used(State(), i)
      modifies this`ram, this`spaces, this`owner, pmm.Repr
      ensures Valid() && pmm.Reserved() == old(pmm.Reserved())
      ensures done <==> SomeLow(old(pmm.Free()))
      ensures !done ==> State() == old(State())
      ensures done ==> i < |spaces| && Created(old(State()), State(), i, DirOf(State(), i))
                       && DirOf(State(), i) in old(pmm.Free())
    {
      hide Entry, KernelOk, Booted, U32, Has, FrameAllocator.Valid, FrameAllocator.Free, FrameAllocator.Reserved;
      hide SomeLow;
      ghost var before := State();
      var frame := TakeLowFrame();
      if frame == 0 {
        return false;
      }
      FillSlot(i, frame, before);
      done := true;
    }

    /** The tail of `paging_create_address_space`: builds the directory in a new frame and claims slot i. */
    method FillSlot(i: nat, frame: uint32, ghost before: View)
      requires pmm.Valid() && this !in pmm.Repr && before == State() && Inv(before) && Active()
      requires Booted(before, temporaryTable / PAGE_SIZE) && i < MAX_ADDRESS_SPACES && !spaces[i].used
      requires frame % PAGE_SIZE == 0 && Editable(frame / PAGE_SIZE) && frame / PAGE_SIZE !in owner
      modifies this`ram, this`spaces, this`owner
      ensures Created(before, State(), i, frame / PAGE_SIZE)
      ensures Inv(State()) && Active() && Booted(State(), temporaryTable / PAGE_SIZE)
    {
      ZeroTable(frame);
      CopyKernelDirectory(frame);
      spaces := spaces[i := Space(true, frame, {})];
      owner := owner[frame / PAGE_SIZE := Directory(i)];
      CreateKeepsInv(before, State(), i, frame / PAGE_SIZE);
      CreateKeepsKernel(before, State(), i, frame / PAGE_SIZE);
      if current != kernelDirectory {
        ActiveKept(before.spaces, spaces, current);
      }
    }

    /** The loop that shares every kernel table, without USER. */
    method CopyKernelDirectory(directory: uint32)
      requires directory / PAGE_SIZE != kernelDirectory / PAGE_SIZE
      modifies this`ram
      ensures forall g: nat :: g < ALL_FRAMES && g != directory / PAGE_SIZE ==> ram[g] == old(ram)[g]
      ensures forall d: nat :: d < ENTRIES ==>
                Entry(ram, directory / PAGE_SIZE, d) == WithoutUser(Entry(old(ram), kernelDirectory / PAGE_SIZE, d))
    {
      for entry := 0 to ENTRIES
        invariant forall g: nat :: g < ALL_FRAMES && g != directory / PAGE_SIZE ==> ram[g] == old(ram)[g]
        invariant forall d: nat :: d < entry ==>
                    Entry(ram, directory / PAGE_SIZE, d) == WithoutUser(Entry(old(ram), kernelDirectory / PAGE_SIZE, d))
      {
        ram := SetEntry(ram, directory / PAGE_SIZE, entry, WithoutUser(Entry(ram, kernelDirectory / PAGE_SIZE, entry)));
      }
    }

    /** `paging_map_user_page`: refused outside the user range, on a stale or null space, over a shared kernel
        table, and when a new table is needed but no low frame is free. */
    method MapUserPage(space: Option<nat>, va: uint32, pa: uint32, flags: uint32) returns (ok: bool, ghost m: UserMap)
      requires Valid() && (space.Some? ==> space.value < MAX_ADDRESS_SPACES)
      requires Has(State(), pa / PAGE_SIZE, Held)
      modifies this`ram, this`spaces, this`owner, pmm.Repr
      ensures Valid() && pmm.Reserved() == old(pmm.Reserved())
      ensures ok <==> space.Some? && IsUserIndex(DirectoryIndex(va)) && Used(old(State()), space.value)
                      && if Present(old(Pde(State(), space.value, DirectoryIndex(va))))
                         then Owns(old(State()), space.value, DirectoryIndex(va)) else SomeLow(old(pmm.Free()))
      ensures !ok ==> State() == old(State())
      ensures ok ==> UserMapped(old(State()), State(), m)
                     && m.i == space.value && m.page == va / PAGE_SIZE && m.p == pa / PAGE_SIZE
                     && m.pte == WithPresent(MakeEntry(pa, WithPresent(WithUser(flags))))
    {
      hide FrameAllocator.Counted, Entry;
      ghost var before := State();
      m := UserMap(0, 0, 0, None, 0, 0);
      if space.None? {
        return false, m;
      }
      var i, d := space.value, DirectoryIndex(va);
      if d < FIRST_USER_DIRECTORY || d > LAST_USER_DIRECTORY {
        return false, m;
      }
      var directory := spaces[i].directory;
      UserEntry(before, i, d);
      if !Editable(directory / PAGE_SIZE) {
        return false, m;
      }
      var entry := Entry(ram, directory / PAGE_SIZE, d);
      if Present(entry) && d !in spaces[i].owned {
        return false, m;
      }
      assert entry == Pde(before, i, d);
      var result;
      ghost var newTable, pde;
      result, newTable, pde := MapPageInDirectory(directory, va, pa, WithPresent(WithUser(flags)));
      if !result {
        return false, m;
      }
      m := UserMap(i, va / PAGE_SIZE, pa / PAGE_SIZE, newTable, pde,
                   WithPresent(MakeEntry(pa, WithPresent(WithUser(flags)))));
      RecordUserMap(i, d, m, before, old(pmm.Free()), !Present(entry));
      ok := true;
    }

    /** The tail of `paging_map_user_page`: `mark_owned_page_table`, and the new owners of the frames. */
    method RecordUserMap(i: nat, d: nat, ghost m: UserMap, ghost before: View, ghost free: set<nat>, isNew: bool)
      requires pmm.Valid() && this !in pmm.Repr && kernelDirectory % PAGE_SIZE == 0 && temporaryTable % PAGE_SIZE == 0
      requires kernelDirectory / PAGE_SIZE == before.kernel && spaces == before.spaces && owner == before.owner
               && Active()
      requires Inv(before) && m.i < MAX_ADDRESS_SPACES && m.page < ALL_PAGES
      requires Booted(before, temporaryTable / PAGE_SIZE) && Accounted(owner, free, pmm.Reserved(), managed)
      requires free !! pmm.Reserved()
      requires UserMapped(before, View(ram, before.kernel, AfterMark(before, m), OwnerAfter(before, m)), m)
      requires (m.newTable.Some? <==> isNew) && i == m.i && d == m.page / ENTRIES
      requires m.newTable.Some? ==> m.newTable.value in free && m.newTable.value < MAX_FRAMES
      requires pmm.Free() == if m.newTable.Some? then free - {m.newTable.value} else free
      modifies this`spaces, this`owner
      ensures Valid() && UserMapped(before, State(), m)
    {
      hide Mapped, Entry, OwnerAfterMap, Has, FrameAllocator.Counted, Accounted;
      owner := OwnerAfter(before, m);
      if isNew {
        spaces := spaces[i := MarkOwned(spaces[i], d)];
      } else {
        MarkAgain(spaces, m.i, m.page / ENTRIES);
      }
      UserMapKeepsAll(before, State(), m, free, pmm.Reserved(), managed, temporaryTable / PAGE_SIZE);
      if current != kernelDirectory {
        ActiveKept(before.spaces, spaces, current);
      }
    }

    /** `paging_switch_address_space` */
    method SwitchAddressSpace(space: SpaceRef)
      requires Valid() && (space.Slot? ==> space.i < MAX_ADDRESS_SPACES)
      modifies this`current
      ensures Valid()
      ensures current == match space
                         case NullSpace => old(current)
                         case KernelSpace => kernelDirectory
                         case Slot(i) => if spaces[i].used then spaces[i].directory else old(current)
    {
      match space
      case NullSpace =>
      case KernelSpace => current := kernelDirectory;
      case Slot(i) =>
        if spaces[i].directory != 0 {
          assert IsDirectory(spaces, i, spaces[i].directory);
          current := spaces[i].directory;
        }
    }

    ghost function Window(): (f: nat)
      ensures f < ALL_FRAMES
    {
      temporaryTable / PAGE_SIZE
    }

    /** `paging_map_temporary_page` */
    method MapTemporaryPage(pa: uint32) returns (ok: bool)
      modifies this`ram
      ensures ok <==> pa % PAGE_SIZE == 0
      ensures ram ==
                if ok then SetEntry(old(ram), Window(), 0, MakeEntry(pa, PAGE_PRESENT + PAGE_WRITABLE)) else old(ram)
    {
      if pa % PAGE_SIZE != 0 {
        return false;
      }
      ram := SetEntry(ram, temporaryTable / PAGE_SIZE, 0, MakeEntry(pa, PAGE_PRESENT + PAGE_WRITABLE));
      ok := true;
    }

    /** The address in physical memory that byte offset of the window stands for. */
    function WindowAddress(offset: nat): uint32
      requires offset < PAGE_SIZE
      reads this
    {
      FrameOf(Entry(ram, temporaryTable / PAGE_SIZE, 0)) * PAGE_SIZE + offset
    }

    /** The inner loop of the copy: bytes through the open window. */
    method StoreBytes(pageBase: uint32, pageOffset: nat, source: seq<uint8>, done: nat, chunk: nat, ghost before: Ram)
      requires pageBase % PAGE_SIZE == 0 && pageOffset + chunk <= PAGE_SIZE && pageBase / PAGE_SIZE != Window()
      requires done + chunk <= |source| && done <= pageBase + pageOffset && pageBase + pageOffset + chunk <= TWO_32
      requires Written(before, ram, Window(), pageBase + pageOffset - done, source[..done])
      requires OnlyFirstEntry(before, ram, Window())
      requires Entry(ram, Window(), 0) == MakeEntry(pageBase, PAGE_PRESENT + PAGE_WRITABLE)
      modifies this`ram
      ensures Written(before, ram, Window(), pageBase + pageOffset - done, source[..done + chunk])
      ensures OnlyFirstEntry(before, ram, Window())
    {
      for i := 0 to chunk
        invariant Written(before, ram, Window(), pageBase + pageOffset - done, source[..done + i])
        invariant OnlyFirstEntry(before, ram, Window())
        invariant Entry(ram, Window(), 0) == MakeEntry(pageBase, PAGE_PRESENT + PAGE_WRITABLE)
      {
        assert WindowAddress(pageOffset + i) == pageBase + pageOffset + i;
        PokeExtends(before, ram, Poke(ram, pageBase + pageOffset + i, source[done + i]), Window(),
                    pageBase + pageOffset - done, source, done + i);
        ghost var open := ram;
        ram := Poke(ram, WindowAddress(pageOffset + i), source[done + i]);
        assert ram == Poke(open, pageBase + pageOffset + i, source[done + i]);
        hide Written, OnlyFirstEntry, Entry, Poke, MakeEntry, U32;
      }
    }

    /** One chunk of the copy: map the window, store the bytes of one page, unmap it. */
    method CopyChunk(current: uint32, source: seq<uint8>, done: nat, chunk: nat, ghost before: Ram)
      requires done + chunk <= |source| && current + chunk <= TWO_32
      requires 0 < chunk <= PAGE_SIZE - current % PAGE_SIZE && current / PAGE_SIZE != Window() && done <= current
      requires Written(before, ram, Window(), current - done, source[..done]) && OnlyFirstEntry(before, ram, Window())
      modifies this`ram
      ensures Written(before, ram, Window(), current - done, source[..done + chunk])
      ensures OnlyFirstEntry(before, ram, Window()) && Entry(ram, Window(), 0) == 0
    {
      var pageBase, pageOffset := PageBase(current), current % PAGE_SIZE;
      ghost var pa := current - done;
      WindowMoves(before, ram, SetEntry(ram, Window(), 0, MakeEntry(pageBase, PAGE_PRESENT + PAGE_WRITABLE)), Window(),
                  pa, source[..done], MakeEntry(pageBase, PAGE_PRESENT + PAGE_WRITABLE));
      var mapped := MapTemporaryPage(pageBase);
      StoreBytes(pageBase, pageOffset, source, done, chunk, before);
      WindowMoves(before, ram, SetEntry(ram, Window(), 0, 0), Window(), pa, source[..done + chunk], 0);
      ram := SetEntry(ram, temporaryTable / PAGE_SIZE, 0, 0);
    }

    /** The loop of `paging_copy_to_physical`. */
    method CopyChunks(pa: uint32, source: seq<uint8>)
      requires 0 < |source| && pa + |source| <= TWO_32 && OffFrame(pa, |source|, Window())
      modifies this`ram
      ensures Written(old(ram), ram, Window(), pa, source)
      ensures OnlyFirstEntry(old(ram), ram, Window()) && Entry(ram, Window(), 0) == 0
    {
      hide OffFrame;
      var remaining: nat, current: nat, src: nat := |source|, pa, 0;
      while remaining > 0
        invariant src + remaining == |source| && current == pa + src
        invariant Written(old(ram), ram, Window(), pa, source[..src]) && OnlyFirstEntry(old(ram), ram, Window())
        invariant src > 0 ==> Entry(ram, Window(), 0) == 0
      {
        var chunk := PAGE_SIZE - current % PAGE_SIZE;
        if chunk > remaining {
          chunk := remaining;
        }
        OffFrameAt(pa, |source|, Window(), current);
        CopyChunk(current, source, src, chunk, old(ram));
        current, src, remaining := current + chunk, src + chunk, remaining - chunk;
      }
      assert source[..|source|] == source;
    }

    /** `paging_copy_to_physical` stores exactly the bytes of source at [pa, pa + size) and nothing else, and
        leaves the window closed, unless it overwrites the window's own table or the directory in use. In frames of data
        it keeps the invariant. */
    method CopyToPhysical(pa: uint32, source: seq<uint8>) returns (ok: bool)
      requires pa + |source| <= TWO_32
      requires OffFrame(pa, |source|, Window()) && OffFrame(pa, |source|, current / PAGE_SIZE)
      modifies this`ram
      ensures old(Valid()) && DataRange(owner, pa, |source|) ==> Valid()
      ensures ok <==> |source| > 0
      ensures !ok ==> ram == old(ram)
      ensures ok ==> Written(old(ram), ram, Window(), pa, source)
                     && OnlyFirstEntry(old(ram), ram, Window()) && Entry(ram, Window(), 0) == 0
    {
      hide U32, DataRange, IsDirectory;
      if |source| == 0 {
        return false;
      }
      ghost var before, valid := State(), Valid();
      CopyChunks(pa, source);
      hide Written, OnlyFirstEntry, Entry, OffFrame;
      if valid && DataRange(owner, pa, |source|) {
        WindowIsNotData(before, Window(), pa, |source|, pa);
        CopyKeepsStructure(before, State(), Window(), pa, source);
        OnlyDataKeepsInv(before, State());
        OnlyDataKeepsEntries(before, State());
      }
      ok := true;
    }

    /** One chunk of the copy back. */
    method ReadChunk(current: uint32, destination: array<uint8>, done: nat, chunk: nat, ghost before: Ram,
                     ghost pa: nat)
      requires done + chunk <= destination.Length && current + chunk <= TWO_32 && current == pa + done
      requires 0 < chunk <= PAGE_SIZE - current % PAGE_SIZE && current / PAGE_SIZE != Window()
      requires Written(before, ram, Window(), pa, []) && OnlyFirstEntry(before, ram, Window())
      requires this != destination as object
      modifies this`ram, destination
      ensures Written(before, ram, Window(), pa, [])
      ensures OnlyFirstEntry(before, ram, Window()) && Entry(ram, Window(), 0) == 0
      ensures forall j :: done <= j < done + chunk ==> destination[j] == ByteAt(before, pa + j)
      ensures forall j :: 0 <= j < destination.Length && !(done <= j < done + chunk) ==>
                destination[j] == old(destination[j])
    {
      hide Present, ByteAt, U32, PutBytes;
      var pageBase, pageOffset := PageBase(current), current % PAGE_SIZE;
      WindowMoves(before, ram, SetEntry(ram, Window(), 0, MakeEntry(pageBase, PAGE_PRESENT + PAGE_WRITABLE)), Window(),
                  pa, [], MakeEntry(pageBase, PAGE_PRESENT + PAGE_WRITABLE));
      var mapped := MapTemporaryPage(pageBase);
      ghost var open := ram;
      for i := 0 to chunk
        invariant ram == open
        invariant forall j :: done <= j < done + i ==> destination[j] == ByteAt(before, pa + j)
        invariant forall j :: 0 <= j < destination.Length && !(done <= j < done + i) ==>
                    destination[j] == old(destination[j])
      {
        assert WindowAddress(pageOffset + i) == current + i;
        assert (current + i) / PAGE_SIZE == current / PAGE_SIZE;
        hide Written, OnlyFirstEntry, Entry, SetEntry, MakeEntry, PageBase;
        destination[done + i] := ByteAt(ram, WindowAddress(pageOffset + i));
      }
      WindowMoves(before, ram, SetEntry(ram, Window(), 0, 0), Window(), pa, [], 0);
      ram := SetEntry(ram, temporaryTable / PAGE_SIZE, 0, 0);
    }

    /** `paging_copy_from_physical` delivers the bytes at [pa, pa + size) and leaves memory as it was, with the
        window closed. */
    method CopyFromPhysical(destination: array<uint8>, pa: uint32, size: nat) returns (ok: bool)
      requires pa + size <= TWO_32 && size <= destination.Length && OffFrame(pa, size, Window())
      requires this != destination as object && destination !in pmm.Repr
      modifies this`ram, destination
      ensures old(Valid()) ==> Valid()
      ensures ok <==> size > 0
      ensures !ok ==> ram == old(ram) && destination[..] == old(destination[..])
      ensures ok ==> Written(old(ram), ram, Window(), pa, [])
                     && OnlyFirstEntry(old(ram), ram, Window()) && Entry(ram, Window(), 0) == 0
      ensures ok ==> forall k :: 0 <= k < size ==> destination[k] == ByteAt(old(ram), pa + k)
      ensures forall k :: size <= k < destination.Length ==> destination[k] == old(destination[k])
    {
      hide Entry, Has;
      if size == 0 {
        return false;
      }
      ghost var before, valid := State(), Valid();
      FetchChunks(destination, pa, size);
      if valid {
        OnlyWindowChanged(before, pa);
      }
      ok := true;
    }

    /** The loop of `paging_copy_from_physical`. */
    method FetchChunks(destination: array<uint8>, pa: uint32, size: nat)
      requires 0 < size && pa + size <= TWO_32 && size <= destination.Length && OffFrame(pa, size, Window())
      requires this != destination as object
      modifies this`ram, destination
      ensures Written(old(ram), ram, Window(), pa, [])
      ensures OnlyFirstEntry(old(ram), ram, Window()) && Entry(ram, Window(), 0) == 0
      ensures forall k :: 0 <= k < size ==> destination[k] == ByteAt(old(ram), pa + k)
      ensures forall k :: size <= k < destination.Length ==> destination[k] == old(destination[k])
    {
      hide OffFrame;
      var remaining: nat, current: nat, dst: nat := size, pa, 0;
      while remaining > 0
        invariant dst + remaining == size && current == pa + dst
        invariant Written(old(ram), ram, Window(), pa, []) && OnlyFirstEntry(old(ram), ram, Window())
        invariant dst > 0 ==> Entry(ram, Window(), 0) == 0
        invariant forall k :: 0 <= k < dst ==> destination[k] == ByteAt(old(ram), pa + k)
        invariant forall k :: dst <= k < destination.Length ==> destination[k] == old(destination[k])
      {
        var chunk := PAGE_SIZE - current % PAGE_SIZE;
        if chunk > remaining {
          chunk := remaining;
        }
        OffFrameAt(pa, size, Window(), current);
        ReadChunk(current, destination, dst, chunk, old(ram), pa);
        current, dst, remaining := current + chunk, dst + chunk, remaining - chunk;
      }
    }

    /** Only the first entry of the window's table may have changed. */
    lemma OnlyWindowChanged(before: View, pa: uint32)
      requires Inv(before) && Booted(before, Window()) && State() == before.(ram := ram)
      requires Written(before.ram, ram, Window(), pa, [])
      ensures Inv(State()) && Booted(State(), Window())
    {
      assert Present(KernelPde(before, TEMPORARY_DIRECTORY));
      assert Written(before.ram, ram, Window(), 0, []);
      CopyKeepsStructure(before, State(), Window(), 0, []);
      OnlyDataKeepsInv(before, State());
      OnlyDataKeepsEntries(before, State());
    }

    /** Bytes copied to physical memory come back unchanged. */
    method CopyThenReadBack(pa: uint32, source: seq<uint8>, destination: array<uint8>)
      requires pa + |source| <= TWO_32 && |source| <= destination.Length
      requires OffFrame(pa, |source|, Window()) && OffFrame(pa, |source|, current / PAGE_SIZE)
      requires this != destination as object && destination !in pmm.Repr
      modifies this`ram, destination
      ensures destination[..|source|] == source && Written(old(ram), ram, Window(), pa, source)
      ensures old(Valid()) && DataRange(owner, pa, |source|) ==> Valid()
    {
      hide AddressSpaces.Valid, OffFrame;
      var stored := CopyToPhysical(pa, source);
      ghost var mid := ram;
      var fetched := CopyFromPhysical(destination, pa, |source|);
      if source == [] {
        return;
      }
      forall k: nat | k < |source|
        ensures destination[k] == source[k]
      {
        OffFrameAt(pa, |source|, Window(), pa + k);
        assert ByteAt(mid, pa + k) == source[k];
      }
    }

    /** One entry of a private table: the frame it maps is freed. */
    method ReleasePage(pageEntry: uint32, ghost v: View, ghost i: nat, ghost d: nat, ghost t: nat, ghost free: set<nat>)
      requires pmm.Valid() && Inv(v) && Owns(v, i, d) && t < ENTRIES && pageEntry == Pte(v, i, d, t)
      requires Accounted(v.owner, free, pmm.Reserved(), managed)
      requires pmm.Free() == free + Released(v.owner, i, d * STRIDE + t)
      modifies pmm.Repr
      ensures pmm.Valid() && pmm.Reserved() == old(pmm.Reserved())
      ensures pmm.Free() == free + Released(v.owner, i, d * STRIDE + t + 1)
    {
      hide Interval, OwnedOk;
      ZeroReserved(pmm);
      hide FrameAllocator.Valid, FrameAllocator.Free, FrameAllocator.Reserved, Inv, Accounted, Released, Pte, Present;
      PageStep(v, i, d, t);
      if Present(pageEntry) {
        MappedIsReleasable(v, i, d, t, free, pmm.Reserved(), managed);
        if FrameOf(pageEntry) != 0 {
          pmm.FreeFrame(PageBase(pageEntry));
        }
      }
    }

    /** The inner loop of the teardown: frees every frame that one private table maps, and clears its entries. */
    method ReleasePages(table: uint32, ghost v: View, ghost i: nat, ghost d: nat, ghost free: set<nat>)
      requires pmm.Valid() && this !in pmm.Repr && Inv(v) && Owns(v, i, d)
      requires Accounted(v.owner, free, pmm.Reserved(), managed)
      requires pmm.Free() == free + Released(v.owner, i, d * STRIDE)
      requires table / PAGE_SIZE == FrameOf(Pde(v, i, d)) && ram[table / PAGE_SIZE] == v.ram[table / PAGE_SIZE]
      modifies this`ram, pmm.Repr
      ensures pmm.Valid() && pmm.Reserved() == old(pmm.Reserved())
      ensures pmm.Free() == free + Released(v.owner, i, d * STRIDE + ENTRIES)
      ensures forall f: nat :: f < ALL_FRAMES && f != table / PAGE_SIZE ==> ram[f] == old(ram)[f]
    {
      hide FrameAllocator.Counted, U32, Has, PutBytes, OwnedOk;
      var frame := table / PAGE_SIZE;
      InvIsTyped(v);
      OwnedTable(v, i, d);
      hide FrameAllocator.Valid, FrameAllocator.Free, FrameAllocator.Reserved, Inv, Accounted, Released;
      for t := 0 to ENTRIES
        invariant pmm.Valid() && pmm.Reserved() == old(pmm.Reserved())
        invariant pmm.Free() == free + Released(v.owner, i, d * STRIDE + t)
        invariant forall f: nat :: f < ALL_FRAMES && f != frame ==> ram[f] == old(ram)[f]
        invariant forall u: nat :: t <= u < ENTRIES ==> Entry(ram, frame, u) == Pte(v, i, d, u)
      {
        var pageEntry := Entry(ram, frame, t);
        ReleasePage(pageEntry, v, i, d, t, free);
        if Present(pageEntry) {
          ram := SetEntry(ram, frame, t, 0);
        }
      }
    }

    /** One owned entry of the outer loop of the teardown. */
    method ReleaseTable(directory: uint32, i: nat, d: nat, ghost v: View, ghost free: set<nat>)
      requires pmm.Valid() && this !in pmm.Repr && Inv(v) && Owns(v, i, d)
      requires Accounted(v.owner, free, pmm.Reserved(), managed)
      requires pmm.Free() == free + Released(v.owner, i, d * STRIDE)
      requires directory == v.spaces[i].directory && Torn(v, ram, i, d)
      modifies this`ram, pmm.Repr
      ensures pmm.Valid() && pmm.Reserved() == old(pmm.Reserved())
      ensures pmm.Free() == free + Released(v.owner, i, (d + 1) * STRIDE) && Torn(v, ram, i, d + 1)
    {
      hide U32, FrameAllocator.Valid;
      var entry := Entry(ram, directory / PAGE_SIZE, d);
      assert entry == Pde(v, i, d) && Has(v, FrameOf(entry), Table(i, d)) && Has(v, DirOf(v, i), Directory(i));
      if !Present(entry) {
        assert false;
      }
      var table := PageBase(entry);
      if Editable(table / PAGE_SIZE) {
        ReleasePages(table, v, i, d, free);
        pmm.FreeFrame(table);
      }
      TableStep(v, i, d);
      ghost var mid := ram;
      ram := SetEntry(ram, directory / PAGE_SIZE, d, 0);
      assert mid[DirOf(v, i)] == old(ram)[DirOf(v, i)];
      assert forall e: nat :: e < ENTRIES ==> Entry(mid, DirOf(v, i), e) == Entry(old(ram), DirOf(v, i), e);
      TornStep(v, old(ram), ram, i, d);
    }

    /** `paging_destroy_address_space` frees exactly the frames of the space, and never leaves the processor on
        a directory that has been freed. Null, the kernel's own space and a stale slot are left alone. */
    method DestroyAddressSpace(space: SpaceRef)
      requires Valid() && (space.Slot? ==> space.i < MAX_ADDRESS_SPACES)
      modifies this`ram, this`spaces, this`owner, this`current, pmm.Repr
      ensures Valid() && pmm.Reserved() == old(pmm.Reserved())
      ensures !(space.Slot? && Used(old(State()), space.i)) ==>
                State() == old(State()) && current == old(current) && pmm.Free() == old(pmm.Free())
      ensures space.Slot? && Used(old(State()), space.i) ==>
                Destroyed(old(State()), State(), space.i)
                && pmm.Free() == old(pmm.Free()) + FramesOf(old(owner), space.i)
                && current == if old(current) == old(spaces)[space.i].directory then kernelDirectory else old(current)
    {
      hide FrameAllocator.Counted, Entry;
      if !space.Slot? {
        return;
      }
      var i := space.i;
      if spaces[i].directory == 0 {
        return;
      }
      ghost var v, free := State(), pmm.Free();
      var directory := spaces[i].directory;
      UserEntry(v, i, 0);
      if current == directory {
        SwitchAddressSpace(KernelSpace);
      }
      NothingReleased(v, i);
      ReleaseTables(i, directory, v, free);
      FinishTeardown(i, directory, v, free);
    }

    /** The outer loop of the teardown. */
    method ReleaseTables(i: nat, directory: uint32, ghost v: View, ghost free: set<nat>)
      requires pmm.Valid() && this !in pmm.Repr && Inv(v) && Used(v, i) && v == State()
      requires Accounted(v.owner, free, pmm.Reserved(), managed)
      requires pmm.Free() == free && directory == v.spaces[i].directory
      modifies this`ram, pmm.Repr
      ensures pmm.Valid() && pmm.Reserved() == old(pmm.Reserved())
      ensures pmm.Free() == free + Released(v.owner, i, (LAST_USER_DIRECTORY + 1) * STRIDE)
      ensures Torn(v, ram, i, LAST_USER_DIRECTORY + 1)
    {
      hide Accounted, Entry, KernelOk, Inv, Has, U32, FrameAllocator.Counted;
      NothingReleased(v, i);
      for d := FIRST_USER_DIRECTORY to LAST_USER_DIRECTORY + 1
        invariant pmm.Valid() && pmm.Reserved() == old(pmm.Reserved())
        invariant pmm.Free() == free + Released(v.owner, i, d * STRIDE) && Torn(v, ram, i, d)
      {
        if d in spaces[i].owned {
          ReleaseTable(directory, i, d, v, free);
        } else {
          SkipStep(v, i, d);
        }
      }
    }

    /** The end of the teardown: the directory frame and the slot. */
    method FinishTeardown(i: nat, directory: uint32, ghost v: View, ghost free: set<nat>)
      requires pmm.Valid() && this !in pmm.Repr && kernelDirectory % PAGE_SIZE == 0 && temporaryTable % PAGE_SIZE == 0
      requires Inv(v) && Used(v, i) && Booted(v, temporaryTable / PAGE_SIZE) && v.kernel == kernelDirectory / PAGE_SIZE
      requires spaces == v.spaces && owner == v.owner && directory == v.spaces[i].directory && current != directory
      requires Active() && Accounted(v.owner, free, pmm.Reserved(), managed)
      requires pmm.Free() == free + Released(v.owner, i, (LAST_USER_DIRECTORY + 1) * STRIDE)
      requires Torn(v, ram, i, LAST_USER_DIRECTORY + 1)
      modifies this`spaces, this`owner, pmm.Repr
      ensures Valid() && pmm.Reserved() == old(pmm.Reserved())
      ensures Destroyed(v, State(), i) && pmm.Free() == free + FramesOf(v.owner, i)
    {
      hide Inv, Accounted, Destroyed, Torn, Booted, WithoutSpace, FrameAllocator.Valid, FrameAllocator.Free;
      hide FrameAllocator.Reserved, Released, FramesOf, U32;
      FreeDirectory(i, directory, v, free);
      spaces := spaces[i := UNUSED_SPACE];
      owner := WithoutSpace(owner, i);
      TornIsDestroyed(v, State(), i);
      DestroyKeepsAll(v, State(), i, free, pmm.Reserved(), managed, temporaryTable / PAGE_SIZE);
      if current != kernelDirectory {
        ActiveWithout(v.spaces, spaces, i, current);
      }
    }

    method FreeDirectory(i: nat, directory: uint32, ghost v: View, ghost free: set<nat>)
      requires pmm.Valid() && this !in pmm.Repr && Inv(v) && Used(v, i) && directory == v.spaces[i].directory
      requires Accounted(v.owner, free, pmm.Reserved(), managed)
      requires pmm.Free() == free + Released(v.owner, i, (LAST_USER_DIRECTORY + 1) * STRIDE)
      modifies pmm.Repr
      ensures pmm.Valid() && pmm.Reserved() == old(pmm.Reserved()) && pmm.Free() == free + FramesOf(v.owner, i)
    {
      hide FrameAllocator.Valid, FrameAllocator.Free, FrameAllocator.Reserved, Released, FramesOf, Inv, U32;
      AllReleased(v, i);
      DirectoryReleasable(v, i);
      if directory / PAGE_SIZE < LOW_FRAMES {
        pmm.FreeFrame(directory);
      }
    }
  }

  lemma DirectoryReleasable(v: View, i: nat)
    requires Inv(v) && Used(v, i)
    ensures DirOf(v, i) in v.owner && Releasable(v.owner[DirOf(v, i)])
    ensures DirOf(v, i) < LOW_FRAMES && v.spaces[i].directory % PAGE_SIZE == 0
  {
    assert Has(v, DirOf(v, i), Directory(i));
  }

  lemma TornIsDestroyed(v: View, w: View, i: nat)
    requires Inv(v) && Used(v, i) && Torn(v, w.ram, i, LAST_USER_DIRECTORY + 1)
    requires w.kernel == v.kernel && w.spaces == v.spaces[i := UNUSED_SPACE] && w.owner == WithoutSpace(v.owner, i)
    ensures Destroyed(v, w, i)
  {
  }

  lemma ValidIsTyped(vm: AddressSpaces)
    requires vm.Valid()
    ensures WellTyped(vm.State())
  {
  }

  lemma ValidMeans(vm: AddressSpaces)
    requires vm.Valid()
    ensures Inv(vm.State()) && WellTyped(vm.State()) && Booted(vm.State(), vm.Window())
  {
  }

  /** The free frames are the managed ones that nobody owns. */
  lemma FreeIsTheRest(vm: AddressSpaces)
    requires vm.Valid()
    ensures vm.owner.Keys <= vm.managed && vm.pmm.Free() == vm.managed - vm.owner.Keys
    ensures 0 !in vm.pmm.Free() && forall f :: f in vm.pmm.Free() ==> f !in vm.owner && f < MAX_FRAMES
  {
  }

  lemma CountsFree(vm: AddressSpaces)
    requires vm.Valid()
    ensures vm.pmm.freeFrames == CountBelow(vm.pmm.Free(), MAX_FRAMES)
    ensures forall f :: f in vm.pmm.Free() ==> f < MAX_FRAMES
  {
  }

  /** Conservation: the frames that are free and those that somebody owns always add up to the managed ones. */
  lemma FramesConserved(vm: AddressSpaces)
    requires vm.Valid()
    ensures vm.pmm.freeFrames == |vm.pmm.Free()| && vm.pmm.freeFrames + |vm.owner| == |vm.managed|
  {
    CountIsCardinality(vm.pmm.Free(), MAX_FRAMES);
    assert |vm.pmm.Free() + vm.owner.Keys| == |vm.pmm.Free()| + |vm.owner.Keys|;
  }

  lemma CountIsNatural(vm: AddressSpaces)
    requires vm.Valid()
    ensures vm.pmm.freeFrames >= 0
  {
  }

  /** What the allocator's state depends on. */
  lemma Footprint(vm: AddressSpaces)
    requires vm.Valid()
    ensures vm !in vm.pmm.Repr && {vm.pmm, vm.pmm.frameBitmap, vm.pmm.reservedBitmap} <= vm.pmm.Repr
    ensures {vm.pmm.frameBitmap.bytes, vm.pmm.reservedBitmap.bytes} <= vm.pmm.Repr
  {
  }

  lemma FreeIsUnowned(vm: AddressSpaces)
    requires vm.Valid()
    ensures forall f :: f in vm.pmm.Free() ==> f !in vm.owner
  {
  }
}
