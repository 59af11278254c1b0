/** Mapping the framebuffer that the boot loader reports: the first use of `paging_map_page`
    (src/drivers/framebuffer.c). */
module Framebuffer {
  import opened Words
  import opened Multiboot
  import opened BootFormat
  import opened Pmm
  import opened PageTables
  import opened Ownership
  import opened Paging
  import opened Budgets
  import opened Heap

  const TAG_FRAMEBUFFER: int := 8

  /** Bytes of the tag up to and with its type. */
  const TAG_FIELDS: int := 30

  /** The first page of the virtual range. */
  const SCREEN_PAGE: int := 0xE000_0000 / PAGE_SIZE
  const SCREEN_DIRECTORY: int := SCREEN_PAGE / ENTRIES

  /** So many pages lie from there to the end of the address space. */
  const SCREEN_PAGES: int := ALL_PAGES - SCREEN_PAGE

  /** The fields of the tag that decide what is mapped. */
  datatype Mode = Mode(address: nat, pitch: uint32, height: uint32, bpp: uint8, kind: uint8)

  /** The first framebuffer tag before the end of the structure. */
  function FindTag(info: seq<uint8>, off: nat): (tag: Option<nat>)
    requires |info| >= 8 && TagsOk(info, off)
    ensures tag.Some? ==> tag.value + TAG_HEADER <= |info| && U32(info, tag.value) == TAG_FRAMEBUFFER
    decreases |info| - off
  {
    if off >= TotalSize(info) then None
    else if U32(info, off) == TAG_FRAMEBUFFER then Some(off)
    else if U32(info, off) == TAG_END || U32(info, off + 4) < TAG_HEADER then None
    else FindTag(info, off + Align8(U32(info, off + 4)))
  }

  /** The tag that is found is the first of its kind: it is reached from the first tag, and no tag before it is one. */
  ghost predicate FirstScreen(info: seq<uint8>, from: nat, off: nat) {
    exists offs: seq<nat> ::
      && Chain(info, offs) && offs[0] == from && offs[|offs| - 1] == off && IsScreen(info, off)
      && forall k: nat :: k + 1 < |offs| ==> !IsScreen(info, offs[k])
  }

  predicate HasHeader(info: seq<uint8>, off: nat) {
    off + TAG_HEADER <= |info| && U32(info, off + 4) >= TAG_HEADER
  }

  predicate IsScreen(info: seq<uint8>, off: nat) {
    off + 4 <= |info| && U32(info, off) == TAG_FRAMEBUFFER
  }

  lemma {:induction false} FindsFirst(info: seq<uint8>, from: nat, off: nat)
    requires |info| >= 8 && TagsOk(info, from) && from % 8 == 0 && FindTag(info, from) == Some(off)
    ensures FirstScreen(info, from, off)
    decreases |info| - from
  {
    hide U32, TotalSize;
    if U32(info, from) == TAG_FRAMEBUFFER {
      assert Chain(info, [from]);
    } else {
      var next := from + Align8(U32(info, from + 4));
      FindsFirst(info, next, off);
      BehindFollows(info, from);
      var offs: seq<nat> :| Chain(info, offs) && offs[0] == next && offs[|offs| - 1] == off && IsScreen(info, off)
                            && forall k: nat :: k + 1 < |offs| ==> !IsScreen(info, offs[k]);
      var all := [from] + offs;
      forall k: nat | k + 1 < |all|
        ensures Follows(info, all[k], all[k + 1]) && !IsScreen(info, all[k])
      {
        if k > 0 {
          assert Follows(info, offs[k - 1], offs[k]) && !IsScreen(info, offs[k - 1]);
        }
      }
      assert Chain(info, all);
    }
  }

  /** And that one is found, unless a tag before it is shorter than its own header. */
  lemma {:induction false} FirstIsFound(info: seq<uint8>, offs: seq<nat>)
    requires Chain(info, offs) && TagsOk(info, offs[0]) && offs[0] % 8 == 0 && IsScreen(info, offs[|offs| - 1])
    requires forall k: nat :: k + 1 < |offs| ==> !IsScreen(info, offs[k]) && HasHeader(info, offs[k])
    ensures FindTag(info, offs[0]) == Some(offs[|offs| - 1])
    decreases |offs|
  {
    hide U32, TotalSize;
    if |offs| > 1 {
      var rest := offs[1..];
      assert Follows(info, offs[0], offs[1]);
      OneBehind(info, offs[0], offs[1]);
      forall k: nat | k + 1 < |rest|
        ensures Follows(info, rest[k], rest[k + 1]) && !IsScreen(info, rest[k])
        ensures HasHeader(info, rest[k])
      {
        assert Follows(info, offs[k + 1], offs[k + 2]) && !IsScreen(info, offs[k + 1]) && HasHeader(info, offs[k + 1]);
      }
      assert !IsScreen(info, offs[0]) && HasHeader(info, offs[0]);
      FirstIsFound(info, rest);
    }
  }

  /** The fields of the tag lie in the structure, as section 3.6.12 of the Multiboot2 specification lays them out. */
  predicate HasMode(info: seq<uint8>)
    requires WellFormed(info)
  {
    FindTag(info, 8).Some? ==> FindTag(info, 8).value + TAG_FIELDS <= |info|
  }

  function ModeAt(info: seq<uint8>, off: nat): Mode
    requires off + TAG_FIELDS <= |info|
  {
    Mode(U32(info, off + 8) + TWO_32 * U32(info, off + 12), U32(info, off + 16), U32(info, off + 24), info[off + 28],
         info[off + 29])
  }

  /** A framebuffer tag: address, pitch, width, height, bits a pixel, kind. */
  function ModeBytes(m: Mode, width: uint32): (b: seq<uint8>)
    ensures |b| == 22
  {
    Bytes(8, m.address) + (Bytes(4, m.pitch) + LastFields(m, width))
  }

  function LastFields(m: Mode, width: uint32): (b: seq<uint8>)
    ensures |b| == 10
  {
    Bytes(4, width) + (Bytes(4, m.height) + [m.bpp, m.kind])
  }

  /** Reading the tag gives what was written, and only that. */
  lemma ModeRead(info: seq<uint8>, off: nat, m: Mode)
    requires off + TAG_FIELDS <= |info| && m.address < TWO_64
    ensures ModeAt(info, off) == m <==> exists width: uint32 :: info[off + 8..off + TAG_FIELDS] == ModeBytes(m, width)
  {
    hide Bytes, U32, FromBytes;
    if width: uint32 :| info[off + 8..off + TAG_FIELDS] == ModeBytes(m, width) {
      ModeWritten(info, off, m, width);
    }
    ModeWritten(info, off, m, U32(info, off + 20));
  }

  lemma TwoBytes(info: seq<uint8>, off: nat, a: uint8, b: uint8)
    requires off + 2 <= |info|
    ensures info[off..off + 2] == [a, b] <==> info[off] == a && info[off + 1] == b
  {
  }

  lemma ModeWritten(info: seq<uint8>, off: nat, m: Mode, width: uint32)
    requires off + TAG_FIELDS <= |info| && m.address < TWO_64
    ensures info[off + 8..off + TAG_FIELDS] == ModeBytes(m, width) <==>
            ModeAt(info, off) == m && U32(info, off + 20) == width
  {
    AddressRead(info, off);
    var r := ModeAt(info, off);
    assert r.pitch == U32(info, off + 16) && r.height == U32(info, off + 24);
    assert r.bpp == info[off + 28] && r.kind == info[off + 29];
    assert Pow256(8) == TWO_64;
    hide *;
    LastFieldsWritten(info, off, m, width);
    ReadsWord(info, off + 16, m.pitch, LastFields(m, width));
    ReadsField(info, off + 8, 8, m.address, Bytes(4, m.pitch) + LastFields(m, width));
    ModeParts(m, width);
    assert r == m <==> r.address == m.address && r.pitch == m.pitch && r.height == m.height && r.bpp == m.bpp
                       && r.kind == m.kind;
  }

  lemma ModeParts(m: Mode, width: uint32)
    ensures ModeBytes(m, width) == Bytes(8, m.address) + (Bytes(4, m.pitch) + LastFields(m, width))
    ensures TAG_FIELDS == 30
  {
  }

  lemma AddressRead(info: seq<uint8>, off: nat)
    requires off + TAG_FIELDS <= |info|
    ensures ModeAt(info, off).address == FromBytes(info, off + 8, 8)
  {
    Bytes8(info, off + 8);
  }

  lemma LastFieldsWritten(info: seq<uint8>, off: nat, m: Mode, width: uint32)
    requires off + TAG_FIELDS <= |info|
    ensures info[off + 20..off + TAG_FIELDS] == LastFields(m, width) <==>
            && U32(info, off + 20) == width && U32(info, off + 24) == m.height
            && info[off + 28] == m.bpp && info[off + 29] == m.kind
  {
    hide Bytes, U32;
    TwoBytes(info, off + 28, m.bpp, m.kind);
    ReadsWord(info, off + 24, m.height, [m.bpp, m.kind]);
    ReadsWord(info, off + 20, width, Bytes(4, m.height) + [m.bpp, m.kind]);
  }

  /** An RGB mode of 32 bits a pixel below 4 GiB. */
  predicate Supported(m: Mode) {
    m.address < TWO_32 && m.kind == 1 && m.bpp == 32
  }

  /** Modes on both sides of each test: RGB colours and not a palette or text, 32 bits a pixel, and the last address. */
  lemma ModeLimits(pitch: uint32, height: uint32)
    ensures Supported(Mode(0xFFFF_FFFF, pitch, height, 32, 1)) && !Supported(Mode(0x1_0000_0000, pitch, height, 32, 1))
    ensures !Supported(Mode(0, pitch, height, 24, 1)) && !Supported(Mode(0, pitch, height, 32, 0))
            && !Supported(Mode(0, pitch, height, 32, 2))
  {
  }

  /** The number of pages, as the 32-bit code computes it. */
  function PagesOfMode(m: Mode): nat {
    PageAlignUp((m.pitch * m.height % TWO_32 + m.address % PAGE_SIZE) % TWO_32) / PAGE_SIZE
  }

  /** The pages reach to the last byte of the screen if and only if none of the 32-bit operations wraps. */
  lemma PagesCover(m: Mode)
    requires m.pitch * m.height > 0
    ensures PagesOfMode(m) * PAGE_SIZE >= m.address % PAGE_SIZE + m.pitch * m.height <==>
            m.pitch * m.height + m.address % PAGE_SIZE + PAGE_SIZE - 1 < TWO_32
  {
    SizeCovered(m.pitch * m.height, m.address % PAGE_SIZE);
  }

  /** There is no page too many: the last byte lies in the last page. */
  lemma PagesLeast(m: Mode)
    requires 0 < m.pitch * m.height && m.pitch * m.height + m.address % PAGE_SIZE + PAGE_SIZE - 1 < TWO_32
    ensures PagesOfMode(m) == (m.address % PAGE_SIZE + m.pitch * m.height - 1) / PAGE_SIZE + 1
  {
    LastByte(m.pitch * m.height, m.address % PAGE_SIZE);
  }

  lemma LastByte(size: nat, offset: nat)
    requires 0 < size && offset < PAGE_SIZE && size + offset + PAGE_SIZE - 1 < TWO_32
    ensures PageAlignUp((size % TWO_32 + offset) % TWO_32) / PAGE_SIZE == (offset + size - 1) / PAGE_SIZE + 1
  {
  }

  lemma SizeCovered(size: nat, offset: nat)
    requires size > 0 && offset < PAGE_SIZE
    ensures PageAlignUp((size % TWO_32 + offset) % TWO_32) >= offset + size <==> size + offset + PAGE_SIZE - 1 < TWO_32
  {
  }

  /** What is to be mapped: the first physical page, and how many. */
  function Screen(info: seq<uint8>): (s: (nat, nat))
    requires WellFormed(info) && HasMode(info)
    ensures s.0 < ALL_PAGES && s.1 < ALL_PAGES
  {
    var tag := FindTag(info, 8);
    if tag.None? || !Supported(ModeAt(info, tag.value)) then (0, 0)
    else (ModeAt(info, tag.value).address / PAGE_SIZE, PagesOfMode(ModeAt(info, tag.value)))
  }

  /** Page i of the screen in the kernel's address space, around its end. */
  function ScreenPage(i: nat): (page: nat)
    ensures page < ALL_PAGES
  {
    (SCREEN_PAGE + i) % ALL_PAGES
  }

  /** The frame behind page i, for a screen that begins in frame base. */
  function ScreenFrame(base: nat, i: nat): (f: nat)
    ensures f < ALL_PAGES
  {
    (base + i) % ALL_PAGES
  }

  /** The number of the page among those of the screen. */
  function ScreenIndex(page: nat): (i: nat)
    requires page < ALL_PAGES
    ensures i < ALL_PAGES
  {
    (page + ALL_PAGES - SCREEN_PAGE) % ALL_PAGES
  }

  lemma PageOfIndex(page: nat, i: nat)
    requires page < ALL_PAGES && i < ALL_PAGES
    ensures ScreenIndex(page) == i <==> ScreenPage(i) == page
  {
  }

  function ScreenDirectory(k: nat): (d: nat)
    ensures d < ENTRIES
  {
    (SCREEN_DIRECTORY + k) % ENTRIES
  }

  lemma DirectoryOfPage(i: nat)
    requires i < ALL_PAGES
    ensures ScreenPage(i) / ENTRIES == ScreenDirectory(i / ENTRIES) && i / ENTRIES < ENTRIES
  {
    if SCREEN_PAGE + i < ALL_PAGES {
      assert ScreenPage(i) == SCREEN_PAGE + i;
    } else {
      assert ScreenPage(i) == SCREEN_PAGE + i - ALL_PAGES;
    }
  }

  /** The first n pages of the screen go through directory entry d. */
  predicate Reached(n: nat, d: nat) {
    d < ENTRIES && (d + ENTRIES - SCREEN_DIRECTORY) % ENTRIES < Directories(n)
  }

  /** The number of directory entries of the first n pages. */
  function Directories(n: nat): nat {
    (n + ENTRIES - 1) / ENTRIES
  }

  lemma ReachedNext(n: nat)
    requires n < ALL_PAGES
    ensures forall d: nat :: Reached(n + 1, d) <==> Reached(n, d) || d == ScreenDirectory(n / ENTRIES)
    ensures Directories(n + 1) == n / ENTRIES + 1
    ensures Directories(n) == n / ENTRIES + if n % ENTRIES == 0 then 0 else 1
    ensures Reached(n, ScreenDirectory(n / ENTRIES)) <==> n % ENTRIES != 0
  {
    forall d: nat | d < ENTRIES
      ensures Reached(n + 1, d) <==> Reached(n, d) || d == ScreenDirectory(n / ENTRIES)
    {
      SlotOfDirectory(d, n / ENTRIES);
    }
    SlotOfDirectory(ScreenDirectory(n / ENTRIES), n / ENTRIES);
  }

  lemma SlotOfDirectory(d: nat, k: nat)
    requires d < ENTRIES && k < ENTRIES
    ensures (d + ENTRIES - SCREEN_DIRECTORY) % ENTRIES == k <==> d == ScreenDirectory(k)
  {
  }

  /** How many of the first k directory entries of the screen have no table. */
  ghost function Missing(v: View, k: nat): nat
    requires WellTyped(v)
  {
    if k == 0 then 0
    else Missing(v, k - 1) + if Present(KernelPde(v, ScreenDirectory(k - 1))) then 0 else 1
  }

  lemma {:induction false} MissingMonotone(v: View, j: nat, k: nat)
    requires WellTyped(v) && j <= k
    ensures Missing(v, j) <= Missing(v, k)
    decreases k
  {
    if j == k {
    } else {
      MissingMonotone(v, j, k - 1);
    }
  }

  // ---- The state of the loop ----

  /** The kernel's translation after n pages of the screen, the first on physical page base. */
  ghost predicate Shown(v0: View, v: View, base: nat, n: nat) {
    && WellTyped(v0) && WellTyped(v) && v.kernel == v0.kernel && v.spaces == v0.spaces
    && forall page: nat :: page < ALL_PAGES ==>
         Walk(v.ram, v.kernel, page) ==
         if ScreenIndex(page) < n then Some(Leaf(ScreenFrame(base, ScreenIndex(page)), HEAP_FLAGS))
         else Walk(v0.ram, v0.kernel, page)
  }

  /** The tables that were missing have been made, on low frames that were free. */
  ghost predicate TablesMade(v0: View, free0: set<nat>, v: View, free: set<nat>, n: nat) {
    && WellTyped(v0) && WellTyped(v) && n <= ALL_PAGES && free <= free0
    && (forall d: nat :: d < ENTRIES ==>
          (Present(KernelPde(v, d)) <==> Present(KernelPde(v0, d)) || Reached(n, d)))
    && (forall f: nat :: f in v.owner ==> Has(v0, f, v.owner[f]) || NewTable(v.owner[f], n))
    && CountBelow(free0, LOW_FRAMES) == CountBelow(free, LOW_FRAMES) + Missing(v0, Directories(n))
    && CountBelow(free0, MAX_FRAMES) == CountBelow(free, MAX_FRAMES) + Missing(v0, Directories(n))
  }

  predicate NewTable(r: Role, n: nat) {
    r.KernelTable? && Reached(n, r.d)
  }

  lemma NothingShown(v: View, base: nat, free: set<nat>)
    requires WellTyped(v)
    ensures Shown(v, v, base, 0) && TablesMade(v, free, v, free, 0)
  {
  }

  /** One more page is mapped. */
  lemma ShownNext(v0: View, v: View, w: View, m: KernelMap, base: nat, n: nat)
    requires Shown(v0, v, base, n) && KernelMapped(v, w, m) && WellTyped(w) && n < ALL_PAGES
    requires m.page == ScreenPage(n) && LeafOf(m.pte) == Some(Leaf(ScreenFrame(base, n), HEAP_FLAGS))
    ensures Shown(v0, w, base, n + 1)
  {
    forall page: nat | page < ALL_PAGES
      ensures Walk(w.ram, w.kernel, page) ==
              if ScreenIndex(page) < n + 1 then Some(Leaf(ScreenFrame(base, ScreenIndex(page)), HEAP_FLAGS))
              else Walk(v0.ram, v0.kernel, page)
    {
      KernelMapRefines(v, w, m, page);
      PageOfIndex(page, n);
      hide KernelMapped, Walk, ScreenPage, ScreenIndex, ScreenFrame, U32;
    }
  }

  /** What one mapped page does to the directory entries and to the owners. */
  lemma OneTable(v: View, w: View, m: KernelMap)
    requires KernelMapped(v, w, m) && WellTyped(w)
    ensures forall d: nat :: d < ENTRIES ==>
              (Present(KernelPde(w, d)) <==> Present(KernelPde(v, d)) || d == m.page / ENTRIES)
    ensures m.newTable.Some? <==> !Present(KernelPde(v, m.page / ENTRIES))
    ensures m.newTable.Some? ==> m.newTable.value !in v.owner && m.newTable.value < LOW_FRAMES
    ensures w.owner ==
            if m.newTable.Some? then v.owner[m.newTable.value := KernelTable(m.page / ENTRIES)] else v.owner
  {
    KernelMapKeepsKernel(v, w, m);
  }

  /** Whether the next page needs a table. */
  lemma NeedsTable(v0: View, free0: set<nat>, v: View, free: set<nat>, n: nat)
    requires TablesMade(v0, free0, v, free, n) && n < ALL_PAGES
    ensures Missing(v0, Directories(n + 1)) ==
            Missing(v0, Directories(n)) + if Present(KernelPde(v, ScreenPage(n) / ENTRIES)) then 0 else 1
  {
    hide Directories, Reached, ScreenPage, ScreenDirectory, CountBelow, NewTable, KernelPde, U32;
    DirectoryOfPage(n);
    ReachedNext(n);
  }

  lemma TablesNext(v0: View, free0: set<nat>, v: View, free: set<nat>, w: View, left: set<nat>, m: KernelMap, n: nat)
    requires TablesMade(v0, free0, v, free, n) && KernelMapped(v, w, m) && WellTyped(w) && n < ALL_PAGES
    requires m.page == ScreenPage(n) && left == free - if m.newTable.Some? then {m.newTable.value} else {}
    requires m.newTable.Some? ==> m.newTable.value in free && m.newTable.value < MAX_FRAMES
    ensures TablesMade(v0, free0, w, left, n + 1)
  {
    hide KernelMapped, Missing, ScreenPage, Reached, Directories, ScreenDirectory, KernelPde, CountBelow, U32;
    OneTable(v, w, m);
    NeedsTable(v0, free0, v, free, n);
    DirectoryOfPage(n);
    ReachedNext(n);
    CountsNext(free, left, m.newTable);
  }

  lemma CountsNext(free: set<nat>, left: set<nat>, newTable: Option<nat>)
    requires left == free - if newTable.Some? then {newTable.value} else {}
    requires newTable.Some? ==> newTable.value in free && newTable.value < LOW_FRAMES
    ensures left <= free
    ensures CountBelow(free, LOW_FRAMES) == CountBelow(left, LOW_FRAMES) + if newTable.Some? then 1 else 0
    ensures CountBelow(free, MAX_FRAMES) == CountBelow(left, MAX_FRAMES) + if newTable.Some? then 1 else 0
  {
    if newTable.Some? {
      var f := newTable.value;
      assert left + {f} == free;
      CountInsert(left, free, f, LOW_FRAMES);
      CountInsert(left, free, f, MAX_FRAMES);
    } else {
      assert left == free;
    }
  }

  // ---- The code ----

  /** `find_framebuffer_tag` */
  method FindFramebufferTag(info: seq<uint8>) returns (tag: Option<nat>)
    requires WellFormed(info)
    ensures tag == FindTag(info, 8)
  {
    var current: nat := 8;
    while current < TotalSize(info)
      invariant TagsOk(info, current) && FindTag(info, current) == FindTag(info, 8)
      decreases |info| - current
    {
      if U32(info, current) == TAG_FRAMEBUFFER {
        return Some(current);
      }
      if U32(info, current) == TAG_END {
        break;
      }
      if U32(info, current + 4) < TAG_HEADER {
        break;
      }
      current := current + Align8(U32(info, current + 4));
    }
    tag := None;
  }

  /** One round of the mapping loop. */
  method ShowPage(vm: AddressSpaces, ghost v0: View, ghost free0: set<nat>, physicalBase: uint32, i: nat)
    returns (ok: bool)
    requires vm.Valid() && physicalBase % PAGE_SIZE == 0 && i < ALL_PAGES
    requires Shown(v0, vm.State(), physicalBase / PAGE_SIZE, i) && TablesMade(v0, free0, vm.State(), vm.pmm.Free(), i)
    modifies vm`ram, vm`owner, vm.pmm.Repr
    ensures vm.Valid() && vm.pmm.Reserved() == old(vm.pmm.Reserved())
    ensures !ok ==> vm.State() == old(vm.State()) && vm.pmm.Free() == old(vm.pmm.Free())
    ensures !ok ==> CountBelow(vm.pmm.Free(), LOW_FRAMES) == 0
                    && Missing(v0, Directories(i + 1)) == Missing(v0, Directories(i)) + 1
    ensures ok ==> Shown(v0, vm.State(), physicalBase / PAGE_SIZE, i + 1)
    ensures ok ==> TablesMade(v0, free0, vm.State(), vm.pmm.Free(), i + 1)
  {
    hide AddressSpaces.Valid, FrameAllocator.Valid, FrameAllocator.Free, FrameAllocator.Reserved, Shown, TablesMade;
    hide Missing, Walk, CountBelow, KernelMapped, SomeLow, U32;
    Footprint(vm);
    ghost var v, free := vm.State(), vm.pmm.Free();
    ValidIsTyped(vm);
    FreeIsTheRest(vm);
    var physicalPage := (physicalBase + i * PAGE_SIZE) % TWO_32;
    var virtualPage := (0xE000_0000 + i * PAGE_SIZE) % TWO_32;
    PageAddresses(physicalBase, i);
    NeedsTable(v0, free0, v, free, i);
    ghost var m;
    ok, m := vm.MapPage(virtualPage, physicalPage, PAGE_PRESENT + PAGE_WRITABLE);
    ValidIsTyped(vm);
    FreeIsTheRest(vm);
    if ok {
      HeapLeaf(physicalPage);
      ShownNext(v0, v, vm.State(), m, physicalBase / PAGE_SIZE, i);
      FramesOfMap(vm.managed, v, vm.State(), m, free, vm.pmm.Free());
      TablesNext(v0, free0, v, free, vm.State(), vm.pmm.Free(), m, i);
    } else {
      NoLowFrame(free);
    }
  }

  lemma PageAddresses(physicalBase: uint32, i: nat)
    requires physicalBase % PAGE_SIZE == 0 && i < ALL_PAGES
    ensures var pa := (physicalBase + i * PAGE_SIZE) % TWO_32;
            pa % PAGE_SIZE == 0 && pa / PAGE_SIZE == ScreenFrame(physicalBase / PAGE_SIZE, i)
    ensures var va := (0xE000_0000 + i * PAGE_SIZE) % TWO_32;
            va / PAGE_SIZE == ScreenPage(i) && DirectoryIndex(va) == ScreenPage(i) / ENTRIES
  {
    AddressOfPage(physicalBase / PAGE_SIZE + i);
    AddressOfPage(SCREEN_PAGE + i);
    assert physicalBase + i * PAGE_SIZE == (physicalBase / PAGE_SIZE + i) * PAGE_SIZE;
  }

  lemma AddressOfPage(page: nat)
    ensures page * PAGE_SIZE % TWO_32 == page % ALL_PAGES * PAGE_SIZE
  {
    var k, r := page / ALL_PAGES, page % ALL_PAGES;
    assert page * PAGE_SIZE == k * TWO_32 + r * PAGE_SIZE;
  }

  lemma NoLowFrame(free: set<nat>)
    requires !SomeLow(free) && 0 !in free
    ensures CountBelow(free, LOW_FRAMES) == 0
  {
    CountLow(free, LOW_FRAMES);
  }

  lemma FramesOfMap(managed: set<nat>, v: View, w: View, m: KernelMap, free: set<nat>, left: set<nat>)
    requires KernelMapped(v, w, m) && free == managed - v.owner.Keys && left == managed - w.owner.Keys
    requires w.owner.Keys <= managed
    requires forall f :: f in free ==> f < MAX_FRAMES
    ensures left == free - if m.newTable.Some? then {m.newTable.value} else {}
    ensures m.newTable.Some? ==> m.newTable.value in free && m.newTable.value < MAX_FRAMES
  {
    if m.newTable.Some? {
      assert m.newTable.value in w.owner;
    }
  }

  /** The mapping loop maps pages until a table cannot be had: all of them exactly if there is a low frame for every
      table that is missing. What it has mapped stays. */
  method ShowScreen(vm: AddressSpaces, physicalBase: uint32, pages: nat) returns (ok: bool, ghost n: nat)
    requires vm.Valid() && physicalBase % PAGE_SIZE == 0 && pages < ALL_PAGES && WellTyped(vm.State())
    modifies vm`ram, vm`owner, vm.pmm.Repr
    ensures vm.Valid() && vm.pmm.Reserved() == old(vm.pmm.Reserved())
    ensures n <= pages && (ok <==> n == pages)
    ensures ok <==> Missing(old(vm.State()), Directories(pages)) <= CountBelow(old(vm.pmm.Free()), LOW_FRAMES)
    ensures !ok ==> CountBelow(vm.pmm.Free(), LOW_FRAMES) == 0
    ensures Shown(old(vm.State()), vm.State(), physicalBase / PAGE_SIZE, n)
    ensures TablesMade(old(vm.State()), old(vm.pmm.Free()), vm.State(), vm.pmm.Free(), n)
  {
    hide AddressSpaces.Valid, FrameAllocator.Free, FrameAllocator.Reserved, Shown, TablesMade, Missing, CountBelow;
    ghost var v0, free0 := vm.State(), vm.pmm.Free();
    NothingShown(v0, physicalBase / PAGE_SIZE, free0);
    var i := 0;
    while i < pages
      invariant vm.Valid() && vm.pmm.Reserved() == old(vm.pmm.Reserved()) && i <= pages
      invariant Shown(v0, vm.State(), physicalBase / PAGE_SIZE, i)
      invariant TablesMade(v0, free0, vm.State(), vm.pmm.Free(), i)
    {
      var shown := ShowPage(vm, v0, free0, physicalBase, i);
      if !shown {
        OutOfTables(v0, free0, vm.State(), vm.pmm.Free(), i, pages);
        return false, i;
      }
      i := i + 1;
    }
    EnoughTables(v0, free0, vm.State(), vm.pmm.Free(), pages);
    ok, n := true, pages;
  }

  lemma OutOfTables(v0: View, free0: set<nat>, v: View, free: set<nat>, i: nat, pages: nat)
    requires TablesMade(v0, free0, v, free, i) && i < pages && CountBelow(free, LOW_FRAMES) == 0
    requires Missing(v0, Directories(i + 1)) == Missing(v0, Directories(i)) + 1
    ensures Missing(v0, Directories(pages)) > CountBelow(free0, LOW_FRAMES)
  {
    MissingMonotone(v0, Directories(i + 1), Directories(pages));
  }

  lemma EnoughTables(v0: View, free0: set<nat>, v: View, free: set<nat>, pages: nat)
    requires TablesMade(v0, free0, v, free, pages)
    ensures Missing(v0, Directories(pages)) <= CountBelow(free0, LOW_FRAMES)
  {
  }

  /** `framebuffer_initialize`, as far as it touches memory. */
  method Initialize(vm: AddressSpaces, info: seq<uint8>) returns (ok: bool, ghost n: nat)
    requires vm.Valid() && WellTyped(vm.State()) && WellFormed(info) && HasMode(info)
    modifies vm`ram, vm`owner, vm.pmm.Repr
    ensures vm.Valid() && vm.pmm.Reserved() == old(vm.pmm.Reserved())
    ensures n <= Screen(info).1
    ensures ok <==> Screen(info).1 > 0 && Missing(old(vm.State()), Directories(Screen(info).1)) <=
                                          CountBelow(old(vm.pmm.Free()), LOW_FRAMES)
    ensures ok ==> n == Screen(info).1
    ensures !ok && Screen(info).1 > 0 ==> CountBelow(vm.pmm.Free(), LOW_FRAMES) == 0
    ensures Shown(old(vm.State()), vm.State(), Screen(info).0, n)
    ensures TablesMade(old(vm.State()), old(vm.pmm.Free()), vm.State(), vm.pmm.Free(), n)
  {
    hide AddressSpaces.Valid, FrameAllocator.Free, FrameAllocator.Reserved, Shown, TablesMade, Missing, CountBelow;
    hide FindTag, U32;
    NothingShown(vm.State(), Screen(info).0, vm.pmm.Free());
    ok, n := false, 0;
    var tag := FindFramebufferTag(info);
    if tag.None? {
      return;
    }
    var mode := ModeAt(info, tag.value);
    if mode.address / TWO_32 != 0 || mode.kind != 1 || mode.bpp != 32 {
      return;
    }
    var physical: uint32 := mode.address;
    var size := mode.pitch * mode.height % TWO_32;
    var physicalBase := PageBase(physical);
    var offset := physical - physicalBase;
    var mappedSize := PageAlignUp((size + offset) % TWO_32);
    var pages := mappedSize / PAGE_SIZE;
    if pages == 0 {
      return;
    }
    ok, n := ShowScreen(vm, physicalBase, pages);
  }

  // ---- What the rest of the kernel finds ----

  /** The bytes of the screen are where the drawing functions look for them. */
  lemma PixelShown(v0: View, v: View, m: Mode, n: nat, k: nat)
    requires Supported(m) && Shown(v0, v, m.address / PAGE_SIZE, n) && n <= SCREEN_PAGES
    requires (m.address % PAGE_SIZE + k) / PAGE_SIZE < n && m.address + k < TWO_32
    ensures Walk(v.ram, v.kernel, (0xE000_0000 + m.address % PAGE_SIZE + k) / PAGE_SIZE) ==
              Some(Leaf((m.address + k) / PAGE_SIZE, HEAP_FLAGS))
    ensures (0xE000_0000 + m.address % PAGE_SIZE + k) % PAGE_SIZE == (m.address + k) % PAGE_SIZE
  {
    var i := (m.address % PAGE_SIZE + k) / PAGE_SIZE;
    PixelAddress(m.address, k);
    hide Walk, ScreenIndex, ScreenFrame, Shown, U32;
    ShownAt(v0, v, m.address / PAGE_SIZE, n, i);
    PageOfSum(m.address, k, i);
  }

  lemma ShownAt(v0: View, v: View, base: nat, n: nat, i: nat)
    requires Shown(v0, v, base, n) && i < n <= SCREEN_PAGES
    ensures Walk(v.ram, v.kernel, SCREEN_PAGE + i) == Some(Leaf(ScreenFrame(base, i), HEAP_FLAGS))
  {
    hide Walk, ScreenIndex, ScreenFrame, U32;
    HighIndex(i);
  }

  lemma HighIndex(i: nat)
    requires i < SCREEN_PAGES
    ensures ScreenIndex(SCREEN_PAGE + i) == i
  {
  }

  lemma PageOfSum(address: nat, k: nat, i: nat)
    requires (address + k) / PAGE_SIZE == address / PAGE_SIZE + i && address + k < TWO_32
    ensures ScreenFrame(address / PAGE_SIZE, i) == (address + k) / PAGE_SIZE
  {
  }

  lemma PixelAddress(address: nat, k: nat)
    ensures var i := (address % PAGE_SIZE + k) / PAGE_SIZE;
            && (0xE000_0000 + address % PAGE_SIZE + k) / PAGE_SIZE == SCREEN_PAGE + i
            && (address + k) / PAGE_SIZE == address / PAGE_SIZE + i
            && (0xE000_0000 + address % PAGE_SIZE + k) % PAGE_SIZE == (address + k) % PAGE_SIZE
  {
    assert address == address / PAGE_SIZE * PAGE_SIZE + address % PAGE_SIZE;
  }

  /** Low memory stays mapped onto itself if and only if the screen ends before the end of the address space, or lies in
      memory where it is mapped. */
  lemma IdentityExact(v0: View, v: View, base: nat, n: nat)
    requires Shown(v0, v, base, n) && IdentityOutside(v0, 0) && base < ALL_PAGES && n < ALL_PAGES
    ensures IdentityOutside(v, 0) <==> n <= SCREEN_PAGES || base == SCREEN_PAGE
  {
    hide Walk, ScreenIndex, Shown, IdentityOutside;
    if n <= SCREEN_PAGES || base == SCREEN_PAGE {
      IdentityStays(v0, v, base, n);
    } else {
      PageZeroLost(v0, v, base, n);
    }
  }

  lemma IdentityStays(v0: View, v: View, base: nat, n: nat)
    requires Shown(v0, v, base, n) && IdentityOutside(v0, 0) && base < ALL_PAGES && n < ALL_PAGES
    requires n <= SCREEN_PAGES || base == SCREEN_PAGE
    ensures IdentityOutside(v, 0)
  {
    forall page: nat | page < LOW_FRAMES
      ensures Walk(v.ram, v.kernel, page) == Some(Leaf(page, HEAP_FLAGS))
    {
      hide Walk, ScreenIndex, ScreenFrame, U32;
      LowIndex(page);
    }
  }

  lemma PageZeroLost(v0: View, v: View, base: nat, n: nat)
    requires Shown(v0, v, base, n) && SCREEN_PAGES < n && base < ALL_PAGES && base != SCREEN_PAGE
    ensures !IdentityOutside(v, 0)
  {
    LowIndex(0);
    hide Walk, ScreenIndex, U32;
    assert ScreenFrame(base, SCREEN_PAGES) != 0;
    hide ScreenFrame;
    assert Walk(v.ram, v.kernel, 0) == Some(Leaf(ScreenFrame(base, SCREEN_PAGES), HEAP_FLAGS));
  }

  lemma LowIndex(page: nat)
    requires page < LOW_FRAMES
    ensures ScreenIndex(page) == page + SCREEN_PAGES && ScreenFrame(SCREEN_PAGE, ScreenIndex(page)) == page
  {
  }

  /** With no page of the heap in use this is all that the heap needs. */
  lemma HeapStillEmpty(v0: View, v: View, base: nat, n: nat, free0: set<nat>, free: set<nat>)
    requires Shown(v0, v, base, n) && TablesMade(v0, free0, v, free, n) && n <= SCREEN_PAGES
    requires HeapPages(v0, []) && base < ALL_PAGES
    ensures HeapPages(v, [])
  {
    IdentityExact(v0, v, base, n);
  }

  /** The failing input: a screen of one page more than there is room for. */
  lemma LargeMode()
    ensures var m := Mode(0, 0x2000_1000, 1, 32, 1); Supported(m) && PagesOfMode(m) == SCREEN_PAGES + 1
  {
  }

  /** Its last page is mapped over page 0. */
  method LargeScreen(vm: AddressSpaces) returns (ok: bool)
    requires vm.Valid() && WellTyped(vm.State()) && IdentityOutside(vm.State(), 0)
    requires Missing(vm.State(), Directories(SCREEN_PAGES + 1)) <= CountBelow(vm.pmm.Free(), LOW_FRAMES)
    modifies vm`ram, vm`owner, vm.pmm.Repr
    ensures vm.Valid() && ok && !IdentityOutside(vm.State(), 0)
  {
    hide AddressSpaces.Valid, FrameAllocator.Free, TablesMade, Missing, CountBelow, IdentityOutside, Shown;
    ghost var v0 := vm.State();
    ghost var n;
    ok, n := ShowScreen(vm, 0, SCREEN_PAGES + 1);
    IdentityExact(v0, vm.State(), 0, n);
  }

  /** After start-up every directory entry of the screen lacks a table. */
  lemma {:induction false} MissingAtBoot(v: View, k: nat)
    requires Inv(v) && OnlyBootTables(v) && k <= ENTRIES - SCREEN_DIRECTORY
    ensures Missing(v, k) == k
  {
    if k == 0 {
    } else {
      hide Inv, OnlyBootTables, KernelPde, U32, ScreenDirectory;
      MissingAtBoot(v, k - 1);
      HighDirectory(k - 1);
      NoTableAt(v, ScreenDirectory(k - 1));
    }
  }

  lemma HighDirectory(k: nat)
    requires k < ENTRIES - SCREEN_DIRECTORY
    ensures ScreenDirectory(k) == SCREEN_DIRECTORY + k
  {
  }

  lemma NoTableAt(v: View, d: nat)
    requires Inv(v) && OnlyBootTables(v) && SCREEN_DIRECTORY <= d < ENTRIES
    ensures !Present(KernelPde(v, d))
  {
    hide U32;
    assert Present(KernelPde(v, d)) ==> Has(v, FrameOf(KernelPde(v, d)), KernelTable(d));
  }

  /** The tables of the screen lie outside the range of user programs. */
  lemma ScreenOutsideUser(v0: View, free0: set<nat>, v: View, free: set<nat>, n: nat)
    requires OnlyBootTables(v0) && TablesMade(v0, free0, v, free, n) && n <= SCREEN_PAGES
    ensures NoUserTables(v)
  {
    forall f: nat | f in v.owner && v.owner[f].KernelTable?
      ensures !IsUserIndex(v.owner[f].d)
    {
      hide Reached, Missing, CountBelow, KernelPde, Directories;
      if !Has(v0, f, v.owner[f]) {
        ReachedHigh(n, v.owner[f].d);
      }
    }
  }

  lemma ReachedHigh(n: nat, d: nat)
    requires n <= SCREEN_PAGES && Reached(n, d)
    ensures d >= SCREEN_DIRECTORY
  {
  }
}
