/** Who owns each page frame: the invariant that ties page tables, address spaces and the allocator together. */
module Ownership {
  import opened Words
  import opened PageTables

  const MAX_ADDRESS_SPACES: int := 16
  const FIRST_USER_DIRECTORY: int := 256
  const LAST_USER_DIRECTORY: int := 511

  /** INITIAL_IDENTITY_MAP_SIZE in frames: the kernel can only edit tables below it. */
  const LOW_FRAMES: int := 8192

  /** The kernel can reach a table in this frame: it lies in the identity map and its address is not null. */
  predicate Editable(f: nat) {
    0 < f < LOW_FRAMES
  }

  /** One slot of the address-space table; `owned` holds the directory indices whose bit is set. */
  datatype Space = Space(used: bool, directory: uint32, owned: set<nat>)

  const UNUSED_SPACE: Space := Space(false, 0, {})

  /** The table before any space is created. */
  const NO_SPACES: seq<Space> := seq(MAX_ADDRESS_SPACES, i => UNUSED_SPACE)

  /** The single purpose of a frame that is not free. */
  datatype Role =
    | KernelDirectory
    | KernelTable(d: nat)
    | Directory(space: nat)
    | Table(space: nat, d: nat)
    | UserPage(space: nat, page: nat)
    | HeapPage(k: nat)
    | Held

  /** Memory, the frame of the kernel directory, the address-space table, and the owner of each frame in use. */
  datatype View = View(ram: Ram, kernel: nat, spaces: seq<Space>, owner: map<nat, Role>)

  predicate IsUserIndex(d: nat) {
    FIRST_USER_DIRECTORY <= d <= LAST_USER_DIRECTORY
  }

  /** The role belongs to address space i. */
  predicate OfSpace(r: Role, i: nat) {
    match r
    case Directory(j) => j == i
    case Table(j, _) => j == i
    case UserPage(j, _) => j == i
    case _ => false
  }

  predicate Has(v: View, f: nat, r: Role) {
    f in v.owner && v.owner[f] == r
  }

  predicate WellTyped(v: View) {
    Editable(v.kernel) && |v.spaces| == MAX_ADDRESS_SPACES && forall f :: f in v.owner ==> f < ALL_FRAMES
  }

  predicate Used(v: View, i: nat) {
    i < |v.spaces| && v.spaces[i].used
  }

  function DirOf(v: View, i: nat): (f: nat)
    requires i < |v.spaces|
    ensures f < ALL_FRAMES
  {
    v.spaces[i].directory / PAGE_SIZE
  }

  function KernelPde(v: View, d: nat): uint32
    requires WellTyped(v) && d < ENTRIES
  {
    Entry(v.ram, v.kernel, d)
  }

  function Pde(v: View, i: nat, d: nat): uint32
    requires WellTyped(v) && Used(v, i) && d < ENTRIES
  {
    Entry(v.ram, DirOf(v, i), d)
  }

  function Pte(v: View, i: nat, d: nat, t: nat): uint32
    requires WellTyped(v) && Used(v, i) && d < ENTRIES && t < ENTRIES
  {
    Entry(v.ram, FrameOf(Pde(v, i, d)), t)
  }

  predicate Owns(v: View, i: nat, d: nat) {
    Used(v, i) && d in v.spaces[i].owned
  }

  /** Every table of the kernel directory has its own low frame. */
  ghost predicate KernelOk(v: View)
    requires WellTyped(v)
  {
    Has(v, v.kernel, KernelDirectory)
    && forall d: nat :: d < ENTRIES && Present(KernelPde(v, d)) ==>
         Editable(FrameOf(KernelPde(v, d))) && Has(v, FrameOf(KernelPde(v, d)), KernelTable(d))
  }

  /** A used space has its own low directory frame; an unused slot is blank. */
  ghost predicate DirectoriesOk(v: View)
    requires WellTyped(v)
  {
    forall i: nat :: i < MAX_ADDRESS_SPACES ==>
      if v.spaces[i].used
      then v.spaces[i].directory % PAGE_SIZE == 0 && Editable(DirOf(v, i)) && Has(v, DirOf(v, i), Directory(i))
      else v.spaces[i] == UNUSED_SPACE
  }

  /** Owned tables are private, low, user-accessible and in the user range. */
  ghost predicate OwnedOk(v: View)
    requires WellTyped(v)
  {
    forall i: nat, d: nat :: Owns(v, i, d) ==>
      IsUserIndex(d) && Present(Pde(v, i, d)) && User(Pde(v, i, d))
      && Editable(FrameOf(Pde(v, i, d))) && Has(v, FrameOf(Pde(v, i, d)), Table(i, d))
  }

  /** Every other table of a space is the kernel's, shared without USER. */
  ghost predicate SharedOk(v: View)
    requires WellTyped(v)
  {
    forall i: nat, d: nat :: Used(v, i) && d < ENTRIES && !Owns(v, i, d) && Present(Pde(v, i, d)) ==>
      !User(Pde(v, i, d)) && Present(KernelPde(v, d)) && FrameOf(Pde(v, i, d)) == FrameOf(KernelPde(v, d))
  }

  /** Every page mapped by an owned table lies on its own frame. */
  ghost predicate PagesOk(v: View)
    requires WellTyped(v) && OwnedOk(v)
  {
    forall i: nat, d: nat, t: nat :: Owns(v, i, d) && t < ENTRIES && Present(Pte(v, i, d, t)) ==>
      User(Pte(v, i, d, t)) && Has(v, FrameOf(Pte(v, i, d, t)), UserPage(i, d * ENTRIES + t))
  }

  /** The frame is in use for r: an entry of the tables or of the address-space table points to it. */
  ghost predicate InUse(v: View, f: nat, r: Role)
    requires WellTyped(v) && OwnedOk(v)
  {
    match r
    case KernelDirectory => f == v.kernel
    case KernelTable(d) => d < ENTRIES && Present(KernelPde(v, d)) && FrameOf(KernelPde(v, d)) == f
    case Directory(i) => Used(v, i) && DirOf(v, i) == f
    case Table(i, d) => Owns(v, i, d) && FrameOf(Pde(v, i, d)) == f
    case UserPage(i, page) =>
      page < ALL_PAGES && Owns(v, i, page / ENTRIES)
      && Present(Pte(v, i, page / ENTRIES, page % ENTRIES)) && FrameOf(Pte(v, i, page / ENTRIES, page % ENTRIES)) == f
    case HeapPage(_) => true
    case Held => true
  }

  /** No frame is recorded for a purpose it does not serve. */
  ghost predicate Exact(v: View)
    requires WellTyped(v) && OwnedOk(v)
  {
    forall f: nat :: f in v.owner ==> InUse(v, f, v.owner[f])
  }

  ghost predicate Inv(v: View) {
    WellTyped(v) && KernelOk(v) && DirectoriesOk(v) && OwnedOk(v) && SharedOk(v) && PagesOk(v) && Exact(v)
  }

  /** Two frames that serve the same purpose are the same frame. */
  lemma OneFramePerRole(v: View, f: nat, g: nat, r: Role)
    requires Inv(v) && Has(v, f, r) && Has(v, g, r) && !r.Held? && !r.HeapPage?
    ensures f == g
  {
  }

  /** A ring-3 accessible page of a space lies between 0x40000000 and 0x7FFFFFFF, on a frame of its own. */
  lemma Isolation(v: View, i: nat, page: nat)
    requires Inv(v) && Used(v, i) && page < ALL_PAGES && UserAccessible(v.ram, DirOf(v, i), page)
    ensures 0x4000_0000 <= page * PAGE_SIZE && page * PAGE_SIZE + PAGE_SIZE - 1 <= 0x7FFF_FFFF
    ensures Walk(v.ram, DirOf(v, i), page).Some?
    ensures Has(v, Walk(v.ram, DirOf(v, i), page).value.frame, UserPage(i, page))
  {
    var d := page / ENTRIES;
    assert page == d * ENTRIES + page % ENTRIES;
    assert Present(Pde(v, i, d)) && User(Pde(v, i, d));
    assert Owns(v, i, d);
    assert Present(Pte(v, i, d, page % ENTRIES));
  }

  /** No two ring-3 accessible pages, of one space or of two, share a frame; and no such frame holds a
      directory, a page table or a heap page. */
  lemma NoSharing(v: View, i: nat, page: nat, j: nat, page': nat)
    requires Inv(v) && Used(v, i) && Used(v, j) && page < ALL_PAGES && page' < ALL_PAGES
    requires UserAccessible(v.ram, DirOf(v, i), page) && UserAccessible(v.ram, DirOf(v, j), page')
    requires Walk(v.ram, DirOf(v, i), page).value.frame == Walk(v.ram, DirOf(v, j), page').value.frame
    ensures i == j && page == page'
  {
    Isolation(v, i, page);
    Isolation(v, j, page');
  }

  /** The directories of the invariant are trees. */
  lemma KernelIsTree(v: View)
    requires Inv(v)
    ensures TreeShaped(v.ram, v.kernel)
  {
    assert forall d: nat :: d < ENTRIES ==> KernelPde(v, d) == Entry(v.ram, v.kernel, d);
  }

  lemma SpaceIsTree(v: View, i: nat)
    requires Inv(v) && Used(v, i)
    ensures TreeShaped(v.ram, DirOf(v, i))
  {
    assert forall d: nat :: d < ENTRIES ==> Pde(v, i, d) == Entry(v.ram, DirOf(v, i), d);
    assert forall d: nat :: d < ENTRIES && Present(Pde(v, i, d)) ==> TableRole(v, i, d, FrameOf(Pde(v, i, d)));
  }

  predicate TableRole(v: View, i: nat, d: nat, f: nat) {
    Has(v, f, Table(i, d)) || Has(v, f, KernelTable(d))
  }

  /** `mark_owned_page_table` */
  function MarkOwned(s: Space, d: nat): Space {
    s.(owned := s.owned + {d})
  }

  /** One call of `paging_map_user_page` that succeeds: page of space i goes on frame p, through a new
      table if there was none; pde and pte are the two words it writes. */
  datatype UserMap = UserMap(i: nat, page: nat, p: nat, newTable: Option<nat>, pde: uint32, pte: uint32)

  /** The frame that an owned table already maps the page on. */
  function MappedFrame(v: View, i: nat, page: nat): Option<nat>
    requires WellTyped(v) && page < ALL_PAGES
  {
    if Owns(v, i, page / ENTRIES) && Present(Pte(v, i, page / ENTRIES, page % ENTRIES))
    then Some(FrameOf(Pte(v, i, page / ENTRIES, page % ENTRIES))) else None
  }

  /** A new table joins the space; a frame the page was mapped on before is left with no one to release it. */
  function OwnerAfterMap(owner: map<nat, Role>, m: UserMap, replaced: Option<nat>): map<nat, Role> {
    var withTable := if m.newTable.Some? then owner[m.newTable.value := Table(m.i, m.page / ENTRIES)] else owner;
    var without := if replaced.Some? then withTable[replaced.value := Held] else withTable;
    without[m.p := UserPage(m.i, m.page)]
  }

  function AfterMark(v: View, m: UserMap): seq<Space>
    requires m.i < |v.spaces|
  {
    v.spaces[m.i := MarkOwned(v.spaces[m.i], m.page / ENTRIES)]
  }

  function OwnerAfter(v: View, m: UserMap): map<nat, Role>
    requires WellTyped(v) && m.page < ALL_PAGES
  {
    OwnerAfterMap(v.owner, m, MappedFrame(v, m.i, m.page))
  }

  ghost predicate UserMapped(v: View, w: View, m: UserMap) {
    && Inv(v) && Used(v, m.i) && m.page < ALL_PAGES && IsUserIndex(m.page / ENTRIES)
    && m.p < ALL_FRAMES && Has(v, m.p, Held)
    && Present(m.pde) && User(m.pde) && Present(m.pte) && User(m.pte) && FrameOf(m.pte) == m.p
    && (match m.newTable
        case Some(f) =>
          !Present(Pde(v, m.i, m.page / ENTRIES)) && FrameOf(m.pde) == f && Editable(f) && f !in v.owner
        case None => Owns(v, m.i, m.page / ENTRIES) && FrameOf(m.pde) == FrameOf(Pde(v, m.i, m.page / ENTRIES)))
    && Mapped(v.ram, w.ram, DirOf(v, m.i), m.page / ENTRIES, m.pde, FrameOf(m.pde), m.newTable.Some?,
              m.page % ENTRIES, m.pte)
    && w.kernel == v.kernel
    && w.spaces == AfterMark(v, m) && w.owner == OwnerAfter(v, m)
  }

  lemma UserMapKeepsKernel(v: View, w: View, m: UserMap)
    requires UserMapped(v, w, m)
    ensures WellTyped(w) && KernelOk(w)
    ensures w.ram[w.kernel] == v.ram[v.kernel]
    ensures forall d: nat :: d < ENTRIES && Present(KernelPde(v, d)) ==>
              w.ram[FrameOf(KernelPde(v, d))] == v.ram[FrameOf(KernelPde(v, d))]
  {
    hide U32, Present;
    forall d: nat | d < ENTRIES
      ensures KernelPde(w, d) == KernelPde(v, d)
    {
    }
  }

  lemma UserMapKeepsDirectories(v: View, w: View, m: UserMap)
    requires UserMapped(v, w, m)
    ensures WellTyped(w) && DirectoriesOk(w)
  {
    hide Entry;

  }

  /** Mapping in space i changes no entry that another space can see. */
  lemma UserMapKeepsOthers(v: View, w: View, m: UserMap, j: nat, d: nat)
    requires UserMapped(v, w, m) && WellTyped(w)
    requires Used(v, j) && d < ENTRIES && (j != m.i || d != m.page / ENTRIES)
    ensures Used(w, j) && Pde(w, j, d) == Pde(v, j, d) && Owns(w, j, d) == Owns(v, j, d)
    ensures Present(Pde(v, j, d)) ==> w.ram[FrameOf(Pde(v, j, d))] == v.ram[FrameOf(Pde(v, j, d))]
  {
    if Present(Pde(v, j, d)) {
      assert TableRole(v, j, d, FrameOf(Pde(v, j, d)));
    }
  }

  lemma UserMapKeepsOwned(v: View, w: View, m: UserMap)
    requires UserMapped(v, w, m) && WellTyped(w)
    ensures OwnedOk(w)
  {
    hide Entry;
    forall j: nat, d: nat | Owns(w, j, d)
      ensures IsUserIndex(d) && Present(Pde(w, j, d)) && User(Pde(w, j, d))
              && Editable(FrameOf(Pde(w, j, d))) && Has(w, FrameOf(Pde(w, j, d)), Table(j, d))
    {
      if j != m.i || d != m.page / ENTRIES {
        assert Owns(v, j, d);
        UserMapKeepsOthers(v, w, m, j, d);
      }
    }
  }

  lemma UserMapKeepsShared(v: View, w: View, m: UserMap)
    requires UserMapped(v, w, m) && WellTyped(w)
    ensures SharedOk(w)
  {
    forall j: nat, d: nat | Used(w, j) && d < ENTRIES && !Owns(w, j, d) && Present(Pde(w, j, d))
      ensures !User(Pde(w, j, d)) && Present(KernelPde(w, d)) && FrameOf(Pde(w, j, d)) == FrameOf(KernelPde(w, d))
    {
      UserMapKeepsOthers(v, w, m, j, d);
      UserMapKeepsKernel(v, w, m);
    }
  }

  lemma UserMapPte(v: View, w: View, m: UserMap, j: nat, d: nat, t: nat)
    requires UserMapped(v, w, m) && WellTyped(w) && OwnedOk(w)
    requires Owns(w, j, d) && t < ENTRIES
    ensures Pte(w, j, d, t) ==
            if j == m.i && d == m.page / ENTRIES
            then (if t == m.page % ENTRIES then m.pte else if m.newTable.Some? then 0 else Pte(v, j, d, t))
            else Pte(v, j, d, t)
  {
    if j != m.i || d != m.page / ENTRIES {
      UserMapKeepsOthers(v, w, m, j, d);
    }
  }

  lemma UserMapKeepsPages(v: View, w: View, m: UserMap)
    requires UserMapped(v, w, m) && WellTyped(w) && OwnedOk(w)
    ensures PagesOk(w)
  {
    forall j: nat, d: nat, t: nat | Owns(w, j, d) && t < ENTRIES && Present(Pte(w, j, d, t))
      ensures User(Pte(w, j, d, t)) && Has(w, FrameOf(Pte(w, j, d, t)), UserPage(j, d * ENTRIES + t))
    {
      UserMapPte(v, w, m, j, d, t);
      if j != m.i || d * ENTRIES + t != m.page {
        UserMapKeepsPage(v, w, m, j, d, t);
      }
    }
  }

  lemma UserMapKeepsPage(v: View, w: View, m: UserMap, j: nat, d: nat, t: nat)
    requires UserMapped(v, w, m) && WellTyped(w) && OwnedOk(w) && Owns(w, j, d) && t < ENTRIES
    requires Present(Pte(w, j, d, t)) && (d * ENTRIES + t != m.page || j != m.i)
    ensures User(Pte(w, j, d, t)) && Has(w, FrameOf(Pte(w, j, d, t)), UserPage(j, d * ENTRIES + t))
  {
    hide Mapped, Entry, KernelOk, DirectoriesOk, SharedOk, Exact;
    UserMapPte(v, w, m, j, d, t);
    assert Owns(v, j, d);
    assert Has(v, FrameOf(Pte(v, j, d, t)), UserPage(j, d * ENTRIES + t));
  }

  lemma UserMapKeepsUse(v: View, w: View, m: UserMap, f: nat)
    requires UserMapped(v, w, m) && WellTyped(w) && OwnedOk(w)
    requires f in v.owner && Has(w, f, v.owner[f])
    ensures InUse(w, f, v.owner[f])
  {
    hide U32, Mapped, Pte;
    match v.owner[f]
    case KernelTable(d) => UserMapKeepsKernel(v, w, m);
    case Table(j, d) =>
      if j != m.i || d != m.page / ENTRIES {
        UserMapKeepsOthers(v, w, m, j, d);
      }
    case UserPage(j, page) => UserMapPte(v, w, m, j, page / ENTRIES, page % ENTRIES);
    case _ =>
  }

  lemma UserMapKeepsExact(v: View, w: View, m: UserMap)
    requires UserMapped(v, w, m) && WellTyped(w) && OwnedOk(w)
    ensures Exact(w)
  {
    hide Entry;
    forall f: nat | f in w.owner
      ensures InUse(w, f, w.owner[f])
    {
      if f in v.owner && w.owner[f] == v.owner[f] {
        UserMapKeepsUse(v, w, m, f);
      }
    }
  }

  lemma UserMapKeepsInv(v: View, w: View, m: UserMap)
    requires UserMapped(v, w, m)
    ensures Inv(w)
  {
    UserMapKeepsKernel(v, w, m);
    UserMapKeepsDirectories(v, w, m);
    UserMapKeepsOwned(v, w, m);
    UserMapKeepsShared(v, w, m);
    UserMapKeepsPages(v, w, m);
    UserMapKeepsExact(v, w, m);
  }

  /** Mapping a user page updates the walk of its own space at exactly that page and no other walk at all. */
  lemma UserMapRefines(v: View, w: View, m: UserMap, page: nat)
    requires UserMapped(v, w, m) && page < ALL_PAGES
    ensures Walk(w.ram, w.kernel, page) == Walk(v.ram, v.kernel, page)
    ensures forall j: nat :: Used(v, j) ==>
              Walk(w.ram, DirOf(w, j), page) ==
              if j == m.i && page == m.page then LeafOf(m.pte) else Walk(v.ram, DirOf(v, j), page)
  {
    var d, t := m.page / ENTRIES, m.page % ENTRIES;
    assert m.page == d * ENTRIES + t;
    UserMapKeepsKernel(v, w, m);
    WalkFramed(v.ram, w.ram, v.kernel, page) by {
      assert Entry(v.ram, v.kernel, page / ENTRIES) == KernelPde(v, page / ENTRIES);
    }
    forall j: nat | Used(v, j)
      ensures Walk(w.ram, DirOf(w, j), page) ==
              if j == m.i && page == m.page then LeafOf(m.pte) else Walk(v.ram, DirOf(v, j), page)
    {
      if j == m.i {
        SpaceIsTree(v, j);
        UserMapFreshTable(v, w, m);
        MapRefinesFlat(v.ram, w.ram, DirOf(v, j), d, m.pde, FrameOf(m.pde), m.newTable.Some?, t, m.pte, page);
      } else {
        UserMapKeepsOthers(v, w, m, j, page / ENTRIES);
      }
    }
  }

  lemma UserMapFreshTable(v: View, w: View, m: UserMap)
    requires UserMapped(v, w, m)
    ensures m.newTable.Some? ==> Outside(v.ram, DirOf(v, m.i), FrameOf(m.pde))
  {
    if m.newTable.Some? {
      forall d: nat | d < ENTRIES && Present(Entry(v.ram, DirOf(v, m.i), d))
        ensures FrameOf(Entry(v.ram, DirOf(v, m.i), d)) in v.owner
      {
        assert Present(Pde(v, m.i, d));
        assert TableRole(v, m.i, d, FrameOf(Pde(v, m.i, d)));
      }
    }
  }

  /** One call of `paging_map_page` that succeeds. */
  datatype KernelMap = KernelMap(page: nat, newTable: Option<nat>, pde: uint32, pte: uint32)

  ghost predicate KernelMapped(v: View, w: View, m: KernelMap) {
    && Inv(v) && m.page < ALL_PAGES && Present(m.pde)
    && (match m.newTable
        case Some(f) =>
          !Present(KernelPde(v, m.page / ENTRIES)) && FrameOf(m.pde) == f && Editable(f) && f !in v.owner
        case None =>
          Present(KernelPde(v, m.page / ENTRIES)) && FrameOf(m.pde) == FrameOf(KernelPde(v, m.page / ENTRIES)))
    && Mapped(v.ram, w.ram, v.kernel, m.page / ENTRIES, m.pde, FrameOf(m.pde), m.newTable.Some?, m.page % ENTRIES,
              m.pte)
    && w.kernel == v.kernel && w.spaces == v.spaces
    && w.owner == if m.newTable.Some? then v.owner[m.newTable.value := KernelTable(m.page / ENTRIES)] else v.owner
  }

  lemma KernelMapKeepsKernel(v: View, w: View, m: KernelMap)
    requires KernelMapped(v, w, m)
    ensures WellTyped(w) && KernelOk(w) && DirectoriesOk(w)
    ensures forall d: nat :: d < ENTRIES ==>
              KernelPde(w, d) == if d == m.page / ENTRIES then m.pde else KernelPde(v, d)
  {
    forall d: nat | d < ENTRIES
      ensures KernelPde(w, d) == if d == m.page / ENTRIES then m.pde else KernelPde(v, d)
    {
    }
  }

  /** The private frames of a space stay as they are. */
  lemma KernelMapKeepsSpace(v: View, w: View, m: KernelMap, i: nat)
    requires KernelMapped(v, w, m) && WellTyped(w) && Used(v, i)
    ensures w.ram[DirOf(v, i)] == v.ram[DirOf(v, i)]
    ensures forall d: nat :: d < ENTRIES ==> Pde(w, i, d) == Pde(v, i, d)
    ensures forall d: nat :: Owns(v, i, d) ==> w.ram[FrameOf(Pde(v, i, d))] == v.ram[FrameOf(Pde(v, i, d))]
  {
    assert Has(v, DirOf(v, i), Directory(i));
  }

  lemma KernelMapKeepsSpaces(v: View, w: View, m: KernelMap)
    requires KernelMapped(v, w, m) && WellTyped(w)
    ensures forall i: nat, d: nat :: Owns(w, i, d) <==> Owns(v, i, d)
    ensures forall i: nat, d: nat :: Used(v, i) && d < ENTRIES ==> Pde(w, i, d) == Pde(v, i, d)
    ensures forall i: nat, d: nat, t: nat :: Owns(v, i, d) && t < ENTRIES ==> Pte(w, i, d, t) == Pte(v, i, d, t)
  {
    forall i: nat | Used(v, i)
      ensures forall d: nat :: d < ENTRIES ==> Pde(w, i, d) == Pde(v, i, d)
      ensures forall d: nat, t: nat :: Owns(v, i, d) && t < ENTRIES ==> Pte(w, i, d, t) == Pte(v, i, d, t)
    {
      KernelMapKeepsSpace(v, w, m, i);
    }
  }

  lemma KernelMapKeepsTables(v: View, w: View, m: KernelMap)
    requires KernelMapped(v, w, m) && WellTyped(w)
    ensures OwnedOk(w) && SharedOk(w) && PagesOk(w)
  {
    KernelMapKeepsKernel(v, w, m);
    KernelMapKeepsSpaces(v, w, m);
    hide Mapped, U32, Entry;
    forall i: nat, d: nat | Used(w, i) && d < ENTRIES && !Owns(w, i, d) && Present(Pde(w, i, d))
      ensures !User(Pde(w, i, d)) && Present(KernelPde(w, d)) && FrameOf(Pde(w, i, d)) == FrameOf(KernelPde(w, d))
    {
      assert Present(KernelPde(v, d));
    }
    forall i: nat, d: nat, t: nat | Owns(w, i, d) && t < ENTRIES && Present(Pte(w, i, d, t))
      ensures User(Pte(w, i, d, t)) && Has(w, FrameOf(Pte(w, i, d, t)), UserPage(i, d * ENTRIES + t))
    {
      assert Pte(w, i, d, t) == Pte(v, i, d, t);
    }
  }

  lemma KernelMapKeepsExact(v: View, w: View, m: KernelMap)
    requires KernelMapped(v, w, m) && WellTyped(w) && OwnedOk(w)
    ensures Exact(w)
  {
    KernelMapKeepsKernel(v, w, m);
    forall f: nat | f in w.owner
      ensures InUse(w, f, w.owner[f])
    {
      match w.owner[f]
      case Table(i, d) => KernelMapKeepsSpace(v, w, m, i);
      case UserPage(i, page) => KernelMapKeepsSpace(v, w, m, i);
      case _ =>
    }
  }

  lemma KernelMapKeepsInv(v: View, w: View, m: KernelMap)
    requires KernelMapped(v, w, m)
    ensures Inv(w)
  {
    KernelMapKeepsKernel(v, w, m);
    KernelMapKeepsTables(v, w, m);
    KernelMapKeepsExact(v, w, m);
  }

  /** Two-level kernel tables refine a flat map, and a space sees the change exactly if it shares the table. */
  lemma KernelMapRefines(v: View, w: View, m: KernelMap, page: nat)
    requires KernelMapped(v, w, m) && page < ALL_PAGES
    ensures Walk(w.ram, w.kernel, page) == if page == m.page then LeafOf(m.pte) else Walk(v.ram, v.kernel, page)
    ensures forall i: nat :: Used(v, i) ==>
              Walk(w.ram, DirOf(w, i), page) ==
              if page == m.page && !Owns(v, i, page / ENTRIES) && Present(Pde(v, i, page / ENTRIES))
              then LeafOf(m.pte) else Walk(v.ram, DirOf(v, i), page)
  {
    var d, t := m.page / ENTRIES, m.page % ENTRIES;
    assert m.page == d * ENTRIES + t;
    KernelIsTree(v);
    KernelMapFreshTable(v, w, m);
    MapRefinesFlat(v.ram, w.ram, v.kernel, d, m.pde, FrameOf(m.pde), m.newTable.Some?, t, m.pte, page);
    KernelMapKeepsKernel(v, w, m);
    forall i: nat | Used(v, i)
      ensures Walk(w.ram, DirOf(w, i), page) ==
              if page == m.page && !Owns(v, i, page / ENTRIES) && Present(Pde(v, i, page / ENTRIES))
              then LeafOf(m.pte) else Walk(v.ram, DirOf(v, i), page)
    {
      KernelMapKeepsSpace(v, w, m, i);
      KernelMapSpaceWalk(v, w, m, i, page);
    }
  }

  lemma KernelMapFreshTable(v: View, w: View, m: KernelMap)
    requires KernelMapped(v, w, m)
    ensures m.newTable.Some? ==> Outside(v.ram, v.kernel, FrameOf(m.pde))
  {
    if m.newTable.Some? {
      forall d: nat | d < ENTRIES && Present(Entry(v.ram, v.kernel, d))
        ensures FrameOf(Entry(v.ram, v.kernel, d)) in v.owner
      {
        assert Present(KernelPde(v, d));
      }
    }
  }

  lemma KernelMapSpaceWalk(v: View, w: View, m: KernelMap, i: nat, page: nat)
    requires KernelMapped(v, w, m) && WellTyped(w) && page < ALL_PAGES && Used(v, i)
    requires forall d: nat :: d < ENTRIES ==> Pde(w, i, d) == Pde(v, i, d)
    requires forall d: nat :: Owns(v, i, d) ==> w.ram[FrameOf(Pde(v, i, d))] == v.ram[FrameOf(Pde(v, i, d))]
    ensures Walk(w.ram, DirOf(w, i), page) ==
            if page == m.page && !Owns(v, i, page / ENTRIES) && Present(Pde(v, i, page / ENTRIES))
            then LeafOf(m.pte) else Walk(v.ram, DirOf(v, i), page)
  {
    hide U32;
    var d, t := page / ENTRIES, page % ENTRIES;
    assert page == d * ENTRIES + t && m.page == m.page / ENTRIES * ENTRIES + m.page % ENTRIES;
    assert Pde(w, i, d) == Pde(v, i, d);
    if Present(Pde(v, i, d)) && !Owns(v, i, d) {
      assert Present(KernelPde(v, d)) && FrameOf(Pde(v, i, d)) == FrameOf(KernelPde(v, d));
      assert Has(v, FrameOf(KernelPde(v, d)), KernelTable(d));
      if d != m.page / ENTRIES {
        assert FrameOf(KernelPde(v, d)) != FrameOf(m.pde);
      }
    }
  }

  /** One call of `paging_create_address_space` that succeeds: slot i gets the directory in frame f. */
  ghost predicate Created(v: View, w: View, i: nat, f: nat) {
    && Inv(v) && i < MAX_ADDRESS_SPACES && !Used(v, i) && Editable(f) && f !in v.owner
    && (forall g: nat :: g < ALL_FRAMES && g != f ==> w.ram[g] == v.ram[g])
    && (forall d: nat :: d < ENTRIES ==> Entry(w.ram, f, d) == WithoutUser(KernelPde(v, d)))
    && w.kernel == v.kernel && w.spaces == v.spaces[i := Space(true, f * PAGE_SIZE, {})]
    && w.owner == v.owner[f := Directory(i)]
  }

  lemma CreateKeepsKernel(v: View, w: View, i: nat, f: nat)
    requires Created(v, w, i, f)
    ensures WellTyped(w) && KernelOk(w) && DirectoriesOk(w) && DirOf(w, i) == f
    ensures forall d: nat :: d < ENTRIES ==> KernelPde(w, d) == KernelPde(v, d)
    ensures forall d: nat :: d < ENTRIES ==> Pde(w, i, d) == WithoutUser(KernelPde(v, d))
  {
    assert w.ram[v.kernel] == v.ram[v.kernel];
    forall d: nat | d < ENTRIES
      ensures KernelPde(w, d) == KernelPde(v, d) && Pde(w, i, d) == WithoutUser(KernelPde(v, d))
    {
    }
  }

  lemma CreateKeepsSpace(v: View, w: View, i: nat, f: nat, j: nat)
    requires Created(v, w, i, f) && WellTyped(w) && Used(v, j)
    ensures Used(w, j) && w.ram[DirOf(v, j)] == v.ram[DirOf(v, j)]
    ensures forall d: nat :: d < ENTRIES ==> Pde(w, j, d) == Pde(v, j, d)
    ensures forall d: nat :: Owns(v, j, d) ==> w.ram[FrameOf(Pde(v, j, d))] == v.ram[FrameOf(Pde(v, j, d))]
  {
    assert Has(v, DirOf(v, j), Directory(j));
  }

  lemma CreateKeepsSpaces(v: View, w: View, i: nat, f: nat)
    requires Created(v, w, i, f) && WellTyped(w)
    ensures forall j: nat :: Used(v, j) ==> Used(w, j)
    ensures forall j: nat, d: nat :: Used(v, j) && d < ENTRIES ==> Pde(w, j, d) == Pde(v, j, d)
    ensures forall j: nat, d: nat :: Owns(w, j, d) <==> Owns(v, j, d)
    ensures forall j: nat, d: nat, t: nat :: Owns(v, j, d) && t < ENTRIES ==> Pte(w, j, d, t) == Pte(v, j, d, t)
  {
    forall j: nat | Used(v, j)
      ensures Used(w, j)
      ensures forall d: nat :: d < ENTRIES ==> Pde(w, j, d) == Pde(v, j, d)
      ensures forall d: nat, t: nat :: Owns(v, j, d) && t < ENTRIES ==> Pte(w, j, d, t) == Pte(v, j, d, t)
    {
      CreateKeepsSpace(v, w, i, f, j);
    }
  }

  lemma CreateKeepsTables(v: View, w: View, i: nat, f: nat)
    requires Created(v, w, i, f) && WellTyped(w)
    ensures OwnedOk(w) && SharedOk(w) && PagesOk(w)
  {
    hide Entry;
    CreateKeepsKernel(v, w, i, f);
    CreateKeepsSpaces(v, w, i, f);
  }

  lemma CreateKeepsExact(v: View, w: View, i: nat, f: nat)
    requires Created(v, w, i, f) && WellTyped(w) && OwnedOk(w)
    ensures Exact(w)
  {
    CreateKeepsKernel(v, w, i, f);
    forall g: nat | g in w.owner
      ensures InUse(w, g, w.owner[g])
    {
      match w.owner[g]
      case Table(j, d) => CreateKeepsSpace(v, w, i, f, j);
      case UserPage(j, page) => CreateKeepsSpace(v, w, i, f, j);
      case _ =>
    }
  }

  lemma CreateKeepsInv(v: View, w: View, i: nat, f: nat)
    requires Created(v, w, i, f)
    ensures Inv(w)
  {
    CreateKeepsKernel(v, w, i, f);
    CreateKeepsTables(v, w, i, f);
    CreateKeepsExact(v, w, i, f);
  }

  /** A new space translates exactly as the kernel does, offers nothing to ring 3, and changes no other walk. */
  lemma CreateRefines(v: View, w: View, i: nat, f: nat, page: nat)
    requires Created(v, w, i, f) && page < ALL_PAGES
    ensures Walk(w.ram, w.kernel, page) == Walk(v.ram, v.kernel, page)
    ensures Walk(w.ram, f, page) == Walk(v.ram, v.kernel, page) && !UserAccessible(w.ram, f, page)
    ensures forall j: nat :: Used(v, j) ==> Walk(w.ram, DirOf(w, j), page) == Walk(v.ram, DirOf(v, j), page)
  {
    CreateKeepsKernel(v, w, i, f);
    var d := page / ENTRIES;
    assert Pde(w, i, d) == WithoutUser(KernelPde(v, d)) && KernelPde(w, d) == KernelPde(v, d);
    if Present(KernelPde(v, d)) {
      assert Has(v, FrameOf(KernelPde(v, d)), KernelTable(d));
    }
    forall j: nat | Used(v, j)
      ensures Walk(w.ram, DirOf(w, j), page) == Walk(v.ram, DirOf(v, j), page)
    {
      CreateKeepsSpace(v, w, i, f, j);
      if Present(Pde(v, j, d)) {
        assert TableRole(v, j, d, FrameOf(Pde(v, j, d)));
      }
    }
  }

  /** The owner map once everything of space i is released. */
  function WithoutSpace(owner: map<nat, Role>, i: nat): map<nat, Role> {
    map f | f in owner && !OfSpace(owner[f], i) :: owner[f]
  }

  /** One call of `paging_destroy_address_space` on slot i: only frames of that space may change. */
  ghost predicate Destroyed(v: View, w: View, i: nat) {
    && Inv(v) && Used(v, i)
    && (forall f: nat :: f < ALL_FRAMES && !(f in v.owner && OfSpace(v.owner[f], i)) ==> w.ram[f] == v.ram[f])
    && w.kernel == v.kernel && w.spaces == v.spaces[i := UNUSED_SPACE]
    && w.owner == WithoutSpace(v.owner, i)
  }

  lemma DestroyKeepsKernel(v: View, w: View, i: nat)
    requires Destroyed(v, w, i)
    ensures WellTyped(w) && KernelOk(w) && DirectoriesOk(w)
    ensures forall d: nat :: d < ENTRIES ==> KernelPde(w, d) == KernelPde(v, d)
    ensures forall d: nat :: d < ENTRIES && Present(KernelPde(v, d)) ==>
              w.ram[FrameOf(KernelPde(v, d))] == v.ram[FrameOf(KernelPde(v, d))]
  {
    hide InUse;
    assert w.ram[v.kernel] == v.ram[v.kernel];
    assert forall d: nat :: d < ENTRIES ==> KernelPde(w, d) == KernelPde(v, d);
  }

  lemma DestroyKeepsSpace(v: View, w: View, i: nat, j: nat)
    requires Destroyed(v, w, i) && WellTyped(w) && Used(v, j) && j != i
    ensures Used(w, j) && w.ram[DirOf(v, j)] == v.ram[DirOf(v, j)]
    ensures forall d: nat :: d < ENTRIES ==> Pde(w, j, d) == Pde(v, j, d)
    ensures forall d: nat :: d < ENTRIES && Present(Pde(v, j, d)) ==>
              w.ram[FrameOf(Pde(v, j, d))] == v.ram[FrameOf(Pde(v, j, d))]
  {
    assert Has(v, DirOf(v, j), Directory(j));
    forall d: nat | d < ENTRIES && Present(Pde(v, j, d))
      ensures TableRole(v, j, d, FrameOf(Pde(v, j, d)))
    {
    }
  }

  lemma DestroyKeepsSpaces(v: View, w: View, i: nat)
    requires Destroyed(v, w, i) && WellTyped(w)
    ensures forall j: nat :: Used(w, j) <==> Used(v, j) && j != i
    ensures forall j: nat, d: nat :: Used(w, j) && d < ENTRIES ==> Pde(w, j, d) == Pde(v, j, d)
    ensures forall j: nat, d: nat :: Owns(w, j, d) <==> Owns(v, j, d) && j != i
    ensures forall j: nat, d: nat, t: nat :: Owns(w, j, d) && t < ENTRIES ==> Pte(w, j, d, t) == Pte(v, j, d, t)
  {
    forall j: nat | Used(v, j) && j != i
      ensures Used(w, j)
      ensures forall d: nat :: d < ENTRIES ==> Pde(w, j, d) == Pde(v, j, d)
      ensures forall d: nat, t: nat :: Owns(v, j, d) && t < ENTRIES ==> Pte(w, j, d, t) == Pte(v, j, d, t)
    {
      DestroyKeepsSpace(v, w, i, j);
    }
  }

  lemma DestroyKeepsTables(v: View, w: View, i: nat)
    requires Destroyed(v, w, i) && WellTyped(w)
    ensures OwnedOk(w) && SharedOk(w) && PagesOk(w)
  {
    DestroyKeepsKernel(v, w, i);
    DestroyKeepsSpaces(v, w, i);
  }

  lemma DestroyKeepsExact(v: View, w: View, i: nat)
    requires Destroyed(v, w, i) && WellTyped(w) && OwnedOk(w)
    ensures Exact(w)
  {
    hide U32;
    DestroyKeepsKernel(v, w, i);
    forall g: nat | g in w.owner
      ensures InUse(w, g, w.owner[g])
    {
      match w.owner[g]
      case Table(j, d) => DestroyKeepsSpace(v, w, i, j);
      case UserPage(j, page) => DestroyKeepsSpace(v, w, i, j);
      case _ =>
    }
  }

  lemma DestroyKeepsInv(v: View, w: View, i: nat)
    requires Destroyed(v, w, i)
    ensures Inv(w)
  {
    DestroyKeepsKernel(v, w, i);
    DestroyKeepsTables(v, w, i);
    DestroyKeepsExact(v, w, i);
  }

  /** Destroying a space changes no walk of the kernel or of another space. */
  lemma DestroyRefines(v: View, w: View, i: nat, page: nat)
    requires Destroyed(v, w, i) && page < ALL_PAGES
    ensures Walk(w.ram, w.kernel, page) == Walk(v.ram, v.kernel, page)
    ensures forall j: nat :: Used(v, j) && j != i ==> Walk(w.ram, DirOf(w, j), page) == Walk(v.ram, DirOf(v, j), page)
  {
    DestroyKeepsKernel(v, w, i);
    assert KernelPde(w, page / ENTRIES) == KernelPde(v, page / ENTRIES);
    forall j: nat | Used(v, j) && j != i
      ensures Walk(w.ram, DirOf(w, j), page) == Walk(v.ram, DirOf(v, j), page)
    {
      DestroyKeepsSpace(v, w, i, j);
      assert Pde(w, j, page / ENTRIES) == Pde(v, j, page / ENTRIES);
    }
  }

  /** Roles that no table records: the caller of the allocator holds the frame, or the heap does. */
  predicate External(r: Role) {
    r.Held? || r.HeapPage?
  }

  /** The words of the frame steer the processor or the teardown of a space. */
  predicate Structural(r: Role) {
    r.KernelDirectory? || r.Directory? || r.Table?
  }

  /** A step that touches no directory and no private table, and moves only external frames. */
  ghost predicate OnlyData(v: View, w: View) {
    && Inv(v) && WellTyped(w)
    && w.kernel == v.kernel && w.spaces == v.spaces
    && (forall f: nat :: f in v.owner && Structural(v.owner[f]) ==> w.ram[f] == v.ram[f])
    && (forall f: nat :: f in v.owner && !External(v.owner[f]) ==> Has(w, f, v.owner[f]))
    && (forall f: nat :: f in w.owner && !External(w.owner[f]) ==> Has(v, f, w.owner[f]))
  }

  lemma OnlyDataKeepsEntries(v: View, w: View)
    requires OnlyData(v, w)
    ensures forall i: nat, d: nat :: Owns(w, i, d) <==> Owns(v, i, d)
    ensures forall d: nat :: d < ENTRIES ==> KernelPde(w, d) == KernelPde(v, d)
    ensures forall j: nat, d: nat :: Used(v, j) && d < ENTRIES ==> Pde(w, j, d) == Pde(v, j, d)
    ensures forall j: nat, d: nat, t: nat :: Owns(v, j, d) && t < ENTRIES ==> Pte(w, j, d, t) == Pte(v, j, d, t)
  {
  }

  lemma OnlyDataKeepsTables(v: View, w: View)
    requires OnlyData(v, w)
    ensures KernelOk(w) && DirectoriesOk(w) && OwnedOk(w) && SharedOk(w)
  {
    OnlyDataKeepsEntries(v, w);
  }

  lemma OnlyDataKeepsInv(v: View, w: View)
    requires OnlyData(v, w)
    ensures Inv(w)
  {
    OnlyDataKeepsTables(v, w);
    OnlyDataKeepsEntries(v, w);
  }
}
