/** Two-level page tables stored in physical memory ("32-Bit Paging", section 4.3 of the Intel SDM, volume 3A). */
module PageTables {
  import opened Words

  const ENTRIES: int := 1024
  const ALL_PAGES: int := ENTRIES * ENTRIES

  const PAGE_PRESENT: int := 1
  const PAGE_WRITABLE: int := 2
  const PAGE_USER: int := 4

  predicate Present(e: uint32) { e % 2 == 1 }

  predicate Writable(e: uint32) { e % 4 >= 2 }

  predicate User(e: uint32) { e % 8 >= 4 }

  /** `e >> 12` */
  function FrameOf(e: uint32): (f: nat)
    ensures f < ALL_FRAMES
  {
    e / PAGE_SIZE
  }

  /** `e | PAGE_USER` */
  function WithUser(e: uint32): (r: uint32)
    ensures User(r) && Present(r) == Present(e) && Writable(r) == Writable(e) && FrameOf(r) == FrameOf(e)
  {
    if User(e) then e
    else
      FlipUser(e, e + PAGE_USER);
      e + PAGE_USER
  }

  /** `e & ~PAGE_USER` */
  function WithoutUser(e: uint32): (r: uint32)
    ensures !User(r) && Present(r) == Present(e) && Writable(r) == Writable(e) && FrameOf(r) == FrameOf(e)
  {
    if !User(e) then e
    else
      FlipUser(e - PAGE_USER, e);
      e - PAGE_USER
  }

  /** `e | PAGE_PRESENT` */
  function WithPresent(e: uint32): (r: uint32)
    ensures Present(r) && User(r) == User(e) && Writable(r) == Writable(e) && FrameOf(r) == FrameOf(e)
  {
    var r := if Present(e) then e else e + PAGE_PRESENT;
    LowThree(e / 8, e % 8);
    LowThree(e / 8, e % 8 + r - e);
    FlipBit(e, r);
    r
  }

  /** `(physical & 0xFFFFF000) | (flags & 0xFFF)` */
  function MakeEntry(physical: uint32, flags: uint32): (r: uint32)
    ensures FrameOf(r) == physical / PAGE_SIZE && Present(r) == Present(flags)
    ensures User(r) == User(flags) && Writable(r) == Writable(flags)
  {
    LowBits(physical / PAGE_SIZE, flags % PAGE_SIZE);
    LowBits(flags / PAGE_SIZE, flags % PAGE_SIZE);
    physical / PAGE_SIZE * PAGE_SIZE + flags % PAGE_SIZE
  }

  lemma LowBits(q: nat, x: nat)
    requires x < PAGE_SIZE
    ensures (q * PAGE_SIZE + x) % 2 == x % 2 && (q * PAGE_SIZE + x) % 4 == x % 4 && (q * PAGE_SIZE + x) % 8 == x % 8
    ensures (q * PAGE_SIZE + x) / PAGE_SIZE == q
  {
    LowThree(512 * q + x / 8, x % 8);
    LowThree(x / 8, x % 8);
    assert q * PAGE_SIZE + x == 8 * (512 * q + x / 8) + x % 8;
    PageQuotient(q, x);
  }

  lemma PageQuotient(q: nat, x: nat)
    requires x < PAGE_SIZE
    ensures (q * PAGE_SIZE + x) / PAGE_SIZE == q
  {
  }

  lemma Mod4(k: nat, x: int)
    requires 0 <= x < 8
    ensures (4 * k + x) % 4 == x % 4
  {
  }

  lemma Mod2(k: nat, x: int)
    requires 0 <= x < 8
    ensures (2 * k + x) % 2 == x % 2
  {
  }

  lemma LowThree(q: nat, x: int)
    requires 0 <= x < 8
    ensures (8 * q + x) % 8 == x && (8 * q + x) / 8 == q
    ensures (8 * q + x) % 4 == x % 4 && (8 * q + x) % 2 == x % 2
  {
    Mod4(2 * q, x);
    Mod2(4 * q, x);
  }

  /** Setting or clearing one of the three low bits leaves the others and the frame alone. */
  lemma FlipBit(e: uint32, r: uint32)
    requires r / 8 == e / 8
    ensures FrameOf(r) == FrameOf(e)
  {
    assert e / PAGE_SIZE == e / 8 / 512;
    assert r / PAGE_SIZE == r / 8 / 512;
  }

  lemma FlipUser(e: uint32, r: uint32)
    requires !User(e) && r == e + PAGE_USER
    ensures User(r) && Present(r) == Present(e) && Writable(r) == Writable(e) && FrameOf(r) == FrameOf(e)
  {
    LowThree(e / 8, e % 8);
    LowThree(e / 8, e % 8 + PAGE_USER);
    assert e == e / 8 * 8 + e % 8;
    FlipBit(e, r);
  }

  function DirectoryIndex(va: uint32): (d: nat)
    ensures d < ENTRIES && d == va / PAGE_SIZE / ENTRIES
  {
    va / 0x40_0000
  }

  function TableIndex(va: uint32): (t: nat)
    ensures t < ENTRIES
  {
    va / PAGE_SIZE % ENTRIES
  }

  /** Entry i of the table in frame f: a little-endian word of that frame. */
  function Entry(ram: Ram, f: nat, i: nat): uint32
    requires f < ALL_FRAMES && i < ENTRIES
  {
    U32(ram[f], 4 * i)
  }

  function SetEntry(ram: Ram, f: nat, i: nat, w: uint32): (r: Ram)
    requires f < ALL_FRAMES && i < ENTRIES
    ensures forall g: nat :: g < ALL_FRAMES && g != f ==> r[g] == ram[g]
    ensures forall g: nat, j: nat :: g < ALL_FRAMES && j < ENTRIES ==>
              Entry(r, g, j) == if g == f && j == i then w else Entry(ram, g, j)
  {
    assert w < Pow256(4) by { assert Pow256(4) == TWO_32; }
    PutThenGet(ram[f], 4 * i, 4, w);
    var r: Ram := ram[f := PutBytes(ram[f], 4 * i, 4, w)];
    OtherEntries(ram[f], r[f], i);
    r
  }

  lemma OtherEntries(p: Page, q: Page, i: nat)
    requires i < ENTRIES
    requires forall k :: 0 <= k < PAGE_SIZE && !(4 * i <= k < 4 * i + 4) ==> q[k] == p[k]
    ensures forall j: nat :: j < ENTRIES && j != i ==> U32(q, 4 * j) == U32(p, 4 * j)
  {
    forall j: nat | j < ENTRIES && j != i
      ensures U32(q, 4 * j) == U32(p, 4 * j)
    {
      FromBytesLocal(q, p, 4 * j, 4);
    }
  }

  /** What one present page-table entry says: the frame and the low twelve bits. */
  datatype Leaf = Leaf(frame: nat, flags: nat)

  function LeafOf(e: uint32): Option<Leaf> {
    if Present(e) then Some(Leaf(FrameOf(e), e % PAGE_SIZE)) else None
  }

  /** The processor's walk of the directory in frame dir for one virtual page. */
  function Walk(ram: Ram, dir: nat, page: nat): Option<Leaf>
    requires dir < ALL_FRAMES && page < ALL_PAGES
  {
    var pde := Entry(ram, dir, page / ENTRIES);
    if !Present(pde) then None else
    LeafOf(Entry(ram, FrameOf(pde), page % ENTRIES))
  }

  /** The page can be reached from ring 3: both levels carry USER. */
  predicate UserAccessible(ram: Ram, dir: nat, page: nat)
    requires dir < ALL_FRAMES && page < ALL_PAGES
  {
    var pde := Entry(ram, dir, page / ENTRIES);
    Present(pde) && User(pde)
    && var pte := Entry(ram, FrameOf(pde), page % ENTRIES);
    Present(pte) && User(pte)
  }

  /** The effect on memory of mapping one page through the directory in frame dir: entry d of the
      directory becomes pde, entry t of the table becomes pte, a fresh table is zero elsewhere,
      and no other word of memory changes. */
  ghost predicate Mapped(ram: Ram, ram': Ram, dir: nat, d: nat, pde: uint32, table: nat, isFresh: bool, t: nat,
                         pte: uint32)
    requires dir < ALL_FRAMES && table < ALL_FRAMES && d < ENTRIES && t < ENTRIES
  {
    && (forall f: nat :: f < ALL_FRAMES && f != dir && f != table ==> ram'[f] == ram[f])
    && (forall i: nat :: i < ENTRIES ==> Entry(ram', dir, i) == if i == d then pde else Entry(ram, dir, i))
    && (forall i: nat :: i < ENTRIES ==>
          Entry(ram', table, i) == if i == t then pte else if isFresh then 0 else Entry(ram, table, i))
  }

  /** No table of the directory is the directory itself, and no two entries share a table. */
  ghost predicate TreeShaped(ram: Ram, dir: nat)
    requires dir < ALL_FRAMES
  {
    && (forall d: nat :: d < ENTRIES && Present(Entry(ram, dir, d)) ==> FrameOf(Entry(ram, dir, d)) != dir)
    && (forall d: nat, e: nat :: d < e < ENTRIES && Present(Entry(ram, dir, d)) && Present(Entry(ram, dir, e)) ==>
          FrameOf(Entry(ram, dir, d)) != FrameOf(Entry(ram, dir, e)))
  }

  /** The frame is used neither as the directory nor as a table of it. */
  ghost predicate Outside(ram: Ram, dir: nat, f: nat)
    requires dir < ALL_FRAMES
  {
    f != dir && forall d: nat :: d < ENTRIES && Present(Entry(ram, dir, d)) ==> FrameOf(Entry(ram, dir, d)) != f
  }

  /** Two-level tables refine a flat map: mapping updates the walk at exactly one page. */
  lemma MapRefinesFlat(ram: Ram, ram': Ram, dir: nat, d: nat, pde: uint32, table: nat, isFresh: bool, t: nat,
                       pte: uint32, page: nat)
    requires dir < ALL_FRAMES && table < ALL_FRAMES && d < ENTRIES && t < ENTRIES && page < ALL_PAGES
    requires Mapped(ram, ram', dir, d, pde, table, isFresh, t, pte)
    requires TreeShaped(ram, dir) && Present(pde) && FrameOf(pde) == table
    requires if isFresh then !Present(Entry(ram, dir, d)) && Outside(ram, dir, table)
             else Present(Entry(ram, dir, d)) && FrameOf(Entry(ram, dir, d)) == table
    ensures Walk(ram', dir, page) == if page == d * ENTRIES + t then LeafOf(pte) else Walk(ram, dir, page)
  {
    var e, u := page / ENTRIES, page % ENTRIES;
    assert page == e * ENTRIES + u;
    if e != d && Present(Entry(ram, dir, e)) {
      assert FrameOf(Entry(ram, dir, e)) != table;
      assert FrameOf(Entry(ram, dir, e)) != dir;
    }
  }

  /** A directory that uses neither changed frame translates every page as before. */
  lemma WalkFramed(ram: Ram, ram': Ram, dir: nat, page: nat)
    requires dir < ALL_FRAMES && page < ALL_PAGES
    requires ram'[dir] == ram[dir]
    requires Present(Entry(ram, dir, page / ENTRIES)) ==>
               ram'[FrameOf(Entry(ram, dir, page / ENTRIES))] == ram[FrameOf(Entry(ram, dir, page / ENTRIES))]
    ensures Walk(ram', dir, page) == Walk(ram, dir, page)
    ensures UserAccessible(ram', dir, page) == UserAccessible(ram, dir, page)
  {
  }
}
