/** The order in which `paging_destroy_address_space` gives the frames of one space back. */
module Teardown {
  import opened Words
  import opened PageTables
  import opened Ownership

  /** Frames per directory entry: 1024 pages and then the table itself. */
  const STRIDE: int := ENTRIES + 1

  /** When the frame of a role is released, counted from directory entry 0. */
  function Position(r: Role): nat {
    match r
    case UserPage(_, page) => page / ENTRIES * STRIDE + page % ENTRIES
    case Table(_, d) => d * STRIDE + ENTRIES
    case _ => ENTRIES * STRIDE
  }

  predicate IsReleased(owner: map<nat, Role>, i: nat, n: nat, f: nat) {
    f in owner && OfSpace(owner[f], i) && Position(owner[f]) < n
  }

  /** The frames of space i released before position n. */
  ghost function Released(owner: map<nat, Role>, i: nat, n: nat): set<nat> {
    set f | f in owner && IsReleased(owner, i, n, f)
  }

  /** Every frame of space i. */
  ghost function FramesOf(owner: map<nat, Role>, i: nat): set<nat> {
    set f | f in owner && OfSpace(owner[f], i)
  }

  lemma PagePosition(page: nat, d: nat, t: nat)
    requires t < ENTRIES
    ensures Position(UserPage(0, page)) == d * STRIDE + t <==> page == d * ENTRIES + t
    ensures Position(UserPage(0, page)) != d * STRIDE + ENTRIES
  {
    assert page == page / ENTRIES * ENTRIES + page % ENTRIES;
  }

  /** The directory entry under which the frame of a role is released. */
  function EntryOf(r: Role): nat {
    match r
    case UserPage(_, page) => page / ENTRIES
    case Table(_, d) => d
    case _ => ENTRIES
  }

  lemma PositionRange(r: Role)
    ensures EntryOf(r) * STRIDE <= Position(r) < (EntryOf(r) + 1) * STRIDE
  {
  }

  lemma TableOrder(c: nat, d: nat)
    ensures c * STRIDE + ENTRIES == d * STRIDE + ENTRIES <==> c == d
  {
  }

  lemma DirectoryLast(d: nat)
    ensures ENTRIES * STRIDE != d * STRIDE + ENTRIES
  {
  }

  lemma TablePosition(e: nat, d: nat, t: nat)
    requires t < ENTRIES
    ensures e * STRIDE + ENTRIES != d * STRIDE + t
  {
  }

  /** The inner loop: entry t of an owned table releases the frame it maps, if it maps one. */
  lemma PageStep(v: View, i: nat, d: nat, t: nat)
    requires Inv(v) && Owns(v, i, d) && t < ENTRIES
    ensures Released(v.owner, i, d * STRIDE + t + 1) ==
            Released(v.owner, i, d * STRIDE + t)
            + if Present(Pte(v, i, d, t)) then {FrameOf(Pte(v, i, d, t))} else {}
  {
    hide Entry;
    var e := Pte(v, i, d, t);
    forall f: nat | f in v.owner && OfSpace(v.owner[f], i)
      ensures Position(v.owner[f]) == d * STRIDE + t <==> Present(e) && f == FrameOf(e)
    {
      match v.owner[f]
      case UserPage(_, page) =>
        PagePosition(page, d, t);
        assert InUse(v, f, v.owner[f]);
      case Table(_, c) => TablePosition(c, d, t);
      case _ =>
    }
    assert Present(e) ==> Has(v, FrameOf(e), UserPage(i, d * ENTRIES + t));
    assert Present(e) ==> Position(UserPage(i, d * ENTRIES + t)) == d * STRIDE + t by {
      PagePosition(d * ENTRIES + t, d, t);
    }
  }

  /** After the inner loop the frame of the table itself is released. */
  lemma TableStep(v: View, i: nat, d: nat)
    requires Inv(v) && Owns(v, i, d)
    ensures Released(v.owner, i, (d + 1) * STRIDE) ==
            Released(v.owner, i, d * STRIDE + ENTRIES) + {FrameOf(Pde(v, i, d))}
  {
    forall f: nat | f in v.owner && OfSpace(v.owner[f], i)
      ensures Position(v.owner[f]) == d * STRIDE + ENTRIES <==> f == FrameOf(Pde(v, i, d))
    {
      assert InUse(v, f, v.owner[f]);
      PositionRange(v.owner[f]);
      match v.owner[f]
      case UserPage(_, page) => PagePosition(page, d, 0);
      case Table(_, c) => TableOrder(c, d);
      case _ => DirectoryLast(d);
    }
    assert Has(v, FrameOf(Pde(v, i, d)), Table(i, d));
  }

  /** An entry that the space does not own releases nothing. */
  lemma SkipStep(v: View, i: nat, d: nat)
    requires Inv(v) && Used(v, i) && !Owns(v, i, d) && d < ENTRIES
    ensures Released(v.owner, i, (d + 1) * STRIDE) == Released(v.owner, i, d * STRIDE)
  {
    hide U32;
    forall f: nat | f in v.owner && OfSpace(v.owner[f], i)
      ensures Position(v.owner[f]) < d * STRIDE || Position(v.owner[f]) >= (d + 1) * STRIDE
    {
      assert InUse(v, f, v.owner[f]);
      assert EntryOf(v.owner[f]) != d;
      PositionRange(v.owner[f]);
    }
  }

  lemma NothingReleased(v: View, i: nat)
    requires Inv(v) && Used(v, i)
    ensures Released(v.owner, i, FIRST_USER_DIRECTORY * STRIDE) == {}
  {
    forall f: nat | f in v.owner && OfSpace(v.owner[f], i)
      ensures Position(v.owner[f]) >= FIRST_USER_DIRECTORY * STRIDE
    {
      assert InUse(v, f, v.owner[f]);
      assert EntryOf(v.owner[f]) >= FIRST_USER_DIRECTORY;
      PositionRange(v.owner[f]);
    }
  }

  lemma SamePosition(r: Role, q: Role)
    requires r.UserPage? || r.Table? || r.Directory?
    requires q.UserPage? || q.Table? || q.Directory?
    requires Position(r) == Position(q) && (EntryOf(r) == ENTRIES <==> r.Directory?)
    requires EntryOf(q) == ENTRIES <==> q.Directory?
    ensures r.UserPage? && q.UserPage? ==> r.page == q.page
    ensures (r.UserPage? <==> q.UserPage?) && (r.Table? <==> q.Table?)
    ensures r.Table? && q.Table? ==> r.d == q.d
  {
    PositionRange(r);
    PositionRange(q);
    assert EntryOf(r) == EntryOf(q);
    if r.UserPage? {
      assert r.page == r.page / ENTRIES * ENTRIES + r.page % ENTRIES;
    }
    if q.UserPage? {
      assert q.page == q.page / ENTRIES * ENTRIES + q.page % ENTRIES;
    }
  }

  /** No two frames of the space are released at the same step. */
  lemma OneAtATime(v: View, i: nat, f: nat, g: nat)
    requires Inv(v) && f in FramesOf(v.owner, i) && g in FramesOf(v.owner, i)
    requires Position(v.owner[f]) == Position(v.owner[g])
    ensures f == g
  {
    var r, q := v.owner[f], v.owner[g];
    EntryInRange(v, i, f);
    EntryInRange(v, i, g);
    hide Inv, Position, EntryOf;
    SamePosition(r, q);
    OneFramePerRole(v, f, g, r);
  }

  lemma EntryInRange(v: View, i: nat, f: nat)
    requires Inv(v) && f in FramesOf(v.owner, i)
    ensures EntryOf(v.owner[f]) == ENTRIES <==> v.owner[f].Directory?
  {
    assert InUse(v, f, v.owner[f]);
  }

  /** The loops release every frame of the space but its directory, which comes last, and no frame twice. */
  lemma AllReleased(v: View, i: nat)
    requires Inv(v) && Used(v, i)
    ensures Released(v.owner, i, (LAST_USER_DIRECTORY + 1) * STRIDE) + {DirOf(v, i)} == FramesOf(v.owner, i)
    ensures forall f: nat, g: nat ::
              f in FramesOf(v.owner, i) && g in FramesOf(v.owner, i) && Position(v.owner[f]) == Position(v.owner[g]) ==>
                f == g
  {
    forall f: nat | f in v.owner && OfSpace(v.owner[f], i)
      ensures Position(v.owner[f]) < (LAST_USER_DIRECTORY + 1) * STRIDE || f == DirOf(v, i)
    {
      assert InUse(v, f, v.owner[f]);
    }
    assert Has(v, DirOf(v, i), Directory(i));
    forall f: nat, g: nat | f in FramesOf(v.owner, i) && g in FramesOf(v.owner, i)
                            && Position(v.owner[f]) == Position(v.owner[g])
      ensures f == g
    {
      OneAtATime(v, i, f, g);
    }
  }

  /** Memory once the entries below d are torn down: the rest of space i and everything else is intact. */
  ghost predicate Torn(v: View, ram: Ram, i: nat, d: nat)
    requires Inv(v) && Used(v, i)
  {
    && (forall e: nat :: d <= e < ENTRIES ==> Entry(ram, DirOf(v, i), e) == Pde(v, i, e))
    && (forall f: nat :: f < ALL_FRAMES && !(f in v.owner && OfSpace(v.owner[f], i)) ==> ram[f] == v.ram[f])
    && (forall e: nat :: d <= e && Owns(v, i, e) ==> ram[FrameOf(Pde(v, i, e))] == v.ram[FrameOf(Pde(v, i, e))])
  }

  /** One round: the table of entry d is rewritten and the entry cleared. */
  lemma TornStep(v: View, before: Ram, after: Ram, i: nat, d: nat)
    requires Inv(v) && Owns(v, i, d) && Torn(v, before, i, d)
    requires forall f: nat :: f < ALL_FRAMES && f != FrameOf(Pde(v, i, d)) && f != DirOf(v, i) ==> after[f] == before[f]
    requires forall e: nat :: d < e < ENTRIES ==> Entry(after, DirOf(v, i), e) == Entry(before, DirOf(v, i), e)
    ensures Torn(v, after, i, d + 1)
  {
    assert Has(v, FrameOf(Pde(v, i, d)), Table(i, d)) && Has(v, DirOf(v, i), Directory(i));
    forall e: nat | d + 1 <= e && Owns(v, i, e)
      ensures after[FrameOf(Pde(v, i, e))] == v.ram[FrameOf(Pde(v, i, e))]
    {
      assert Has(v, FrameOf(Pde(v, i, e)), Table(i, e));
    }
  }
}
