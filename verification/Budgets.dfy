/** What the pages of a program cost: the allocator gives out the lowest frame first, and page tables must be low. */
module Budgets {
  import opened Words
  import opened Pmm
  import opened PageTables
  import opened Ownership

  /** The free frames below 32 MiB, all free frames, and the directory indices at which the space has a table. */
  datatype Purse = Purse(low: nat, total: nat, tables: set<nat>)

  /** One frame, the lowest one that is free. */
  function TakeOne(p: Purse): Purse
    requires p.total > 0
  {
    Purse(if p.low > 0 then p.low - 1 else 0, p.total - 1, p.tables)
  }

  /** What is left after mapping one new page: a frame for it, and a low one for its table if there is none. At an index
      at which the space shares a table of the kernel no page can be mapped. */
  function PayPage(p: Purse, foreign: set<nat>, page: nat): Option<Purse> {
    var d := page / ENTRIES;
    if p.total == 0 || d in foreign then None
    else if d in p.tables then Some(TakeOne(p))
    else if TakeOne(p).low == 0 || TakeOne(p).total == 0 then None
    else Some(TakeOne(TakeOne(p)).(tables := p.tables + {d}))
  }

  /** What is left after mapping the pages one after the other. */
  function Pay(p: Purse, foreign: set<nat>, pages: seq<nat>): Option<Purse>
    decreases |pages|
  {
    if pages == [] then Some(p)
    else
      var q := PayPage(p, foreign, pages[0]);
      if q.None? then None else Pay(q.value, foreign, pages[1..])
  }

  /** The indices of the directory entries that the pages go through. */
  function TablesOf(pages: seq<nat>): set<nat> {
    set k: nat | k < |pages| :: pages[k] / ENTRIES
  }

  lemma TablesOfFirst(pages: seq<nat>)
    requires pages != []
    ensures TablesOf(pages) == {pages[0] / ENTRIES} + TablesOf(pages[1..])
  {
    forall d | d in {pages[0] / ENTRIES} + TablesOf(pages[1..])
      ensures d in TablesOf(pages)
    {
      if d != pages[0] / ENTRIES {
        var k: nat :| k < |pages[1..]| && d == pages[1..][k] / ENTRIES;
        assert pages[k + 1] == pages[1..][k];
      }
    }
    forall d | d in TablesOf(pages)
      ensures d in {pages[0] / ENTRIES} + TablesOf(pages[1..])
    {
      var k: nat :| k < |pages| && d == pages[k] / ENTRIES;
      if k > 0 {
        assert pages[k] == pages[1..][k - 1];
      }
    }
  }

  /** The number of frames that the pages take: one each, and one for each new table. */
  lemma {:induction false} PayTakes(p: Purse, foreign: set<nat>, pages: seq<nat>)
    requires Pay(p, foreign, pages).Some?
    ensures var q := Pay(p, foreign, pages).value;
            && q.tables == p.tables + TablesOf(pages) && TablesOf(pages) !! foreign
            && q.total + |pages| + |TablesOf(pages) - p.tables| == p.total
    decreases |pages|
  {
    if pages == [] {
      assert TablesOf(pages) == {};
    } else {
      var q := PayPage(p, foreign, pages[0]).value;
      TablesOfFirst(pages);
      PayTakes(q, foreign, pages[1..]);
      hide TablesOf, Pay;
      PageTakes(p, foreign, pages[0]);
      NewTables(TablesOf(pages), TablesOf(pages[1..]), pages[0] / ENTRIES, p.tables);
      hide PayPage;
    }
  }

  lemma PageTakes(p: Purse, foreign: set<nat>, page: nat)
    requires PayPage(p, foreign, page).Some?
    ensures var q, d := PayPage(p, foreign, page).value, page / ENTRIES;
            && q.tables == p.tables + {d} && d !in foreign
            && q.total + (if d in p.tables then 1 else 2) == p.total
  {
    if page / ENTRIES in p.tables {
      assert p.tables + {page / ENTRIES} == p.tables;
    }
  }

  /** The tables still to be made, before and after the first page. */
  lemma NewTables(all: set<nat>, rest: set<nat>, d: nat, tables: set<nat>)
    requires all == {d} + rest
    ensures if d in tables then all - tables == rest - tables
            else all - tables == {d} + (rest - (tables + {d})) && |all - tables| == 1 + |rest - (tables + {d})|
  {
    if d in tables {
      assert all - tables == rest - tables;
    } else {
      assert all - tables == {d} + (rest - (tables + {d}));
    }
  }

  /** Enough low frames for all of them suffice, unless a table of the kernel is in the way. */
  lemma {:induction false} EnoughLow(p: Purse, foreign: set<nat>, pages: seq<nat>)
    requires p.low <= p.total && TablesOf(pages) !! foreign
    requires |pages| + |TablesOf(pages) - p.tables| <= p.low
    ensures Pay(p, foreign, pages).Some?
    decreases |pages|
  {
    if pages == [] {
    } else {
      var d := pages[0] / ENTRIES;
      TablesOfFirst(pages);
      NewTables(TablesOf(pages), TablesOf(pages[1..]), d, p.tables);
      hide TablesOf;
      if d in p.tables {
        EnoughLow(TakeOne(p), foreign, pages[1..]);
      } else {
        EnoughLow(TakeOne(TakeOne(p)).(tables := p.tables + {d}), foreign, pages[1..]);
      }
    }
  }

  // ---- The purse of a machine ----

  /** The indices at which the space shares a table of the kernel. */
  ghost function Foreign(v: View, sp: nat): set<nat>
    requires WellTyped(v) && Used(v, sp)
  {
    set d: nat | d < ENTRIES && Present(Pde(v, sp, d)) && !Owns(v, sp, d)
  }

  ghost function PurseOf(v: View, free: set<nat>, sp: nat): Purse
    requires sp < |v.spaces|
  {
    Purse(CountBelow(free, LOW_FRAMES), CountBelow(free, MAX_FRAMES), v.spaces[sp].owned)
  }

  /** What is left to the space after mapping the pages, if it can pay for them. */
  ghost function Cost(v: View, free: set<nat>, sp: nat, pages: seq<nat>): Option<Purse>
    requires WellTyped(v) && Used(v, sp)
  {
    Pay(PurseOf(v, free, sp), Foreign(v, sp), pages)
  }

  /** The pages could be paid for, and have been. */
  ghost predicate HasPaid(v: View, free: set<nat>, w: View, left: set<nat>, sp: nat, pages: seq<nat>)
    requires WellTyped(v) && Used(v, sp) && WellTyped(w) && Used(w, sp)
  {
    Cost(v, free, sp, pages) == Some(PurseOf(w, left, sp)) && Foreign(w, sp) == Foreign(v, sp)
  }

  /** The page could be paid for, and has been. */
  ghost predicate Paid(v: View, free: set<nat>, w: View, left: set<nat>, sp: nat, page: nat)
    requires WellTyped(v) && Used(v, sp) && WellTyped(w) && Used(w, sp)
  {
    PayPage(PurseOf(v, free, sp), Foreign(v, sp), page) == Some(PurseOf(w, left, sp))
    && Foreign(w, sp) == Foreign(v, sp)
  }

  ghost predicate Unaffordable(v: View, free: set<nat>, sp: nat, page: nat)
    requires WellTyped(v) && Used(v, sp)
  {
    PayPage(PurseOf(v, free, sp), Foreign(v, sp), page).None?
  }

  /** Paying for the pages that are still to be mapped leads to the goal. */
  ghost predicate OnCourse(v: View, free: set<nat>, sp: nat, foreign: set<nat>, pages: seq<nat>, goal: Option<Purse>) {
    WellTyped(v) && Used(v, sp) && Foreign(v, sp) == foreign && Pay(PurseOf(v, free, sp), foreign, pages) == goal
  }

  lemma CourseStart(v: View, free: set<nat>, sp: nat, pages: seq<nat>)
    requires WellTyped(v) && Used(v, sp)
    ensures OnCourse(v, free, sp, Foreign(v, sp), pages, Cost(v, free, sp, pages))
  {
  }

  lemma CourseStep(v: View, free: set<nat>, w: View, left: set<nat>, sp: nat, foreign: set<nat>, page: nat,
                   rest: seq<nat>, goal: Option<Purse>)
    requires OnCourse(v, free, sp, foreign, [page] + rest, goal) && WellTyped(w) && Used(w, sp)
    ensures Unaffordable(v, free, sp, page) ==> goal.None?
    ensures Paid(v, free, w, left, sp, page) ==> OnCourse(w, left, sp, foreign, rest, goal)
  {
    assert ([page] + rest)[1..] == rest;
  }

  lemma {:induction false} PayConcat(p: Purse, foreign: set<nat>, a: seq<nat>, b: seq<nat>)
    ensures Pay(p, foreign, a + b) ==
              if Pay(p, foreign, a).None? then None else Pay(Pay(p, foreign, a).value, foreign, b)
    decreases |a|
  {
    if a == [] {
      assert a + b == b;
    } else {
      assert (a + b)[1..] == a[1..] + b;
      var q := PayPage(p, foreign, a[0]);
      if q.Some? {
        PayConcat(q.value, foreign, a[1..], b);
      }
    }
  }

  lemma {:induction false} CountMonotone(s: set<nat>, m: nat, n: nat)
    requires m <= n
    ensures CountBelow(s, m) <= CountBelow(s, n)
    decreases n
  {
    if m == n {
    } else {
      CountMonotone(s, m, n - 1);
    }
  }

  lemma CountLow(free: set<nat>, n: nat)
    ensures CountBelow(free, n) > 0 <==> exists f :: f in free && f < n
  {
    if forall f :: f in free ==> n <= f {
      NoneFree(free, n);
    } else {
      var f :| f in free && f < n;
      CountInsert(free - {f}, free, f, n);
    }
  }

  /** Taking the least free frame is what TakeOne says. */
  lemma LeastTaken(free: set<nat>, f: nat, n: nat)
    requires f in free && forall g :: g in free ==> f <= g
    ensures CountBelow(free - {f}, n) == if CountBelow(free, n) > 0 then CountBelow(free, n) - 1 else 0
  {
    assert free == (free - {f}) + {f};
    CountInsert(free - {f}, free, f, n);
    if n <= f {
      NoneFree(free, n);
    }
  }
}
