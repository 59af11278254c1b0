/** `owned_page_tables` as it is declared: one word a slot, indexed as if there were 32 (src/kernel/paging.h,
    src/kernel/paging.c). The words it really tests are those of other slots. */
module OwnedWords {
  import opened Words
  import opened PageTables
  import opened Ownership
  import opened Teardown
  import opened Budgets
  import opened ElfImage
  import opened ElfLoader
  import opened NewSpace

  /** Two words a slot, page_directory and owned_page_tables[0], and the words behind the table that the largest index
      still reaches. */
  const TABLE_WORDS: int := 2 * MAX_ADDRESS_SPACES + 15

  /** A word as the set of its bits that are set. */
  type Bits = set<nat>

  predicate WellSized(ws: seq<Bits>) {
    |ws| == TABLE_WORDS
  }

  function Pow2(n: nat): (r: nat)
    ensures r > 0
  {
    if n == 0 then 1 else 2 * Pow2(n - 1)
  }

  function BitsOf(word: uint32): Bits {
    set b: nat | b < 32 && word / Pow2(b) % 2 == 1
  }

  /** The sum of the powers of two for the bits below n. */
  function ValueOf(bits: Bits, n: nat): nat {
    if n == 0 then 0 else ValueOf(bits, n - 1) + if n - 1 in bits then Pow2(n - 1) else 0
  }

  /** The bits of a word are those of its binary digits. */
  lemma BitsAre(word: uint32)
    ensures ValueOf(BitsOf(word), 32) == word && Pow2(32) == 0x1_0000_0000
  {
    assert Pow2(8) == 256 && Pow2(16) == 65536 && Pow2(24) == 0x100_0000 && Pow2(32) == 0x1_0000_0000;
    LowBitsAre(word, 32);
  }

  lemma {:induction false} LowBitsAre(word: uint32, n: nat)
    requires n <= 32
    ensures ValueOf(BitsOf(word), n) == word % Pow2(n) && Pow2(n) > 0
  {
    if n == 0 {
    } else {
      LowBitsAre(word, n - 1);
      var power := Pow2(n - 1);
      assert n - 1 in BitsOf(word) <==> word / power % 2 == 1;
      hide BitsOf;
      NextBit(word, power);
    }
  }

  lemma NextBit(word: nat, power: nat)
    requires power > 0
    ensures word % (2 * power) == word % power + (word / power % 2) * power
  {
    var q, r := word / power, word % power;
    var h, low := q / 2, q % 2;
    Regroup(word, power, q, r, h, low);
    DigitFits(power, r, low);
    RemainderIs(word, 2 * power, h, low * power + r);
  }

  lemma Regroup(word: nat, power: nat, q: nat, r: nat, h: nat, low: nat)
    requires word == q * power + r && q == 2 * h + low
    ensures word == h * (2 * power) + (low * power + r)
  {
  }

  lemma DigitFits(power: nat, r: nat, low: nat)
    requires r < power && low < 2
    ensures low * power + r < 2 * power
  {
  }

  lemma RemainderIs(a: nat, m: nat, h: nat, r: nat)
    requires m > 0 && a == h * m + r && r < m
    ensures a % m == r
  {
    var q, s := a / m, a % m;
    Difference(q, h, m);
    if q < h {
      AtLeastOne(h - q, m);
    } else if q > h {
      AtLeastOne(q - h, m);
    }
  }

  lemma Difference(q: nat, h: nat, m: nat)
    ensures (q - h) * m == q * m - h * m && (h - q) * m == h * m - q * m
  {
  }

  lemma AtLeastOne(k: nat, m: nat)
    requires k > 0
    ensures k * m >= m
  {
  }

  function DirectoryWord(i: nat): nat {
    2 * i
  }

  function OwnWord(i: nat): nat {
    2 * i + 1
  }

  /** The word in which the code looks for the bit of table d of slot i. */
  function TestedWord(i: nat, d: nat): nat {
    OwnWord(i) + d / 32
  }

  predicate InTable(i: nat) {
    i < MAX_ADDRESS_SPACES
  }

  /** `owns_page_table` as written. */
  predicate Tests(ws: seq<Bits>, i: nat, d: nat)
    requires WellSized(ws) && InTable(i) && IsUserIndex(d)
  {
    d % 32 in ws[TestedWord(i, d)]
  }

  /** `mark_owned_page_table` as written. */
  function Mark(ws: seq<Bits>, i: nat, d: nat): (r: seq<Bits>)
    requires WellSized(ws) && InTable(i) && IsUserIndex(d)
    ensures WellSized(r)
  {
    ws[TestedWord(i, d) := ws[TestedWord(i, d)] + {d % 32}]
  }

  /** The stores of `paging_create_address_space` and `paging_destroy_address_space` to slot i. */
  function Store(ws: seq<Bits>, i: nat, directory: Bits): (r: seq<Bits>)
    requires WellSized(ws) && InTable(i)
    ensures WellSized(r)
  {
    ws[DirectoryWord(i) := directory][OwnWord(i) := {}]
  }

  predicate UsedSlot(spaces: seq<Space>, i: nat) {
    InTable(i) && |spaces| == MAX_ADDRESS_SPACES && spaces[i].used
  }

  predicate OwnsTable(spaces: seq<Space>, i: nat, d: nat) {
    UsedSlot(spaces, i) && d in spaces[i].owned && IsUserIndex(d)
  }

  /** A table of the kernel that slot i shares; `shared` holds the user indices at which the kernel has one. */
  predicate SharesTable(spaces: seq<Space>, shared: set<nat>, i: nat, d: nat) {
    UsedSlot(spaces, i) && d in shared && d !in spaces[i].owned && IsUserIndex(d)
  }

  /** The words serve as the intended set: every directory is in place, and wherever the code asks, that is where a
      directory entry is present, the test says whether the space owns the table. */
  ghost predicate Agrees(ws: seq<Bits>, spaces: seq<Space>, shared: set<nat>) {
    && WellSized(ws) && |spaces| == MAX_ADDRESS_SPACES
    && (forall i: nat :: UsedSlot(spaces, i) ==> ws[DirectoryWord(i)] == BitsOf(spaces[i].directory))
    && (forall i: nat, d: nat :: OwnsTable(spaces, i, d) ==> Tests(ws, i, d))
    && (forall i: nat, d: nat :: SharesTable(spaces, shared, i, d) ==> !Tests(ws, i, d))
  }

  /** The bit of a new table hits no directory that lacks it and no shared table of another slot. */
  ghost predicate HarmlessMark(spaces: seq<Space>, shared: set<nat>, i: nat, d: nat) {
    && (forall k: nat :: UsedSlot(spaces, k) && DirectoryWord(k) == TestedWord(i, d) ==>
          d % 32 in BitsOf(spaces[k].directory))
    && (forall j: nat, e: nat :: SharesTable(spaces, shared, j, e) && TestedWord(j, e) == TestedWord(i, d) && j != i ==>
          e % 32 != d % 32)
  }

  /** Marking a table keeps the words right if and only if the mark is harmless. */
  lemma MarkExact(ws: seq<Bits>, spaces: seq<Space>, shared: set<nat>, i: nat, d: nat)
    requires Agrees(ws, spaces, shared) && UsedSlot(spaces, i) && IsUserIndex(d)
    ensures Agrees(Mark(ws, i, d), spaces[i := MarkOwned(spaces[i], d)], shared) <==> HarmlessMark(spaces, shared, i, d)
  {
    var r, after := Mark(ws, i, d), spaces[i := MarkOwned(spaces[i], d)];
    assert forall j: nat, e: nat :: InTable(j) && IsUserIndex(e) ==>
        (Tests(r, j, e) <==> Tests(ws, j, e) || (TestedWord(j, e) == TestedWord(i, d) && e % 32 == d % 32));
    if Agrees(r, after, shared) {
      forall k: nat | UsedSlot(spaces, k) && DirectoryWord(k) == TestedWord(i, d)
        ensures d % 32 in BitsOf(spaces[k].directory)
      {
        assert UsedSlot(after, k);
      }
      forall j: nat, e: nat | SharesTable(spaces, shared, j, e) && TestedWord(j, e) == TestedWord(i, d) && j != i
        ensures e % 32 != d % 32
      {
        assert SharesTable(after, shared, j, e);
      }
    }
    if HarmlessMark(spaces, shared, i, d) {
      forall k: nat | UsedSlot(after, k)
        ensures r[DirectoryWord(k)] == BitsOf(after[k].directory)
      {
        assert UsedSlot(spaces, k);
      }
      forall j: nat, e: nat | OwnsTable(after, j, e)
        ensures Tests(r, j, e)
      {
        assert OwnsTable(spaces, j, e) || (j == i && e == d);
      }
      forall j: nat, e: nat | SharesTable(after, shared, j, e)
        ensures !Tests(r, j, e)
      {
        assert SharesTable(spaces, shared, j, e);
      }
    }
  }

  /** Overwriting the words of slot i loses no bit of another slot's table and invents none. */
  ghost predicate HarmlessStore(spaces: seq<Space>, shared: set<nat>, i: nat, directory: Bits) {
    && (forall j: nat, e: nat :: OwnsTable(spaces, j, e) && j != i ==>
          TestedWord(j, e) != OwnWord(i) && (TestedWord(j, e) == DirectoryWord(i) ==> e % 32 in directory))
    && (forall j: nat, e: nat :: SharesTable(spaces, shared, j, e) && j != i && TestedWord(j, e) == DirectoryWord(i) ==>
          e % 32 !in directory)
  }

  /** No word in which the new slot will look says that it owns a shared table. */
  ghost predicate NothingClaimed(ws: seq<Bits>, shared: set<nat>, i: nat)
    requires WellSized(ws) && InTable(i)
  {
    forall e: nat :: e in shared && IsUserIndex(e) ==> !Tests(ws, i, e)
  }

  /** What the tests of other slots read after a store to slot i. */
  lemma StoreTests(ws: seq<Bits>, i: nat, directory: Bits)
    requires WellSized(ws) && InTable(i)
    ensures forall j: nat, e: nat :: InTable(j) && IsUserIndex(e) ==>
              (Tests(Store(ws, i, directory), j, e) <==>
               if TestedWord(j, e) == DirectoryWord(i) then e % 32 in directory
               else if TestedWord(j, e) == OwnWord(i) then false else Tests(ws, j, e))
    ensures forall e: nat :: IsUserIndex(e) ==> (Tests(Store(ws, i, directory), i, e) <==> Tests(ws, i, e))
    ensures forall k: nat :: InTable(k) ==>
              Store(ws, i, directory)[DirectoryWord(k)] == if k == i then directory else ws[DirectoryWord(k)]
  {
  }

  /** A store for the space `after[i]` keeps the other slots right if and only if it is harmless. */
  lemma StoreExact(ws: seq<Bits>, spaces: seq<Space>, after: seq<Space>, shared: set<nat>, i: nat, directory: Bits)
    requires Agrees(ws, spaces, shared) && InTable(i)
    requires |after| == |spaces| && forall j: nat :: InTable(j) && j != i ==> after[j] == spaces[j]
    requires after[i].used ==> directory == BitsOf(after[i].directory) && after[i].owned == {}
    ensures Agrees(Store(ws, i, directory), after, shared) <==>
            HarmlessStore(spaces, shared, i, directory) && (after[i].used ==> NothingClaimed(ws, shared, i))
  {
    var r := Store(ws, i, directory);
    StoreTests(ws, i, directory);
    hide Store, Tests, TestedWord, DirectoryWord, OwnWord, BitsOf, IsUserIndex;
    if Agrees(r, after, shared) {
      forall j: nat, e: nat | OwnsTable(spaces, j, e) && j != i
        ensures TestedWord(j, e) != OwnWord(i) && (TestedWord(j, e) == DirectoryWord(i) ==> e % 32 in directory)
      {
        assert OwnsTable(after, j, e) && OwnWord(i) != DirectoryWord(i) by {
          WordsDiffer(i);
        }
      }
      forall j: nat, e: nat | SharesTable(spaces, shared, j, e) && j != i && TestedWord(j, e) == DirectoryWord(i)
        ensures e % 32 !in directory
      {
        assert SharesTable(after, shared, j, e);
      }
      if after[i].used {
        forall e: nat | e in shared && IsUserIndex(e)
          ensures !Tests(ws, i, e)
        {
          assert SharesTable(after, shared, i, e);
        }
      }
    }
    if HarmlessStore(spaces, shared, i, directory) && (after[i].used ==> NothingClaimed(ws, shared, i)) {
      forall j: nat, e: nat | OwnsTable(after, j, e)
        ensures Tests(r, j, e)
      {
        assert OwnsTable(spaces, j, e) && j != i;
      }
      forall j: nat, e: nat | SharesTable(after, shared, j, e)
        ensures !Tests(r, j, e)
      {
        assert j != i ==> SharesTable(spaces, shared, j, e);
      }
      assert forall k: nat :: UsedSlot(after, k) && k != i ==> UsedSlot(spaces, k);
    }
  }

  lemma WordsDiffer(i: nat)
    ensures OwnWord(i) != DirectoryWord(i)
  {
  }

  /** Creating a space keeps the words right if and only if its slot's words are free for it. */
  lemma CreateExact(ws: seq<Bits>, spaces: seq<Space>, shared: set<nat>, i: nat, directory: uint32)
    requires Agrees(ws, spaces, shared) && InTable(i) && !spaces[i].used
    ensures Agrees(Store(ws, i, BitsOf(directory)), spaces[i := Space(true, directory, {})], shared) <==>
            HarmlessStore(spaces, shared, i, BitsOf(directory)) && NothingClaimed(ws, shared, i)
  {
    StoreExact(ws, spaces, spaces[i := Space(true, directory, {})], shared, i, BitsOf(directory));
  }

  /** Destroying a space keeps the words right if and only if no other space has a bit in them. */
  lemma DestroyExact(ws: seq<Bits>, spaces: seq<Space>, shared: set<nat>, i: nat)
    requires Agrees(ws, spaces, shared) && UsedSlot(spaces, i)
    ensures Agrees(Store(ws, i, {}), spaces[i := UNUSED_SPACE], shared) <==> HarmlessStore(spaces, shared, i, {})
  {
    StoreExact(ws, spaces, spaces[i := UNUSED_SPACE], shared, i, {});
  }

  // ---- Runs ----

  /** The three places where the code changes the words. */
  datatype Change = Create(i: nat, directory: uint32) | Own(i: nat, d: nat) | Destroy(i: nat)

  predicate Enabled(spaces: seq<Space>, c: Change)
    requires |spaces| == MAX_ADDRESS_SPACES
  {
    match c
    case Create(i, _) => InTable(i) && !spaces[i].used
    case Own(i, d) => UsedSlot(spaces, i) && IsUserIndex(d)
    case Destroy(i) => UsedSlot(spaces, i)
  }

  function NextWords(ws: seq<Bits>, c: Change): (r: seq<Bits>)
    requires WellSized(ws) && InTable(c.i) && (c.Own? ==> IsUserIndex(c.d))
    ensures WellSized(r)
  {
    match c
    case Create(i, directory) => Store(ws, i, BitsOf(directory))
    case Own(i, d) => Mark(ws, i, d)
    case Destroy(i) => Store(ws, i, {})
  }

  function NextSpaces(spaces: seq<Space>, c: Change): (r: seq<Space>)
    requires |spaces| == MAX_ADDRESS_SPACES && InTable(c.i)
    ensures |r| == MAX_ADDRESS_SPACES
  {
    match c
    case Create(i, directory) => spaces[i := Space(true, directory, {})]
    case Own(i, d) => spaces[i := MarkOwned(spaces[i], d)]
    case Destroy(i) => spaces[i := UNUSED_SPACE]
  }

  predicate CanRun(spaces: seq<Space>, cs: seq<Change>)
    requires |spaces| == MAX_ADDRESS_SPACES
    decreases |cs|
  {
    cs == [] || (Enabled(spaces, cs[0]) && CanRun(NextSpaces(spaces, cs[0]), cs[1..]))
  }

  function RunWords(ws: seq<Bits>, spaces: seq<Space>, cs: seq<Change>): (r: seq<Bits>)
    requires WellSized(ws) && |spaces| == MAX_ADDRESS_SPACES && CanRun(spaces, cs)
    ensures WellSized(r)
    decreases |cs|
  {
    if cs == [] then ws else RunWords(NextWords(ws, cs[0]), NextSpaces(spaces, cs[0]), cs[1..])
  }

  function RunSpaces(spaces: seq<Space>, cs: seq<Change>): (r: seq<Space>)
    requires |spaces| == MAX_ADDRESS_SPACES && CanRun(spaces, cs)
    ensures |r| == MAX_ADDRESS_SPACES
    decreases |cs|
  {
    if cs == [] then spaces else RunSpaces(NextSpaces(spaces, cs[0]), cs[1..])
  }

  /** Only the first four slots are in use. */
  ghost predicate FirstFour(spaces: seq<Space>) {
    forall i: nat :: UsedSlot(spaces, i) ==> i < 4
  }

  const BLANK_WORDS: seq<Bits> := seq(TABLE_WORDS, k => {})

  /** The words and the table after start-up. */
  lemma BlankAgree()
    ensures Agrees(BLANK_WORDS, NO_SPACES, {}) && FirstFour(NO_SPACES)
  {
  }

  /** While only the first four slots are used, and the kernel has no table of its own in the user range, the words are
      right after every sequence of changes: no tested word is one that a used slot needs. */
  lemma {:induction false} FourSlotsAgree(ws: seq<Bits>, spaces: seq<Space>, cs: seq<Change>)
    requires Agrees(ws, spaces, {}) && FirstFour(spaces) && CanRun(spaces, cs) && forall c :: c in cs ==> c.i < 4
    ensures Agrees(RunWords(ws, spaces, cs), RunSpaces(spaces, cs), {})
    decreases |cs|
  {
    hide Store;
    if cs == [] {
    } else {
      var c := cs[0];
      assert c in cs;
      match c {
        case Create(i, directory) => CreateExact(ws, spaces, {}, i, directory);
        case Own(i, d) => MarkExact(ws, spaces, {}, i, d);
        case Destroy(i) => DestroyExact(ws, spaces, {}, i);
      }
      assert forall i: nat :: UsedSlot(NextSpaces(spaces, c), i) ==> UsedSlot(spaces, i) || i == c.i;
      FourSlotsAgree(NextWords(ws, c), NextSpaces(spaces, c), cs[1..]);
    }
  }

  // ---- Failing inputs ----

  /** Five address spaces, the first with a table at 0x40000000: creating the fifth makes the code forget that table,
      since its own word is the one in which the code keeps the first slot's bit. */
  lemma FifthSpaceForgets()
    ensures var ws := Store(BLANK_WORDS, 0, BitsOf(0x20_0000));
            var ws := Store(Store(Store(ws, 1, BitsOf(0x20_1000)), 2, BitsOf(0x20_2000)), 3, BitsOf(0x20_3000));
            var ws := Mark(ws, 0, 0x4000_0000 / PAGE_SIZE / ENTRIES);
            Tests(ws, 0, 256) && !Tests(Store(ws, 4, BitsOf(0x20_4000)), 0, 256)
  {
    hide BitsOf;
    assert TestedWord(0, 256) == OwnWord(4);
  }

  /** The stack's table at 0x7FC00000 sets bit 31 of page_directory of the slot eight places on (of memory behind the
      table for the upper eight slots), and destroying the space leaves it set. */
  lemma StackMarksDirectory(ws: seq<Bits>, i: nat)
    requires WellSized(ws) && InTable(i)
    ensures TestedWord(i, 511) == DirectoryWord(i + 8)
    ensures Mark(ws, i, 511) == ws[DirectoryWord(i + 8) := ws[DirectoryWord(i + 8)] + {31}]
    ensures 31 !in ws[DirectoryWord(i + 8)] ==>
              Store(Mark(ws, i, 511), i, {})[DirectoryWord(i + 8)] != ws[DirectoryWord(i + 8)]
  {
  }

  // ---- What a rollback leaves behind ----

  /** The marks for the tables ds, one after the other. */
  function MarkAll(ws: seq<Bits>, i: nat, ds: seq<nat>): (r: seq<Bits>)
    requires WellSized(ws) && InTable(i) && forall d :: d in ds ==> IsUserIndex(d)
    ensures WellSized(r)
    decreases |ds|
  {
    if ds == [] then ws else MarkAll(Mark(ws, i, ds[0]), i, ds[1..])
  }

  predicate Marks(i: nat, ds: seq<nat>, k: nat, b: nat) {
    exists d :: d in ds && TestedWord(i, d) == k && d % 32 == b
  }

  lemma MarksFirst(i: nat, ds: seq<nat>, k: nat, b: nat)
    requires ds != []
    ensures Marks(i, ds, k, b) <==> (TestedWord(i, ds[0]) == k && ds[0] % 32 == b) || Marks(i, ds[1..], k, b)
  {
    if d :| d in ds && TestedWord(i, d) == k && d % 32 == b {
      assert d == ds[0] || d in ds[1..];
    }
  }

  /** Marking sets exactly the bits of the tables. */
  lemma {:induction false} MarkAllBits(ws: seq<Bits>, i: nat, ds: seq<nat>, k: nat, b: nat)
    requires WellSized(ws) && InTable(i) && (forall d :: d in ds ==> IsUserIndex(d)) && k < TABLE_WORDS
    ensures b in MarkAll(ws, i, ds)[k] <==> b in ws[k] || Marks(i, ds, k, b)
    decreases |ds|
  {
    if ds == [] {
    } else {
      MarksFirst(i, ds, k, b);
      MarkAllBits(Mark(ws, i, ds[0]), i, ds[1..], k, b);
    }
  }

  /** Creating a space, making tables and destroying the space puts every word back if and only if the slot was blank
      and each bit that the tables set was set before: no such bit is cleared again. */
  lemma RollbackExact(ws: seq<Bits>, i: nat, directory: Bits, ds: seq<nat>)
    requires WellSized(ws) && InTable(i) && (forall d :: d in ds ==> IsUserIndex(d))
    ensures Store(MarkAll(Store(ws, i, directory), i, ds), i, {}) == ws <==>
              ws[DirectoryWord(i)] == {} && ws[OwnWord(i)] == {} && forall d :: d in ds ==>
                  d % 32 in ws[TestedWord(i, d)]
  {
    var mid := Store(ws, i, directory);
    var marked := MarkAll(mid, i, ds);
    var r := Store(marked, i, {});
    forall k: nat, b: nat | k < TABLE_WORDS
      ensures b in marked[k] <==> b in mid[k] || Marks(i, ds, k, b)
    {
      MarkAllBits(mid, i, ds, k, b);
    }
    forall d | d in ds
      ensures d % 32 in r[TestedWord(i, d)] && mid[TestedWord(i, d)] == ws[TestedWord(i, d)]
    {
      assert Marks(i, ds, TestedWord(i, d), d % 32);
    }
    if ws[DirectoryWord(i)] == {} && ws[OwnWord(i)] == {} && forall d :: d in ds ==> d % 32 in ws[TestedWord(i, d)] {
      forall k: nat | k < TABLE_WORDS
        ensures r[k] == ws[k]
      {
        forall b: nat
          ensures b in marked[k] ==> b in ws[k] || k == DirectoryWord(i)
        {
          if Marks(i, ds, k, b) {
            var d :| d in ds && TestedWord(i, d) == k && d % 32 == b;
          }
        }
        if k != DirectoryWord(i) && k != OwnWord(i) {
          assert marked[k] == ws[k];
        }
      }
    }
  }

  /** The words after a task creation that fails late: the tables of the program and of its stack have been marked. They
      are as before if and only if all those bits were set before; bit 31 for the stack is one of them. */
  lemma LateFailureExact(ws: seq<Bits>, i: nat, directory: Bits, hs: seq<Segment>, ds: seq<nat>)
    requires WellSized(ws) && InTable(i) && ws[DirectoryWord(i)] == {} && ws[OwnWord(i)] == {}
    requires (forall d :: d in ds ==> IsUserIndex(d)) && TablesOf(PagesFrom(hs, 0) + [STACK_PAGE]) == set d | d in ds
    ensures Store(MarkAll(Store(ws, i, directory), i, ds), i, {}) == ws <==>
              forall d :: d in TablesOf(PagesFrom(hs, 0) + [STACK_PAGE]) ==> d % 32 in ws[TestedWord(i, d)]
    ensures 31 !in ws[DirectoryWord(i + 8)] ==> Store(MarkAll(Store(ws, i, directory), i, ds), i, {}) != ws
  {
    RollbackExact(ws, i, directory, ds);
    var pages := PagesFrom(hs, 0) + [STACK_PAGE];
    assert pages[|pages| - 1] / ENTRIES == 511;
    assert 511 in TablesOf(pages);
  }

  // ---- What the teardown does with the test ----

  /** Entry d of space i's directory, if the test says so, gives back its table and every frame that the table maps. */
  predicate FreesEntry(v: View, i: nat, found: set<nat>, d: nat, f: nat)
    requires WellTyped(v) && Used(v, i)
  {
    IsUserIndex(d) && d in found && Present(Pde(v, i, d))
    && (f == FrameOf(Pde(v, i, d))
        || exists t: nat :: t < ENTRIES && Present(Pte(v, i, d, t)) && f == FrameOf(Pte(v, i, d, t)))
  }

  /** The frames that the teardown of space i gives back when the test finds the tables in `found`. */
  ghost predicate Frees(v: View, i: nat, found: set<nat>, f: nat)
    requires WellTyped(v) && Used(v, i)
  {
    f == DirOf(v, i) || exists d: nat :: FreesEntry(v, i, found, d, f)
  }

  /** The test is right wherever the teardown asks. */
  ghost predicate FindsOwned(v: View, i: nat, found: set<nat>)
    requires WellTyped(v) && Used(v, i)
  {
    forall d: nat :: IsUserIndex(d) && Present(Pde(v, i, d)) ==> (d in found <==> Owns(v, i, d))
  }

  /** An entry that is found and owned gives back frames of the space only. */
  lemma OwnedEntryFrees(v: View, i: nat, found: set<nat>, d: nat, f: nat)
    requires Inv(v) && Owns(v, i, d) && FreesEntry(v, i, found, d, f)
    ensures f in v.owner && OfSpace(v.owner[f], i) && !v.owner[f].Directory? && EntryOf(v.owner[f]) == d
  {
    if f != FrameOf(Pde(v, i, d)) {
      var t: nat :| t < ENTRIES && Present(Pte(v, i, d, t)) && f == FrameOf(Pte(v, i, d, t));
      assert Has(v, f, UserPage(i, d * ENTRIES + t));
    }
  }

  /** A frame of the space other than its directory is given back under its own entry. */
  lemma FrameHasEntry(v: View, i: nat, found: set<nat>, f: nat)
    requires Inv(v) && Used(v, i) && f in v.owner && OfSpace(v.owner[f], i) && !v.owner[f].Directory?
    ensures Owns(v, i, EntryOf(v.owner[f])) && (EntryOf(v.owner[f]) in found ==> Frees(v, i, found, f))
  {
    assert InUse(v, f, v.owner[f]);
    var d := EntryOf(v.owner[f]);
    assert Owns(v, i, d);
    if d in found {
      assert FreesEntry(v, i, found, d, f);
    }
  }

  /** The teardown gives back exactly the frames of the space if and only if the test is right at every entry that is
      present: a table that it misses leaks with its pages, and a table of the kernel that it claims is given back. */
  lemma TeardownExact(v: View, i: nat, found: set<nat>)
    requires Inv(v) && Used(v, i)
    ensures (forall f: nat :: Frees(v, i, found, f) <==> f in FramesOf(v.owner, i)) <==> FindsOwned(v, i, found)
  {
    assert Has(v, DirOf(v, i), Directory(i));
    hide Pte;
    if FindsOwned(v, i, found) {
      forall f: nat
        ensures Frees(v, i, found, f) <==> f in FramesOf(v.owner, i)
      {
        ExactFrame(v, i, found, f);
      }
    }
    if forall f: nat :: Frees(v, i, found, f) <==> f in FramesOf(v.owner, i) {
      forall d: nat | IsUserIndex(d) && Present(Pde(v, i, d))
        ensures d in found <==> Owns(v, i, d)
      {
        WrongEntry(v, i, found, d);
      }
    }
  }

  lemma ExactFrame(v: View, i: nat, found: set<nat>, f: nat)
    requires Inv(v) && Used(v, i) && FindsOwned(v, i, found)
    ensures Frees(v, i, found, f) <==> f in FramesOf(v.owner, i)
  {
    assert Has(v, DirOf(v, i), Directory(i));
    if d: nat :| FreesEntry(v, i, found, d, f) {
      OwnedEntryFrees(v, i, found, d, f);
    }
    if f in FramesOf(v.owner, i) {
      if v.owner[f].Directory? {
        assert InUse(v, f, v.owner[f]);
      } else {
        FrameHasEntry(v, i, found, f);
        assert Owns(v, i, EntryOf(v.owner[f]));
      }
    }
  }

  /** A claimed table of the kernel is given back although it is none of the space; a missed table is not given back. */
  lemma WrongEntry(v: View, i: nat, found: set<nat>, d: nat)
    requires Inv(v) && Used(v, i) && IsUserIndex(d) && Present(Pde(v, i, d))
    requires forall f: nat :: Frees(v, i, found, f) <==> f in FramesOf(v.owner, i)
    ensures d in found <==> Owns(v, i, d)
  {
    var f := FrameOf(Pde(v, i, d));
    if d in found {
      assert FreesEntry(v, i, found, d, f);
      assert Frees(v, i, found, f);
    } else if Owns(v, i, d) {
      assert Has(v, f, Table(i, d)) && f in FramesOf(v.owner, i) && f != DirOf(v, i);
      var e: nat :| FreesEntry(v, i, found, e, f);
      WrongEntryOwned(v, i, found, e);
      OwnedEntryFrees(v, i, found, e, f);
      assert false;
    }
  }

  lemma WrongEntryOwned(v: View, i: nat, found: set<nat>, e: nat)
    requires Inv(v) && Used(v, i) && IsUserIndex(e) && Present(Pde(v, i, e)) && e in found
    requires forall f: nat :: Frees(v, i, found, f) <==> f in FramesOf(v.owner, i)
    ensures Owns(v, i, e)
  {
    assert FreesEntry(v, i, found, e, FrameOf(Pde(v, i, e)));
    assert Frees(v, i, found, FrameOf(Pde(v, i, e)));
  }

  /** The words are right for this teardown exactly if they agree about this space. */
  lemma AgreesFinds(ws: seq<Bits>, v: View, i: nat)
    requires Inv(v) && Used(v, i) && Agrees(ws, v.spaces, PresentTables(v, i))
    ensures FindsOwned(v, i, set d: nat | d < ENTRIES && IsUserIndex(d) && Tests(ws, i, d))
  {
    forall d: nat | IsUserIndex(d) && Present(Pde(v, i, d))
      ensures Tests(ws, i, d) <==> Owns(v, i, d)
    {
      if Owns(v, i, d) {
        assert OwnsTable(v.spaces, i, d);
      } else {
        assert SharesTable(v.spaces, PresentTables(v, i), i, d);
      }
    }
  }

  ghost function PresentTables(v: View, i: nat): set<nat>
    requires WellTyped(v) && Used(v, i)
  {
    set d: nat | d < ENTRIES && IsUserIndex(d) && Present(Pde(v, i, d))
  }
}
