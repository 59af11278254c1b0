/** A program with a text segment and a data segment, from the bytes of its file to the bytes in its pages
    (src/kernel/elf.c). */
module LoadedExample {
  import opened Words
  import opened Pmm
  import opened PageTables
  import opened Ownership
  import opened Paging
  import opened ElfImage
  import opened ElfFormat
  import opened Budgets
  import opened ElfLoader

  /** 0x345 bytes at file offset 0x1000 to be executed, and 16 at 0x1348 to be written, with space behind them. */
  const TEXT: Segment := Segment(PT_LOAD, 0x1000, 0x4000_1000, 0x345, 0x345, 5)
  const DATA: Segment := Segment(PT_LOAD, 0x1348, 0x4000_2348, 16, 0x1000, 6)

  const ENTRY: uint32 := 0x4000_1010

  /** The headers end at offset 116, and the file at 0x1358. */
  const BODY: int := 0x1358 - 116

  function Program(body: seq<uint8>): (image: seq<uint8>)
    requires |body| == BODY
    ensures |image| == 0x1358
  {
    Executable(ENTRY, [TEXT, DATA], body)
  }

  function Zeros(n: nat): (z: seq<uint8>)
    ensures |z| == n
  {
    seq(n, i => 0)
  }

  lemma ProgramRead(body: seq<uint8>)
    requires |body| == BODY
    ensures HeaderOk(Program(body)) && Headers(Program(body)) == [TEXT, DATA] && EntryPoint(Program(body)) == ENTRY
    ensures forall k: nat :: 116 <= k < 0x1358 ==> Program(body)[k] == body[k - 116]
  {
    ExecutableRead(ENTRY, [TEXT, DATA], body);
    assert EHDR_SIZE + 2 * PHDR_SIZE == 116;
    assert Program(body)[116..] == body;
    hide Program, Executable;
    forall k: nat | 116 <= k < 0x1358
      ensures Program(body)[k] == body[k - 116]
    {
      assert Program(body)[116..][k - 116] == body[k - 116];
    }
  }

  /** Its pages, in the order of loading. */
  const PAGES: seq<nat> := [0x4_0001, 0x4_0002, 0x4_0003]

  lemma ProgramPages()
    ensures var hs := [TEXT, DATA];
            && SegmentsOk(hs, 0x1358) && ElfImage.Between(hs, ENTRY) && !Overlapping(hs) && PagesFrom(hs, 0) == PAGES
            && Loads(hs, 0) && Covers(hs[0], 0x4_0001)
            && Loads(hs, 1) && Covers(hs[1], 0x4_0002) && Covers(hs[1], 0x4_0003)
            && Lowest(hs, 2) == 0x4000_1000 && Highest(hs, 2) == 0x4000_3348
  {
    var hs := [TEXT, DATA];
    assert Loads(hs, 0) && Loads(hs, 1);
    assert PagesOf(TEXT) == [0x4_0001] && PagesOf(DATA) == [0x4_0002, 0x4_0003] by {
      assert PageRange(0x4_0002, 0x4_0002) == [] && PageRange(0x4_0004, 0x4_0004) == [];
      assert PageRange(0x4_0003, 0x4_0004) == [0x4_0003];
    }
    assert Lowest(hs, 0) == 0xFFFF_FFFF && Lowest(hs, 1) == 0x4000_1000;
    assert Highest(hs, 0) == 0 && Highest(hs, 1) == 0x4000_1345;
    assert PagesFrom(hs, 2) == [] && PagesFrom(hs, 1) == PagesOf(DATA);
  }

  /** Entry points on both sides of the lowest and the highest address. */
  lemma EntryLimits()
    ensures var hs := [TEXT, DATA];
            && ElfImage.Between(hs, 0x4000_1000) && !ElfImage.Between(hs, 0x4000_0FFF)
            && ElfImage.Between(hs, 0x4000_3347) && !ElfImage.Between(hs, 0x4000_3348)
  {
    var hs := [TEXT, DATA];
    assert Loads(hs, 0) && Loads(hs, 1);
  }

  /** The page of the space allows ring 3 this, and these are its bytes. */
  ghost predicate Holds(v: View, sp: nat, page: nat, flags: nat, bytes: seq<uint8>) {
    && WellTyped(v) && Used(v, sp) && page < ALL_PAGES
    && var leaf := Walk(v.ram, DirOf(v, sp), page);
       leaf.Some? && leaf.value.flags == flags && v.ram[leaf.value.frame] == bytes
  }

  lemma LoadedBytes(v: View, sp: nat, page: nat, image: seq<uint8>, s: Segment, bytes: seq<uint8>)
    requires SegmentOk(s, |image|) && PageLoaded(v, sp, page, image, s) && |bytes| == PAGE_SIZE
    requires forall k: nat :: k < PAGE_SIZE ==> bytes[k] == SegmentByte(image, s, page * PAGE_SIZE + k)
    ensures Holds(v, sp, page, FlagsOf(s), bytes)
  {
    hide SegmentByte, SegmentOk;
    assert v.ram[Walk(v.ram, DirOf(v, sp), page).value.frame] == bytes;
  }

  /** The text page as the program finds it. */
  function TextPage(body: seq<uint8>): seq<uint8>
    requires |body| == BODY
  {
    body[0x1000 - 116..0x1345 - 116] + Zeros(0xCBB)
  }

  /** The first data page: the end of the file lies in its middle. */
  function DataPage(body: seq<uint8>): seq<uint8>
    requires |body| == BODY
  {
    Zeros(0x348) + body[0x1348 - 116..] + Zeros(0xCA8)
  }

  lemma PagesHold(v0: View, v: View, sp: nat, body: seq<uint8>)
    requires |body| == BODY && HeaderOk(Program(body)) && Headers(Program(body)) == [TEXT, DATA]
    requires SegmentsOk([TEXT, DATA], |Program(body)|)
    requires Finished(v0, v, sp, Program(body), [TEXT, DATA])
    ensures Holds(v, sp, 0x4_0001, PAGE_PRESENT + PAGE_USER, TextPage(body))
    ensures Holds(v, sp, 0x4_0002, PAGE_PRESENT + PAGE_USER + PAGE_WRITABLE, DataPage(body))
    ensures Holds(v, sp, 0x4_0003, PAGE_PRESENT + PAGE_USER + PAGE_WRITABLE, ZERO_PAGE)
  {
    var image := Program(body);
    ProgramRead(body);
    ProgramPages();
    TextBytes(image, body);
    DataBytes(image, body);
    hide *;
    FinishedPage(v0, v, sp, image, [TEXT, DATA], 0, 0x4_0001);
    FinishedPage(v0, v, sp, image, [TEXT, DATA], 1, 0x4_0002);
    FinishedPage(v0, v, sp, image, [TEXT, DATA], 1, 0x4_0003);
    LoadedBytes(v, sp, 0x4_0001, image, TEXT, TextPage(body));
    LoadedBytes(v, sp, 0x4_0002, image, DATA, DataPage(body));
    LoadedBytes(v, sp, 0x4_0003, image, DATA, ZERO_PAGE);
  }

  /** What the segments' bytes are, page by page. */
  lemma TextBytes(image: seq<uint8>, body: seq<uint8>)
    requires |image| == 0x1358 && |body| == BODY && forall k: nat :: 116 <= k < 0x1358 ==> image[k] == body[k - 116]
    ensures SegmentOk(TEXT, |image|) && |TextPage(body)| == PAGE_SIZE
            && FlagsOf(TEXT) == PAGE_PRESENT + PAGE_USER
    ensures forall k: nat :: k < PAGE_SIZE ==>
              TextPage(body)[k] == SegmentByte(image, TEXT, 0x4_0001 * PAGE_SIZE + k)
  {
  }

  lemma DataBytes(image: seq<uint8>, body: seq<uint8>)
    requires |image| == 0x1358 && |body| == BODY && forall k: nat :: 116 <= k < 0x1358 ==> image[k] == body[k - 116]
    ensures SegmentOk(DATA, |image|) && |DataPage(body)| == PAGE_SIZE
            && FlagsOf(DATA) == PAGE_PRESENT + PAGE_USER + PAGE_WRITABLE
    ensures forall k: nat :: k < PAGE_SIZE ==>
              DataPage(body)[k] == SegmentByte(image, DATA, 0x4_0002 * PAGE_SIZE + k)
              && ZERO_PAGE[k] == SegmentByte(image, DATA, 0x4_0003 * PAGE_SIZE + k)
  {
  }

  lemma FinishedPage(v0: View, v: View, sp: nat, image: seq<uint8>, hs: seq<Segment>, j: nat, page: nat)
    requires SegmentsOk(hs, |image|) && Finished(v0, v, sp, image, hs) && Loads(hs, j) && Covers(hs[j], page)
    ensures PageLoaded(v, sp, page, image, hs[j])
  {
  }

  /** Loaded into a space, the program finds the bytes of its file where its headers ask for them, zeros around them,
      and write access to its data only; it is refused if and only if its three pages cannot be paid for. */
  method LoadProgram(vm: AddressSpaces, sp: nat, body: seq<uint8>)
    returns (ok: bool, result: LoadResult)
    requires vm.Valid() && Used(vm.State(), sp) && |body| == BODY
    modifies vm`ram, vm`spaces, vm`owner, vm.pmm.Repr
    ensures vm.Valid()
    ensures ok <==> Cost(old(vm.State()), old(vm.pmm.Free()), sp, PAGES).Some?
    ensures ok ==> result == LoadResult(0x4000_1010, 0x4000_1000, 0x4000_3348)
    ensures ok ==> Holds(vm.State(), sp, 0x4_0001, PAGE_PRESENT + PAGE_USER, TextPage(body))
    ensures ok ==> Holds(vm.State(), sp, 0x4_0002, PAGE_PRESENT + PAGE_USER + PAGE_WRITABLE, DataPage(body))
    ensures ok ==> Holds(vm.State(), sp, 0x4_0003, PAGE_PRESENT + PAGE_USER + PAGE_WRITABLE, ZERO_PAGE)
  {
    hide AddressSpaces.Valid, FrameAllocator.Free, Finished, Stopped, Program, Overlapping, Cost, HasPaid, HeaderOk;
    hide Headers, SegmentsOk, ElfImage.Between, PagesFrom, Holds, Lowest, Highest;
    ProgramRead(body);
    ProgramPages();
    ghost var v0 := vm.State();
    ok, result := Load(vm, Some(sp), Program(body));
    if ok {
      PagesHold(v0, vm.State(), sp, body);
    }
  }
}
