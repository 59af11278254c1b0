/** The physical frame allocator (src/kernel/pmm.c). */
module Pmm {
  import opened Words
  import opened Bitmaps
  import opened Multiboot
  import opened BootFormat

  const MAX_FRAMES: int := 32768
  const MAX_MEMORY: int := MAX_FRAMES * PAGE_SIZE

  function AllFrames(): set<nat> {
    Interval(0, MAX_FRAMES)
  }

  /** How many members of s lie below n. */
  ghost function CountBelow(s: set<nat>, n: nat): nat {
    if n == 0 then 0 else CountBelow(s, n - 1) + if n - 1 in s then 1 else 0
  }

  lemma {:induction false} NoneFree(s: set<nat>, n: nat)
    requires forall f :: f in s ==> n <= f
    ensures CountBelow(s, n) == 0
    ensures (forall f :: f in s ==> f < n) ==> s == {}
  {
    if n == 0 {
    } else {
      NoneFree(s, n - 1);
    }
  }

  lemma {:induction false} CountInsert(s: set<nat>, t: set<nat>, f: nat, n: nat)
    requires f !in s && t == s + {f}
    ensures CountBelow(t, n) == CountBelow(s, n) + if f < n then 1 else 0
  {
    if n == 0 {
    } else {
      CountInsert(s, t, f, n - 1);
    }
  }

  lemma {:induction false} CountIsCardinality(s: set<nat>, n: nat)
    requires forall f :: f in s ==> f < n
    ensures CountBelow(s, n) == |s|
    decreases n
  {
    if n == 0 {
      assert s == {};
    } else if n - 1 in s {
      var t := s - {n - 1};
      CountIsCardinality(t, n - 1);
      CountInsert(t, s, n - 1, n);
      assert CountBelow(t, n) == CountBelow(t, n - 1);
    } else {
      CountIsCardinality(s, n - 1);
    }
  }

  predicate Between(lo: int, f: nat, hi: int) {
    lo <= f < hi
  }

  function Interval(lo: int, hi: int): (s: set<nat>) {
    set f: nat | f < MAX_FRAMES && Between(lo, f, hi)
  }

  lemma IntervalGrows(lo: nat, frame: nat)
    requires lo <= frame < MAX_FRAMES
    ensures Interval(lo, frame + 1) == Interval(lo, frame) + {frame}
  {
  }

  lemma IntervalClipped(lo: nat, clipped: nat, hi: nat)
    requires clipped == if hi > MAX_FRAMES then MAX_FRAMES else hi
    ensures Interval(lo, hi) == Interval(lo, clipped) && Interval(lo, lo) == {}
  {
  }

  /** The frames `mark_range_free` clears, its additions wrapping at 32 bits. */
  function ClearedByRange(base: uint32, length: uint32): set<nat> {
    var start := PageBase((base + PAGE_SIZE - 1) % TWO_32);
    var end := PageBase((base + length) % TWO_32);
    Interval(start / PAGE_SIZE, end / PAGE_SIZE)
  }

  /** The frames `mark_range_used` sets, its additions wrapping at 32 bits. */
  function SetByRange(base: uint32, length: uint32): set<nat> {
    var end := PageBase((base + length + PAGE_SIZE - 1) % TWO_32);
    Interval(base / PAGE_SIZE, end / PAGE_SIZE)
  }

  predicate Inside(f: nat, base: nat, length: nat) {
    base <= f * PAGE_SIZE && (f + 1) * PAGE_SIZE <= base + length
  }

  predicate Touches(f: nat, base: nat, length: nat) {
    f * PAGE_SIZE < base + length && base < (f + 1) * PAGE_SIZE
  }

  /** The frames that one memory-map entry makes available: what the memory map promises. */
  function FramesInside(e: MmapEntry): set<nat> {
    set f: nat | f < MAX_FRAMES && Inside(f, e.base, e.length)
  }

  /** What the code clears for one entry. */
  function ClearedByEntry(e: MmapEntry): set<nat> {
    if Accepted(e) then ClearedByRange(e.base, e.length % TWO_32) else {}
  }

  /** The entries for which the 32-bit additions do no harm. */
  predicate Harmless(e: MmapEntry) {
    if e.base + e.length == TWO_32 then e.base > MAX_MEMORY - PAGE_SIZE else e.base <= TWO_32 - PAGE_SIZE
  }

  /** An accepted entry frees exactly the frames wholly inside it if and only if it is harmless:
      an entry that ends at 4 GiB wraps to an empty range, and one that starts in the last page of
      the address space wraps to a range that covers all of memory. */
  lemma EntryExact(e: MmapEntry)
    requires Accepted(e)
    ensures ClearedByEntry(e) == FramesInside(e) <==> Harmless(e)
  {
    if e.base + e.length == TWO_32 {
      EntryToTheEnd(e);
    } else if e.base > TWO_32 - PAGE_SIZE {
      EntryInLastPage(e);
    } else {
      PlainEntry(e);
    }
  }

  lemma EntryToTheEnd(e: MmapEntry)
    requires Accepted(e) && e.base + e.length == TWO_32
    ensures ClearedByEntry(e) == {}
    ensures FramesInside(e) == {} <==> Harmless(e)
  {
    assert PageBase((e.base + e.length % TWO_32) % TWO_32) == 0;
    if !Harmless(e) {
      assert MAX_FRAMES - 1 in FramesInside(e);
    }
  }

  lemma EntryInLastPage(e: MmapEntry)
    requires Accepted(e) && e.base + e.length != TWO_32 && e.base > TWO_32 - PAGE_SIZE
    ensures 0 in ClearedByEntry(e) && 0 !in FramesInside(e)
  {
    assert PageBase((e.base + PAGE_SIZE - 1) % TWO_32) == 0;
    assert PageBase((e.base + e.length % TWO_32) % TWO_32) == TWO_32 - PAGE_SIZE;
  }

  lemma PlainEntry(e: MmapEntry)
    requires Accepted(e) && e.base + e.length != TWO_32 && e.base <= TWO_32 - PAGE_SIZE
    ensures ClearedByEntry(e) == FramesInside(e)
  {
    hide Inside, Between;
    var length := e.length % TWO_32;
    assert (e.base + length) % TWO_32 == e.base + e.length;
    forall f: nat
      ensures Between(PageBase(e.base + PAGE_SIZE - 1) / PAGE_SIZE, f, PageBase(e.base + length) / PAGE_SIZE) <==>
              Inside(f, e.base, length)
    {
      FrameInside(f, e.base, length);
    }
  }

  lemma FrameInside(f: nat, base: nat, length: nat)
    requires base <= TWO_32 - PAGE_SIZE && base + length < TWO_32
    ensures Between(PageBase(base + PAGE_SIZE - 1) / PAGE_SIZE, f, PageBase(base + length) / PAGE_SIZE) <==>
            Inside(f, base, length)
  {
  }

  /** Nothing is freed but for an entry of available memory that is not empty and ends at or below 4 GiB. */
  lemma OnlyAvailable(e: MmapEntry)
    ensures ClearedByEntry(e) != {} ==> e.kind == 1 && 0 < e.length && e.base + e.length <= 0x1_0000_0000
  {
  }

  /** A range that does not wrap is reserved down to the last frame it touches. */
  lemma RangeReserved(base: uint32, length: uint32)
    requires 0 < length && base + length + PAGE_SIZE - 1 < TWO_32
    ensures forall f: nat :: f in SetByRange(base, length) <==> f < MAX_FRAMES && Touches(f, base, length)
  {
  }

  /** Everything a list of entries clears. */
  function ClearedByAll(es: seq<MmapEntry>): set<nat> {
    if es == [] then {} else ClearedByEntry(es[0]) + ClearedByAll(es[1..])
  }

  lemma ClearedByFirst(e: MmapEntry, es: seq<MmapEntry>)
    ensures ClearedByAll([e] + es) == ClearedByEntry(e) + ClearedByAll(es)
  {
    assert ([e] + es)[1..] == es;
  }

  lemma {:induction false} ClearedByConcat(a: seq<MmapEntry>, b: seq<MmapEntry>)
    ensures ClearedByAll(a + b) == ClearedByAll(a) + ClearedByAll(b)
  {
    if a == [] {
      assert a + b == b;
    } else {
      ClearedByConcat(a[1..], b);
      assert (a + b)[1..] == a[1..] + b;
    }
  }

  lemma MoveUnion(free: set<nat>, own: set<nat>, later: set<nat>, all: set<nat>)
    requires free + (own + later) == all
    ensures (free + own) + later == all && (later == {} ==> free + own == all)
  {
  }

  lemma ClearedByTag(info: seq<uint8>, off: nat)
    requires |info| >= 8 && TagsOk(info, off) && off < TotalSize(info)
    ensures ClearedByAll(AllEntries(info, off)) ==
            ClearedByAll(EntriesOfTag(info, off))
            + if U32(info, off) == TAG_END then {} else ClearedByAll(AllEntries(info, off + Align8(U32(info, off + 4))))
  {
    var rest := if U32(info, off) == TAG_END then [] else AllEntries(info, off + Align8(U32(info, off + 4)));
    ClearedByConcat(EntriesOfTag(info, off), rest);
  }

  /** f lies wholly inside some accepted entry. */
  ghost predicate Available(es: seq<MmapEntry>, f: nat) {
    exists k :: 0 <= k < |es| && Accepted(es[k]) && Inside(f, es[k].base, es[k].length)
  }

  ghost predicate AllHarmless(es: seq<MmapEntry>) {
    forall k :: 0 <= k < |es| && Accepted(es[k]) ==> Harmless(es[k])
  }

  lemma {:induction false} ClearedIsAvailable(es: seq<MmapEntry>, f: nat)
    requires AllHarmless(es)
    ensures f in ClearedByAll(es) <==> f < MAX_FRAMES && Available(es, f)
  {
    if es == [] {
    } else {
      var tail := es[1..];
      assert forall k :: 0 <= k < |tail| ==> tail[k] == es[k + 1];
      ClearedIsAvailable(tail, f);
      if Accepted(es[0]) {
        EntryExact(es[0]);
        assert f in ClearedByEntry(es[0]) <==> f in FramesInside(es[0]);
      }
      if f < MAX_FRAMES && Available(es, f) {
        var k :| 0 <= k < |es| && Accepted(es[k]) && Inside(f, es[k].base, es[k].length);
        if k > 0 {
          assert Accepted(tail[k - 1]);
        }
      }
    }
  }

  /** f lies wholly inside the bytes of an accepted entry of the structure. */
  ghost predicate Offered(info: seq<uint8>, f: nat) {
    exists e :: IsEntry(info, e) && Accepted(e) && Inside(f, e.base, e.length)
  }

  /** All accepted entries of the structure are harmless. */
  ghost predicate MapHarmless(info: seq<uint8>) {
    forall e :: IsEntry(info, e) && Accepted(e) ==> Harmless(e)
  }

  /** The code clears the frame for one of the entries of the structure. */
  ghost predicate Cleared(info: seq<uint8>, f: nat) {
    exists e :: IsEntry(info, e) && f in ClearedByEntry(e)
  }

  lemma {:induction false} ClearedBySome(es: seq<MmapEntry>, f: nat)
    ensures f in ClearedByAll(es) <==> exists e :: e in es && f in ClearedByEntry(e)
  {
    if es == [] {
    } else {
      ClearedBySome(es[1..], f);
    }
  }

  /** The list of entries and the structure that they are read from. */
  lemma MapMeans(info: seq<uint8>, f: nat)
    requires WellFormed(info)
    ensures f in ClearedByAll(AllEntries(info, 8)) <==> Cleared(info, f)
    ensures Available(AllEntries(info, 8), f) <==> Offered(info, f)
    ensures AllHarmless(AllEntries(info, 8)) <==> MapHarmless(info)
  {
    var es := AllEntries(info, 8);
    forall e
      ensures e in es <==> IsEntry(info, e)
    {
      EntriesAre(info, e);
    }
    hide IsEntry, AllEntries, ClearedByEntry, Accepted, Inside, Harmless;
    ClearedBySome(es, f);
  }

  lemma MapMeansAll(info: seq<uint8>)
    requires WellFormed(info)
    ensures forall f: nat :: f in ClearedByAll(AllEntries(info, 8)) <==> Cleared(info, f)
    ensures MapHarmless(info) ==>
              forall f: nat :: f in ClearedByAll(AllEntries(info, 8)) <==> f < MAX_FRAMES && Offered(info, f)
  {
    MapHasSize(info);
    hide *;
    forall f: nat
      ensures f in ClearedByAll(AllEntries(info, 8)) <==> Cleared(info, f)
      ensures MapHarmless(info) ==> (f in ClearedByAll(AllEntries(info, 8)) <==> f < MAX_FRAMES && Offered(info, f))
    {
      MapMeans(info, f);
      if MapHarmless(info) {
        ClearedIsAvailable(AllEntries(info, 8), f);
      }
    }
  }

  lemma MapHasSize(info: seq<uint8>)
    requires WellFormed(info)
    ensures |info| >= 8 && TagsOk(info, 8) && TotalSize(info) >= 8
  {
  }

  lemma FrameZeroReserved()
    ensures SetByRange(0, PAGE_SIZE) == {0}
  {
  }

  class FrameAllocator {
    const frameBitmap: Bitmap
    const reservedBitmap: Bitmap
    var totalFrames: nat
    var freeFrames: int
    ghost const Repr: set<object>

    /** The frames whose bit is clear: those an allocation may return. */
    ghost function Free(): set<nat>
      reads frameBitmap
    {
      frameBitmap.clear
    }

    /** The frames that are never given back. */
    ghost function Reserved(): set<nat>
      reads reservedBitmap
    {
      AllFrames() - reservedBitmap.clear
    }

    /** The two bitmaps have their static sizes. */
    ghost predicate Shape() {
      frameBitmap != reservedBitmap && frameBitmap.bytes != reservedBitmap.bytes
      && frameBitmap.bytes.Length == MAX_FRAMES / 8
      && reservedBitmap.bytes.Length == MAX_FRAMES / 8
      && Repr == {this, frameBitmap, frameBitmap.bytes, reservedBitmap, reservedBitmap.bytes}
    }

    ghost predicate Counted()
      reads Repr, this, frameBitmap, reservedBitmap, frameBitmap.bytes, reservedBitmap.bytes
    {
      Shape() && frameBitmap.Valid() && reservedBitmap.Valid()
      && totalFrames == MAX_FRAMES && freeFrames == CountBelow(Free(), MAX_FRAMES) && Free() <= AllFrames()
    }

    ghost predicate Valid()
      reads Repr, this, frameBitmap, reservedBitmap, frameBitmap.bytes, reservedBitmap.bytes
    {
      Counted() && Free() !! Reserved() && 0 in Reserved()
    }

    constructor ()
      ensures Shape() && fresh(Repr)
    {
      var used := new Bitmap(MAX_FRAMES, 0);
      var reserved := new Bitmap(MAX_FRAMES, 0);
      frameBitmap, reservedBitmap := used, reserved;
      totalFrames, freeFrames := 0, 0;
      Repr := {this, used, used.bytes, reserved, reserved.bytes};
    }

    /** The loop body of `mark_range_free`. */
    method ClearFrame(frame: nat)
      requires Counted() && frame < MAX_FRAMES
      modifies Repr
      ensures Counted() && Free() == old(Free()) + {frame} && Reserved() == old(Reserved())
    {
      var used := frameBitmap.TestBit(frame);
      if used {
        frameBitmap.ClearBit(frame);
        freeFrames := freeFrames + 1;
        CountInsert(old(Free()), Free(), frame, MAX_FRAMES);
      }
    }

    /** The loop body of `mark_range_used`. */
    method ReserveFrame(frame: nat)
      requires Counted() && frame < MAX_FRAMES
      modifies Repr
      ensures Counted() && Free() == old(Free()) - {frame}
      ensures Reserved() == old(Reserved()) + {frame}
    {
      var used := frameBitmap.TestBit(frame);
      if !used {
        frameBitmap.SetBit(frame);
        freeFrames := freeFrames - 1;
        CountInsert(Free(), old(Free()), frame, MAX_FRAMES);
      }
      ghost var reserved := Reserved();
      reservedBitmap.SetBit(frame);
      assert Reserved() == reserved + {frame};
    }

    method MarkRangeFree(base: uint32, length: uint32)
      requires Counted()
      modifies Repr
      ensures Counted() && Free() == old(Free()) + ClearedByRange(base, length) && Reserved() == old(Reserved())
    {
      var start := PageBase((base + PAGE_SIZE - 1) % TWO_32);
      var end := PageBase((base + length) % TWO_32);
      if end <= start {
        assert ClearedByRange(base, length) == {};
        return;
      }
      var firstFrame, lastFrame := start / PAGE_SIZE, end / PAGE_SIZE;
      if firstFrame >= MAX_FRAMES {
        assert ClearedByRange(base, length) == {};
        return;
      }
      if lastFrame > MAX_FRAMES {
        lastFrame := MAX_FRAMES;
      }
      IntervalClipped(firstFrame, lastFrame, end / PAGE_SIZE);
      for frame := firstFrame to lastFrame
        invariant Counted()
        invariant Free() == old(Free()) + Interval(firstFrame, frame) && Reserved() == old(Reserved())
      {
        ClearFrame(frame);
        IntervalGrows(firstFrame, frame);
      }
    }

    method MarkRangeUsed(base: uint32, length: uint32)
      requires Counted()
      modifies Repr
      ensures Counted() && Free() == old(Free()) - SetByRange(base, length)
      ensures Reserved() == old(Reserved()) + SetByRange(base, length)
    {
      var start := PageBase(base);
      var end := PageBase((base + length + PAGE_SIZE - 1) % TWO_32);
      if end <= start {
        assert SetByRange(base, length) == {};
        return;
      }
      var firstFrame, lastFrame := start / PAGE_SIZE, end / PAGE_SIZE;
      if firstFrame >= MAX_FRAMES {
        assert SetByRange(base, length) == {};
        return;
      }
      if lastFrame > MAX_FRAMES {
        lastFrame := MAX_FRAMES;
      }
      IntervalClipped(firstFrame, lastFrame, end / PAGE_SIZE);
      for frame := firstFrame to lastFrame
        invariant Counted()
        invariant Free() == old(Free()) - Interval(firstFrame, frame)
        invariant Reserved() == old(Reserved()) + Interval(firstFrame, frame)
      {
        ReserveFrame(frame);
        IntervalGrows(firstFrame, frame);
      }
    }

    /** The guard of the inner loop of `parse_memory_map`, in 64-bit arithmetic. */
    method FreeEntry(entry: MmapEntry)
      requires Counted() && entry.base < TWO_64 && entry.length < TWO_64
      modifies Repr
      ensures Counted() && Free() == old(Free()) + ClearedByEntry(entry) && Reserved() == old(Reserved())
    {
      if entry.kind == MEMORY_AVAILABLE && entry.base <= 0xFFFF_FFFF && entry.length > 0 {
        var endAddress := (entry.base + entry.length) % TWO_64;
        if endAddress > entry.base && endAddress <= TWO_32 {
          MarkRangeFree(entry.base, entry.length % TWO_32);
        }
      }
    }

    /** One memory-map tag: the inner loop of `parse_memory_map`. */
    method ParseEntries(info: seq<uint8>, first: nat, mmapEnd: nat, entrySize: nat)
      requires Counted() && EntriesFit(info, first, mmapEnd, entrySize)
      modifies Repr
      ensures Counted() && Reserved() == old(Reserved())
      ensures Free() == old(Free()) + ClearedByAll(TagEntries(info, first, mmapEnd, entrySize))
    {
      hide ClearBelow, FromBytes;
      var entryAddress := first;
      ghost var all := old(Free()) + ClearedByAll(TagEntries(info, first, mmapEnd, entrySize));
      while entryAddress < mmapEnd
        invariant Counted() && Reserved() == old(Reserved()) && EntriesFit(info, entryAddress, mmapEnd, entrySize)
        invariant Free() + ClearedByAll(TagEntries(info, entryAddress, mmapEnd, entrySize)) == all
        decreases |info| - entryAddress
      {
        var entry := EntryAt(info, entryAddress);
        ClearedByFirst(entry, TagEntries(info, entryAddress + entrySize, mmapEnd, entrySize));
        FreeEntry(entry);
        entryAddress := entryAddress + entrySize;
      }
    }

    /** One tag of the outer loop of `parse_memory_map`. */
    method ParseTag(info: seq<uint8>, current: nat)
      requires Counted() && TagOk(info, current)
      modifies Repr
      ensures Counted() && Reserved() == old(Reserved())
      ensures Free() == old(Free()) + ClearedByAll(EntriesOfTag(info, current))
    {
      if U32(info, current) == TAG_MMAP {
        var size, step := U32(info, current + 4), U32(info, current + 8);
        ParseEntries(info, current + MMAP_HEADER, current + size, step);
      }
    }

    method ParseMemoryMap(info: seq<uint8>)
      requires Counted() && WellFormed(info)
      modifies Repr
      ensures Counted() && Reserved() == old(Reserved())
      ensures Free() == old(Free()) + ClearedByAll(AllEntries(info, 8))
    {
      var current: nat := 8;
      ghost var rest := ClearedByAll(AllEntries(info, 8));
      ghost var all := Free() + rest;
      while current < TotalSize(info)
        invariant Counted() && Reserved() == old(Reserved()) && TagsOk(info, current)
        invariant rest == ClearedByAll(AllEntries(info, current)) && Free() + rest == all
        decreases |info| - current
      {
        ghost var before, own := Free(), ClearedByAll(EntriesOfTag(info, current));
        var last := U32(info, current) == TAG_END;
        var next := current + Align8(U32(info, current + 4));
        ghost var later := if last then {} else ClearedByAll(AllEntries(info, next));
        ClearedByTag(info, current);
        ParseTag(info, current);
        MoveUnion(before, own, later, all);
        if last {
          return;
        }
        current, rest := next, later;
      }
    }

    /** The initialisation loop over both bitmaps. */
    method MarkAllUsed()
      requires Shape()
      modifies Repr
      ensures Counted() && Free() == {} && Reserved() == {}
    {
      totalFrames := MAX_FRAMES;
      freeFrames := 0;
      frameBitmap.Fill(true);
      reservedBitmap.Fill(false);
      assert Free() == {} && Reserved() == {};
      CountIsCardinality({}, MAX_FRAMES);
    }

    /** `pmm_initialize`: frame 0, the boot information and the kernel image are reserved for good, and of the rest
        exactly the frames that the memory map clears are free. Where no range wraps around, that means: a frame below
        128 MiB is free if and only if it lies wholly inside an accepted available entry and touches neither frame 0,
        nor the boot information, nor the kernel image. */
    method Initialize(infoAddress: uint32, info: seq<uint8>, kernelStart: uint32, kernelEnd: uint32)
      requires Shape() && WellFormed(info) && kernelStart <= kernelEnd
      modifies Repr
      ensures Valid()
      ensures Reserved() ==
                {0} + SetByRange(infoAddress, TotalSize(info)) + SetByRange(kernelStart, kernelEnd - kernelStart)
      ensures Free() == ClearedByAll(AllEntries(info, 8)) - Reserved()
      ensures forall f: nat :: f in Free() <==> Cleared(info, f) && f !in Reserved()
      ensures MapHarmless(info) ==>
                forall f: nat :: f in Free() <==> f < MAX_FRAMES && Offered(info, f) && f !in Reserved()
      ensures infoAddress + TotalSize(info) <= TWO_32 - PAGE_SIZE && kernelStart < kernelEnd <= TWO_32 - PAGE_SIZE ==>
                forall f: nat :: f in Reserved() <==>
                  f < MAX_FRAMES && (f == 0 || Touches(f, infoAddress, TotalSize(info))
                                            || Touches(f, kernelStart, kernelEnd - kernelStart))
    {
      hide SetByRange, ClearedByAll, AllEntries, Cleared, Offered, MapHarmless, Touches, TotalSize, WellFormed;
      hide FrameAllocator.Counted, AllFrames;
      MapHasSize(info);
      MarkAllUsed();
      ParseMemoryMap(info);
      MarkRangeUsed(0, PAGE_SIZE);
      MarkRangeUsed(infoAddress, TotalSize(info));
      MarkRangeUsed(kernelStart, kernelEnd - kernelStart);
      FrameZeroReserved();
      if infoAddress + TotalSize(info) <= TWO_32 - PAGE_SIZE && kernelStart < kernelEnd <= TWO_32 - PAGE_SIZE {
        RangeReserved(infoAddress, TotalSize(info));
        RangeReserved(kernelStart, kernelEnd - kernelStart);
      }
      MapMeansAll(info);
    }

    /** Returns the address of the least free frame, or 0 if there is none. */
    method AllocFrame() returns (address: uint32)
      requires Valid()
      modifies Repr
      ensures Valid() && Reserved() == old(Reserved())
      ensures address == 0 <==> old(Free()) == {}
      ensures address == 0 ==> Free() == old(Free())
      ensures address != 0 ==> address % PAGE_SIZE == 0 && address / PAGE_SIZE in old(Free())
      ensures address != 0 ==> forall f :: f in old(Free()) ==> address / PAGE_SIZE <= f
      ensures address != 0 ==> Free() == old(Free()) - {address / PAGE_SIZE}
      ensures freeFrames == old(freeFrames) - (if address == 0 then 0 else 1) && freeFrames >= 0
      ensures address == 0 ==> freeFrames == 0
    {
      var frame := 0;
      while frame < totalFrames
        invariant frame <= totalFrames && forall f :: f in Free() ==> frame <= f
        modifies {}
      {
        var used := frameBitmap.TestBit(frame);
        if !used {
          break;
        }
        frame := frame + 1;
      }
      if frame == totalFrames {
        NoneFree(Free(), MAX_FRAMES);
        return 0;
      }
      frameBitmap.SetBit(frame);
      freeFrames := freeFrames - 1;
      CountInsert(Free(), old(Free()), frame, MAX_FRAMES);
      address := frame * PAGE_SIZE;
    }

    /** Gives a frame back; a reserved frame, a frame outside memory and a free frame are left alone. */
    method FreeFrame(address: uint32)
      requires Valid()
      modifies Repr
      ensures Valid() && Reserved() == old(Reserved())
      ensures Free() == old(Free())
                        + (if address / PAGE_SIZE < MAX_FRAMES && address / PAGE_SIZE !in Reserved()
                           then {address / PAGE_SIZE} else {})
    {
      var frame := address / PAGE_SIZE;
      if frame >= totalFrames {
        return;
      }
      var reserved := reservedBitmap.TestBit(frame);
      if reserved {
        return;
      }
      var used := frameBitmap.TestBit(frame);
      if used {
        frameBitmap.ClearBit(frame);
        freeFrames := freeFrames + 1;
        CountInsert(old(Free()), Free(), frame, MAX_FRAMES);
      }
    }
  }

  /** Taking a frame and giving it back restores every byte of the bitmap. */
  method AllocThenFree(pmm: FrameAllocator) returns (address: uint32)
    requires pmm.Valid()
    modifies pmm.Repr
    ensures pmm.Valid() && pmm.freeFrames == old(pmm.freeFrames)
    ensures pmm.frameBitmap.bytes[..] == old(pmm.frameBitmap.bytes[..])
  {
    address := pmm.AllocFrame();
    if address != 0 {
      pmm.FreeFrame(address);
    }
    assert pmm.Free() == old(pmm.Free());
    BitmapDetermined(pmm.frameBitmap.bytes[..], old(pmm.frameBitmap.bytes[..]));
  }

  /** Two states of the allocator with the same free frames have the same bitmap bytes and the same count. */
  twostate lemma SameFreeSameBytes(pmm: FrameAllocator)
    requires old(pmm.Valid()) && pmm.Valid() && pmm.Free() == old(pmm.Free())
    ensures pmm.frameBitmap.bytes[..] == old(pmm.frameBitmap.bytes[..])
    ensures pmm.freeFrames == old(pmm.freeFrames)
  {
    BitmapDetermined(pmm.frameBitmap.bytes[..], old(pmm.frameBitmap.bytes[..]));
  }
}
