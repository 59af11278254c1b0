/** Reading and validating a 32-bit ELF image (src/kernel/elf.h, src/kernel/elf.c). */
module ElfImage {
  import opened Words

  const USER_FIRST: int := 0x4000_0000
  const USER_LAST: int := 0x7FFF_FFFF

  const EHDR_SIZE: int := 52
  const PHDR_SIZE: int := 32
  const TYPE_EXEC: int := 2
  const MACHINE_386: int := 3
  const VERSION_CURRENT: int := 1
  const PT_LOAD: int := 1

  /** The fields of a program header that the loader reads. */
  datatype Segment = Segment(kind: uint32, offset: uint32, vaddr: uint32, filesz: uint32, memsz: uint32, flags: uint32)

  function U16(p: seq<uint8>, off: nat): nat
    requires off + 2 <= |p|
  {
    FromBytes(p, off, 2)
  }

  function EntryPoint(image: seq<uint8>): uint32
    requires |image| >= EHDR_SIZE
  {
    U32(image, 24)
  }

  function PhOff(image: seq<uint8>): uint32
    requires |image| >= EHDR_SIZE
  {
    U32(image, 28)
  }

  function PhNum(image: seq<uint8>): nat
    requires |image| >= EHDR_SIZE
  {
    U16(image, 44)
  }

  /** The header checks of `elf_validate`: a 32-bit little-endian i386 executable whose program headers lie in the
      image. */
  predicate HeaderOk(image: seq<uint8>) {
    && |image| >= EHDR_SIZE
    && image[..7] == [0x7F, 0x45, 0x4C, 0x46, 1, 1, VERSION_CURRENT]
    && U16(image, 16) == TYPE_EXEC && U16(image, 18) == MACHINE_386 && U32(image, 20) == VERSION_CURRENT
    && U16(image, 40) == EHDR_SIZE && U16(image, 42) == PHDR_SIZE && PhNum(image) > 0
    && PhOff(image) + PhNum(image) * PHDR_SIZE <= |image|
  }

  function SegmentAt(image: seq<uint8>, i: nat): Segment
    requires HeaderOk(image) && i < PhNum(image)
  {
    var off := PhOff(image) + i * PHDR_SIZE;
    Segment(U32(image, off), U32(image, off + 4), U32(image, off + 8), U32(image, off + 16), U32(image, off + 20),
            U32(image, off + 24))
  }

  /** The file part lies in the image, the memory part in user space, and both agree modulo the page size. */
  predicate SegmentOk(s: Segment, imageSize: nat) {
    && s.filesz <= s.memsz && s.offset + s.filesz <= imageSize
    && 0 < s.memsz && USER_FIRST <= s.vaddr && s.vaddr + s.memsz <= USER_LAST + 1
    && s.offset % PAGE_SIZE == s.vaddr % PAGE_SIZE
  }

  /** Both sides of each limit of a segment: the image, the size in memory, the two ends of user space, and the place in
      the page. */
  lemma SegmentLimits(imageSize: nat, kind: uint32, flags: uint32)
    requires 0x1100 <= imageSize < 0x10_0000
    ensures SegmentOk(Segment(kind, 0x1000, 0x4000_0000, imageSize - 0x1000, 0x4000_0000, flags), imageSize)
    ensures !SegmentOk(Segment(kind, 0x1000, 0x4000_0000, imageSize - 0xFFF, 0x4000_0000, flags), imageSize)
    ensures !SegmentOk(Segment(kind, 0x1000, 0x4000_0000, 0, 0x4000_0001, flags), imageSize)
    ensures !SegmentOk(Segment(kind, 0xFFF, 0x3FFF_FFFF, 0, 0x1000, flags), imageSize)
    ensures SegmentOk(Segment(kind, 0x10, 0x4000_1010, 0xE0, 0xE0, flags), imageSize)
    ensures !SegmentOk(Segment(kind, 0x10, 0x4000_1010, 0xE0, 0xDF, flags), imageSize)
    ensures !SegmentOk(Segment(kind, 0x10, 0x4000_1011, 0xE0, 0xE0, flags), imageSize)
    ensures SegmentOk(Segment(kind, 0xFFF, 0x7FFF_FFFF, 1, 1, flags), imageSize)
    ensures !SegmentOk(Segment(kind, 0xFFF, 0x7FFF_FFFF, 0, 0, flags), imageSize)
  {
  }

  /** The program header table. */
  function Headers(image: seq<uint8>): (hs: seq<Segment>)
    requires HeaderOk(image)
  {
    seq(PhNum(image), i requires 0 <= i < PhNum(image) => SegmentAt(image, i))
  }

  /** Header i describes a segment to load. */
  predicate Loads(hs: seq<Segment>, i: nat) {
    i < |hs| && hs[i].kind == PT_LOAD
  }

  /** Every segment to load can be read from the image and lies in user space. */
  ghost predicate SegmentsOk(hs: seq<Segment>, imageSize: nat) {
    forall i: nat :: Loads(hs, i) ==> SegmentOk(hs[i], imageSize)
  }

  /** The address lies between the lowest start and the highest end of the segments to load. */
  ghost predicate Between(hs: seq<Segment>, address: nat) {
    (exists i: nat :: Loads(hs, i) && hs[i].vaddr <= address)
    && (exists i: nat :: Loads(hs, i) && address < hs[i].vaddr + hs[i].memsz)
  }

  /** What `elf_validate` accepts. */
  ghost predicate ValidElf(image: seq<uint8>) {
    HeaderOk(image) && SegmentsOk(Headers(image), |image|) && Between(Headers(image), EntryPoint(image))
  }

  predicate RangeInsideImage(offset: uint32, size: uint32, imageSize: uint32)
    ensures RangeInsideImage(offset, size, imageSize) <==> offset + size <= imageSize
  {
    if offset > imageSize then false
    else if size > imageSize - offset then false
    else true
  }

  predicate RangeInsideUserSpace(start: uint32, size: uint32)
    ensures RangeInsideUserSpace(start, size) <==> 0 < size && USER_FIRST <= start && start + size <= USER_LAST + 1
  {
    if size == 0 then false
    else if start < USER_FIRST then false
    else if start > USER_LAST then false
    else if size - 1 > USER_LAST - start then false
    else true
  }

  /** How many of the first n headers are segments to load. */
  function LoadCount(hs: seq<Segment>, n: nat): nat
    requires n <= |hs|
  {
    if n == 0 then 0 else LoadCount(hs, n - 1) + if hs[n - 1].kind == PT_LOAD then 1 else 0
  }

  /** The lowest address of the first n headers' segments to load. */
  function Lowest(hs: seq<Segment>, n: nat): nat
    requires n <= |hs|
  {
    if n == 0 then 0xFFFF_FFFF
    else if hs[n - 1].kind == PT_LOAD && hs[n - 1].vaddr < Lowest(hs, n - 1) then hs[n - 1].vaddr
    else Lowest(hs, n - 1)
  }

  /** The highest end of the first n headers' segments to load. */
  function Highest(hs: seq<Segment>, n: nat): nat
    requires n <= |hs|
  {
    if n == 0 then 0
    else if hs[n - 1].kind == PT_LOAD && hs[n - 1].vaddr + hs[n - 1].memsz > Highest(hs, n - 1)
    then hs[n - 1].vaddr + hs[n - 1].memsz
    else Highest(hs, n - 1)
  }

  /** What the count and the bounds mean for an address. */
  lemma {:induction false} BoundsMean(hs: seq<Segment>, n: nat, address: nat)
    requires n <= |hs|
    ensures Lowest(hs, n) <= address <==>
              address >= 0xFFFF_FFFF || exists i: nat :: i < n && Loads(hs, i) && hs[i].vaddr <= address
    ensures address < Highest(hs, n) <==> exists i: nat :: i < n && Loads(hs, i) && address < hs[i].vaddr + hs[i].memsz
    ensures LoadCount(hs, n) > 0 <==> exists i: nat :: i < n && Loads(hs, i)
  {
    if n == 0 {
    } else {
      BoundsMean(hs, n - 1, address);
      assert hs[n - 1].kind == PT_LOAD ==> Loads(hs, n - 1);
    }
  }

  /** The header part of `elf_validate`. */
  method CheckHeader(image: seq<uint8>) returns (ok: bool)
    requires |image| < TWO_32
    ensures ok <==> HeaderOk(image)
  {
    if |image| < EHDR_SIZE {
      return false;
    }
    assert image[..7] == [image[0], image[1], image[2], image[3], image[4], image[5], image[6]];
    if image[0] != 0x7F || image[1] != 0x45 || image[2] != 0x4C || image[3] != 0x46 {
      return false;
    }
    if image[4] != 1 || image[5] != 1 || image[6] != VERSION_CURRENT {
      return false;
    }
    if U16(image, 16) != TYPE_EXEC || U16(image, 18) != MACHINE_386 || U32(image, 20) != VERSION_CURRENT {
      return false;
    }
    if U16(image, 40) != EHDR_SIZE || U16(image, 42) != PHDR_SIZE || PhNum(image) == 0 {
      return false;
    }
    assert Pow256(2) == 0x1_0000;
    ok := RangeInsideImage(PhOff(image), PhNum(image) * PHDR_SIZE, |image|);
  }

  /** The checks on one segment to load. */
  method CheckSegment(s: Segment, imageSize: uint32) returns (ok: bool)
    ensures ok <==> SegmentOk(s, imageSize)
  {
    if s.filesz > s.memsz {
      return false;
    }
    if !RangeInsideImage(s.offset, s.filesz, imageSize) {
      return false;
    }
    if !RangeInsideUserSpace(s.vaddr, s.memsz) {
      return false;
    }
    ok := s.offset % PAGE_SIZE == s.vaddr % PAGE_SIZE;
  }

  /** The loop of `elf_validate` over the program headers. */
  method CheckSegments(image: seq<uint8>, ghost hs: seq<Segment>)
    returns (ok: bool, loadSegments: nat, lowest: nat, highest: nat)
    requires |image| < TWO_32 && HeaderOk(image) && hs == Headers(image)
    ensures ok <==> SegmentsOk(hs, |image|)
    ensures ok ==> loadSegments == LoadCount(hs, |hs|) && lowest == Lowest(hs, |hs|) && highest == Highest(hs, |hs|)
  {
    hide SegmentAt, SegmentOk;
    loadSegments, lowest, highest := 0, 0xFFFF_FFFF, 0;
    for i := 0 to PhNum(image)
      invariant forall j: nat :: j < i && Loads(hs, j) ==> SegmentOk(hs[j], |image|)
      invariant loadSegments == LoadCount(hs, i) && lowest == Lowest(hs, i) && highest == Highest(hs, i)
    {
      var ph := SegmentAt(image, i);
      assert ph == hs[i];
      if ph.kind == PT_LOAD {
        loadSegments := loadSegments + 1;
        var segmentOk := CheckSegment(ph, |image|);
        if !segmentOk {
          assert Loads(hs, i);
          return false, loadSegments, lowest, highest;
        }
        var segmentEnd := ph.vaddr + ph.memsz;
        if ph.vaddr < lowest {
          lowest := ph.vaddr;
        }
        if segmentEnd > highest {
          highest := segmentEnd;
        }
      }
    }
    ok := true;
  }

  /** The entry point lies between the bounds exactly if the image is valid. */
  lemma EntryBetween(hs: seq<Segment>, entry: uint32, imageSize: nat)
    requires SegmentsOk(hs, imageSize)
    ensures Lowest(hs, |hs|) <= entry < Highest(hs, |hs|) ==> USER_FIRST <= entry <= USER_LAST
    ensures Lowest(hs, |hs|) <= entry < Highest(hs, |hs|) <==> Between(hs, entry)
    ensures LoadCount(hs, |hs|) == 0 ==> !Between(hs, entry)
  {
    BoundsMean(hs, |hs|, entry);
  }

  /** `elf_validate` accepts exactly the valid images. */
  method Validate(image: seq<uint8>) returns (ok: bool)
    requires |image| < TWO_32
    ensures ok <==> ValidElf(image)
  {
    var headerOk := CheckHeader(image);
    if !headerOk {
      return false;
    }
    ghost var hs := Headers(image);
    var segmentsOk, loadSegments, lowest, highest := CheckSegments(image, hs);
    if !segmentsOk {
      return false;
    }
    EntryBetween(hs, EntryPoint(image), |image|);
    if loadSegments == 0 {
      return false;
    }
    if EntryPoint(image) < lowest || EntryPoint(image) >= highest {
      return false;
    }
    if EntryPoint(image) < USER_FIRST || EntryPoint(image) > USER_LAST {
      // The bounds of the segments already exclude such an entry point.
      assert false;
    }
    ok := true;
  }
}
