/** The layout of an executable as the Tool Interface Standard lays it out (ELF specification, figures 1-3 and 2-1;
    src/kernel/elf.h): files are written here by concatenation, and the reader finds what was written. */
module ElfFormat {
  import opened Words
  import opened ElfImage

  /** A program header: p_type, p_offset, p_vaddr, p_paddr, p_filesz, p_memsz, p_flags, p_align. */
  function ProgramHeader(s: Segment, paddr: uint32, align: uint32): (b: seq<uint8>)
    ensures |b| == PHDR_SIZE
  {
    Bytes(4, s.kind) + (Bytes(4, s.offset) + (Bytes(4, s.vaddr) + (Bytes(4, paddr) + SizesAndFlags(s, align))))
  }

  function SizesAndFlags(s: Segment, align: uint32): (b: seq<uint8>)
    ensures |b| == 16
  {
    Bytes(4, s.filesz) + (Bytes(4, s.memsz) + (Bytes(4, s.flags) + (Bytes(4, align) + [])))
  }

  /** The bytes at off are a program header with these fields, the physical address and the alignment left open. */
  ghost predicate HeaderAt(image: seq<uint8>, off: nat, s: Segment) {
    off + PHDR_SIZE <= |image|
    && exists paddr: uint32, align: uint32 :: image[off..off + PHDR_SIZE] == ProgramHeader(s, paddr, align)
  }

  /** What is read from the table is what was written into it: the two program headers agree in every field. */
  lemma SegmentRead(image: seq<uint8>, i: nat, s: Segment)
    requires HeaderOk(image) && i < PhNum(image)
    ensures PhOff(image) + i * PHDR_SIZE + PHDR_SIZE <= |image|
    ensures SegmentAt(image, i) == s <==> HeaderAt(image, PhOff(image) + i * PHDR_SIZE, s)
  {
    var off := PhOff(image) + i * PHDR_SIZE;
    assert off + PHDR_SIZE <= |image|;
    hide HeaderOk, PhOff, U32;
    if SegmentAt(image, i) == s {
      HeaderWritten(image, off, s, U32(image, off + 12), U32(image, off + 28));
    } else if HeaderAt(image, off, s) {
      var paddr: uint32, align: uint32 :| image[off..off + PHDR_SIZE] == ProgramHeader(s, paddr, align);
      HeaderWritten(image, off, s, paddr, align);
    }
  }

  lemma HeaderWritten(image: seq<uint8>, off: nat, s: Segment, paddr: uint32, align: uint32)
    requires off + PHDR_SIZE <= |image|
    ensures image[off..off + PHDR_SIZE] == ProgramHeader(s, paddr, align) <==>
            && U32(image, off) == s.kind && U32(image, off + 4) == s.offset && U32(image, off + 8) == s.vaddr
            && U32(image, off + 12) == paddr && U32(image, off + 16) == s.filesz && U32(image, off + 20) == s.memsz
            && U32(image, off + 24) == s.flags && U32(image, off + 28) == align
  {
    hide Bytes, U32;
    ReadsWord(image, off + 28, align, []);
    ReadsWord(image, off + 24, s.flags, Bytes(4, align) + []);
    ReadsWord(image, off + 20, s.memsz, Bytes(4, s.flags) + (Bytes(4, align) + []));
    ReadsWord(image, off + 16, s.filesz, Bytes(4, s.memsz) + (Bytes(4, s.flags) + (Bytes(4, align) + [])));
    var rest := SizesAndFlags(s, align);
    ReadsWord(image, off + 12, paddr, rest);
    ReadsWord(image, off + 8, s.vaddr, Bytes(4, paddr) + rest);
    ReadsWord(image, off + 4, s.offset, Bytes(4, s.vaddr) + (Bytes(4, paddr) + rest));
    ReadsWord(image, off, s.kind, Bytes(4, s.offset) + (Bytes(4, s.vaddr) + (Bytes(4, paddr) + rest)));
  }

  type uint16 = x: int | 0 <= x < 0x1_0000

  /** The file header: the identification bytes, then the fields in their order. */
  datatype FileHeader = FileHeader(
    ident: seq<uint8>, kind: uint16, machine: uint16, version: uint32, entry: uint32, phoff: uint32, shoff: uint32,
    flags: uint32, ehsize: uint16, phentsize: uint16, phnum: uint16, shentsize: uint16, shnum: uint16, shstrndx: uint16)

  function HeaderBytes(h: FileHeader): (b: seq<uint8>)
    requires |h.ident| == 16
    ensures |b| == EHDR_SIZE
  {
    h.ident + (Bytes(2, h.kind) + (Bytes(2, h.machine) + WordFields(h)))
  }

  function WordFields(h: FileHeader): (b: seq<uint8>)
    ensures |b| == 32
  {
    Bytes(4, h.version)
    + (Bytes(4, h.entry) + (Bytes(4, h.phoff) + (Bytes(4, h.shoff) + (Bytes(4, h.flags) + Halves(h)))))
  }

  function Halves(h: FileHeader): (b: seq<uint8>)
    ensures |b| == 12
  {
    Bytes(2, h.ehsize) + (Bytes(2, h.phentsize) + (Bytes(2, h.phnum) + LastHalves(h)))
  }

  function LastHalves(h: FileHeader): (b: seq<uint8>)
    ensures |b| == 6
  {
    Bytes(2, h.shentsize) + (Bytes(2, h.shnum) + (Bytes(2, h.shstrndx) + []))
  }

  lemma HalvesRead(image: seq<uint8>, h: FileHeader)
    requires |image| >= EHDR_SIZE && image[40..EHDR_SIZE] == Halves(h)
    ensures U16(image, 40) == h.ehsize && U16(image, 42) == h.phentsize && U16(image, 44) == h.phnum
  {
    hide Bytes, FromBytes, LastHalves;
    ReadsHalf(image, 44, h.phnum, LastHalves(h));
    ReadsHalf(image, 42, h.phentsize, Bytes(2, h.phnum) + LastHalves(h));
    ReadsHalf(image, 40, h.ehsize, Bytes(2, h.phentsize) + (Bytes(2, h.phnum) + LastHalves(h)));
  }

  lemma WordFieldsRead(image: seq<uint8>, h: FileHeader)
    requires |image| >= EHDR_SIZE && image[20..EHDR_SIZE] == WordFields(h)
    ensures U32(image, 20) == h.version && U32(image, 24) == h.entry && U32(image, 28) == h.phoff
    ensures image[40..EHDR_SIZE] == Halves(h)
  {
    hide Bytes, U32, Halves;
    var rest := Halves(h);
    ReadsWord(image, 36, h.flags, rest);
    ReadsWord(image, 32, h.shoff, Bytes(4, h.flags) + rest);
    ReadsWord(image, 28, h.phoff, Bytes(4, h.shoff) + (Bytes(4, h.flags) + rest));
    ReadsWord(image, 24, h.entry, Bytes(4, h.phoff) + (Bytes(4, h.shoff) + (Bytes(4, h.flags) + rest)));
    ReadsWord(image, 20, h.version,
              Bytes(4, h.entry) + (Bytes(4, h.phoff) + (Bytes(4, h.shoff) + (Bytes(4, h.flags) + rest))));
  }

  /** What the validator reads from a file that begins with this header, and what it asks of it. */
  lemma FileHeaderRead(image: seq<uint8>, h: FileHeader)
    requires |image| >= EHDR_SIZE && |h.ident| == 16 && image[..EHDR_SIZE] == HeaderBytes(h)
    ensures EntryPoint(image) == h.entry && PhOff(image) == h.phoff && PhNum(image) == h.phnum
    ensures HeaderOk(image) <==>
            && h.ident[..7] == [0x7F, 0x45, 0x4C, 0x46, 1, 1, 1] && h.kind == 2 && h.machine == 3 && h.version == 1
            && h.ehsize == 52 && h.phentsize == 32 && h.phnum > 0 && h.phoff + h.phnum * 32 <= |image|
  {
    hide Bytes, U32, FromBytes, WordFields;
    assert image[0..0 + |h.ident| + 36] == HeaderBytes(h);
    Joined(image, 0, h.ident, Bytes(2, h.kind) + (Bytes(2, h.machine) + WordFields(h)));
    assert image[..7] == image[0..16][..7];
    ReadsHalf(image, 18, h.machine, WordFields(h));
    ReadsHalf(image, 16, h.kind, Bytes(2, h.machine) + WordFields(h));
    WordFieldsRead(image, h);
    HalvesRead(image, h);
  }

  // ---- Whole files ----

  /** The program header table. */
  function Table(ss: seq<Segment>): (b: seq<uint8>)
    ensures |b| == |ss| * PHDR_SIZE
  {
    if ss == [] then [] else ProgramHeader(ss[0], ss[0].vaddr, PAGE_SIZE) + Table(ss[1..])
  }

  /** An executable: its header, its table, and what follows. */
  function Executable(entry: uint32, ss: seq<Segment>, body: seq<uint8>): (image: seq<uint8>)
    requires |ss| < 0x1_0000
    ensures |image| == EHDR_SIZE + |ss| * PHDR_SIZE + |body|
  {
    HeaderBytes(ExecutableHeader(entry, |ss|)) + Table(ss) + body
  }

  function ExecutableHeader(entry: uint32, count: uint16): (h: FileHeader)
    ensures |h.ident| == 16
  {
    FileHeader([0x7F, 0x45, 0x4C, 0x46, 1, 1, 1, 0, 0, 0, 0, 0, 0, 0, 0, 0], TYPE_EXEC, MACHINE_386, 1, entry,
               EHDR_SIZE, 0, 0, EHDR_SIZE, PHDR_SIZE, count, 0, 0, 0)
  }

  lemma {:induction false} TableHolds(ss: seq<Segment>, i: nat)
    requires i < |ss|
    ensures |Table(ss)| == |ss| * PHDR_SIZE >= i * PHDR_SIZE + PHDR_SIZE
    ensures Table(ss)[i * PHDR_SIZE..i * PHDR_SIZE + PHDR_SIZE] == ProgramHeader(ss[i], ss[i].vaddr, PAGE_SIZE)
    decreases i
  {
    var first := ProgramHeader(ss[0], ss[0].vaddr, PAGE_SIZE);
    hide ProgramHeader;
    if i == 0 {
    } else {
      TableHolds(ss[1..], i - 1);
      var a := (i - 1) * PHDR_SIZE;
      assert a + PHDR_SIZE == i * PHDR_SIZE;
      assert Table(ss)[a + PHDR_SIZE..a + PHDR_SIZE + PHDR_SIZE] == Table(ss[1..])[a..a + PHDR_SIZE];
    }
  }

  /** Every list of segments comes back from the file that is written for it. */
  lemma ExecutableRead(entry: uint32, ss: seq<Segment>, body: seq<uint8>)
    requires 0 < |ss| < 0x1_0000
    ensures var image := Executable(entry, ss, body);
            && HeaderOk(image) && Headers(image) == ss && EntryPoint(image) == entry
            && image[EHDR_SIZE + |ss| * PHDR_SIZE..] == body
  {
    var image, h := Executable(entry, ss, body), ExecutableHeader(entry, |ss|);
    assert image[..EHDR_SIZE] == HeaderBytes(h);
    FileHeaderRead(image, h);
    hide HeaderOk, HeaderBytes, PhOff, PhNum, EntryPoint, ProgramHeader, SegmentAt;
    forall i: nat | i < |ss|
      ensures Headers(image)[i] == ss[i]
    {
      HeaderInFile(entry, ss, body, i);
      SegmentRead(image, i, ss[i]);
    }
  }

  lemma HeaderInFile(entry: uint32, ss: seq<Segment>, body: seq<uint8>, i: nat)
    requires i < |ss| < 0x1_0000
    ensures HeaderAt(Executable(entry, ss, body), EHDR_SIZE + i * PHDR_SIZE, ss[i])
  {
    var image, at := Executable(entry, ss, body), i * PHDR_SIZE;
    TableHolds(ss, i);
    hide ProgramHeader, HeaderBytes, ExecutableHeader;
    assert image[EHDR_SIZE..EHDR_SIZE + |Table(ss)|] == Table(ss);
    hide Table, Executable;
    PartOfRange(image, EHDR_SIZE, |Table(ss)|, at, PHDR_SIZE);
    var paddr: uint32, align: uint32 := ss[i].vaddr, PAGE_SIZE;
    assert image[EHDR_SIZE + at..EHDR_SIZE + at + PHDR_SIZE] == ProgramHeader(ss[i], paddr, align);
  }
}
