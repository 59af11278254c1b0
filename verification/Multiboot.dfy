/** The Multiboot2 information structure as the memory manager reads it (src/kernel/multiboot.h, src/kernel/pmm.c). */
module Multiboot {
  import opened Words

  const TAG_END: int := 0
  const TAG_MMAP: int := 6
  const MEMORY_AVAILABLE: int := 1

  const TAG_HEADER: int := 8
  const MMAP_HEADER: int := 16
  const MMAP_ENTRY: int := 24

  datatype MmapEntry = MmapEntry(base: nat, length: nat, kind: uint32)

  function Align8(n: nat): (r: nat)
    ensures n <= r < n + 8
  {
    (n + 7) / 8 * 8
  }

  function TotalSize(info: seq<uint8>): uint32
    requires |info| >= 8
  {
    U32(info, 0)
  }

  function EntryAt(info: seq<uint8>, off: nat): (e: MmapEntry)
    requires off + MMAP_ENTRY <= |info|
    ensures e.base < TWO_64 && e.length < TWO_64
  {
    assert Pow256(8) == TWO_64;
    MmapEntry(FromBytes(info, off, 8), FromBytes(info, off + 8, 8), U32(info, off + 16))
  }

  /** The guard of the parser: an available, non-empty entry that ends at or below 4 GiB. */
  predicate Accepted(e: MmapEntry) {
    e.kind == MEMORY_AVAILABLE && e.base < TWO_32 && e.length > 0 && e.base + e.length <= TWO_32
  }

  /** The entries of one memory-map tag can be read and the walk over them ends at stop. */
  predicate EntriesFit(info: seq<uint8>, off: nat, stop: nat, step: nat)
    decreases |info| - off
  {
    off >= stop
    || (off + MMAP_ENTRY <= |info| && 0 < step && off + step <= |info| && EntriesFit(info, off + step, stop, step))
  }

  /** The tag at off lies in the structure, as section 3.6 of the Multiboot2 specification lays it out. */
  predicate TagOk(info: seq<uint8>, off: nat) {
    off + TAG_HEADER <= |info|
    && 0 < U32(info, off + 4)
    && off + U32(info, off + 4) <= |info|
    && (U32(info, off) == TAG_MMAP ==>
          off + MMAP_HEADER <= |info|
          && EntriesFit(info, off + MMAP_HEADER, off + U32(info, off + 4), U32(info, off + 8)))
  }

  /** The tags from offset off on: what the walk of `parse_memory_map` needs to stay in bounds and to end. */
  predicate TagsOk(info: seq<uint8>, off: nat)
    requires |info| >= 8
    decreases |info| - off
  {
    off >= TotalSize(info)
    || (TagOk(info, off)
        && (U32(info, off) != TAG_END ==> TagsOk(info, off + Align8(U32(info, off + 4)))))
  }

  predicate WellFormed(info: seq<uint8>) {
    |info| >= 8 && 8 <= TotalSize(info) <= |info| && TagsOk(info, 8)
  }

  /** The entries from offset off up to stop of one memory-map tag. */
  function TagEntries(info: seq<uint8>, off: nat, stop: nat, step: nat): seq<MmapEntry>
    requires EntriesFit(info, off, stop, step)
    decreases |info| - off
  {
    if off >= stop then [] else [EntryAt(info, off)] + TagEntries(info, off + step, stop, step)
  }

  /** The entries of the tag at off: none unless it is a memory map. */
  function EntriesOfTag(info: seq<uint8>, off: nat): seq<MmapEntry>
    requires TagOk(info, off)
  {
    if U32(info, off) == TAG_MMAP
    then TagEntries(info, off + MMAP_HEADER, off + U32(info, off + 4), U32(info, off + 8)) else []
  }

  /** Every memory-map entry of the structure, in order. */
  function AllEntries(info: seq<uint8>, off: nat): seq<MmapEntry>
    requires |info| >= 8 && TagsOk(info, off)
    decreases |info| - off
  {
    if off >= TotalSize(info) then [] else
      EntriesOfTag(info, off)
      + if U32(info, off) == TAG_END then [] else AllEntries(info, off + Align8(U32(info, off + 4)))
  }
}
