/** Three memory maps: one as a boot loader gives it, and two on which `parse_memory_map` does not do what the map says
    (src/kernel/pmm.c). */
module BootMaps {
  import opened Words
  import opened Multiboot
  import opened BootFormat
  import opened Pmm

  /** A boot structure with one memory map. */
  function MapOf(es: seq<MmapEntry>): seq<uint8> {
    Structure([MemoryMap(0, es)])
  }

  lemma MapHolds(es: seq<MmapEntry>)
    requires |es| <= 4 && forall k: nat :: k < |es| ==> es[k].base < TWO_64 && es[k].length < TWO_64
    ensures WellFormed(MapOf(es)) && AllEntries(MapOf(es), 8) == es
  {
    var ts := [MemoryMap(0, es)];
    assert ts[1..] == [] && EntriesOf(ts[1..]) == [];
    assert |TagsBytes(ts)| < 1000;
    StructureRead(ts);
  }

  lemma OneCleared(e: MmapEntry)
    ensures ClearedByAll([e]) == ClearedByEntry(e)
  {
    assert [e][1..] == [];
  }

  /** An available entry from 0 to 4 GiB. */
  const WHOLE: MmapEntry := MmapEntry(0, TWO_32, MEMORY_AVAILABLE)

  /** A map that says that all memory below 4 GiB is available frees nothing. */
  lemma WholeMapFreesNothing()
    ensures WellFormed(MapOf([WHOLE])) && AllEntries(MapOf([WHOLE]), 8) == [WHOLE]
    ensures ClearedByAll(AllEntries(MapOf([WHOLE]), 8)) == {}
  {
    MapHolds([WHOLE]);
    OneCleared(WHOLE);
    hide MapOf, WellFormed, AllEntries;
  }

  /** An available entry of 1 KiB at 0xFFFFF800. */
  const LAST_PAGE: MmapEntry := MmapEntry(0xFFFF_F800, 0x400, MEMORY_AVAILABLE)

  /** A map with one available kilobyte, not even a frame, in the last page below 4 GiB frees all of memory. */
  lemma LastPageMapFreesAll()
    ensures WellFormed(MapOf([LAST_PAGE])) && AllEntries(MapOf([LAST_PAGE]), 8) == [LAST_PAGE]
    ensures forall f: nat :: f < MAX_FRAMES ==> f in ClearedByAll(AllEntries(MapOf([LAST_PAGE]), 8))
  {
    MapHolds([LAST_PAGE]);
    OneCleared(LAST_PAGE);
    hide MapOf, WellFormed, AllEntries, ClearedByAll, ClearedByEntry;
    WrapsToAll(LAST_PAGE);
  }

  lemma WrapsToAll(e: MmapEntry)
    requires e == LAST_PAGE
    ensures forall f: nat :: f < MAX_FRAMES ==> f in ClearedByEntry(e)
  {
  }

  /** What a boot loader reports: conventional memory, what belongs to the firmware, memory from 1 MiB on, and memory
      above 4 GiB. */
  const LOW_MEMORY: MmapEntry := MmapEntry(0, 0x9_FC00, MEMORY_AVAILABLE)
  const FIRMWARE: MmapEntry := MmapEntry(0x9_FC00, 0x6_0400, 2)
  const HIGH_MEMORY: MmapEntry := MmapEntry(0x10_0000, 0x7DE_0000, MEMORY_AVAILABLE)
  const FAR_MEMORY: MmapEntry := MmapEntry(0x1_0000_0000, 0x4000_0000, MEMORY_AVAILABLE)

  const USUAL: seq<MmapEntry> := [LOW_MEMORY, FIRMWARE, HIGH_MEMORY, FAR_MEMORY]

  /** Exactly the whole frames of the two parts below 4 GiB that are available are freed. */
  lemma UsualMapFreesBoth()
    ensures var info := MapOf(USUAL);
            WellFormed(info) && AllEntries(info, 8) == USUAL
            && forall f: nat :: f in ClearedByAll(AllEntries(info, 8)) <==> f < 0x9F || 0x100 <= f < 0x7EE0
  {
    MapHolds(USUAL);
    hide MapOf, WellFormed, AllEntries, ClearedByEntry;
    ClearedByFirst(LOW_MEMORY, [FIRMWARE, HIGH_MEMORY, FAR_MEMORY]);
    ClearedByFirst(FIRMWARE, [HIGH_MEMORY, FAR_MEMORY]);
    ClearedByFirst(HIGH_MEMORY, [FAR_MEMORY]);
    OneCleared(FAR_MEMORY);
    OnlyAvailable(FIRMWARE);
    OnlyAvailable(FAR_MEMORY);
    assert USUAL == [LOW_MEMORY] + [FIRMWARE, HIGH_MEMORY, FAR_MEMORY];
    assert [FIRMWARE, HIGH_MEMORY, FAR_MEMORY] == [FIRMWARE] + [HIGH_MEMORY, FAR_MEMORY];
    assert [HIGH_MEMORY, FAR_MEMORY] == [HIGH_MEMORY] + [FAR_MEMORY];
    hide ClearedByAll;
    FreesBelow(LOW_MEMORY);
    FreesAbove(HIGH_MEMORY);
  }

  lemma FreesBelow(e: MmapEntry)
    requires e == LOW_MEMORY
    ensures forall f: nat :: f in ClearedByEntry(e) <==> f < 0x9F
  {
  }

  lemma FreesAbove(e: MmapEntry)
    requires e == HIGH_MEMORY
    ensures forall f: nat :: f in ClearedByEntry(e) <==> 0x100 <= f < 0x7EE0
  {
  }
}
