/** The boot information structure as section 3.6 of the Multiboot2 specification lays it out: where its tags and the
    entries of its memory maps lie, and structures that are written by concatenation (src/kernel/multiboot.h). */
module BootFormat {
  import opened Words
  import opened Multiboot

  // ---- Where the tags are ----

  /** The tag at b is the one behind the tag at a, which is not the last: tags begin at multiples of 8. */
  predicate Follows(info: seq<uint8>, a: nat, b: nat) {
    && a + TAG_HEADER <= |info| && U32(info, a) != TAG_END
    && b % 8 == 0 && a + U32(info, a + 4) <= b < a + U32(info, a + 4) + 8
  }

  /** From the tag at the first offset one comes to the tag at the last one, each time to the one behind. */
  predicate Chain(info: seq<uint8>, offs: seq<nat>) {
    |info| >= 8 && offs != [] && (forall k: nat :: k < |offs| ==> offs[k] < TotalSize(info))
    && forall k: nat :: k + 1 < |offs| ==> Follows(info, offs[k], offs[k + 1])
  }

  /** The tag at b is reached from the tag at a. */
  ghost predicate Reaches(info: seq<uint8>, a: nat, b: nat) {
    exists offs: seq<nat> :: Chain(info, offs) && offs[0] == a && offs[|offs| - 1] == b
  }

  /** There is a tag of the structure at off: the first one, or one that is reached from it. */
  ghost predicate IsTag(info: seq<uint8>, off: nat) {
    Reaches(info, 8, off)
  }

  /** Entry k of the memory map at off, which begins behind 16 bytes of the tag and before its end. */
  predicate EntryOfTag(info: seq<uint8>, off: nat, k: nat, e: MmapEntry) {
    && off + MMAP_HEADER <= |info| && U32(info, off) == TAG_MMAP
    && InWalk(info, off + MMAP_HEADER, off + U32(info, off + 4), U32(info, off + 8), k, e)
  }

  /** Entry k of those that begin at off and come before stop. */
  predicate InWalk(info: seq<uint8>, off: nat, stop: nat, step: nat, k: nat, e: MmapEntry) {
    var at := Place(off, k, step);
    at < stop && at + MMAP_ENTRY <= |info| && e == EntryAt(info, at)
  }

  function Place(off: nat, k: nat, step: nat): nat {
    off + k * step
  }

  /** The structure has this entry in one of its memory maps. */
  ghost predicate IsEntry(info: seq<uint8>, e: MmapEntry) {
    exists off: nat, k: nat :: IsTag(info, off) && EntryOfTag(info, off, k, e)
  }

  lemma ReachesItself(info: seq<uint8>, a: nat)
    requires |info| >= 8 && a < TotalSize(info)
    ensures Reaches(info, a, a)
  {
    assert Chain(info, [a]);
  }

  lemma ReachesFurther(info: seq<uint8>, a: nat, b: nat, c: nat)
    requires |info| >= 8 && a < TotalSize(info) && Follows(info, a, b) && Reaches(info, b, c)
    ensures Reaches(info, a, c)
  {
    var offs: seq<nat> :| Chain(info, offs) && offs[0] == b && offs[|offs| - 1] == c;
    var all := [a] + offs;
    forall k: nat | k + 1 < |all|
      ensures Follows(info, all[k], all[k + 1])
    {
      if k > 0 {
        assert Follows(info, offs[k - 1], offs[k]);
      }
    }
    assert Chain(info, all);
  }

  /** What is reached from a is the tag at a, or is reached from the one behind it. */
  lemma ReachedFrom(info: seq<uint8>, a: nat, c: nat) returns (b: nat)
    requires Reaches(info, a, c) && a != c
    ensures Follows(info, a, b) && b < TotalSize(info) && Reaches(info, b, c)
  {
    var offs: seq<nat> :| Chain(info, offs) && offs[0] == a && offs[|offs| - 1] == c;
    b := offs[1];
    var rest := offs[1..];
    forall k: nat | k + 1 < |rest|
      ensures Follows(info, rest[k], rest[k + 1])
    {
      assert Follows(info, offs[k + 1], offs[k + 2]);
    }
    assert Chain(info, rest);
  }

  lemma OneBehind(info: seq<uint8>, a: nat, b: nat)
    requires Follows(info, a, b) && a % 8 == 0
    ensures b == a + Align8(U32(info, a + 4))
  {
  }

  lemma BehindFollows(info: seq<uint8>, a: nat)
    requires a + TAG_HEADER <= |info| && U32(info, a) != TAG_END && a % 8 == 0
    ensures Follows(info, a, a + Align8(U32(info, a + 4)))
  {
  }

  lemma PlaceNext(off: nat, k: nat, step: nat)
    ensures Place(off, 0, step) == off && Place(off, k + 1, step) == Place(off + step, k, step)
    ensures off <= Place(off, k, step)
  {
    assert (k + 1) * step == k * step + step;
  }

  /** The walk over one memory map finds its entries ... */
  lemma {:induction false} WalkFinds(info: seq<uint8>, off: nat, stop: nat, step: nat, k: nat, e: MmapEntry)
    requires EntriesFit(info, off, stop, step) && InWalk(info, off, stop, step, k, e)
    ensures e in TagEntries(info, off, stop, step)
    decreases k
  {
    hide Place, EntryAt;
    PlaceNext(off, k, step);
    if k > 0 {
      PlaceNext(off, k - 1, step);
      PlaceNext(off + step, k - 1, step);
      WalkFinds(info, off + step, stop, step, k - 1, e);
    }
  }

  /** ... and nothing else. */
  lemma {:induction false} FoundInWalk(info: seq<uint8>, off: nat, stop: nat, step: nat, e: MmapEntry) returns (k: nat)
    requires EntriesFit(info, off, stop, step) && e in TagEntries(info, off, stop, step)
    ensures InWalk(info, off, stop, step, k, e)
    decreases |info| - off
  {
    hide Place, EntryAt;
    PlaceNext(off, 0, step);
    if e == EntryAt(info, off) {
      k := 0;
    } else {
      var j := FoundInWalk(info, off + step, stop, step, e);
      PlaceNext(off, j, step);
      k := j + 1;
    }
  }

  /** Both for all memory maps from the tag at off on. */
  lemma {:induction false} TagsFind(info: seq<uint8>, off: nat, at: nat, k: nat, e: MmapEntry)
    requires |info| >= 8 && TagsOk(info, off) && off % 8 == 0 && Reaches(info, off, at) && EntryOfTag(info, at, k, e)
    ensures e in AllEntries(info, off)
    decreases |info| - off
  {
    hide EntryAt, InWalk, U32, EntriesFit;
    StartsInside(info, off, at);
    if off == at {
      WalkFinds(info, off + MMAP_HEADER, off + U32(info, off + 4), U32(info, off + 8), k, e);
    } else {
      var next := ReachedFrom(info, off, at);
      OneBehind(info, off, next);
      hide Reaches;
      TagsFind(info, next, at, k, e);
    }
  }

  lemma StartsInside(info: seq<uint8>, a: nat, c: nat)
    requires Reaches(info, a, c)
    ensures |info| >= 8 && a < TotalSize(info)
  {
  }

  lemma {:induction false} FoundInTags(info: seq<uint8>, off: nat, e: MmapEntry) returns (at: nat, k: nat)
    requires |info| >= 8 && TagsOk(info, off) && off % 8 == 0 && e in AllEntries(info, off)
    ensures Reaches(info, off, at) && EntryOfTag(info, at, k, e)
    decreases |info| - off
  {
    hide EntryAt, InWalk, U32, EntriesFit, Reaches;
    ReachesItself(info, off);
    if e in EntriesOfTag(info, off) {
      at := off;
      k := FoundInWalk(info, off + MMAP_HEADER, off + U32(info, off + 4), U32(info, off + 8), e);
    } else {
      var next := off + Align8(U32(info, off + 4));
      assert AllEntries(info, off) == EntriesOfTag(info, off) + AllEntries(info, next);
      assert e in AllEntries(info, next);
      hide AllEntries, EntriesOfTag;
      BehindFollows(info, off);
      at, k := FoundInTags(info, next, e);
      ReachesFurther(info, off, next, at);
    }
  }

  /** The list of entries holds exactly the entries of the structure. */
  lemma EntriesAre(info: seq<uint8>, e: MmapEntry)
    requires WellFormed(info)
    ensures e in AllEntries(info, 8) <==> IsEntry(info, e)
  {
    hide EntryAt, EntryOfTag, Reaches, AllEntries, TagsOk;
    if e in AllEntries(info, 8) {
      var off, k := FoundInTags(info, 8, e);
      assert IsTag(info, off) && EntryOfTag(info, off, k, e);
    } else if IsEntry(info, e) {
      var off: nat, k: nat :| IsTag(info, off) && EntryOfTag(info, off, k, e);
      TagsFind(info, 8, off, k, e);
    }
  }

  // ---- Structures that are written ----

  /** A memory-map entry: base, length, type and a reserved word. */
  function EntryBytes(e: MmapEntry, reserved: uint32): (b: seq<uint8>)
    ensures |b| == MMAP_ENTRY
  {
    Bytes(8, e.base) + (Bytes(8, e.length) + (Bytes(4, e.kind) + (Bytes(4, reserved) + [])))
  }

  /** Reading an entry gives what was written, and only that. */
  lemma EntryRead(info: seq<uint8>, off: nat, e: MmapEntry)
    requires off + MMAP_ENTRY <= |info| && e.base < TWO_64 && e.length < TWO_64
    ensures EntryAt(info, off) == e <==>
            exists reserved: uint32 :: info[off..off + MMAP_ENTRY] == EntryBytes(e, reserved)
  {
    hide Bytes, U32, FromBytes;
    if reserved: uint32 :| info[off..off + MMAP_ENTRY] == EntryBytes(e, reserved) {
      EntryWritten(info, off, e, reserved);
    }
    EntryWritten(info, off, e, U32(info, off + 20));
  }

  lemma EntryWritten(info: seq<uint8>, off: nat, e: MmapEntry, reserved: uint32)
    requires off + MMAP_ENTRY <= |info| && e.base < TWO_64 && e.length < TWO_64
    ensures info[off..off + MMAP_ENTRY] == EntryBytes(e, reserved) <==>
            EntryAt(info, off) == e && U32(info, off + 20) == reserved
  {
    assert Pow256(8) == TWO_64;
    hide Bytes, U32, FromBytes, Pow256;
    ReadsWord(info, off + 20, reserved, []);
    ReadsWord(info, off + 16, e.kind, Bytes(4, reserved) + []);
    ReadsField(info, off + 8, 8, e.length, Bytes(4, e.kind) + (Bytes(4, reserved) + []));
    ReadsField(info, off, 8, e.base, Bytes(8, e.length) + (Bytes(4, e.kind) + (Bytes(4, reserved) + [])));
  }

  /** A tag: a memory map, or another one but the last, with its contents. */
  datatype Tag = MemoryMap(version: uint32, entries: seq<MmapEntry>) | Other(kind: uint32, contents: seq<uint8>)

  predicate IsWritable(t: Tag) {
    match t
    case MemoryMap(_, es) =>
      && MMAP_HEADER + |es| * MMAP_ENTRY < TWO_32
      && forall k: nat :: k < |es| ==> es[k].base < TWO_64 && es[k].length < TWO_64
    case Other(kind, contents) => kind != TAG_END && kind != TAG_MMAP && TAG_HEADER + |contents| < TWO_32
  }

  function EntriesBytes(es: seq<MmapEntry>): (b: seq<uint8>)
    ensures |b| == |es| * MMAP_ENTRY
  {
    if es == [] then [] else EntryBytes(es[0], 0) + EntriesBytes(es[1..])
  }

  function TagKind(t: Tag): uint32 {
    if t.MemoryMap? then TAG_MMAP else t.kind
  }

  /** What follows type and size. */
  function TagBody(t: Tag): seq<uint8> {
    match t
    case MemoryMap(version, es) => Bytes(4, MMAP_ENTRY) + (Bytes(4, version) + EntriesBytes(es))
    case Other(_, contents) => contents
  }

  /** The zeros up to the next multiple of 8. */
  function Padding(size: nat): (z: seq<uint8>)
    ensures |z| < 8 && (size + |z|) % 8 == 0
  {
    seq((8 - size % 8) % 8, i => 0)
  }

  /** A tag: type, size, contents, and the zeros that do not count. */
  function TagBytes(t: Tag): (b: seq<uint8>)
    ensures |b| == TAG_HEADER + |TagBody(t)| + |Padding(TAG_HEADER + |TagBody(t)|)|
  {
    var size := TAG_HEADER + |TagBody(t)|;
    Bytes(4, TagKind(t)) + (Bytes(4, size) + (TagBody(t) + Padding(size)))
  }

  /** The tags one after the other, and the end tag. */
  function TagsBytes(ts: seq<Tag>): (b: seq<uint8>)
    ensures |b| >= 8
  {
    if ts == [] then Bytes(4, TAG_END) + (Bytes(4, TAG_HEADER) + []) else TagBytes(ts[0]) + TagsBytes(ts[1..])
  }

  /** The whole structure: its size, a reserved word, the tags. */
  function Structure(ts: seq<Tag>): (info: seq<uint8>) {
    Bytes(4, 8 + |TagsBytes(ts)|) + (Bytes(4, 0) + TagsBytes(ts))
  }

  /** All entries that the tags have, in order. */
  function EntriesOf(ts: seq<Tag>): seq<MmapEntry> {
    if ts == [] then [] else (if ts[0].MemoryMap? then ts[0].entries else []) + EntriesOf(ts[1..])
  }

  lemma {:induction false} EntriesRead(info: seq<uint8>, off: nat, es: seq<MmapEntry>)
    requires Holds(info, off, EntriesBytes(es))
    requires forall k: nat :: k < |es| ==> es[k].base < TWO_64 && es[k].length < TWO_64
    ensures EntriesFit(info, off, off + |es| * MMAP_ENTRY, MMAP_ENTRY)
    ensures TagEntries(info, off, off + |es| * MMAP_ENTRY, MMAP_ENTRY) == es
    decreases |es|
  {
    hide *;
    if es == [] {
      NoEntries(info, off, off + |es| * MMAP_ENTRY);
    } else {
      NextEntry(info, off, es);
      EntriesRead(info, off + MMAP_ENTRY, es[1..]);
      FirstEntry(info, off, es);
    }
  }

  lemma NoEntries(info: seq<uint8>, off: nat, stop: nat)
    requires stop <= off
    ensures EntriesFit(info, off, stop, MMAP_ENTRY) && TagEntries(info, off, stop, MMAP_ENTRY) == []
  {
  }

  lemma NextEntry(info: seq<uint8>, off: nat, es: seq<MmapEntry>)
    requires es != [] && Holds(info, off, EntriesBytes(es)) && es[0].base < TWO_64 && es[0].length < TWO_64
    ensures off + MMAP_ENTRY <= off + |es| * MMAP_ENTRY <= |info| && EntryAt(info, off) == es[0]
    ensures Holds(info, off + MMAP_ENTRY, EntriesBytes(es[1..]))
  {
    hide EntryBytes, EntryAt, Holds;
    HoldsParts(info, off, EntryBytes(es[0], 0), EntriesBytes(es[1..]));
    EntryHeld(info, off, es[0]);
    HoldsFits(info, off, EntriesBytes(es));
  }

  lemma FirstEntry(info: seq<uint8>, off: nat, es: seq<MmapEntry>)
    requires es != [] && off + MMAP_ENTRY <= off + |es| * MMAP_ENTRY <= |info| && EntryAt(info, off) == es[0]
    requires var next, stop := off + MMAP_ENTRY, off + MMAP_ENTRY + |es[1..]| * MMAP_ENTRY;
             EntriesFit(info, next, stop, MMAP_ENTRY) && TagEntries(info, next, stop, MMAP_ENTRY) == es[1..]
    ensures EntriesFit(info, off, off + |es| * MMAP_ENTRY, MMAP_ENTRY)
    ensures TagEntries(info, off, off + |es| * MMAP_ENTRY, MMAP_ENTRY) == es
  {
    hide EntryAt;
    assert off + |es| * MMAP_ENTRY == off + MMAP_ENTRY + |es[1..]| * MMAP_ENTRY;
  }

  lemma EntryHeld(info: seq<uint8>, off: nat, e: MmapEntry)
    requires Holds(info, off, EntryBytes(e, 0)) && e.base < TWO_64 && e.length < TWO_64
    ensures off + MMAP_ENTRY <= |info| && EntryAt(info, off) == e
  {
    hide EntryBytes, EntryAt;
    var reserved: uint32 := 0;
    assert info[off..off + MMAP_ENTRY] == EntryBytes(e, reserved);
    EntryRead(info, off, e);
  }

  /** The bytes from off on are those of the tags. */
  ghost predicate Holds(info: seq<uint8>, off: nat, b: seq<uint8>) {
    off + |b| <= |info| && info[off..off + |b|] == b
  }

  lemma HoldsParts(info: seq<uint8>, off: nat, a: seq<uint8>, b: seq<uint8>)
    ensures Holds(info, off, a + b) <==> Holds(info, off, a) && Holds(info, off + |a|, b)
  {
    if off + |a| + |b| <= |info| {
      Joined(info, off, a, b);
    }
  }

  lemma HoldsWord(info: seq<uint8>, off: nat, v: uint32, b: seq<uint8>)
    requires Holds(info, off, Bytes(4, v) + b)
    ensures off + 4 <= |info| && U32(info, off) == v && Holds(info, off + 4, b)
  {
    hide Bytes, U32;
    ReadsWord(info, off, v, b);
  }

  /** The first of the tags, and where the others begin. */
  lemma TagRead(info: seq<uint8>, off: nat, ts: seq<Tag>)
    requires ts != [] && IsWritable(ts[0]) && Holds(info, off, TagsBytes(ts))
    ensures var size := TAG_HEADER + |TagBody(ts[0])|;
            && off + size <= |info| && U32(info, off) == TagKind(ts[0]) != TAG_END && U32(info, off + 4) == size
            && Holds(info, off + 8, TagBody(ts[0]))
            && Holds(info, off + Align8(size), TagsBytes(ts[1..]))
            && |TagsBytes(ts)| == Align8(size) + |TagsBytes(ts[1..])|
  {
    var t, body, later := ts[0], TagBody(ts[0]), TagsBytes(ts[1..]);
    var size := TAG_HEADER + |body|;
    var rest := body + Padding(size);
    TagParts(ts);
    hide *;
    HoldsParts(info, off, TagBytes(t), later);
    HoldsWord(info, off, TagKind(t), Bytes(4, size) + rest);
    HoldsWord(info, off + 4, size, rest);
    HoldsParts(info, off + 8, body, Padding(size));
    HoldsFits(info, off + 8, body);
  }

  lemma TagParts(ts: seq<Tag>)
    requires ts != [] && IsWritable(ts[0])
    ensures var t, body := ts[0], TagBody(ts[0]);
            var size := TAG_HEADER + |body|;
            && TagsBytes(ts) == TagBytes(t) + TagsBytes(ts[1..]) && size < TWO_32 && TagKind(t) != TAG_END
            && TagBytes(t) == Bytes(4, TagKind(t)) + (Bytes(4, size) + (body + Padding(size)))
            && |TagBytes(t)| == Align8(size) && TAG_HEADER == 8
  {
    hide Bytes, EntriesBytes;
    PaddingAligns(TAG_HEADER + |TagBody(ts[0])|);
  }

  lemma HoldsFits(info: seq<uint8>, off: nat, b: seq<uint8>)
    requires Holds(info, off, b)
    ensures off + |b| <= |info|
  {
  }

  lemma PaddingAligns(size: nat)
    ensures size + |Padding(size)| == Align8(size)
  {
  }

  /** A memory map holds the entries that were written. */
  lemma MapRead(info: seq<uint8>, off: nat, t: Tag)
    requires IsWritable(t) && Holds(info, off + 8, TagBody(t)) && off + 8 <= |info|
    requires U32(info, off) == TagKind(t) && U32(info, off + 4) == TAG_HEADER + |TagBody(t)|
    ensures TagOk(info, off) && EntriesOfTag(info, off) == if t.MemoryMap? then t.entries else []
  {
    hide Bytes, U32, EntriesBytes, Holds, EntriesFit, TagEntries;
    HoldsFits(info, off + 8, TagBody(t));
    if t.MemoryMap? {
      assert TagBody(t) == Bytes(4, MMAP_ENTRY) + (Bytes(4, t.version) + EntriesBytes(t.entries));
      HoldsWord(info, off + 8, MMAP_ENTRY, Bytes(4, t.version) + EntriesBytes(t.entries));
      HoldsWord(info, off + 12, t.version, EntriesBytes(t.entries));
      EntriesRead(info, off + 16, t.entries);
    }
  }

  lemma {:induction false} TagsRead(info: seq<uint8>, off: nat, ts: seq<Tag>)
    requires |info| >= 8 && Holds(info, off, TagsBytes(ts))
    requires TotalSize(info) == off + |TagsBytes(ts)| && forall k: nat :: k < |ts| ==> IsWritable(ts[k])
    ensures TagsOk(info, off) && AllEntries(info, off) == EntriesOf(ts)
    decreases |ts|
  {
    hide *;
    if ts == [] {
      EndRead(info, off, ts);
    } else {
      var next := NextTag(info, off, ts);
      TagsRead(info, next, ts[1..]);
      FirstRead(info, off, next, ts);
    }
  }

  lemma NextTag(info: seq<uint8>, off: nat, ts: seq<Tag>) returns (next: nat)
    requires |info| >= 8 && Holds(info, off, TagsBytes(ts)) && ts != [] && IsWritable(ts[0])
    requires TotalSize(info) == off + |TagsBytes(ts)|
    ensures Holds(info, next, TagsBytes(ts[1..])) && TotalSize(info) == next + |TagsBytes(ts[1..])|
    ensures off + TAG_HEADER <= |info| && next == off + Align8(U32(info, off + 4)) && off < TotalSize(info)
    ensures U32(info, off) != TAG_END && TagOk(info, off)
            && EntriesOfTag(info, off) == if ts[0].MemoryMap? then ts[0].entries else []
  {
    assert TAG_HEADER == 8;
    hide *;
    TagRead(info, off, ts);
    MapRead(info, off, ts[0]);
    HeaderAligned(U32(info, off + 4));
    next := off + Align8(U32(info, off + 4));
  }

  lemma FirstRead(info: seq<uint8>, off: nat, next: nat, ts: seq<Tag>)
    requires |info| >= 8 && ts != [] && off < TotalSize(info) && TagOk(info, off) && U32(info, off) != TAG_END
    requires next == off + Align8(U32(info, off + 4)) && TagsOk(info, next)
    requires EntriesOfTag(info, off) == if ts[0].MemoryMap? then ts[0].entries else []
    requires AllEntries(info, next) == EntriesOf(ts[1..])
    ensures TagsOk(info, off) && AllEntries(info, off) == EntriesOf(ts)
  {
    hide TagOk, EntriesOfTag, U32, TotalSize, Align8;
  }

  lemma HeaderAligned(size: nat)
    ensures size <= Align8(size)
  {
  }

  lemma EndRead(info: seq<uint8>, off: nat, ts: seq<Tag>)
    requires |info| >= 8 && ts == [] && Holds(info, off, TagsBytes(ts)) && TotalSize(info) == off + |TagsBytes(ts)|
    ensures TagsOk(info, off) && AllEntries(info, off) == EntriesOf(ts)
  {
    hide Bytes, U32, TotalSize;
    HoldsWord(info, off, TAG_END, Bytes(4, TAG_HEADER) + []);
    HoldsWord(info, off + 4, TAG_HEADER, []);
  }

  /** The entries of every list of tags come back from the structure that is written for it. */
  lemma StructureRead(ts: seq<Tag>)
    requires |Structure(ts)| < TWO_32 && forall k: nat :: k < |ts| ==> IsWritable(ts[k])
    ensures WellFormed(Structure(ts)) && AllEntries(Structure(ts), 8) == EntriesOf(ts)
    ensures TotalSize(Structure(ts)) == |Structure(ts)|
  {
    var info := Structure(ts);
    assert Holds(info, 0, info);
    hide Bytes, U32, IsWritable;
    HoldsWord(info, 0, 8 + |TagsBytes(ts)|, Bytes(4, 0) + TagsBytes(ts));
    HoldsWord(info, 4, 0, TagsBytes(ts));
    hide TagsBytes;
    TagsRead(info, 8, ts);
  }
}
