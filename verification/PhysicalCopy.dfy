/** Copying through the one-page temporary window, seen as a copy on flat memory. */
module PhysicalCopy {
  import opened Words
  import opened PageTables

  /** Store one byte at a physical address. */
  function Poke(ram: Ram, a: uint32, b: uint8): Ram {
    ram[a / PAGE_SIZE := ram[a / PAGE_SIZE][a % PAGE_SIZE := b]]
  }

  /** Outside frame skip, after is before with data stored from address pa on. */
  ghost predicate Written(before: Ram, after: Ram, skip: nat, pa: nat, data: seq<uint8>) {
    forall a: uint32 :: a / PAGE_SIZE != skip ==>
      ByteAt(after, a) == if pa <= a < pa + |data| then data[a - pa] else ByteAt(before, a)
  }

  /** Apart from entry 0 the table in frame f is the same. */
  ghost predicate OnlyFirstEntry(before: Ram, after: Ram, f: nat)
    requires f < ALL_FRAMES
  {
    forall i: nat :: 0 < i < ENTRIES ==> Entry(after, f, i) == Entry(before, f, i)
  }

  lemma WindowMoves(before: Ram, mid: Ram, after: Ram, window: nat, pa: nat, data: seq<uint8>, w: uint32)
    requires window < ALL_FRAMES && Written(before, mid, window, pa, data) && OnlyFirstEntry(before, mid, window)
    requires after == SetEntry(mid, window, 0, w)
    ensures Written(before, after, window, pa, data) && OnlyFirstEntry(before, after, window)
    ensures Entry(after, window, 0) == w
  {
    forall a: uint32 | a / PAGE_SIZE != window
      ensures ByteAt(after, a) == ByteAt(mid, a)
    {
    }
  }

  lemma PokeExtends(before: Ram, mid: Ram, after: Ram, window: nat, pa: nat, data: seq<uint8>, n: nat)
    requires window < ALL_FRAMES && n < |data| && pa + n < TWO_32 && (pa + n) / PAGE_SIZE != window
    requires Written(before, mid, window, pa, data[..n])
    requires after == Poke(mid, pa + n, data[n])
    ensures Written(before, after, window, pa, data[..n + 1])
    ensures after[window] == mid[window]
  {
    var p := pa + n;
    forall a: uint32 | a / PAGE_SIZE != window
      ensures ByteAt(after, a) == if pa <= a < pa + n + 1 then data[..n + 1][a - pa] else ByteAt(before, a)
    {
      PokeAt(mid, p, data[n], a);
    }
  }

  lemma PokeAt(ram: Ram, p: uint32, b: uint8, a: uint32)
    ensures ByteAt(Poke(ram, p, b), a) == if a == p then b else ByteAt(ram, a)
  {
  }

  /** A frame that the copied range does not reach keeps its contents. */
  lemma FrameUntouched(before: Ram, after: Ram, window: nat, pa: nat, data: seq<uint8>, f: nat)
    requires Written(before, after, window, pa, data) && f < ALL_FRAMES && f != window
    requires (f + 1) * PAGE_SIZE <= pa || pa + |data| <= f * PAGE_SIZE
    ensures after[f] == before[f]
  {
    forall k: nat | k < PAGE_SIZE
      ensures after[f][k] == before[f][k]
    {
      var a: uint32 := f * PAGE_SIZE + k;
      assert a / PAGE_SIZE == f && a % PAGE_SIZE == k;
      assert ByteAt(after, a) == ByteAt(before, a);
    }
  }
}
