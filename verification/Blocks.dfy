/** The heap as a sequence of adjacent blocks: what the block list of src/kernel/heap.c means. */
module Blocks {

  const HEAP_START: int := 0x0100_0000
  const HEAP_SIZE: int := 4 * 1024 * 1024
  const HEAP_ALIGNMENT: int := 8
  const HEAP_MIN_SPLIT: int := 16

  /** sizeof(heap_block_t) on i386 */
  const HEADER: int := 12

  datatype Block = Block(size: nat, free: bool)

  /** The bytes that the blocks and their headers fill. */
  function Extent(bs: seq<Block>): nat {
    if bs == [] then 0 else HEADER + bs[0].size + Extent(bs[1..])
  }

  /** The sum of the sizes of the allocated blocks. */
  function UsedSum(bs: seq<Block>): nat {
    if bs == [] then 0 else (if bs[0].free then 0 else bs[0].size) + UsedSum(bs[1..])
  }

  /** The address of block k; for k == |bs| the end of the heap. */
  function At(bs: seq<Block>, k: nat): nat
    requires k <= |bs|
  {
    HEAP_START + Extent(bs[..k])
  }

  /** The payload address and size of every allocated block of a list that starts at address a. */
  function Live(bs: seq<Block>, a: nat): map<nat, nat> {
    if bs == [] then map[] else
      var tail := Live(bs[1..], a + HEADER + bs[0].size);
      if bs[0].free then tail else tail[a + HEADER := bs[0].size]
  }

  predicate Fits(b: Block, size: nat) {
    b.free && b.size >= size
  }

  /** Canonical form: no two adjacent blocks are free. */
  predicate Canonical(bs: seq<Block>) {
    forall k :: 0 <= k < |bs| - 1 ==> !(bs[k].free && bs[k + 1].free)
  }

  /** A multiple of 4, as the size of a header is. */
  predicate WholeWords(n: nat) {
    n % 4 == 0
  }

  predicate Aligned(bs: seq<Block>) {
    forall k :: 0 <= k < |bs| ==> WholeWords(bs[k].size)
  }

  function Merged(a: Block, b: Block): Block {
    Block(a.size + HEADER + b.size, a.free)
  }

  /** Replaces block k by the two blocks b and c. */
  function Refine(bs: seq<Block>, k: nat, b: Block, c: Block): seq<Block>
    requires k < |bs|
  {
    bs[..k] + [b, c] + bs[k + 1..]
  }

  /** `split_block` */
  function Split(bs: seq<Block>, k: nat, size: nat): seq<Block>
    requires k < |bs|
  {
    if bs[k].size < size || bs[k].size - size < HEADER + HEAP_MIN_SPLIT then bs
    else Refine(bs, k, Block(size, bs[k].free), Block(bs[k].size - size - HEADER, true))
  }

  function SetFree(bs: seq<Block>, k: nat, free: bool): seq<Block>
    requires k < |bs|
  {
    bs[k := Block(bs[k].size, free)]
  }

  /** `coalesce_free_blocks` */
  function Coalesce(bs: seq<Block>): seq<Block>
    decreases |bs|
  {
    if |bs| <= 1 then bs
    else if bs[0].free && bs[1].free then Coalesce([Merged(bs[0], bs[1])] + bs[2..])
    else [bs[0]] + Coalesce(bs[1..])
  }

  /** kmalloc served from block k of the list. */
  function Reuse(bs: seq<Block>, k: nat, size: nat): seq<Block>
    requires k < |bs|
  {
    var split := Split(bs, k, size);
    assert k < |split|;
    SetFree(split, k, false)
  }

  function Append(bs: seq<Block>, size: nat): seq<Block> {
    bs + [Block(size, false)]
  }

  function Release(bs: seq<Block>, k: nat): seq<Block>
    requires k < |bs|
  {
    Coalesce(SetFree(bs, k, true))
  }

  lemma {:induction false} ExtentConcat(a: seq<Block>, b: seq<Block>)
    ensures Extent(a + b) == Extent(a) + Extent(b)
  {
    if a == [] {
      assert a + b == b;
    } else {
      assert (a + b)[1..] == a[1..] + b;
      ExtentConcat(a[1..], b);
    }
  }

  lemma {:induction false} UsedConcat(a: seq<Block>, b: seq<Block>)
    ensures UsedSum(a + b) == UsedSum(a) + UsedSum(b)
  {
    if a == [] {
      assert a + b == b;
    } else {
      assert (a + b)[1..] == a[1..] + b;
      UsedConcat(a[1..], b);
    }
  }

  lemma {:induction false} LiveAbove(bs: seq<Block>, a: nat)
    ensures forall p :: p in Live(bs, a) ==> a + HEADER <= p && p + Live(bs, a)[p] <= a + Extent(bs)
  {
    if bs == [] {
    } else {
      LiveAbove(bs[1..], a + HEADER + bs[0].size);
    }
  }

  lemma {:induction false} LiveConcat(b: seq<Block>, c: seq<Block>, a: nat)
    ensures Live(b + c, a) == Live(b, a) + Live(c, a + Extent(b))
  {
    if b == [] {
      assert b + c == c;
    } else {
      assert (b + c)[1..] == b[1..] + c && (b + c)[0] == b[0];
      LiveConcat(b[1..], c, a + HEADER + b[0].size);
      LiveAbove(c, a + Extent(b));
    }
  }

  /** No two allocations overlap: payloads and headers of different live blocks are apart. */
  lemma {:induction false} LiveDisjoint(bs: seq<Block>, a: nat, p: nat, q: nat)
    requires p in Live(bs, a) && q in Live(bs, a) && p < q
    ensures p + Live(bs, a)[p] + HEADER <= q
  {
    var next := a + HEADER + bs[0].size;
    LiveAbove(bs[1..], next);
    if p in Live(bs[1..], next) && (bs[0].free || p != a + HEADER) {
      LiveDisjoint(bs[1..], next, p, q);
    }
  }

  lemma AtStep(bs: seq<Block>, k: nat)
    requires k < |bs|
    ensures At(bs, k + 1) == At(bs, k) + HEADER + bs[k].size
  {
    assert bs[..k + 1] == bs[..k] + [bs[k]];
    ExtentConcat(bs[..k], [bs[k]]);
  }

  lemma {:induction false} AtOrder(bs: seq<Block>, j: nat, k: nat)
    requires j < k <= |bs|
    ensures At(bs, j) + HEADER + bs[j].size <= At(bs, k)
    decreases k
  {
    AtStep(bs, k - 1);
    if j < k - 1 {
      AtOrder(bs, j, k - 1);
    }
  }

  /** Splitting block k in two leaves every other block where it was. */
  lemma RefineAt(bs: seq<Block>, k: nat, b: Block, c: Block, j: nat)
    requires k < |bs| && b.size + HEADER + c.size == bs[k].size && j <= |bs| + 1
    ensures At(Refine(bs, k, b, c), j) ==
            if j <= k then At(bs, j) else if j == k + 1 then At(bs, k) + HEADER + b.size else At(bs, j - 1)
  {
    var cs := Refine(bs, k, b, c);
    if j <= k {
      assert cs[..j] == bs[..j];
    } else if j == k + 1 {
      assert cs[..j] == bs[..k] + [b];
      ExtentConcat(bs[..k], [b]);
    } else {
      assert cs[..j] == bs[..k] + ([b, c] + bs[k + 1..j - 1]);
      assert bs[..j - 1] == bs[..k] + ([bs[k]] + bs[k + 1..j - 1]);
      ExtentConcat(bs[..k], [b, c] + bs[k + 1..j - 1]);
      ExtentConcat(bs[..k], [bs[k]] + bs[k + 1..j - 1]);
      ExtentConcat([b, c], bs[k + 1..j - 1]);
      ExtentConcat([bs[k]], bs[k + 1..j - 1]);
      assert [b, c][1..] == [c];
    }
  }

  /** Only the sizes decide where blocks lie. */
  lemma {:induction false} SameSizesSameExtent(bs: seq<Block>, cs: seq<Block>)
    requires |bs| == |cs| && forall k :: 0 <= k < |bs| ==> bs[k].size == cs[k].size
    ensures Extent(bs) == Extent(cs)
  {
    if bs == [] {
    } else {
      SameSizesSameExtent(bs[1..], cs[1..]);
    }
  }

  lemma SetFreeAt(bs: seq<Block>, k: nat, free: bool, j: nat)
    requires k < |bs| && j <= |bs|
    ensures At(SetFree(bs, k, free), j) == At(bs, j)
  {
    SameSizesSameExtent(SetFree(bs, k, free)[..j], bs[..j]);
  }

  lemma EndAddress(bs: seq<Block>)
    ensures At(bs, |bs|) == HEAP_START + Extent(bs)
    ensures bs != [] ==> At(bs, |bs|) == At(bs, |bs| - 1) + HEADER + bs[|bs| - 1].size
  {
    assert bs[..|bs|] == bs;
    if bs != [] {
      AtStep(bs, |bs| - 1);
    }
  }

  lemma {:induction false} UsedInExtent(bs: seq<Block>)
    ensures UsedSum(bs) <= Extent(bs)
  {
    if bs == [] {
    } else {
      UsedInExtent(bs[1..]);
    }
  }

  /** An allocation ends before the end of the list. */
  lemma {:induction false} LiveInside(bs: seq<Block>, a: nat, p: nat)
    requires p in Live(bs, a)
    ensures a + HEADER <= p && p + Live(bs, a)[p] <= a + Extent(bs)
  {
    if bs[0].free || p != a + HEADER {
      LiveInside(bs[1..], a + HEADER + bs[0].size, p);
    }
  }

  lemma RefineExtent(bs: seq<Block>, k: nat, b: Block, c: Block)
    requires k < |bs| && b.size + HEADER + c.size == bs[k].size
    ensures Extent(Refine(bs, k, b, c)) == Extent(bs)
  {
    hide Extent;
    RefineAt(bs, k, b, c, |bs| + 1);
    EndAddress(bs);
    EndAddress(Refine(bs, k, b, c));
  }

  lemma SetFreeExtent(bs: seq<Block>, k: nat, free: bool)
    requires k < |bs|
    ensures Extent(SetFree(bs, k, free)) == Extent(bs)
  {
    SameSizesSameExtent(SetFree(bs, k, free), bs);
  }

  /** Every list splits at block k. */
  lemma Around(bs: seq<Block>, k: nat)
    requires k < |bs|
    ensures bs == bs[..k] + ([bs[k]] + bs[k + 1..])
  {
  }

  function LiveOne(b: Block, a: nat): map<nat, nat> {
    if b.free then map[] else map[a + HEADER := b.size]
  }

  lemma LiveFirst(b: Block, tail: seq<Block>, a: nat)
    ensures Live([b] + tail, a) == LiveOne(b, a) + Live(tail, a + HEADER + b.size)
  {
    assert ([b] + tail)[1..] == tail;
    LiveAbove(tail, a + HEADER + b.size);
  }

  lemma AtMeans(bs: seq<Block>, k: nat)
    requires k <= |bs|
    ensures At(bs, k) == HEAP_START + Extent(bs[..k])
  {
  }

  lemma LiveParts(front: seq<Block>, b: Block, back: seq<Block>, a: nat)
    ensures Live(front + ([b] + back), a) ==
            Live(front, a)
            + (LiveOne(b, a + Extent(front)) + Live(back, a + Extent(front) + HEADER + b.size))
  {
    LiveConcat(front, [b] + back, a);
    LiveFirst(b, back, a + Extent(front));
  }

  lemma LivePartsAt(bs: seq<Block>, front: seq<Block>, b: Block, back: seq<Block>, a: nat, c: nat)
    requires bs == front + ([b] + back) && c == a + Extent(front)
    ensures Live(bs, a) == Live(front, a) + (LiveOne(b, c) + Live(back, c + HEADER + b.size))
  {
    LiveParts(front, b, back, a);
  }

  lemma LiveAround(bs: seq<Block>, k: nat)
    requires k < |bs|
    ensures Live(bs, HEAP_START) ==
            Live(bs[..k], HEAP_START) + (LiveOne(bs[k], At(bs, k)) + Live(bs[k + 1..], At(bs, k) + HEADER + bs[k].size))
  {
    hide Live, LiveOne, Extent;
    Around(bs, k);
    LivePartsAt(bs, bs[..k], bs[k], bs[k + 1..], HEAP_START, At(bs, k));
  }

  lemma UsedAround(bs: seq<Block>, k: nat)
    requires k < |bs|
    ensures UsedSum(bs) == UsedSum(bs[..k]) + (if bs[k].free then 0 else bs[k].size) + UsedSum(bs[k + 1..])
  {
    Around(bs, k);
    UsedConcat(bs[..k], [bs[k]] + bs[k + 1..]);
    UsedConcat([bs[k]], bs[k + 1..]);
    assert [bs[k]][1..] == [];
  }

  /** The three parts of a live map do not meet. */
  lemma MapParts(front: map<nat, nat>, p: nat, size: nat, back: map<nat, nat>)
    requires p !in front && p !in back
    ensures front + (map[p := size] + back) == (front + (map[] + back))[p := size]
    ensures front + (map[] + back) == (front + (map[p := size] + back)) - {p}
    ensures p !in front + (map[] + back)
  {
  }

  lemma SetFreeUsed(bs: seq<Block>, k: nat, free: bool)
    requires k < |bs|
    ensures UsedSum(SetFree(bs, k, free)) + (if bs[k].free then 0 else bs[k].size) ==
            UsedSum(bs) + if free then 0 else bs[k].size
  {
    var cs := SetFree(bs, k, free);
    UsedAround(bs, k);
    UsedAround(cs, k);
    assert cs[..k] == bs[..k] && cs[k + 1..] == bs[k + 1..];
  }

  /** Marking a block changes the allocations by exactly that block. */
  lemma SetFreeLive(bs: seq<Block>, k: nat, free: bool)
    requires k < |bs| && bs[k].free != free
    ensures At(bs, k) + HEADER !in Live(if free then SetFree(bs, k, free) else bs, HEAP_START)
    ensures free ==> Live(bs, HEAP_START) == Live(SetFree(bs, k, free), HEAP_START)[At(bs, k) + HEADER := bs[k].size]
                     && Live(SetFree(bs, k, free), HEAP_START) == Live(bs, HEAP_START) - {At(bs, k) + HEADER}
    ensures !free ==> Live(SetFree(bs, k, free), HEAP_START) == Live(bs, HEAP_START)[At(bs, k) + HEADER := bs[k].size]
  {
    var a := At(bs, k);
    var front, back := Live(bs[..k], HEAP_START), Live(bs[k + 1..], a + HEADER + bs[k].size);
    LiveFreeOrNot(bs, k, free);
    LiveAround(bs, k);
    PayloadApart(bs, k);
    assert LiveOne(bs[k], a) == if free then map[a + HEADER := bs[k].size] else map[];
    MapParts(front, a + HEADER, bs[k].size, back);
    hide *;
  }

  lemma LiveFreeOrNot(bs: seq<Block>, k: nat, free: bool)
    requires k < |bs|
    ensures Live(SetFree(bs, k, free), HEAP_START) ==
            Live(bs[..k], HEAP_START) + ((if free then map[] else map[At(bs, k) + HEADER := bs[k].size])
                                         + Live(bs[k + 1..], At(bs, k) + HEADER + bs[k].size))
  {
    var cs := SetFree(bs, k, free);
    SetFreeAt(bs, k, free, k);
    hide At, Live, Extent;
    assert cs[..k] == bs[..k] && cs[k + 1..] == bs[k + 1..] && cs[k].size == bs[k].size;
    LiveAround(cs, k);
  }

  lemma PayloadApart(bs: seq<Block>, k: nat)
    requires k < |bs|
    ensures At(bs, k) + HEADER !in Live(bs[..k], HEAP_START)
    ensures At(bs, k) + HEADER !in Live(bs[k + 1..], At(bs, k) + HEADER + bs[k].size)
  {
    AtMeans(bs, k);
    hide At, Live, Extent;
    LiveAbove(bs[..k], HEAP_START);
    LiveAbove(bs[k + 1..], At(bs, k) + HEADER + bs[k].size);
  }

  /** A free block is no allocation. */
  lemma FreeNotLive(bs: seq<Block>, k: nat)
    requires k < |bs| && bs[k].free
    ensures At(bs, k) + HEADER !in Live(bs, HEAP_START)
  {
    SetFreeLive(bs, k, false);
  }

  /** Merging two free blocks, or splitting one, changes no allocation. */
  lemma RefineLive(bs: seq<Block>, k: nat, b: Block, c: Block)
    requires k < |bs| && b.size + HEADER + c.size == bs[k].size && bs[k].free && b.free && c.free
    ensures Live(Refine(bs, k, b, c), HEAP_START) == Live(bs, HEAP_START)
    ensures UsedSum(Refine(bs, k, b, c)) == UsedSum(bs)
  {
    hide At, Live, Extent;
    var cs := Refine(bs, k, b, c);
    RefineAt(bs, k, b, c, k);
    assert cs[..k] == bs[..k] && cs[k + 1..] == [c] + bs[k + 1..];
    LiveAround(bs, k);
    LiveAround(cs, k);
    LiveFirst(c, bs[k + 1..], At(bs, k) + HEADER + b.size);
    UsedAround(bs, k);
    UsedAround(cs, k);
    UsedConcat([c], bs[k + 1..]);
    assert [c][1..] == [];
  }

  /** The index of the first free block of at least the given size, or |bs|: `find_free_block`. */
  function FindFirst(bs: seq<Block>, size: nat): (k: nat)
    ensures k <= |bs| && (k < |bs| ==> Fits(bs[k], size))
    ensures forall j :: 0 <= j < k ==> !Fits(bs[j], size)
  {
    if bs == [] then 0 else if Fits(bs[0], size) then 0 else
      var k := FindFirst(bs[1..], size);
      assert forall j :: 1 <= j < k + 1 ==> bs[j] == bs[1..][j - 1];
      1 + k
  }

  lemma FirstFitUnique(bs: seq<Block>, size: nat, k: nat)
    requires k <= |bs| && (k < |bs| ==> Fits(bs[k], size)) && forall j :: 0 <= j < k ==> !Fits(bs[j], size)
    ensures k == FindFirst(bs, size)
  {
  }

  /** Reusing a free block allocates exactly that block, at its old address, and moves nothing. */
  lemma ReuseAllocates(bs: seq<Block>, k: nat, size: nat)
    requires k < |bs| && Fits(bs[k], size) && Canonical(bs)
    ensures k < |Reuse(bs, k, size)| && !Reuse(bs, k, size)[k].free && Reuse(bs, k, size)[k].size >= size
    ensures At(bs, k) + HEADER !in Live(bs, HEAP_START)
    ensures Live(Reuse(bs, k, size), HEAP_START) ==
            Live(bs, HEAP_START)[At(bs, k) + HEADER := Reuse(bs, k, size)[k].size]
    ensures UsedSum(Reuse(bs, k, size)) == UsedSum(bs) + Reuse(bs, k, size)[k].size
    ensures Extent(Reuse(bs, k, size)) == Extent(bs) && Canonical(Reuse(bs, k, size))
    ensures forall j :: 0 <= j <= k ==> At(Reuse(bs, k, size), j) == At(bs, j)
  {
    var cs := Split(bs, k, size);
    if cs != bs {
      var b, c := Block(size, bs[k].free), Block(bs[k].size - size - HEADER, true);
      RefineLive(bs, k, b, c);
      RefineExtent(bs, k, b, c);
      forall j | 0 <= j <= k
        ensures At(cs, j) == At(bs, j)
      {
        RefineAt(bs, k, b, c, j);
      }
    }
    SetFreeLive(cs, k, false);
    SetFreeUsed(cs, k, false);
    SetFreeExtent(cs, k, false);
    forall j | 0 <= j <= k
      ensures At(SetFree(cs, k, false), j) == At(cs, j)
    {
      SetFreeAt(cs, k, false, j);
    }
  }

  lemma MapAppend(m: map<nat, nat>, p: nat, size: nat)
    ensures m + map[p := size] == m[p := size]
  {
  }

  lemma LiveBehind(bs: seq<Block>, last: Block, a: nat)
    ensures Live(bs + [last], a) == Live(bs, a) + LiveOne(last, a + Extent(bs))
  {
    LiveConcat(bs, [last], a);
    assert [last][1..] == [];
  }

  lemma AppendLive(bs: seq<Block>, size: nat)
    ensures At(bs, |bs|) == HEAP_START + Extent(bs)
    ensures At(bs, |bs|) + HEADER !in Live(bs, HEAP_START)
    ensures Live(Append(bs, size), HEAP_START) == Live(bs, HEAP_START)[At(bs, |bs|) + HEADER := size]
  {
    EndAddress(bs);
    hide At, Live, Extent;
    LiveBehind(bs, Block(size, false), HEAP_START);
    LiveAbove(bs, HEAP_START);
    MapAppend(Live(bs, HEAP_START), At(bs, |bs|) + HEADER, size);
  }

  /** Appending allocates one new block behind all others. */
  lemma AppendAllocates(bs: seq<Block>, size: nat)
    requires Canonical(bs)
    ensures UsedSum(Append(bs, size)) == UsedSum(bs) + size
    ensures Extent(Append(bs, size)) == Extent(bs) + HEADER + size && Canonical(Append(bs, size))
  {
    var last := [Block(size, false)];
    assert last[1..] == [];
    UsedConcat(bs, last);
    ExtentConcat(bs, last);
  }

  /** Coalescing a list whose prefix is settled. */
  lemma {:induction false} CoalesceMeans(bs: seq<Block>)
    ensures Canonical(Coalesce(bs)) && (bs != [] ==> Coalesce(bs) != [] && Coalesce(bs)[0].free == bs[0].free)
    ensures Extent(Coalesce(bs)) == Extent(bs) && UsedSum(Coalesce(bs)) == UsedSum(bs)
    ensures forall a: nat :: Live(Coalesce(bs), a) == Live(bs, a)
    decreases |bs|
  {
    if |bs| <= 1 {
    } else if bs[0].free && bs[1].free {
      var m := [Merged(bs[0], bs[1])] + bs[2..];
      CoalesceMeans(m);
      assert m[1..] == bs[2..] && bs[1..][1..] == bs[2..];
    } else {
      CoalesceMeans(bs[1..]);
      var cs := Coalesce(bs[1..]);
      assert ([bs[0]] + cs)[1..] == cs;
    }
  }

  /** A canonical list is left alone. */
  lemma {:induction false} CoalesceCanonical(bs: seq<Block>)
    requires Canonical(bs)
    ensures Coalesce(bs) == bs
    decreases |bs|
  {
    if |bs| > 1 {
      assert bs[0].free ==> !bs[0 + 1].free;
      forall k | 0 <= k < |bs[1..]| - 1
        ensures !(bs[1..][k].free && bs[1..][k + 1].free)
      {
        assert !(bs[k + 1].free && bs[k + 1 + 1].free);
      }
      CoalesceCanonical(bs[1..]);
      assert [bs[0]] + bs[1..] == bs;
    }
  }

  /** A settled block in front stays in front. */
  lemma {:induction false} CoalescePrefix(front: seq<Block>, back: seq<Block>)
    requires Canonical(front + back)
             || (front != [] && back != [] && Canonical(front) && !(front[|front| - 1].free && back[0].free))
    ensures Coalesce(front + back) == front + Coalesce(back)
    decreases |front|
  {
    if front == [] {
      assert front + back == back;
    } else if back == [] {
      assert front + back == front;
      CoalesceCanonical(front);
    } else if Canonical(front + back) {
      CanonicalPrefix(front, back);
    } else {
      SettledFirst(front, back);
      SettledRest(front, back);
      hide *;
      if |front| > 1 {
        CoalescePrefix(front[1..], back);
      }
      Prepend(front, Coalesce(back));
    }
  }

  lemma Prepend(front: seq<Block>, bs: seq<Block>)
    requires front != []
    ensures [front[0]] + (front[1..] + bs) == front + bs
    ensures |front| == 1 ==> front[1..] + bs == bs
  {
  }

  lemma CanonicalPrefix(front: seq<Block>, back: seq<Block>)
    requires Canonical(front + back)
    ensures Coalesce(front + back) == front + Coalesce(back)
  {
    hide Canonical, Coalesce;
    CoalesceCanonical(front + back);
    CanonicalPart(front + back, |front|, |front + back|);
    assert (front + back)[|front|..|front + back|] == back;
    CoalesceCanonical(back);
  }

  lemma SettledRest(front: seq<Block>, back: seq<Block>)
    requires front != [] && back != [] && Canonical(front) && !(front[|front| - 1].free && back[0].free)
    ensures |front| > 1 ==> Canonical(front[1..]) && !(front[1..][|front| - 2].free && back[0].free)
    ensures |front| == 1 ==> front[1..] + back == back
  {
    if |front| > 1 {
      CanonicalPart(front, 1, |front|);
      assert front[1..|front|] == front[1..];
    }
  }

  /** A settled first block stays as it is. */
  lemma SettledFirst(front: seq<Block>, back: seq<Block>)
    requires front != [] && back != [] && Canonical(front) && !(front[|front| - 1].free && back[0].free)
    ensures Coalesce(front + back) == [front[0]] + Coalesce(front[1..] + back)
  {
    var all := front + back;
    assert all[1..] == front[1..] + back && all[0] == front[0];
    if |front| > 1 {
      assert all[1] == front[0 + 1] && !(front[0].free && front[0 + 1].free);
    } else {
      assert all[1] == back[0];
    }
  }

  /** Freeing allocated block k gives up exactly that allocation and leaves a canonical list. */
  lemma ReleaseFrees(bs: seq<Block>, k: nat)
    requires k < |bs| && !bs[k].free
    ensures Live(Release(bs, k), HEAP_START) == Live(bs, HEAP_START) - {At(bs, k) + HEADER}
    ensures At(bs, k) + HEADER in Live(bs, HEAP_START)
    ensures UsedSum(bs) == UsedSum(Release(bs, k)) + bs[k].size
    ensures Extent(Release(bs, k)) == Extent(bs) && Canonical(Release(bs, k))
  {
    SetFreeLive(bs, k, true);
    SetFreeUsed(bs, k, true);
    SetFreeExtent(bs, k, true);
    CoalesceMeans(SetFree(bs, k, true));
  }

  /** Two free blocks that add up to one, between settled parts, merge back into it. */
  lemma CoalesceMerges(front: seq<Block>, b: Block, c: Block, back: seq<Block>)
    requires b.free && c.free && Canonical(front) && Canonical([Merged(b, c)] + back)
    requires front != [] ==> !front[|front| - 1].free
    ensures Coalesce(front + ([b, c] + back)) == front + ([Merged(b, c)] + back)
  {
    var rest := [b, c] + back;
    assert rest[2..] == back;
    CoalesceCanonical([Merged(b, c)] + back);
    if front == [] {
      assert front + rest == rest;
    } else {
      CoalescePrefix(front, rest);
    }
  }

  /** kfree undoes a kmalloc that was served from the list: splitting and coalescing are inverse. */
  lemma ReleaseUndoesReuse(bs: seq<Block>, k: nat, size: nat)
    requires Canonical(bs) && k < |bs| && Fits(bs[k], size)
    ensures k < |Reuse(bs, k, size)| && Release(Reuse(bs, k, size), k) == bs
  {
    hide Canonical, Coalesce;
    ReuseAllocates(bs, k, size);
    var cs := SetFree(Reuse(bs, k, size), k, true);
    if Split(bs, k, size) == bs {
      assert cs == bs;
      CoalesceCanonical(bs);
    } else {
      var b, c := Block(size, true), Block(bs[k].size - size - HEADER, true);
      assert cs == bs[..k] + ([b, c] + bs[k + 1..]);
      PartsMerge(bs, k, b, c);
    }
  }

  /** The two parts of a free block of a canonical list merge into it again. */
  lemma PartsMerge(bs: seq<Block>, k: nat, b: Block, c: Block)
    requires Canonical(bs) && k < |bs| && bs[k].free && b.free && c.free && Merged(b, c) == bs[k]
    ensures Coalesce(bs[..k] + ([b, c] + bs[k + 1..])) == bs
  {
    var front, back := bs[..k], bs[k + 1..];
    assert k > 0 ==> !bs[k - 1].free by {
      assert k > 0 ==> !(bs[k - 1 + 1].free && bs[k - 1].free);
    }
    hide Canonical, Coalesce;
    CanonicalPart(bs, 0, k);
    CanonicalPart(bs, k, |bs|);
    assert bs[k..|bs|] == [Merged(b, c)] + back;
    CoalesceMerges(front, b, c, back);
    Around(bs, k);
  }

  lemma CanonicalPart(bs: seq<Block>, lo: nat, hi: nat)
    requires Canonical(bs) && lo <= hi <= |bs|
    ensures Canonical(bs[lo..hi])
  {
    forall j | 0 <= j < hi - lo - 1
      ensures !(bs[lo..hi][j].free && bs[lo..hi][j + 1].free)
    {
      assert !(bs[lo + j].free && bs[lo + j + 1].free);
    }
  }

  /** The list after kmalloc has appended a block and kfree has released it again. */
  function TailFree(bs: seq<Block>, size: nat): seq<Block> {
    if bs != [] && bs[|bs| - 1].free
    then bs[..|bs| - 1] + [Block(bs[|bs| - 1].size + HEADER + size, true)]
    else bs + [Block(size, true)]
  }

  /** kfree after a kmalloc that appended a block only leaves free space at the tail. */
  lemma ReleaseAfterAppend(bs: seq<Block>, size: nat)
    requires Canonical(bs)
    ensures Release(Append(bs, size), |bs|) == TailFree(bs, size)
  {
    var last := Block(size, true);
    assert SetFree(Append(bs, size), |bs|, true) == bs + [last];
    if bs != [] && bs[|bs| - 1].free {
      var n := |bs| - 1;
      assert bs + [last] == bs[..n] + ([bs[n], last] + []);
      assert n > 0 ==> !(bs[n].free && bs[n - 1].free);
      CanonicalPart(bs, 0, n);
      hide Coalesce, Canonical;
      OneBlock(Merged(bs[n], last));
      CoalesceMerges(bs[..n], bs[n], last, []);
      assert [Merged(bs[n], last)] + [] == [Merged(bs[n], last)];
    } else {
      CoalesceCanonical(bs + [last]);
    }
  }

  lemma FreedAppend(bs: seq<Block>, size: nat)
    requires Canonical(bs)
    ensures UsedSum(Release(Append(bs, size), |bs|)) == UsedSum(bs)
    ensures Live(Release(Append(bs, size), |bs|), HEAP_START) == Live(bs, HEAP_START)
  {
    hide Live, UsedSum, Release, Coalesce;
    ReleaseFrees(Append(bs, size), |bs|);
    AppendAllocates(bs, size);
    AppendLive(bs, size);
    SameEnd(bs, Block(size, false));
  }

  lemma SameEnd(bs: seq<Block>, last: Block)
    ensures At(bs + [last], |bs|) == At(bs, |bs|)
  {
    assert (bs + [last])[..|bs|] == bs[..|bs|];
  }

  /** kfree undoes such a kmalloc up to free space at the tail: no allocation is left, and none is lost or moved. */
  lemma ReleaseUndoesAppend(bs: seq<Block>, size: nat)
    requires Canonical(bs)
    ensures Release(Append(bs, size), |bs|) == TailFree(bs, size)
    ensures UsedSum(TailFree(bs, size)) == UsedSum(bs) && Live(TailFree(bs, size), HEAP_START) == Live(bs, HEAP_START)
  {
    hide *;
    ReleaseAfterAppend(bs, size);
    FreedAppend(bs, size);
  }

  lemma OneBlock(b: Block)
    ensures Canonical([b] + [])
  {
  }

  /** Serving a request from a block splits it if and only if a block of at least 16 bytes, besides its header, is left;
      otherwise the request gets the whole block. */
  lemma SplitsExactly(bs: seq<Block>, k: nat, size: nat)
    requires k < |bs| && Fits(bs[k], size)
    ensures var cs := Reuse(bs, k, size);
            if bs[k].size >= size + 12 + 16
            then |cs| == |bs| + 1 && cs[k].size == size && cs[k + 1] == Block(bs[k].size - size - 12, true)
            else |cs| == |bs| && cs[k].size == bs[k].size
  {
  }

  // ---- Alignment ----

  lemma {:induction false} ExtentAligned(bs: seq<Block>)
    requires Aligned(bs)
    ensures Extent(bs) % 4 == 0
  {
    if bs == [] {
    } else {
      assert forall k :: 0 <= k < |bs[1..]| ==> bs[1..][k] == bs[k + 1];
      ExtentAligned(bs[1..]);
    }
  }

  /** Every block, and with it every payload, lies at a multiple of 4. */
  lemma AddressAligned(bs: seq<Block>, k: nat)
    requires Aligned(bs) && k <= |bs|
    ensures At(bs, k) % 4 == 0 && (At(bs, k) + HEADER) % 4 == 0
  {
    ExtentAligned(bs[..k]);
  }

  /** It lies at a multiple of 8 if and only if the blocks before it end half-way between two of them; the first one
      never does. */
  lemma EightAligned(bs: seq<Block>, k: nat)
    requires Aligned(bs) && k <= |bs|
    ensures (At(bs, k) + HEADER) % HEAP_ALIGNMENT == 0 <==> Extent(bs[..k]) % HEAP_ALIGNMENT == 4
    ensures (At(bs, 0) + HEADER) % HEAP_ALIGNMENT == 4
  {
    ExtentAligned(bs[..k]);
    assert bs[..0] == [];
  }

  lemma {:induction false} LiveAligned(bs: seq<Block>, a: nat, p: nat)
    requires Aligned(bs) && a % 4 == 0 && p in Live(bs, a)
    ensures p % 4 == 0 && Live(bs, a)[p] % 4 == 0
    decreases |bs|
  {
    assert forall k :: 0 <= k < |bs[1..]| ==> bs[1..][k] == bs[k + 1];
    var next := a + HEADER + bs[0].size;
    if p in Live(bs[1..], next) {
      LiveAligned(bs[1..], next, p);
    }
  }

  lemma ReuseAligned(bs: seq<Block>, k: nat, size: nat)
    requires Aligned(bs) && k < |bs| && WholeWords(size)
    ensures Aligned(Reuse(bs, k, size))
  {
  }

  lemma AppendAligned(bs: seq<Block>, size: nat)
    requires Aligned(bs) && WholeWords(size)
    ensures Aligned(Append(bs, size))
  {
  }

  lemma {:induction false} CoalesceAligned(bs: seq<Block>)
    requires Aligned(bs)
    ensures Aligned(Coalesce(bs))
    decreases |bs|
  {
    if |bs| <= 1 {
    } else if bs[0].free && bs[1].free {
      CoalesceAligned([Merged(bs[0], bs[1])] + bs[2..]);
    } else {
      CoalesceAligned(bs[1..]);
    }
  }

  lemma ReleaseAligned(bs: seq<Block>, k: nat)
    requires Aligned(bs) && k < |bs|
    ensures Aligned(Release(bs, k))
  {
    CoalesceAligned(SetFree(bs, k, true));
  }
}
