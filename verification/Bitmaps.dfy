/** Bitmaps of one bit per page frame, stored eight to a byte (src/kernel/pmm.c). */
module Bitmaps {
  /** `1u << k` */
  function Mask(k: nat): bv8
    requires k < 8
  {
    if k == 0 then 1 else if k == 1 then 2 else if k == 2 then 4 else if k == 3 then 8
    else if k == 4 then 16 else if k == 5 then 32 else if k == 6 then 64 else 128
  }

  predicate Bit(b: bv8, k: nat)
    requires k < 8
  {
    b & Mask(k) != 0
  }

  predicate Test(m: seq<bv8>, f: nat)
    requires f < 8 * |m|
  {
    Bit(m[f / 8], f % 8)
  }

  /** The clear bits below n. */
  function ClearBelow(m: seq<bv8>, n: nat): (s: set<nat>)
    requires n <= 8 * |m|
    ensures forall f :: f in s ==> f < n
  {
    if n == 0 then {} else ClearBelow(m, n - 1) + if Test(m, n - 1) then {} else {n - 1}
  }

  function ClearBits(m: seq<bv8>): set<nat> {
    ClearBelow(m, 8 * |m|)
  }

  lemma {:induction false} ClearBelowMembers(m: seq<bv8>, n: nat)
    requires n <= 8 * |m|
    ensures forall f: nat :: f in ClearBelow(m, n) <==> f < n && !Test(m, f)
  {
    if n == 0 {
    } else {
      ClearBelowMembers(m, n - 1);
    }
  }

  lemma ClearMembers(m: seq<bv8>)
    ensures forall f: nat :: f in ClearBits(m) <==> f < 8 * |m| && !Test(m, f)
  {
    ClearBelowMembers(m, 8 * |m|);
  }

  lemma MaskValue(k: nat)
    requires k < 8
    ensures k == 0 ==> Mask(k) == 1
    ensures k == 1 ==> Mask(k) == 2
    ensures k == 2 ==> Mask(k) == 4
    ensures k == 3 ==> Mask(k) == 8
    ensures k == 4 ==> Mask(k) == 16
    ensures k == 5 ==> Mask(k) == 32
    ensures k == 6 ==> Mask(k) == 64
    ensures k == 7 ==> Mask(k) == 128
  {
  }

  lemma MasksDisjoint(k: nat, j: nat)
    requires k < 8 && j < 8 && k != j
    ensures Mask(k) & Mask(j) == 0
  {
    MaskValue(k);
    MaskValue(j);
  }

  lemma DisjointMasksCommute(b: bv8, m: bv8, n: bv8)
    requires m & n == 0
    ensures (b | m) & n == b & n
    ensures (b & !m) & n == b & n
  {
  }

  lemma SameMask(b: bv8, m: bv8)
    ensures (b | m) & m == m
    ensures (b & !m) & m == 0
  {
  }

  lemma SetInByte(b: bv8, k: nat, j: nat)
    requires k < 8 && j < 8
    ensures Bit(b | Mask(k), j) == (j == k || Bit(b, j))
  {
    if j == k {
      SameMask(b, Mask(k));
      MaskValue(k);
    } else {
      MasksDisjoint(k, j);
      DisjointMasksCommute(b, Mask(k), Mask(j));
    }
  }

  lemma ClearInByte(b: bv8, k: nat, j: nat)
    requires k < 8 && j < 8
    ensures Bit(b & !Mask(k), j) == (j != k && Bit(b, j))
  {
    if j == k {
      SameMask(b, Mask(k));
    } else {
      MasksDisjoint(k, j);
      DisjointMasksCommute(b, Mask(k), Mask(j));
    }
  }

  lemma ByteFromBits(a: bv8, b: bv8)
    requires forall k :: 0 <= k < 8 ==> Bit(a, k) == Bit(b, k)
    ensures a == b
  {
    assert Bit(a, 0) == Bit(b, 0) && Bit(a, 1) == Bit(b, 1) && Bit(a, 2) == Bit(b, 2) && Bit(a, 3) == Bit(b, 3);
    assert Bit(a, 4) == Bit(b, 4) && Bit(a, 5) == Bit(b, 5) && Bit(a, 6) == Bit(b, 6) && Bit(a, 7) == Bit(b, 7);
  }

  /** A bitmap is determined, byte for byte, by the set of its clear bits. */
  lemma BitmapDetermined(m: seq<bv8>, n: seq<bv8>)
    requires |m| == |n| && ClearBits(m) == ClearBits(n)
    ensures m == n
  {
    ClearMembers(m);
    ClearMembers(n);
    forall i | 0 <= i < |m|
      ensures m[i] == n[i]
    {
      forall k | 0 <= k < 8
        ensures Bit(m[i], k) == Bit(n[i], k)
      {
        var f := 8 * i + k;
        assert f / 8 == i && f % 8 == k;
        assert Test(m, f) == Test(n, f) by {
          assert f in ClearBits(m) <==> f in ClearBits(n);
        }
      }
      ByteFromBits(m[i], n[i]);
    }
  }

  /** One static bitmap, and the set of the frames whose bit is clear. */
  class Bitmap {
    const bytes: array<bv8>
    ghost var clear: set<nat>

    ghost predicate Valid()
      reads this, bytes
    {
      clear == ClearBits(bytes[..])
    }

    constructor (frames: nat, value: bv8)
      ensures Valid() && bytes.Length == frames / 8 && fresh(bytes)
    {
      bytes := new bv8[frames / 8](i => value);
      new;
      clear := ClearBits(bytes[..]);
    }

    method SetBit(frame: nat)
      requires Valid() && frame < 8 * bytes.Length
      modifies this, bytes
      ensures Valid() && clear == old(clear) - {frame}
    {
      ghost var before := bytes[..];
      bytes[frame / 8] := bytes[frame / 8] | Mask(frame % 8);
      clear := clear - {frame};
      AfterSet(before, bytes[..], frame);
    }

    method ClearBit(frame: nat)
      requires Valid() && frame < 8 * bytes.Length
      modifies this, bytes
      ensures Valid() && clear == old(clear) + {frame}
    {
      ghost var before := bytes[..];
      bytes[frame / 8] := bytes[frame / 8] & !Mask(frame % 8);
      clear := clear + {frame};
      AfterClear(before, bytes[..], frame);
    }

    method TestBit(frame: nat) returns (used: bool)
      requires Valid() && frame < 8 * bytes.Length
      ensures used <==> frame !in clear
    {
      ClearMembers(bytes[..]);
      used := bytes[frame / 8] & Mask(frame % 8) != 0;
      assert used == Test(bytes[..], frame);
    }

    /** The initialisation loop: every byte becomes 0xFF or 0x00. */
    method Fill(used: bool)
      modifies this, bytes
      ensures Valid()
      ensures forall f: nat :: f in clear <==> f < 8 * bytes.Length && !used
    {
      var value: bv8 := if used then 0xFF else 0;
      for i := 0 to bytes.Length
        invariant forall k :: 0 <= k < i ==> bytes[k] == value
      {
        bytes[i] := value;
      }
      clear := ClearBits(bytes[..]);
      AfterFill(bytes[..], used);
    }
  }

  lemma AfterSet(m: seq<bv8>, n: seq<bv8>, frame: nat)
    requires frame < 8 * |m| && n == m[frame / 8 := m[frame / 8] | Mask(frame % 8)]
    ensures ClearBits(n) == ClearBits(m) - {frame}
  {
    hide Mask, Bit, ClearBits;
    ClearMembers(m);
    ClearMembers(n);
    forall g: nat | g < 8 * |m|
      ensures Test(n, g) == (g == frame || Test(m, g))
    {
      if g / 8 == frame / 8 {
        SetInByte(m[frame / 8], frame % 8, g % 8);
      }
    }
  }

  lemma AfterClear(m: seq<bv8>, n: seq<bv8>, frame: nat)
    requires frame < 8 * |m| && n == m[frame / 8 := m[frame / 8] & !Mask(frame % 8)]
    ensures ClearBits(n) == ClearBits(m) + {frame}
  {
    hide Mask, Bit, ClearBits;
    ClearMembers(m);
    ClearMembers(n);
    forall g: nat | g < 8 * |m|
      ensures Test(n, g) == (g != frame && Test(m, g))
    {
      if g / 8 == frame / 8 {
        ClearInByte(m[frame / 8], frame % 8, g % 8);
      }
    }
  }

  lemma AfterFill(m: seq<bv8>, used: bool)
    requires forall i :: 0 <= i < |m| ==> m[i] == if used then 0xFF else 0
    ensures forall f: nat :: f in ClearBits(m) <==> f < 8 * |m| && !used
  {
    ClearMembers(m);
    forall f: nat | f < 8 * |m|
      ensures Test(m, f) == used
    {
      MaskValue(f % 8);
    }
  }
}
