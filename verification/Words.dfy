/** 32-bit machine words, pages of bytes and flat physical memory. */
module Words {
  type uint8 = x: int | 0 <= x < 0x100
  type uint32 = x: int | 0 <= x < 0x1_0000_0000

  datatype Option<+T> = None | Some(value: T)

  const TWO_32: int := 0x1_0000_0000
  const TWO_64: int := 0x1_0000_0000_0000_0000
  const PAGE_SIZE: int := 4096

  /** Number of page frames a 32-bit physical address can name. */
  const ALL_FRAMES: int := 0x10_0000

  type Page = p: seq<uint8> | |p| == PAGE_SIZE witness seq(PAGE_SIZE, i => 0)
  const ZERO_PAGE: Page := seq(PAGE_SIZE, i => 0)
  const ZERO_RAM: seq<Page> := seq<Page>(ALL_FRAMES, i => ZERO_PAGE)
  type Ram = r: seq<Page> | |r| == ALL_FRAMES witness ZERO_RAM

  /** `value & ~(PAGE_SIZE - 1)` */
  function PageBase(a: uint32): (r: uint32)
    ensures r <= a < r + PAGE_SIZE && r % PAGE_SIZE == 0
  {
    a - a % PAGE_SIZE
  }

  /** The byte at a physical address. */
  function ByteAt(ram: Ram, a: uint32): uint8 {
    ram[a / PAGE_SIZE][a % PAGE_SIZE]
  }

  function Pow256(n: nat): nat {
    if n == 0 then 1 else 256 * Pow256(n - 1)
  }

  /** Little-endian value of the n bytes at offset off. */
  function FromBytes(p: seq<uint8>, off: nat, n: nat): (v: nat)
    requires off + n <= |p|
    ensures v < Pow256(n)
    decreases n
  {
    if n == 0 then 0 else p[off] + 256 * FromBytes(p, off + 1, n - 1)
  }

  function U32(p: seq<uint8>, off: nat): uint32
    requires off + 4 <= |p|
  {
    assert Pow256(4) == TWO_32;
    FromBytes(p, off, 4)
  }

  /** The page p with the n little-endian bytes of v stored at offset off. */
  function PutBytes(p: Page, off: nat, n: nat, v: nat): (r: Page)
    requires off + n <= PAGE_SIZE
    ensures forall k :: 0 <= k < PAGE_SIZE && !(off <= k < off + n) ==> r[k] == p[k]
    decreases n
  {
    if n == 0 then p else PutBytes(p[off := v % 256], off + 1, n - 1, v / 256)
  }

  lemma {:induction false} FromBytesLocal(p: seq<uint8>, q: seq<uint8>, off: nat, n: nat)
    requires off + n <= |p| && off + n <= |q|
    requires forall k :: off <= k < off + n ==> p[k] == q[k]
    ensures FromBytes(p, off, n) == FromBytes(q, off, n)
    decreases n
  {
    if n == 0 {
    } else {
      FromBytesLocal(p, q, off + 1, n - 1);
    }
  }

  lemma {:induction false} PutThenGet(p: Page, off: nat, n: nat, v: nat)
    requires off + n <= PAGE_SIZE && v < Pow256(n)
    ensures FromBytes(PutBytes(p, off, n, v), off, n) == v
    decreases n
  {
    if n == 0 {
    } else {
      var q := p[off := v % 256];
      PutThenGet(q, off + 1, n - 1, v / 256);
      assert PutBytes(p, off, n, v)[off] == q[off];
    }
  }

  /** The n bytes of v as they lie in memory, the lowest first. */
  function Bytes(n: nat, v: nat): (b: seq<uint8>)
    ensures |b| == n
  {
    if n == 0 then [] else [v % 256] + Bytes(n - 1, v / 256)
  }

  /** Reading n bytes gives v if and only if they are the bytes of v. */
  lemma {:induction false} ReadsBytes(p: seq<uint8>, off: nat, n: nat, v: nat)
    requires off + n <= |p| && v < Pow256(n)
    ensures FromBytes(p, off, n) == v <==> p[off..off + n] == Bytes(n, v)
    decreases n
  {
    if n == 0 {
    } else {
      ReadsBytes(p, off + 1, n - 1, v / 256);
      var rest := p[off + 1..off + n];
      assert p[off..off + n] == [p[off]] + rest;
      if p[off..off + n] == Bytes(n, v) {
        assert p[off..off + n][1..] == rest && Bytes(n, v)[1..] == Bytes(n - 1, v / 256);
        assert p[off..off + n][0] == p[off];
      }
    }
  }

  /** A field of n bytes and what follows it. */
  lemma ReadsField(p: seq<uint8>, off: nat, n: nat, v: nat, rest: seq<uint8>)
    requires off + n + |rest| <= |p| && v < Pow256(n)
    ensures p[off..off + n + |rest|] == Bytes(n, v) + rest <==>
            FromBytes(p, off, n) == v && p[off + n..off + n + |rest|] == rest
  {
    ReadsBytes(p, off, n, v);
    Joined(p, off, Bytes(n, v), rest);
  }

  /** A range that is two byte sequences, one after the other. */
  lemma Joined(p: seq<uint8>, off: nat, a: seq<uint8>, b: seq<uint8>)
    requires off + |a| + |b| <= |p|
    ensures p[off..off + |a| + |b|] == a + b <==>
            p[off..off + |a|] == a && p[off + |a|..off + |a| + |b|] == b
  {
    var r := p[off..off + |a| + |b|];
    assert r[..|a|] == p[off..off + |a|] && r[|a|..] == p[off + |a|..off + |a| + |b|];
    assert r == r[..|a|] + r[|a|..];
    if r == a + b {
      assert r[..|a|] == a && r[|a|..] == b;
    }
  }

  lemma PartOfRange(p: seq<uint8>, off: nat, n: nat, at: nat, m: nat)
    requires off + n <= |p| && at + m <= n
    ensures p[off..off + n][at..at + m] == p[off + at..off + at + m]
  {
    var a, b := p[off..off + n][at..at + m], p[off + at..off + at + m];
    assert forall i :: 0 <= i < m ==> a[i] == b[i];
  }

  /** The same for one word and for one 16-bit field. */
  lemma ReadsWord(p: seq<uint8>, off: nat, v: uint32, rest: seq<uint8>)
    requires off + 4 + |rest| <= |p|
    ensures p[off..off + 4 + |rest|] == Bytes(4, v) + rest <==>
            U32(p, off) == v && p[off + 4..off + 4 + |rest|] == rest
  {
    assert Pow256(4) == TWO_32;
    hide FromBytes, Bytes, Pow256;
    ReadsField(p, off, 4, v, rest);
  }

  lemma ReadsHalf(p: seq<uint8>, off: nat, v: nat, rest: seq<uint8>)
    requires off + 2 + |rest| <= |p| && v < 0x1_0000
    ensures p[off..off + 2 + |rest|] == Bytes(2, v) + rest <==>
            FromBytes(p, off, 2) == v && p[off + 2..off + 2 + |rest|] == rest
  {
    assert Pow256(2) == 0x1_0000;
    hide FromBytes, Bytes, Pow256;
    ReadsField(p, off, 2, v, rest);
  }

  /** The value of two bytes, the lower one first. */
  function Two(low: nat, high: nat): nat {
    low + 256 * high
  }

  lemma Bytes4(p: seq<uint8>, off: nat)
    requires off + 4 <= |p|
    ensures U32(p, off) == Two(p[off], Two(p[off + 1], Two(p[off + 2], p[off + 3])))
  {
    assert FromBytes(p, off + 3, 1) == Two(p[off + 3], FromBytes(p, off + 4, 0));
    assert FromBytes(p, off + 2, 2) == Two(p[off + 2], FromBytes(p, off + 3, 1));
  }

  /** Eight bytes as two words. */
  lemma Bytes8(p: seq<uint8>, off: nat)
    requires off + 8 <= |p|
    ensures FromBytes(p, off, 8) == U32(p, off) + TWO_32 * U32(p, off + 4)
  {
    assert FromBytes(p, off + 3, 5) == Two(p[off + 3], FromBytes(p, off + 4, 4));
    assert FromBytes(p, off + 2, 6) == Two(p[off + 2], FromBytes(p, off + 3, 5));
    assert FromBytes(p, off + 1, 7) == Two(p[off + 1], FromBytes(p, off + 2, 6));
    Bytes4(p, off);
  }
}
