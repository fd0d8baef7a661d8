/** The fragment bitmap of uip_reass: one bit for every 8-byte block of the packet being put
    together, most significant bit first. */
module Reass {

  /** The bit for block k of a bitmap byte. */
  function Mask(k: nat): bv8 {
    if k == 0 then 0x80 else if k == 1 then 0x40 else if k == 2 then 0x20 else if k == 3 then 0x10
    else if k == 4 then 0x08 else if k == 5 then 0x04 else if k == 6 then 0x02 else 0x01
  }

  /** bitmap_bits[k]. */
  function BitmapBits(k: nat): bv8 {
    if k == 0 then 0xff else if k == 1 then 0x7f else if k == 2 then 0x3f else if k == 3 then 0x1f
    else if k == 4 then 0x0f else if k == 5 then 0x07 else if k == 6 then 0x03 else 0x01
  }

  predicate Bit(b: bv8, k: nat) {
    b & Mask(k) != 0
  }

  /** The table holds runs of ones: from bit s to the end. */
  lemma BitmapBitsRun(s: nat, k: nat)
    requires s < 8 && k < 8
    ensures Bit(BitmapBits(s), k) <==> s <= k
  {
  }

  lemma BitOps(b: bv8, p: bv8, q: bv8, k: nat)
    requires k < 8
    ensures Bit(b | p, k) <==> Bit(b, k) || Bit(p, k)
    ensures Bit(b | !q, k) <==> Bit(b, k) || !Bit(q, k)
    ensures Bit(b | (p & !q), k) <==> Bit(b, k) || (Bit(p, k) && !Bit(q, k))
  {
    MaskBits(b, p, q, Mask(k));
  }

  lemma MaskBits(b: bv8, p: bv8, q: bv8, m: bv8)
    requires m in {0x80, 0x40, 0x20, 0x10, 0x08, 0x04, 0x02, 0x01}
    ensures (b | p) & m != 0 <==> b & m != 0 || p & m != 0
    ensures (b | !q) & m != 0 <==> b & m != 0 || q & m == 0
    ensures (b | (p & !q)) & m != 0 <==> b & m != 0 || (p & m != 0 && q & m == 0)
  {
  }

  /** In byte b' the bits from s up to, not including, t have been set in addition to those of b. */
  ghost predicate RunSet(b: bv8, b': bv8, s: nat, t: nat) {
    forall k: nat :: k < 8 ==> (Bit(b', k) <==> Bit(b, k) || s <= k < t)
  }

  /** `b | bits[s]`. */
  function FromBit(b: bv8, s: nat): (r: bv8)
    requires s < 8
    ensures RunSet(b, r, s, 8)
  {
    var p := BitmapBits(s);
    assert forall k: nat :: k < 8 ==> (Bit(b | p, k) <==> Bit(b, k) || s <= k) by {
      forall k: nat | k < 8
        ensures Bit(b | p, k) <==> Bit(b, k) || s <= k
      {
        BitmapBitsRun(s, k);
        BitOps(b, p, 0, k);
      }
    }
    b | p
  }

  /** `b | ~bits[t]`. */
  function UpToBit(b: bv8, t: nat): (r: bv8)
    requires t < 8
    ensures RunSet(b, r, 0, t)
  {
    var q := BitmapBits(t);
    assert forall k: nat :: k < 8 ==> (Bit(b | !q, k) <==> Bit(b, k) || k < t) by {
      forall k: nat | k < 8
        ensures Bit(b | !q, k) <==> Bit(b, k) || k < t
      {
        BitmapBitsRun(t, k);
        BitOps(b, 0, q, k);
      }
    }
    b | !q
  }

  /** `b | (bits[s] & ~bits[t])`. */
  function Between(b: bv8, s: nat, t: nat): (r: bv8)
    requires s < 8 && t < 8
    ensures RunSet(b, r, s, t)
  {
    var p, q := BitmapBits(s), BitmapBits(t);
    assert forall k: nat :: k < 8 ==> (Bit(b | (p & !q), k) <==> Bit(b, k) || s <= k < t) by {
      forall k: nat | k < 8
        ensures Bit(b | (p & !q), k) <==> Bit(b, k) || s <= k < t
      {
        BitmapBitsRun(s, k);
        BitmapBitsRun(t, k);
        BitOps(b, p, q, k);
      }
    }
    b | (p & !q)
  }

  /** A fragment of `len` bytes that starts at byte `offset` of the packet. */
  datatype Fragment = Fragment(offset: nat, len: nat)

  /** The fragment holds all eight bytes of block k. */
  predicate Covers(f: Fragment, k: nat) {
    f.offset <= 8 * k && 8 * k + 8 <= f.offset + f.len
  }

  /** Block k of a bitmap. */
  predicate Marked(bitmap: seq<bv8>, k: nat)
    requires k / 8 < |bitmap|
  {
    Bit(bitmap[k / 8], k % 8)
  }

  /** Blocks from s up to, not including, t have been marked in addition. */
  ghost predicate RunMarked(old_: seq<bv8>, new_: seq<bv8>, s: nat, t: nat) {
    |new_| == |old_| && forall k: nat :: k / 8 < |old_| ==> (Marked(new_, k) <==> Marked(old_, k) || s <= k < t)
  }

  /** A fragment that starts on a block boundary covers a run of blocks. */
  lemma CoversRun(f: Fragment, k: nat)
    requires f.offset % 8 == 0
    ensures Covers(f, k) <==> f.offset / 8 <= k < (f.offset + f.len) / 8
  {
  }

  /** The guard of uip_reass lets fragments through that end anywhere in the buffer of `size` bytes. The
      bitmap of size / 64 bytes has a place for the end exactly if that lies below the last multiple
      of 64: never if the fragment fills the buffer. */
  lemma EndHasPlace(size: nat, offset: nat, len: nat)
    requires offset + len <= size
    ensures (offset + len) / 64 < size / 64 <==> offset + len < size - size % 64
    ensures offset + len == size ==> !((offset + len) / 64 < size / 64)
  {
    var q := size / 64;
    assert size - size % 64 == 64 * q;
    if offset + len < 64 * q {
      Quotient(offset + len, q);
    }
  }

  lemma Quotient(n: nat, q: nat)
    requires n < 64 * q
    ensures n / 64 < q
  {
  }

  // ----- is the packet complete? -----

  /** The test for a packet of n bytes: all bytes of the bitmap below n / 64 - 1 are full, and byte
      n / 64 holds just the right bits. */
  predicate Passes(bitmap: seq<bv8>, n: nat)
    requires n / 64 < |bitmap|
  {
    (forall i :: 0 <= i < n / 64 - 1 ==> bitmap[i] == 0xff) && bitmap[n / 64] == !BitmapBits(n / 8 % 8)
  }

  lemma ByteByBits(b: bv8, c: bv8)
    requires b & 0x80 == c & 0x80 && b & 0x40 == c & 0x40 && b & 0x20 == c & 0x20 && b & 0x10 == c & 0x10
    requires b & 0x08 == c & 0x08 && b & 0x04 == c & 0x04 && b & 0x02 == c & 0x02 && b & 0x01 == c & 0x01
    ensures b == c
  {
  }

  lemma MaskedEither(b: bv8, m: bv8)
    requires m in {0x80, 0x40, 0x20, 0x10, 0x08, 0x04, 0x02, 0x01}
    ensures b & m == 0 || b & m == m
  {
  }

  lemma SameBit(b: bv8, c: bv8, k: nat)
    requires k < 8 && (Bit(b, k) <==> Bit(c, k))
    ensures b & Mask(k) == c & Mask(k)
  {
    MaskedEither(b, Mask(k));
    MaskedEither(c, Mask(k));
  }

  lemma SameBits(b: bv8, c: bv8)
    requires forall k: nat :: k < 8 ==> (Bit(b, k) <==> Bit(c, k))
    ensures b == c
  {
    SameBit(b, c, 0);
    SameBit(b, c, 1);
    SameBit(b, c, 2);
    SameBit(b, c, 3);
    SameBit(b, c, 4);
    SameBit(b, c, 5);
    SameBit(b, c, 6);
    SameBit(b, c, 7);
    ByteByBits(b, c);
  }

  /** A byte with the bits below t, and no others. */
  lemma LowBits(b: bv8, t: nat)
    requires t < 8
    ensures b == !BitmapBits(t) <==> RunSet(0, b, 0, t)
  {
    var c := UpToBit(0, t);
    assert c == !BitmapBits(t) by {
      ZeroOr(!BitmapBits(t));
    }
    if RunSet(0, b, 0, t) {
      SameBits(b, c);
    }
  }

  lemma ZeroOr(b: bv8)
    ensures 0 | b == b
  {
  }

  lemma FullByte(b: bv8)
    ensures b == 0xff <==> RunSet(0, b, 0, 8)
  {
    var c := FromBit(0, 0);
    assert c == 0xff by {
      ZeroOr(0xff);
    }
    if RunSet(0, b, 0, 8) {
      SameBits(b, c);
    }
  }

  /** In byte i of the bitmap exactly the blocks below n are marked. */
  ghost predicate MarkedBelow(bitmap: seq<bv8>, i: nat, n: nat)
    requires i < |bitmap|
  {
    forall k: nat :: k / 8 == i ==> (Marked(bitmap, k) <==> k < n)
  }

  lemma ByteMarks(bitmap: seq<bv8>, i: nat, n: nat, t: nat)
    requires i < |bitmap| && t <= 8 && (if t == 8 then 8 * i + 8 <= n else n == 8 * i + t)
    ensures RunSet(0, bitmap[i], 0, t) <==> MarkedBelow(bitmap, i, n)
  {
    if RunSet(0, bitmap[i], 0, t) {
      forall k: nat | k / 8 == i
        ensures Marked(bitmap, k) <==> k < n
      {
        ZeroUnmarked(k % 8);
      }
    } else {
      var k: nat :| k < 8 && !(Bit(bitmap[i], k) <==> Bit(0, k) || 0 <= k < t);
      ZeroUnmarked(k);
      assert (8 * i + k) / 8 == i && (8 * i + k) % 8 == k;
      assert !(Marked(bitmap, 8 * i + k) <==> 8 * i + k < n);
    }
  }

  /** What the test says of the blocks, for any bitmap: byte n / 64 - 1 is not looked at. */
  lemma PassesExactly(bitmap: seq<bv8>, n: nat)
    requires n / 64 < |bitmap|
    ensures Passes(bitmap, n) <==>
      forall i :: 0 <= i <= n / 64 && i != n / 64 - 1 ==> MarkedBelow(bitmap, i, n / 8)
  {
    EightfoldSplit(n);
    forall i | 0 <= i <= n / 64 && i != n / 64 - 1
      ensures MarkedBelow(bitmap, i, n / 8) <==>
        bitmap[i] == if i < n / 64 then 0xff else !BitmapBits(n / 8 % 8)
    {
      if i < n / 64 {
        FullByte(bitmap[i]);
        ByteMarks(bitmap, i, n / 8, 8);
      } else {
        LowBits(bitmap[i], n / 8 % 8);
        ByteMarks(bitmap, i, n / 8, n / 8 % 8);
      }
    }
  }

  /** A packet of n bytes that passes has all its whole blocks exactly if the byte before the last
      one is full, or there is none. */
  lemma CompleteExactly(bitmap: seq<bv8>, n: nat)
    requires n / 64 < |bitmap| && Passes(bitmap, n)
    ensures (forall k: nat :: k < n / 8 ==> Marked(bitmap, k)) <==> n < 64 || bitmap[n / 64 - 1] == 0xff
  {
    PassesExactly(bitmap, n);
    EightfoldSplit(n);
    if n >= 64 {
      FullByte(bitmap[n / 64 - 1]);
      ByteMarks(bitmap, n / 64 - 1, n / 8, 8);
    }
    if n < 64 || bitmap[n / 64 - 1] == 0xff {
      forall k: nat | k < n / 8
        ensures Marked(bitmap, k)
      {
        assert MarkedBelow(bitmap, k / 8, n / 8);
      }
    } else {
      assert !MarkedBelow(bitmap, n / 64 - 1, n / 8);
      var k: nat :| k / 8 == n / 64 - 1 && !(Marked(bitmap, k) <==> k < n / 8);
      assert k < n / 8;
    }
  }

  /** The last eight bytes of a packet of 72 are enough: the test passes, and no other block is there. */
  lemma HoleUnseen(bitmap: seq<bv8>, bitmap': seq<bv8>)
    requires |bitmap| >= 2 && (forall i :: 0 <= i < |bitmap| ==> bitmap[i] == 0)
    requires RunMarked(bitmap, bitmap', 64 / 8, (64 + 8) / 8)
    ensures Passes(bitmap', 72) && forall k: nat :: k < 8 ==> !Marked(bitmap', k)
  {
    forall k: nat | k / 8 <= 1
      ensures Marked(bitmap', k) <==> k == 8
    {
      ZeroUnmarked(k % 8);
    }
    assert MarkedBelow(bitmap', 1, 9);
    PassesExactly(bitmap', 72);
  }

  class Reassembly {
    const bitmap: array<bv8>          // uip_reassbitmap
    ghost var got: seq<Fragment>      // the fragments taken since the bitmap was cleared

    /** A block is marked exactly if some fragment covers it. */
    ghost predicate Valid()
      reads this, bitmap
    {
      forall k: nat :: k / 8 < bitmap.Length ==> (Marked(bitmap[..], k) <==> exists f <- got :: Covers(f, k))
    }

    constructor (bytes: nat)
      ensures Valid() && fresh(bitmap) && bitmap.Length == bytes && got == []
    {
      bitmap := new bv8[bytes](_ => 0);
      got := [];
      new;
      forall k: nat | k / 8 < bitmap.Length
        ensures !Marked(bitmap[..], k)
      {
        ZeroUnmarked(k % 8);
      }
    }

    /** `memset(uip_reassbitmap, 0, ...)` for the first fragment of a packet. */
    method Clear()
      modifies this, bitmap
      ensures Valid() && got == []
    {
      got := [];
      for i := 0 to bitmap.Length
        invariant got == [] && forall j :: 0 <= j < i ==> bitmap[j] == 0
      {
        bitmap[i] := 0;
      }
      forall k: nat | k / 8 < bitmap.Length
        ensures !Marked(bitmap[..], k)
      {
        ZeroUnmarked(k % 8);
      }
    }

    /** The bitmap update for one more fragment of the packet. */
    method Take(offset: nat, len: nat)
      requires Valid() && offset % 8 == 0 && (offset + len) / 64 < bitmap.Length
      modifies this, bitmap
      ensures Valid() && got == old(got) + [Fragment(offset, len)]
    {
      ghost var before, was := bitmap[..], got;
      var f := Fragment(offset, len);
      got := got + [f];
      Mark(offset, len);
      forall k: nat | k / 8 < bitmap.Length
        ensures Marked(bitmap[..], k) <==> exists g <- got :: Covers(g, k)
      {
        CoversRun(f, k);
        assert Marked(before, k) <==> exists g <- was :: Covers(g, k);
        assert f in got;
      }
    }

    /** The test that follows the last fragment of a packet of n bytes. */
    method Complete(n: nat) returns (b: bool)
      requires n / 64 < bitmap.Length
      ensures b <==> Passes(bitmap[..], n)
    {
      var i := 0;
      while i < n / 64 - 1
        invariant 0 <= i <= n / 64 && forall j :: 0 <= j < i ==> bitmap[j] == 0xff
      {
        if bitmap[i] != 0xff {
          return false;
        }
        i := i + 1;
      }
      b := bitmap[n / 64] == !BitmapBits(n / 8 % 8);
    }

    method Mark(offset: nat, len: nat)
      requires (offset + len) / 64 < bitmap.Length
      modifies bitmap
      ensures RunMarked(old(bitmap[..]), bitmap[..], offset / 8, (offset + len) / 8)
    {
      EightfoldSplit(offset);
      EightfoldSplit(offset + len);
      MarkBits(offset / 64, (offset + len) / 64, offset / 8 % 8, (offset + len) / 8 % 8);
    }

    /** From bit s of byte `first` up to bit t of byte `last`. */
    method MarkBits(first: nat, last: nat, s: nat, t: nat)
      requires first <= last < bitmap.Length && s < 8 && t < 8
      modifies bitmap
      ensures RunMarked(old(bitmap[..]), bitmap[..], 8 * first + s, 8 * last + t)
    {
      ghost var b := bitmap[..];
      if first == last {
        bitmap[first] := Between(bitmap[first], s, t);
        MarkedWithin(b, bitmap[..], first, s, t);
      } else {
        bitmap[first] := FromBit(bitmap[first], s);
        Fill(1 + first, last);
        bitmap[last] := UpToBit(bitmap[last], t);
        MarkedAcross(b, bitmap[..], first, last, s, t);
      }
    }

    /** The bytes between the two ends. */
    method Fill(from: nat, to: nat)
      requires from <= to <= bitmap.Length
      modifies bitmap
      ensures forall j :: 0 <= j < bitmap.Length ==> bitmap[j] == if from <= j < to then 0xff else old(bitmap[j])
    {
      for i := from to to
        invariant forall j :: 0 <= j < bitmap.Length ==> bitmap[j] == if from <= j < i then 0xff else old(bitmap[j])
      {
        bitmap[i] := 0xff;
      }
    }
  }

  lemma EightfoldSplit(n: nat)
    ensures n / 8 == 8 * (n / 64) + n / 8 % 8
  {
  }

  lemma ZeroUnmarked(k: nat)
    requires k < 8
    ensures !Bit(0, k)
  {
  }

  lemma AllMarked(k: nat)
    requires k < 8
    ensures Bit(0xff, k)
  {
  }

  lemma MarkedWithin(b: seq<bv8>, b': seq<bv8>, i: nat, s: nat, t: nat)
    requires i < |b| == |b'| && s < 8 && t < 8 && b' == b[i := b'[i]] && RunSet(b[i], b'[i], s, t)
    ensures RunMarked(b, b', 8 * i + s, 8 * i + t)
  {
    forall k: nat | k / 8 < |b|
      ensures Marked(b', k) <==> Marked(b, k) || 8 * i + s <= k < 8 * i + t
    {
      WhichByte(k, i, s);
      WhichByte(k, i, t);
    }
  }

  lemma WhichByte(k: nat, i: nat, s: nat)
    requires s < 8
    ensures k / 8 == i ==> (8 * i + s <= k <==> s <= k % 8)
    ensures k / 8 < i ==> k < 8 * i + s
    ensures k / 8 > i ==> 8 * i + s < k
  {
  }

  lemma MarkedAcross(b: seq<bv8>, b': seq<bv8>, i: nat, j: nat, s: nat, t: nat)
    requires i < j < |b| == |b'| && s < 8 && t < 8
    requires RunSet(b[i], b'[i], s, 8) && RunSet(b[j], b'[j], 0, t)
    requires forall l :: i < l < j ==> b'[l] == 0xff
    requires forall l :: (0 <= l < i || j < l < |b|) ==> b'[l] == b[l]
    ensures RunMarked(b, b', 8 * i + s, 8 * j + t)
  {
    forall k: nat | k / 8 < |b|
      ensures Marked(b', k) <==> Marked(b, k) || 8 * i + s <= k < 8 * j + t
    {
      AllMarked(k % 8);
      WhichByte(k, i, s);
      WhichByte(k, j, t);
    }
  }
}
