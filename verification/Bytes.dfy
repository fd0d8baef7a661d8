/** Machine integers of the firmware and the four-byte sequence numbers of TCP.
    Multi-byte packet fields are big-endian, as they lie in the packet. */
module Bytes {

  type byte = x: int | 0 <= x < 0x100
  type u16 = x: int | 0 <= x < 0x1_0000

  datatype Option<+T> = None | Some(value: T)

  function Min(a: int, b: int): int {
    if a < b then a else b
  }

  // ----- finite sets, for counting arguments -----

  lemma {:induction false} SubsetSize<T>(a: set<T>, b: set<T>)
    requires a <= b
    ensures |a| <= |b|
    decreases a
  {
    if a != {} {
      var x :| x in a;
      SubsetSize(a - {x}, b - {x});
    }
  }

  /** The numbers below n. */
  ghost function Below(n: nat): (s: set<int>)
    ensures |s| == n && forall x :: x in s <==> 0 <= x < n
  {
    if n == 0 then {} else Below(n - 1) + {n - 1}
  }

  // ----- numbers in four bytes -----

  /** A u8_t[4] holding a 32-bit number, most significant byte first. */
  datatype Quad = Quad(b0: byte, b1: byte, b2: byte, b3: byte)

  function Value(q: Quad): (v: nat)
    ensures v < 0x1_0000_0000
  {
    ((q.b0 * 0x100 + q.b1) * 0x100 + q.b2) * 0x100 + q.b3
  }

  /** The quad with a given value. */
  ghost function OfValue(v: nat): (q: Quad)
    requires v < 0x1_0000_0000
    ensures Value(q) == v
  {
    ValueOnto(v);
    var q :| Value(q) == v;
    q
  }

  lemma ValueOnto(v: nat)
    requires v < 0x1_0000_0000
    ensures exists q :: Value(q) == v
  {
    var w := v / 0x100;
    var x := w / 0x100;
    assert Value(Quad(x / 0x100, x % 0x100, w % 0x100, v % 0x100)) == v;
  }

  /** What is left of a number in a 32-bit word. */
  function Wrap(n: nat): (r: nat)
    ensures r < 0x1_0000_0000
    ensures n < 0x2_0000_0000 ==> r == if n < 0x1_0000_0000 then n else n - 0x1_0000_0000
  {
    if n < 0x1_0000_0000 then n else Wrap(n - 0x1_0000_0000)
  }

  lemma {:induction false} WrapIsMod(n: nat)
    ensures Wrap(n) == n % 0x1_0000_0000
  {
    if n >= 0x1_0000_0000 {
      WrapIsMod(n - 0x1_0000_0000);
    }
  }

  /** Addition of 32-bit words. */
  ghost function Plus(q: Quad, n: nat): (r: Quad)
    ensures Value(r) == Wrap(Value(q) + n)
  {
    OfValue(Wrap(Value(q) + n))
  }

  lemma WrapWrap(x: nat, n: nat)
    ensures Wrap(Wrap(x) + n) == Wrap(x + n)
  {
    WrapIsMod(x);
    WrapIsMod(Wrap(x) + n);
    WrapIsMod(x + n);
  }

  lemma WrapInjective(x: nat, m: nat, n: nat)
    requires x < 0x1_0000_0000 && m < 0x1_0000_0000 && n < 0x1_0000_0000
    requires Wrap(x + m) == Wrap(x + n)
    ensures m == n
  {
  }

  lemma ValueInjective(p: Quad, q: Quad)
    requires Value(p) == Value(q)
    ensures p == q
  {
    SameDigits((p.b0 * 0x100 + p.b1) * 0x100 + p.b2, p.b3, (q.b0 * 0x100 + q.b1) * 0x100 + q.b2, q.b3);
    SameDigits(p.b0 * 0x100 + p.b1, p.b2, q.b0 * 0x100 + q.b1, q.b2);
    SameDigits(p.b0, p.b1, q.b0, q.b1);
  }

  lemma SameDigits(x: nat, d: byte, y: nat, e: byte)
    requires x * 0x100 + d == y * 0x100 + e
    ensures x == y && d == e
  {
  }

  lemma PlusUnique(q: Quad, n: nat, r: Quad)
    requires n < 0x1_0000_0000
    requires Value(r) == var v := Value(q) + n; if v < 0x1_0000_0000 then v else v - 0x1_0000_0000
    ensures r == Plus(q, n)
  {
    ValueInjective(r, Plus(q, n));
  }

  lemma PlusPlus(q: Quad, m: nat, n: nat)
    ensures Plus(Plus(q, m), n) == Plus(q, m + n)
  {
    WrapWrap(Value(q) + m, n);
  }

  lemma PlusZero(q: Quad)
    ensures Plus(q, 0) == q
  {
    PlusUnique(q, 0, q);
  }

  /** Offsets below 2^32 from one base name the same sequence number only if they are equal. */
  lemma PlusInjective(q: Quad, m: nat, n: nat)
    requires m < 0x1_0000_0000 && n < 0x1_0000_0000
    requires Plus(q, m) == Plus(q, n)
    ensures m == n
  {
    assert Wrap(Value(q) + m) == Wrap(Value(q) + n);
    WrapInjective(Value(q), m, n);
  }

  /** Addition of two bytes in C: the sum wraps, and is smaller than an operand exactly when it did. */
  lemma ByteSum(x: byte, y: byte, s: byte)
    requires s == (x + y) % 0x100
    ensures s == if s < y then x + y - 0x100 else x + y
  {
  }

  /** uip_add32: byte-wise addition with the carries propagated by hand. */
  method Add32(op32: Quad, op16: u16) returns (acc: Quad)
    ensures acc == Plus(op32, op16)
  {
    var lo: byte, hi: byte := op16 % 0x100, op16 / 0x100;
    assert op16 == hi * 0x100 + lo;
    acc := AddBytes(op32, hi, lo);
    PlusUnique(op32, op16, acc);
  }

  method AddBytes(op32: Quad, hi: byte, lo: byte) returns (acc: Quad)
    ensures Value(acc) == var v := Value(op32) + hi * 0x100 + lo;
                          if v < 0x1_0000_0000 then v else v - 0x1_0000_0000
  {
    var a3: byte := (op32.b3 + lo) % 0x100;
    var a2: byte := (op32.b2 + hi) % 0x100;
    ByteSum(op32.b3, lo, a3);
    ByteSum(op32.b2, hi, a2);
    var a0, a1 := op32.b0, op32.b1;
    if a2 < hi {
      a0, a1 := Carry(a0, a1);
    }
    if a3 < lo {
      a2 := if a2 == 0xff then 0 else a2 + 1;
      if a2 == 0 {
        a0, a1 := Carry(a0, a1);
      }
    }
    acc := Quad(a0, a1, a2, a3);
  }

  /** Carry into the upper half of the accumulator. */
  method Carry(h0: byte, h1: byte) returns (a0: byte, a1: byte)
    ensures a0 * 0x100 + a1 == if h0 * 0x100 + h1 == 0xffff then 0 else h0 * 0x100 + h1 + 1
  {
    a0, a1 := h0, (h1 + 1) % 0x100;
    if a1 == 0 {
      a0 := (a0 + 1) % 0x100;
    }
  }

  /** The nested byte increments used for the initial sequence number and for a RST's ackno. */
  method Increment(q: Quad) returns (r: Quad)
    ensures r == Plus(q, 1)
  {
    var a0, a1, a2, a3 := q.b0, q.b1, q.b2, if q.b3 == 0xff then 0 else q.b3 + 1;
    if a3 == 0 {
      a2 := if a2 == 0xff then 0 else a2 + 1;
      if a2 == 0 {
        a0, a1 := Carry(a0, a1);
      }
    }
    r := Quad(a0, a1, a2, a3);
    PlusUnique(q, 1, r);
  }
}
