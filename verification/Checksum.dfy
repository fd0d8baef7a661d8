/** The Internet checksum of uip.c, and what it means: a sum modulo 65535 that is zero
    only when there is nothing to add (sections 1 and 2 of RFC 1071). */
module Checksum {
  import opened Bytes

  /** `sum += t; if(sum < t) sum++;` on u16_t. */
  function AddCarry(sum: u16, t: u16): (r: u16)
    ensures r == Ones(sum + t)
  {
    var s := (sum + t) % 0x1_0000;
    if s < t then s + 1 else s
  }

  /** The representative of n modulo 65535 that one's-complement addition produces. */
  function Ones(n: nat): (r: u16)
    ensures r == 0 <==> n == 0
    ensures n < 0x1_0000 ==> r == n
    ensures 0x1_0000 <= n < 0x1_ffff ==> r == n - 0xffff
  {
    if n == 0 then 0 else (n - 1) % 0xffff + 1
  }

  /** The big-endian word at offset i. */
  function At16(data: seq<byte>, i: nat): (w: u16)
    requires i + 1 < |data|
  {
    (data[i] as int) * 0x100 + data[i + 1]
  }

  /** Stores the big-endian word at offset i. */
  method Put16(buf: array<byte>, i: nat, w: u16)
    requires i + 2 <= buf.Length
    modifies buf
    ensures forall j :: 0 <= j < buf.Length && !(i <= j < i + 2) ==> buf[j] == old(buf[j])
    ensures At16(buf[..], i) == w
  {
    buf[i], buf[i + 1] := w / 0x100, w % 0x100;
  }

  /** What the loop of `chksum` computes. */
  function Fold(sum: u16, data: seq<byte>): u16
    decreases |data|
  {
    if |data| == 0 then sum
    else if |data| == 1 then AddCarry(sum, (data[0] as int) * 0x100)
    else Fold(AddCarry(sum, At16(data, 0)), data[2..])
  }

  /** The plain sum of the big-endian words of data, an odd last byte padded with zero. */
  function WordSum(data: seq<byte>): nat
  {
    if |data| == 0 then 0
    else if |data| == 1 then (data[0] as int) * 0x100
    else At16(data, 0) + WordSum(data[2..])
  }

  lemma OnesAdd(m: nat, n: nat)
    ensures Ones(Ones(m) + n) == Ones(m + n)
  {
    if m != 0 {
      var q := (m - 1) / 0xffff;
      assert Ones(m) == m - 0xffff * q;
      OnesShift(Ones(m) + n, q);
    }
  }

  lemma {:induction false} OnesShift(n: nat, q: nat)
    requires n > 0
    ensures Ones(n + 0xffff * q) == Ones(n)
  {
    if q > 0 {
      OnesShift(n, q - 1);
      assert n + 0xffff * q == n + 0xffff * (q - 1) + 0xffff;
    }
  }

  /** Numbers have the same representative exactly when both are zero, or neither is and they
      are congruent modulo 65535. */
  lemma OnesCongruent(m: nat, n: nat)
    ensures Ones(m) == Ones(n) <==> (m == 0 <==> n == 0) && (m - n) % 0xffff == 0
  {
  }

  /** The checksum is the one's-complement sum: start plus all words modulo 65535, and zero
      only when start and every byte are zero. */
  lemma {:induction false} FoldIsOnesSum(sum: u16, data: seq<byte>)
    ensures Fold(sum, data) == Ones(sum + WordSum(data))
    decreases |data|
  {
    if |data| >= 2 {
      var t := At16(data, 0);
      FoldIsOnesSum(AddCarry(sum, t), data[2..]);
      OnesAdd(sum + t, WordSum(data[2..]));
    }
  }

  lemma {:induction false} WordSumZero(data: seq<byte>)
    ensures WordSum(data) == 0 <==> forall i :: 0 <= i < |data| ==> data[i] == 0
    decreases |data|
  {
    if |data| >= 2 {
      WordSumZero(data[2..]);
      assert data == [data[0], data[1]] + data[2..];
    }
  }

  lemma {:induction false} WordSumSplit(a: seq<byte>, b: seq<byte>)
    requires |a| % 2 == 0
    ensures WordSum(a + b) == WordSum(a) + WordSum(b)
    decreases |a|
  {
    if a == [] {
      assert a + b == b;
    } else {
      WordSumSplit(a[2..], b);
      assert (a + b)[2..] == a[2..] + b;
    }
  }

  /** Summing in pieces, split at an even offset, gives the sum of the whole. */
  lemma {:induction false} FoldComposes(sum: u16, a: seq<byte>, b: seq<byte>)
    requires |a| % 2 == 0
    ensures Fold(Fold(sum, a), b) == Fold(sum, a + b)
  {
    FoldIsOnesSum(sum, a);
    FoldIsOnesSum(Fold(sum, a), b);
    FoldIsOnesSum(sum, a + b);
    WordSumSplit(a, b);
    OnesAdd(sum + WordSum(a), WordSum(b));
  }

  /** Changing the word at an even offset changes the sum by the difference. */
  lemma WordSumUpdate(a: seq<byte>, a': seq<byte>, k: nat)
    requires k % 2 == 0 && k + 2 <= |a| == |a'|
    requires a[..k] == a'[..k] && a[k + 2..] == a'[k + 2..]
    ensures WordSum(a') == WordSum(a) - At16(a, k) + At16(a', k)
  {
    WordSumAt(a, k);
    WordSumAt(a', k);
  }

  lemma WordSumAt(a: seq<byte>, k: nat)
    requires k % 2 == 0 && k + 2 <= |a|
    ensures WordSum(a) == WordSum(a[..k]) + At16(a, k) + WordSum(a[k + 2..])
  {
    assert a == a[..k] + a[k..];
    WordSumSplit(a[..k], a[k..]);
    assert a[k..][2..] == a[k + 2..];
  }

  // ----- byte order -----

  function Swap(w: u16): (r: u16)
    ensures r == 0x100 * w - 0xffff * (w / 0x100)
  {
    w % 0x100 * 0x100 + w / 0x100
  }

  /** Every word with its bytes exchanged; an odd last byte is first padded with zero. */
  function SwapWords(data: seq<byte>): seq<byte>
  {
    if |data| == 0 then []
    else if |data| == 1 then [0, data[0]]
    else [data[1], data[0]] + SwapWords(data[2..])
  }

  lemma {:induction false} SwapWordsSum(data: seq<byte>) returns (k: nat)
    ensures WordSum(SwapWords(data)) == 0x100 * WordSum(data) - 0xffff * k
    ensures WordSum(SwapWords(data)) == 0 <==> WordSum(data) == 0
    decreases |data|
  {
    k := 0;
    if |data| == 1 {
      k := data[0];
      assert WordSum(SwapWords(data)) == data[0] + WordSum(SwapWords(data)[2..]);
    } else if |data| >= 2 {
      k := SwapWordsSum(data[2..]);
      k := k + data[0];
      assert SwapWords(data)[2..] == SwapWords(data[2..]);
    }
  }

  /** The sum can be computed in either byte order (section 2(B) of RFC 1071). */
  lemma {:induction false} ByteOrderIndependent(sum: u16, data: seq<byte>)
    ensures Swap(Fold(sum, data)) == Fold(Swap(sum), SwapWords(data))
  {
    FoldIsOnesSum(sum, data);
    FoldIsOnesSum(Swap(sum), SwapWords(data));
    var k := SwapWordsSum(data);
    SwapOnes(sum + WordSum(data), Swap(sum) + WordSum(SwapWords(data)), k + sum / 0x100);
  }

  lemma SwapOnes(n: nat, n': nat, k: int)
    requires n' == 0x100 * n - 0xffff * k && (n == 0 <==> n' == 0)
    ensures Swap(Ones(n)) == Ones(n')
  {
    var r := Ones(n);
    if n != 0 {
      var q := (n - 1) / 0xffff;
      assert r == n - 0xffff * q;
      var d := 0x100 * q + r / 0x100 - k;
      assert n' == Swap(r) + 0xffff * d;
      assert 1 <= Swap(r) <= 0xffff;
      assert d >= 0;
      OnesShift(Swap(r), d);
    }
  }

  /** One addition of the loop. */
  method AddWord(sum: u16, t: u16) returns (r: u16)
    ensures r == AddCarry(sum, t)
  {
    var s: int := (sum + t) % 0x1_0000;
    if s < t {
      s := s + 1;
    }
    r := s;
  }

  lemma FoldStep(sum: u16, data: seq<byte>)
    requires |data| >= 2
    ensures Fold(sum, data) == Fold(AddCarry(sum, At16(data, 0)), data[2..])
  {
  }

  /** `chksum` over `len` bytes of `data` starting at `from`. */
  method Chksum(start: u16, data: array<byte>, from: nat, len: nat) returns (sum: u16)
    requires from + len <= data.Length
    ensures sum == Fold(start, data[from..from + len])
  {
    sum := start;
    var p, last := from, from + len - 1;
    while p < last
      invariant from <= p <= from + len
      invariant Fold(start, data[from..from + len]) == Fold(sum, data[p..from + len])
    {
      var t := (data[p] as int) * 0x100 + data[p + 1];
      ghost var rest := data[p..from + len];
      FoldStep(sum, rest);
      assert rest[2..] == data[p + 2..from + len];
      sum := AddWord(sum, t);
      p := p + 2;
    }
    if p == last {
      sum := AddWord(sum, (data[p] as int) * 0x100);
    }
  }
}
