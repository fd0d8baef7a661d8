/** The string functions of the firmware's C library. Memory is an array of characters, an address
    an index into it; the machine is little-endian and `char` is unsigned. */
module Libc {

  datatype Char = Char(bits: bv8)

  const NUL := Char(0)

  predicate Less(a: Char, b: Char) {
    a.bits < b.bits
  }

  // ----- words -----

  /** The 32-bit word with bytes a, b, c and d at increasing addresses. */
  function Word(a: Char, b: Char, c: Char, d: Char): bv32 {
    Pack(a.bits, b.bits, c.bits, d.bits)
  }

  function Pack(a: bv8, b: bv8, c: bv8, d: bv8): bv32 {
    (a as bv32) | ((b as bv32) << 8) | ((c as bv32) << 16) | ((d as bv32) << 24)
  }

  /** `(v - 0x01010101) & ~v & 0x80808080`. */
  function ZeroMask(v: bv32): bv32 {
    (v - 0x01010101) & !v & 0x80808080
  }

  function LowByte(v: bv32): Char {
    Char((v & 0xff) as bv8)
  }

  /** The mask is nonzero exactly if a byte is zero. */
  lemma ZeroMaskFindsZero(a: Char, b: Char, c: Char, d: Char)
    ensures ZeroMask(Word(a, b, c, d)) != 0 <==> a == NUL || b == NUL || c == NUL || d == NUL
  {
    MaskBits(a.bits, b.bits, c.bits, d.bits);
  }

  lemma MaskBits(a: bv8, b: bv8, c: bv8, d: bv8)
    ensures ZeroMask(Pack(a, b, c, d)) != 0 <==> a == 0 || b == 0 || c == 0 || d == 0
  {
  }

  lemma WordBytes(a: Char, b: Char, c: Char, d: Char)
    ensures var v := Word(a, b, c, d);
      LowByte(v) == a && LowByte(v >> 8) == b && LowByte(v >> 8 >> 8) == c && LowByte(v >> 8 >> 8 >> 8) == d
  {
  }

  lemma WordsDiffer(a: Char, b: Char, c: Char, d: Char, a': Char, b': Char, c': Char, d': Char)
    ensures Word(a, b, c, d) == Word(a', b', c', d') <==> a == a' && b == b' && c == c' && d == d'
  {
    WordBytes(a, b, c, d);
    WordBytes(a', b', c', d');
  }

  /** The four bytes of a word, from the low end. */
  method Unpack(v: bv32, ghost a: Char, ghost b: Char, ghost c: Char, ghost d: Char)
    returns (w: Char, x: Char, y: Char, z: Char)
    requires v == Word(a, b, c, d)
    ensures w == a && x == b && y == c && z == d
  {
    WordBytes(a, b, c, d);
    w := LowByte(v);
    x := LowByte(v >> 8);
    y := LowByte(v >> 8 >> 8);
    z := LowByte(v >> 8 >> 8 >> 8);
  }

  /** The test of the word loops, on the word whose bytes are a, b, c and d. */
  method HasZero(a: Char, b: Char, c: Char, d: Char) returns (v: bv32, zero: bool)
    ensures v == Word(a, b, c, d)
    ensures zero <==> a == NUL || b == NUL || c == NUL || d == NUL
  {
    v := Word(a, b, c, d);
    ZeroMaskFindsZero(a, b, c, d);
    zero := ZeroMask(v) != 0;
  }

  /** The lower two bits of an address are zero. */
  predicate Aligned(p: nat) {
    if p < 4 then p == 0 else Aligned(p - 4)
  }

  /** An aligned word that starts inside memory lies inside it. */
  lemma {:induction false} AlignedRoom(size: nat, p: nat)
    requires size % 4 == 0 && Aligned(p) && p < size
    ensures p + 4 <= size
  {
    if p >= 4 {
      AlignedRoom(size - 4, p - 4);
    }
  }

  // ----- copying -----

  /** A string of n bytes at p, with its terminating zero. */
  predicate StringAt(mem: seq<Char>, p: nat, n: nat) {
    p + n < |mem| && mem[p + n] == NUL && forall j :: p <= j < p + n ==> mem[j] != NUL
  }

  /** The first k bytes at src have been copied to dst, and nothing else has changed. */
  ghost predicate Copied(mem: array<Char>, before: seq<Char>, dst: nat, src: nat, k: nat)
    reads mem
  {
    && |before| == mem.Length && dst + k <= |before| && src + k <= |before|
    && (forall j :: dst <= j < dst + k ==> mem[j] == before[j - dst + src])
    && (forall j :: 0 <= j < |before| && !(dst <= j < dst + k) ==> mem[j] == before[j])
  }

  /** strcpy of a string of n bytes: bytes until both pointers are aligned, then words until one
      holds a zero. */
  method Strcpy(mem: array<Char>, dst: nat, src: nat, ghost n: nat)
    requires mem.Length % 4 == 0 && StringAt(mem[..], src, n)
    requires dst + n < mem.Length && (dst + n < src || src + n < dst)
    modifies mem
    ensures Copied(mem, old(mem[..]), dst, src, n + 1)
  {
    ghost var before := mem[..];
    var i, done := CopyBytes(mem, dst, src, n);
    while !done
      invariant !done ==> i <= n && Aligned(dst + i) && Aligned(src + i) && Copied(mem, before, dst, src, i)
      invariant done ==> Copied(mem, before, dst, src, n + 1)
      decreases !done, n - i
    {
      done := WordStep(mem, dst, src, i, n, before);
      i := i + 4;
    }
  }

  /** The byte loop. */
  method CopyBytes(mem: array<Char>, dst: nat, src: nat, ghost n: nat) returns (i: nat, done: bool)
    requires StringAt(mem[..], src, n) && dst + n < mem.Length && (dst + n < src || src + n < dst)
    modifies mem
    ensures done ==> Copied(mem, old(mem[..]), dst, src, n + 1)
    ensures !done ==> i <= n && Aligned(dst + i) && Aligned(src + i) && Copied(mem, old(mem[..]), dst, src, i)
  {
    ghost var before := mem[..];
    i, done := 0, false;
    while !Aligned(dst + i) || !Aligned(src + i)
      invariant i <= n && Copied(mem, before, dst, src, i)
      decreases n - i
    {
      var c := CopyByte(mem, dst, src, i, n, before);
      i := i + 1;
      if c == NUL {
        done := true;
        return;
      }
    }
  }

  method CopyByte(mem: array<Char>, dst: nat, src: nat, i: nat, ghost n: nat, ghost before: seq<Char>) returns (c: Char)
    requires StringAt(before, src, n) && dst + n < |before| && (dst + n < src || src + n < dst)
    requires i <= n && Copied(mem, before, dst, src, i)
    modifies mem
    ensures Copied(mem, before, dst, src, i + 1) && (c == NUL <==> i == n)
  {
    c := mem[src + i];
    mem[dst + i] := c;
  }

  /** One round of the word loop. */
  method WordStep(mem: array<Char>, dst: nat, src: nat, i: nat, ghost n: nat, ghost before: seq<Char>)
    returns (last: bool)
    requires mem.Length % 4 == 0 && StringAt(before, src, n) && dst + n < mem.Length && (dst + n < src || src + n < dst)
    requires i <= n && Aligned(dst + i) && Aligned(src + i) && Copied(mem, before, dst, src, i)
    modifies mem
    ensures last ==> Copied(mem, before, dst, src, n + 1)
    ensures !last ==> i + 4 <= n && Copied(mem, before, dst, src, i + 4)
  {
    AlignedRoom(mem.Length, dst + i);
    AlignedRoom(mem.Length, src + i);
    ghost var middle := mem[..];
    StringStays(mem, before, dst, src, i, n);
    last := CopyWord(mem, dst + i, src + i);
    WordEnds(mem, before, middle, dst, src, i, n);
  }

  /** A word stored up to its first zero completes the string, or four bytes more of it. */
  lemma WordEnds(mem: array<Char>, before: seq<Char>, middle: seq<Char>, dst: nat, src: nat, i: nat, n: nat)
    requires |before| == |middle| == mem.Length && src + i + 4 <= mem.Length && dst + i + 4 <= mem.Length
    requires StringAt(middle, src, n) && i <= n && (dst + n < src || src + n < dst)
    requires forall j :: dst <= j < dst + i ==> middle[j] == before[j - dst + src]
    requires forall j :: 0 <= j < |before| && !(dst <= j < dst + i) ==> middle[j] == before[j]
    requires Copied(mem, middle, dst + i, src + i, Stored(middle[src + i], middle[src + i + 1], middle[src + i + 2]))
    ensures if middle[src + i] == NUL || middle[src + i + 1] == NUL || middle[src + i + 2] == NUL ||
      middle[src + i + 3] == NUL
            then Copied(mem, before, dst, src, n + 1)
            else i + 4 <= n && Copied(mem, before, dst, src, i + 4)
  {
    WordEnd(middle, src, n, i);
    CopiedOn(mem, before, middle, dst, src, i, Stored(middle[src + i], middle[src + i + 1], middle[src + i + 2]));
  }

  /** The string is still there while it is being copied. */
  lemma StringStays(mem: array<Char>, before: seq<Char>, dst: nat, src: nat, i: nat, n: nat)
    requires StringAt(before, src, n) && i <= n && (dst + n < src || src + n < dst) && Copied(mem, before, dst, src, i)
    ensures StringAt(mem[..], src, n)
  {
  }

  /** Copying goes on where it stopped. */
  lemma CopiedOn(mem: array<Char>, before: seq<Char>, middle: seq<Char>, dst: nat, src: nat, i: nat, k: nat)
    requires |before| == |middle| == mem.Length && dst + i + k <= mem.Length && src + i + k <= mem.Length
    requires forall j :: dst <= j < dst + i ==> middle[j] == before[j - dst + src]
    requires forall j :: 0 <= j < |before| && !(dst <= j < dst + i) ==> middle[j] == before[j]
    requires dst + i + k <= src + i || src + i + k <= dst
    requires Copied(mem, middle, dst + i, src + i, k)
    ensures Copied(mem, before, dst, src, i + k)
  {
  }

  /** The word at i holds a zero exactly if the string ends in it. */
  lemma WordEnd(b: seq<Char>, src: nat, n: nat, i: nat)
    requires StringAt(b, src, n) && i <= n && src + i + 4 <= |b|
    ensures var last := b[src + i] == NUL || b[src + i + 1] == NUL || b[src + i + 2] == NUL || b[src + i + 3] == NUL;
      && (last <==> n < i + 4)
      && i + Stored(b[src + i], b[src + i + 1], b[src + i + 2]) == if last then n + 1 else i + 4
  {
  }

  /** The number of bytes of a word that strcpy stores: up to a zero. */
  function Stored(a: Char, b: Char, c: Char): nat {
    if a == NUL then 1 else if b == NUL then 2 else if c == NUL then 3 else 4
  }

  /** w has been laid down at dst, and nothing else has changed. */
  ghost predicate Laid(mem: array<Char>, before: seq<Char>, dst: nat, w: seq<Char>)
    reads mem
  {
    && |before| == mem.Length && dst + |w| <= |before|
    && (forall j :: dst <= j < dst + |w| ==> mem[j] == w[j - dst])
    && (forall j :: 0 <= j < |before| && !(dst <= j < dst + |w|) ==> mem[j] == before[j])
  }

  lemma LaidIsCopied(mem: array<Char>, before: seq<Char>, dst: nat, src: nat, w: seq<Char>)
    requires Laid(mem, before, dst, w) && src + |w| <= |before| && before[src..src + |w|] == w
    ensures Copied(mem, before, dst, src, |w|)
  {
  }

  /** One word of strcpy: copied whole, or byte by byte up to its first zero. */
  method CopyWord(mem: array<Char>, dst: nat, src: nat) returns (last: bool)
    requires dst + 4 <= mem.Length && src + 4 <= mem.Length
    modifies mem
    ensures last <==> old(mem[src] == NUL || mem[src + 1] == NUL || mem[src + 2] == NUL || mem[src + 3] == NUL)
    ensures Copied(mem, old(mem[..]), dst, src, Stored(old(mem[src]), old(mem[src + 1]), old(mem[src + 2])))
  {
    ghost var before, a, b, c, d := mem[..], mem[src], mem[src + 1], mem[src + 2], mem[src + 3];
    var v, zero := HasZero(mem[src], mem[src + 1], mem[src + 2], mem[src + 3]);
    var w, x, y, z := Unpack(v, a, b, c, d);
    last := zero;
    StoreBytes(mem, dst, w, x, y, z, last);
    ghost var k := Stored(a, b, c);
    assert before[src..src + k] == [a, b, c, d][..k];
    LaidIsCopied(mem, before, dst, src, [a, b, c, d][..k]);
  }

  /** The four stores, with the tests for the zero that ends the string between them. */
  method StoreBytes(mem: array<Char>, dst: nat, w: Char, x: Char, y: Char, z: Char, last: bool)
    requires dst + 4 <= mem.Length && last == (w == NUL || x == NUL || y == NUL || z == NUL)
    modifies mem
    ensures Laid(mem, old(mem[..]), dst, [w, x, y, z][..Stored(w, x, y)])
  {
    mem[dst] := w;
    if last && w == NUL {
      return;
    }
    mem[dst + 1] := x;
    if last && x == NUL {
      return;
    }
    mem[dst + 2] := y;
    if last && y == NUL {
      return;
    }
    mem[dst + 3] := z;
  }

  /** memmove: the copy runs upwards or downwards, so that the source is read before it is overwritten. */
  method Memmove(mem: array<Char>, dest: nat, src: nat, n: nat)
    requires dest + n <= mem.Length && src + n <= mem.Length
    modifies mem
    ensures Copied(mem, old(mem[..]), dest, src, n)
  {
    if src > dest {
      MoveUp(mem, dest, src, n);
    } else if src < dest {
      MoveDown(mem, dest, src, n);
    }
  }

  method MoveUp(mem: array<Char>, dest: nat, src: nat, n: nat)
    requires dest < src && src + n <= mem.Length
    modifies mem
    ensures Copied(mem, old(mem[..]), dest, src, n)
  {
    ghost var before := mem[..];
    var left: nat, d: nat, s: nat := n, dest, src;
    while left > 0
      invariant left <= n && d == dest + n - left && s == src + n - left && Copied(mem, before, dest, src, n - left)
    {
      left := left - 1;
      MoveByte(mem, d, s, dest, src, n - left - 1, before);
      d, s := d + 1, s + 1;
    }
  }

  method MoveByte(mem: array<Char>, d: nat, s: nat, ghost dest: nat, ghost src: nat, ghost k: nat,
                  ghost before: seq<Char>)
    requires dest < src && src + k < mem.Length && d == dest + k && s == src + k && Copied(mem, before, dest, src, k)
    modifies mem
    ensures Copied(mem, before, dest, src, k + 1)
  {
    mem[d] := mem[s];
  }

  method MoveDown(mem: array<Char>, dest: nat, src: nat, n: nat)
    requires src < dest && dest + n <= mem.Length
    modifies mem
    ensures Copied(mem, old(mem[..]), dest, src, n)
  {
    ghost var before := mem[..];
    var left: nat, d, s := n, dest + n - 1, src + n - 1;
    while left > 0
      invariant left <= n && d == dest + left - 1 && s == src + left - 1 &&
        Copied(mem, before, dest + left, src + left, n - left)
    {
      left := left - 1;
      mem[d] := mem[s];
      d, s := d - 1, s - 1;
    }
  }

  // ----- comparison -----

  /** The sign of the comparison of two strings: by the first byte in which they differ, the end of a
      string counting as zero. */
  function Compare(s: seq<Char>, t: seq<Char>): int {
    if s == [] then (if t == [] then 0 else -1)
    else if t == [] then 1
    else if s[0] != t[0] then (if Less(s[0], t[0]) then -1 else 1)
    else Compare(s[1..], t[1..])
  }

  /** The comparison is zero exactly for equal strings, and changes sign when they change places. */
  lemma {:induction false} CompareEqual(s: seq<Char>, t: seq<Char>)
    ensures Compare(s, t) == 0 <==> s == t
    ensures Compare(s, t) == -Compare(t, s)
  {
    if s != [] && t != [] && s[0] == t[0] {
      CompareEqual(s[1..], t[1..]);
      assert s == [s[0]] + s[1..] && t == [t[0]] + t[1..];
    }
  }

  /** s comes before t in the dictionary: up to some byte they are the same, and there s ends, or has the
      smaller unsigned byte. */
  ghost predicate Before(s: seq<Char>, t: seq<Char>) {
    exists k: nat :: SameUntil(s, t, k) && k < |t| && (k == |s| || s[k].bits as int < t[k].bits as int)
  }

  predicate SameUntil(s: seq<Char>, t: seq<Char>, k: nat) {
    k <= |s| && k <= |t| && s[..k] == t[..k]
  }

  /** The sign of the comparison is the order of the dictionary. */
  lemma {:induction false} CompareOrders(s: seq<Char>, t: seq<Char>)
    ensures Compare(s, t) == -1 <==> Before(s, t)
    ensures Compare(s, t) == 1 <==> Before(t, s)
    ensures -1 <= Compare(s, t) <= 1
  {
    CompareBefore(s, t);
    CompareBefore(t, s);
    CompareEqual(s, t);
    CompareRange(s, t);
  }

  lemma {:induction false} CompareRange(s: seq<Char>, t: seq<Char>)
    ensures -1 <= Compare(s, t) <= 1
  {
    if s != [] && t != [] && s[0] == t[0] {
      CompareRange(s[1..], t[1..]);
    }
  }

  lemma {:induction false} CompareBefore(s: seq<Char>, t: seq<Char>)
    ensures Compare(s, t) == -1 <==> Before(s, t)
  {
    if s == [] || t == [] || s[0] != t[0] {
      BeforeAtOnce(s, t);
    } else {
      BeforeLater(s, t);
      CompareBefore(s[1..], t[1..]);
    }
  }

  /** The part that is the same contains the first byte, if any. */
  lemma SameFirst(s: seq<Char>, t: seq<Char>, k: nat)
    requires SameUntil(s, t, k)
    ensures k > 0 ==> s[0] == t[0] && SameUntil(s[1..], t[1..], k - 1)
  {
    if k > 0 {
      assert s[..k][0] == t[..k][0];
      assert s[1..][..k - 1] == s[..k][1..] && t[1..][..k - 1] == t[..k][1..];
    }
  }

  lemma BeforeAtOnce(s: seq<Char>, t: seq<Char>)
    requires s == [] || t == [] || s[0] != t[0]
    ensures Before(s, t) <==> t != [] && (s == [] || s[0].bits as int < t[0].bits as int)
  {
    assert SameUntil(s, t, 0);
    if Before(s, t) {
      var k: nat :| SameUntil(s, t, k) && k < |t| && (k == |s| || s[k].bits as int < t[k].bits as int);
      SameFirst(s, t, k);
    }
  }

  lemma BeforeLater(s: seq<Char>, t: seq<Char>)
    requires s != [] && t != [] && s[0] == t[0]
    ensures Before(s, t) <==> Before(s[1..], t[1..])
  {
    if Before(s[1..], t[1..]) {
      var k: nat :| SameUntil(s[1..], t[1..], k) && k < |t[1..]| &&
        (k == |s[1..]| || s[1..][k].bits as int < t[1..][k].bits as int);
      assert s[..k + 1] == [s[0]] + s[1..][..k] && t[..k + 1] == [t[0]] + t[1..][..k];
      assert SameUntil(s, t, k + 1);
    }
    if Before(s, t) {
      var k: nat :| SameUntil(s, t, k) && k < |t| && (k == |s| || s[k].bits as int < t[k].bits as int);
      SameFirst(s, t, k);
      assert k > 0;
    }
  }

  /** The comparison of the strings at p and q, byte by byte. */
  function CompareAt(mem: seq<Char>, p: nat, q: nat): int
    decreases |mem| - p
  {
    if p >= |mem| || q >= |mem| then 0
    else if mem[p] != mem[q] then (if Less(mem[p], mem[q]) then -1 else 1)
    else if mem[p] == NUL then 0
    else CompareAt(mem, p + 1, q + 1)
  }

  /** It is the comparison of the two texts. */
  lemma {:induction false} CompareAtCompares(mem: seq<Char>, p: nat, m: nat, q: nat, n: nat)
    requires StringAt(mem, p, m) && StringAt(mem, q, n)
    ensures CompareAt(mem, p, q) == Compare(mem[p..p + m], mem[q..q + n])
    decreases m
  {
    NulIsLeast(mem[p], mem[q]);
    var s, t := mem[p..p + m], mem[q..q + n];
    if 0 < m && 0 < n && mem[p] == mem[q] {
      CompareAtCompares(mem, p + 1, m - 1, q + 1, n - 1);
      assert s[1..] == mem[p + 1..p + m] && t[1..] == mem[q + 1..q + n];
    }
  }

  lemma NulIsLeast(a: Char, b: Char)
    ensures a == NUL && b != NUL ==> Less(a, b)
    ensures b == NUL ==> !Less(a, b)
  {
  }

  /** What k bytes decide: the first difference, or 0 at a common zero or when there is none. */
  function Verdict(s: seq<Char>, t: seq<Char>): int
    requires |s| == |t|
  {
    if s == [] then 0
    else if s[0] != t[0] then (if Less(s[0], t[0]) then -1 else 1)
    else if s[0] == NUL then 0
    else Verdict(s[1..], t[1..])
  }

  /** Equal bytes without a zero decide nothing; any others decide the comparison. */
  lemma {:induction false} VerdictDecides(mem: seq<Char>, p: nat, q: nat, k: nat)
    requires p + k <= |mem| && q + k <= |mem|
    ensures var s, t := mem[p..p + k], mem[q..q + k];
      CompareAt(mem, p, q) == if s != t || NUL in s then Verdict(s, t) else CompareAt(mem, p + k, q + k)
    decreases k
  {
    var s, t := mem[p..p + k], mem[q..q + k];
    if k > 0 {
      if s[0] == t[0] != NUL {
        VerdictDecides(mem, p + 1, q + 1, k - 1);
        assert s[1..] == mem[p + 1..p + 1 + (k - 1)] && t[1..] == mem[q + 1..q + 1 + (k - 1)];
        assert s == [s[0]] + s[1..] && t == [t[0]] + t[1..];
      }
    }
  }

  /** strcmp of two strings of m and n bytes. */
  method Strcmp(mem: array<Char>, p: nat, q: nat, ghost m: nat, ghost n: nat) returns (r: int)
    requires mem.Length % 4 == 0 && StringAt(mem[..], p, m) && StringAt(mem[..], q, n)
    ensures r == Compare(mem[..][p..p + m], mem[..][q..q + n])
  {
    CompareAtCompares(mem[..], p, m, q, n);
    r := CompareStrings(mem, p, q, m, n);
  }

  method CompareStrings(mem: array<Char>, p: nat, q: nat, ghost m: nat, ghost n: nat) returns (r: int)
    requires mem.Length % 4 == 0 && StringAt(mem[..], p, m) && StringAt(mem[..], q, n)
    ensures r == CompareAt(mem[..], p, q)
  {
    ghost var b := mem[..];
    var i, done;
    i, done, r := CompareBytes(mem, p, q, m, n);
    while !done
      invariant done ==> r == CompareAt(b, p, q)
      invariant !done ==>
        i <= m && i <= n && Aligned(p + i) && Aligned(q + i) && CompareAt(b, p, q) == CompareAt(b, p + i, q + i)
      decreases !done, m - i
    {
      done, r := CompareStep(mem, p + i, q + i, m - i, n - i);
      i := i + 4;
    }
  }

  /** The byte loop. */
  method CompareBytes(mem: array<Char>, p: nat, q: nat, ghost m: nat, ghost n: nat) returns (i: nat, done: bool, r: int)
    requires StringAt(mem[..], p, m) && StringAt(mem[..], q, n)
    ensures done ==> r == CompareAt(mem[..], p, q)
    ensures !done ==>
      i <= m && i <= n && Aligned(p + i) && Aligned(q + i) &&
      CompareAt(mem[..], p, q) == CompareAt(mem[..], p + i, q + i)
  {
    ghost var b := mem[..];
    i, done, r := 0, false, 0;
    while !Aligned(p + i) || !Aligned(q + i)
      invariant i <= m && i <= n && !done
      invariant CompareAt(b, p, q) == CompareAt(b, p + i, q + i)
      decreases m - i
    {
      var c1, c2 := mem[p + i], mem[q + i];
      assert c1 == b[p + i] && c2 == b[q + i];
      if c1 != c2 {
        return i, true, if Less(c1, c2) then -1 else 1;
      } else if c1 == NUL {
        return i, true, 0;
      }
      i := i + 1;
    }
  }

  /** One round of the word loop. */
  method CompareStep(mem: array<Char>, p: nat, q: nat, ghost m: nat, ghost n: nat) returns (done: bool, r: int)
    requires mem.Length % 4 == 0 && StringAt(mem[..], p, m) && StringAt(mem[..], q, n) && Aligned(p) && Aligned(q)
    ensures done ==> r == CompareAt(mem[..], p, q)
    ensures !done ==>
      4 <= m && 4 <= n && Aligned(p + 4) && Aligned(q + 4) &&
      CompareAt(mem[..], p, q) == CompareAt(mem[..], p + 4, q + 4)
  {
    AlignedRoom(mem.Length, p);
    AlignedRoom(mem.Length, q);
    VerdictDecides(mem[..], p, q, 4);
    NoZero(mem[..], p, m);
    NoZero(mem[..], q, n);
    done, r := CompareWord(mem, p, q);
  }

  lemma NoZero(b: seq<Char>, p: nat, m: nat)
    requires StringAt(b, p, m) && p + 4 <= |b|
    ensures NUL !in b[p..p + 4] ==> 4 <= m
  {
    if m < 4 {
      assert b[p..p + 4][m] == NUL;
    }
  }

  /** One word of strcmp. */
  method CompareWord(mem: array<Char>, p: nat, q: nat) returns (done: bool, r: int)
    requires p + 4 <= mem.Length && q + 4 <= mem.Length
    ensures done <==> mem[..][p..p + 4] != mem[..][q..q + 4] || NUL in mem[..][p..p + 4]
    ensures done ==> r == Verdict(mem[..][p..p + 4], mem[..][q..q + 4])
  {
    ghost var s, t := mem[..][p..p + 4], mem[..][q..q + 4];
    assert s == [mem[p], mem[p + 1], mem[p + 2], mem[p + 3]] && t == [mem[q], mem[q + 1], mem[q + 2], mem[q + 3]];
    done, r := CompareLoaded(mem[p], mem[p + 1], mem[p + 2], mem[p + 3], mem[q], mem[q + 1], mem[q + 2], mem[q + 3]);
  }

  method CompareLoaded(a: Char, b: Char, c: Char, d: Char, a': Char, b': Char, c': Char, d': Char)
    returns (done: bool, r: int)
    ensures done <==> [a, b, c, d] != [a', b', c', d'] || NUL in [a, b, c, d]
    ensures done ==> r == Verdict([a, b, c, d], [a', b', c', d'])
  {
    var v1, zero := HasZero(a, b, c, d);
    var v2 := Word(a', b', c', d');
    WordsDiffer(a, b, c, d, a', b', c', d');
    if v1 != v2 {
      r := DecideWords(v1, v2, [a, b, c, d], [a', b', c', d']);
      return true, r;
    }
    EqualVerdict([a, b, c, d]);
    return zero, 0;
  }

  lemma {:induction false} EqualVerdict(s: seq<Char>)
    ensures Verdict(s, s) == 0
  {
    if s != [] {
      EqualVerdict(s[1..]);
    }
  }

  /** Two different words, compared byte by byte from the low end. */
  method DecideWords(v1: bv32, v2: bv32, ghost s: seq<Char>, ghost t: seq<Char>) returns (r: int)
    requires |s| == |t| == 4 && v1 == Word(s[0], s[1], s[2], s[3]) && v2 == Word(t[0], t[1], t[2], t[3])
    ensures r == Verdict(s, t)
  {
    var a1, b1, c1, d1 := Unpack(v1, s[0], s[1], s[2], s[3]);
    var a2, b2, c2, d2 := Unpack(v2, t[0], t[1], t[2], t[3]);
    VerdictOfFour(s, t);
    if a1 != a2 {
      return if Less(a1, a2) then -1 else 1;
    }
    if a1 == NUL {
      return 0;
    }
    if b1 != b2 {
      return if Less(b1, b2) then -1 else 1;
    }
    if b1 == NUL {
      return 0;
    }
    if c1 != c2 {
      return if Less(c1, c2) then -1 else 1;
    }
    if c1 == NUL {
      return 0;
    }
    if d1 != d2 {
      return if Less(d1, d2) then -1 else 1;
    }
    return 0;
  }

  lemma VerdictOfFour(s: seq<Char>, t: seq<Char>)
    requires |s| == |t| == 4
    ensures Verdict(s, t) ==
      if s[0] != t[0] then (if Less(s[0], t[0]) then -1 else 1) else if s[0] == NUL then 0
      else if s[1] != t[1] then (if Less(s[1], t[1]) then -1 else 1) else if s[1] == NUL then 0
      else if s[2] != t[2] then (if Less(s[2], t[2]) then -1 else 1) else if s[2] == NUL then 0
      else if s[3] != t[3] then (if Less(s[3], t[3]) then -1 else 1) else 0
  {
    var s1, t1 := s[1..], t[1..];
    var s2, t2 := s1[1..], t1[1..];
    var s3, t3 := s2[1..], t2[1..];
    assert Verdict(s3[1..], t3[1..]) == 0;
    assert Verdict(s2, t2) ==
      if s2[0] != t2[0] then (if Less(s2[0], t2[0]) then -1 else 1) else if s2[0] == NUL then 0 else Verdict(s3, t3);
    assert Verdict(s1, t1) ==
      if s1[0] != t1[0] then (if Less(s1[0], t1[0]) then -1 else 1) else if s1[0] == NUL then 0 else Verdict(s2, t2);
  }
}
