/** The decimal printer and parser of the firmware, which undo each other up to 2^31 - 1. */
module Decimal {
  import opened Bytes

  const INT_MAX: int := 0x7fff_ffff

  type digit = x: int | 0 <= x < 10

  // ----- printing -----

  /** A number in decimal, most significant digit first. */
  function Digits(v: nat): seq<byte> {
    if v < 10 then [0x30 + v] else Digits(v / 10) + [0x30 + v % 10]
  }

  /** The number a text of digits denotes. */
  function Denotes(s: seq<byte>): int {
    if s == [] then 0 else 10 * Denotes(s[..|s| - 1]) + (s[|s| - 1] as int - 0x30)
  }

  /** What is printed is the decimal notation of the number: digits that denote it, without a leading zero. */
  lemma {:induction false} DigitsDenote(v: nat)
    ensures Denotes(Digits(v)) == v && (forall c <- Digits(v) :: 0x30 <= c <= 0x39)
    ensures Digits(v) != [] && (v > 0 ==> Digits(v)[0] != 0x30)
  {
    if v < 10 {
      assert Digits(v)[..0] == [];
    } else {
      DigitsDenote(v / 10);
      assert Digits(v)[..|Digits(v)| - 1] == Digits(v / 10);
    }
  }

  function Power10(k: nat): nat {
    if k == 0 then 1 else 10 * Power10(k - 1)
  }

  /** A number below 10^k has at most k digits. */
  lemma {:induction false} DigitCount(v: nat, k: nat)
    requires k > 0 && v < Power10(k)
    ensures 1 <= |Digits(v)| <= k
    decreases k
  {
    if v >= 10 {
      assert v < 10 * Power10(k - 1);
      assert k > 1;
      DigitCount(v / 10, k - 1);
    }
  }

  lemma AtMostTen(v: nat)
    requires v < 0x1_0000_0000
    ensures 1 <= |Digits(v)| <= 10
  {
    assert Power10(4) == 10_000;
    assert Power10(7) == 10_000_000;
    assert Power10(10) == 10_000_000_000;
    DigitCount(v, 10);
  }

  /** The values of the digits from the least significant one. */
  function Reversed(v: nat): seq<digit> {
    if v < 10 then [v] else [v % 10] + Reversed(v / 10)
  }

  /** Digit values in reverse order, as characters. */
  function Ascii(s: seq<digit>): seq<byte> {
    if s == [] then [] else Ascii(s[1..]) + [0x30 + s[0] as int]
  }

  lemma {:induction false} AsciiReversed(v: nat)
    ensures Ascii(Reversed(v)) == Digits(v) && |Reversed(v)| == |Digits(v)|
  {
    if v >= 10 {
      AsciiReversed(v / 10);
      assert Reversed(v)[1..] == Reversed(v / 10);
    } else {
      assert Ascii(Reversed(v)[1..]) == [];
    }
  }

  /** The first loop of print_dec. */
  method Collect(val: nat, buffer: array<digit>) returns (p: nat)
    requires |Reversed(val)| <= buffer.Length
    modifies buffer
    ensures p <= buffer.Length && buffer[..p] == Reversed(val)
  {
    p := 0;
    var v := val;
    while v != 0 || p == 0
      invariant p <= buffer.Length && v >= 0
      invariant if v > 0 || p == 0 then buffer[..p] + Reversed(v) == Reversed(val) else buffer[..p] == Reversed(val)
      decreases v, p == 0
    {
      var before := buffer[..p];
      PeelDigit(before, v);
      assert p < |Reversed(val)|;
      buffer[p] := v % 10;
      p := p + 1;
      assert buffer[..p] == before + [v % 10];
      v := v / 10;
    }
  }

  lemma PeelDigit(a: seq<digit>, v: nat)
    ensures Reversed(v) != []
    ensures a + Reversed(v) == if v / 10 > 0 then (a + [v % 10]) + Reversed(v / 10) else a + [v % 10]
  {
  }

  /** The second loop of print_dec. */
  method Emit(buffer: array<digit>, n: nat) returns (output: seq<byte>)
    requires n <= buffer.Length
    ensures output == Ascii(buffer[..n])
  {
    output := [];
    var p: nat := n;
    ghost var all := buffer[..n];
    while p != 0
      invariant p <= n && output == Ascii(all[p..])
    {
      p := p - 1;
      assert all[p..][1..] == all[p + 1..] && all[p..][0] == buffer[p];
      output := output + [0x30 + buffer[p] as int];
    }
    assert all[0..] == all;
  }

  /** print_dec: the digits are collected in a buffer of ten and sent from its end. */
  method PrintDec(val: nat) returns (output: seq<byte>)
    requires val < 0x1_0000_0000
    ensures output == Digits(val) && |output| <= 10
  {
    AtMostTen(val);
    AsciiReversed(val);
    var buffer := new digit[10];
    var p := Collect(val, buffer);
    output := Emit(buffer, p);
  }

  // ----- parsing -----

  predicate IsDigit(c: byte) {
    0x30 <= c <= 0x39
  }

  /** A value stored into a 32-bit int. */
  function Int32(x: int): (r: int)
    ensures -0x8000_0000 <= r < 0x8000_0000
    ensures -0x8000_0000 <= x < 0x8000_0000 ==> r == x
    ensures 0x8000_0000 <= x < 0x1_0000_0000 ==> r == x - 0x1_0000_0000
  {
    (x + 0x8000_0000) % 0x1_0000_0000 - 0x8000_0000
  }

  /** The digit loop of atoi, with n read so far. */
  function Parse(s: seq<byte>, n: int): int
    requires 0 <= n <= INT_MAX
  {
    if s == [] || !IsDigit(s[0]) then n
    else
      var m := Int32(n * 10 + s[0] - 0x30);
      if m < 0 then INT_MAX else Parse(s[1..], m)
  }

  function SkipSpaces(s: seq<byte>): seq<byte> {
    if s != [] && s[0] == 0x20 then SkipSpaces(s[1..]) else s
  }

  const MINUS: byte := 0x2d
  const PLUS: byte := 0x2b

  function Atoi(s: seq<byte>): int {
    var t := SkipSpaces(s);
    if t != [] && t[0] == MINUS then -Parse(t[1..], 0)
    else if t != [] && t[0] == PLUS then Parse(t[1..], 0)
    else Parse(t, 0)
  }

  /** atoi on a string that ends in a zero byte. */
  method AtoiLoop(str: seq<byte>) returns (r: int)
    requires str != [] && str[|str| - 1] == 0
    ensures r == Atoi(str)
  {
    var p, s, neg := 0, 0, false;
    while str[p] == 0x20
      invariant p < |str| && SkipSpaces(str) == SkipSpaces(str[p..])
      decreases |str| - p
    {
      assert str[p..][1..] == str[p + 1..];
      p := p + 1;
    }
    assert SkipSpaces(str) == str[p..];
    if str[p] == MINUS || str[p] == PLUS {
      neg := str[p] == MINUS;
      assert str[p..][1..] == str[p + 1..];
      p := p + 1;
    }
    s := ParseLoop(str, p);
    r := s * if neg then -1 else 1;
  }

  method ParseLoop(str: seq<byte>, start: nat) returns (s: int)
    requires start < |str| && str[|str| - 1] == 0
    ensures s == Parse(str[start..], 0)
  {
    var p := start;
    s := 0;
    while IsDigit(str[p])
      invariant start <= p < |str| && 0 <= s <= INT_MAX && Parse(str[start..], 0) == Parse(str[p..], s)
      decreases |str| - p
    {
      assert str[p..][1..] == str[p + 1..];
      s := Int32(s * 10 + str[p] - 0x30);
      p := p + 1;
      if s < 0 {
        s := INT_MAX;
        break;
      }
    }
  }

  // ----- round trip -----

  lemma {:induction false} ParseDigits(v: nat, rest: seq<byte>)
    requires v <= INT_MAX
    ensures Parse(Digits(v) + rest, 0) == Parse(rest, v)
    decreases v
  {
    if v < 10 {
      ParseOne(0, v, rest);
    } else {
      ParseLast(v / 10, v % 10, rest);
    }
  }

  /** The digits of n, then one more. */
  lemma {:induction false} ParseLast(n: nat, d: nat, rest: seq<byte>)
    requires d < 10 && n <= INT_MAX && n * 10 + d < 0x1_0000_0000
    ensures Parse(Digits(n) + [0x30 + d] + rest, 0) ==
      if n * 10 + d <= INT_MAX then Parse(rest, n * 10 + d) else INT_MAX
    decreases n * 10 + d, 0
  {
    assert Digits(n) + [0x30 + d] + rest == Digits(n) + ([0x30 + d] + rest);
    if n < 10 {
      ParseOne(0, n, [0x30 + d] + rest);
    } else {
      ParseLast(n / 10, n % 10, [0x30 + d] + rest);
    }
    ParseOne(n, d, rest);
  }

  lemma ParseOne(n: nat, d: nat, rest: seq<byte>)
    requires d < 10 && n <= INT_MAX && n * 10 + d < 0x1_0000_0000
    ensures Parse([0x30 + d] + rest, n) ==
      if n * 10 + d <= INT_MAX then Parse(rest, n * 10 + d) else INT_MAX
  {
    assert ([0x30 + d] + rest)[1..] == rest;
  }

  /** Parsing what print_dec printed gives the number back, or the greatest int when it is larger. */
  lemma PrintThenParse(v: nat, rest: seq<byte>)
    requires v < 0x1_0000_0000 && (rest == [] || !IsDigit(rest[0]))
    ensures Atoi(Digits(v) + rest) == Min(v, INT_MAX)
    ensures Atoi([MINUS] + Digits(v) + rest) == -Min(v, INT_MAX)
  {
    ParsePrinted(v, rest);
    FirstIsDigit(v);
    var t := Digits(v) + rest;
    assert t[0] == Digits(v)[0] && SkipSpaces(t) == t;
    assert ([MINUS] + Digits(v) + rest)[1..] == t;
  }

  /** Spaces before the number and one sign are read over, and a minus negates. */
  lemma {:induction false} SignsAndSpaces(spaces: nat, v: nat, rest: seq<byte>)
    requires v < 0x1_0000_0000 && (rest == [] || !(0x30 <= rest[0] <= 0x39))
    ensures var number := Digits(v) + rest;
      && Atoi(Spaces(spaces) + number) == Min(v, 0x7fff_ffff)
      && Atoi(Spaces(spaces) + ([0x2b] + number)) == Min(v, 0x7fff_ffff)
      && Atoi(Spaces(spaces) + ([0x2d] + number)) == -Min(v, 0x7fff_ffff)
  {
    var number := Digits(v) + rest;
    PrintThenParse(v, rest);
    ParsePrinted(v, rest);
    FirstIsDigit(v);
    assert [0x2d] + Digits(v) + rest == [0x2d] + number && ([0x2b] + number)[1..] == number;
    SkipsSpaces(spaces, number);
    SkipsSpaces(spaces, [0x2b] + number);
    SkipsSpaces(spaces, [0x2d] + number);
  }

  function Spaces(n: nat): seq<byte> {
    if n == 0 then [] else [0x20] + Spaces(n - 1)
  }

  lemma {:induction false} SkipsSpaces(n: nat, t: seq<byte>)
    requires t != [] && t[0] != 0x20
    ensures SkipSpaces(Spaces(n) + t) == t && Atoi(Spaces(n) + t) == Atoi(t)
  {
    if n == 0 {
      assert Spaces(0) + t == t;
    } else {
      assert (Spaces(n) + t)[1..] == Spaces(n - 1) + t;
      SkipsSpaces(n - 1, t);
    }
  }

  lemma {:induction false} FirstIsDigit(v: nat)
    ensures Digits(v) != [] && IsDigit(Digits(v)[0])
  {
    if v >= 10 {
      FirstIsDigit(v / 10);
    }
  }

  lemma ParsePrinted(v: nat, rest: seq<byte>)
    requires v < 0x1_0000_0000 && (rest == [] || !IsDigit(rest[0]))
    ensures Parse(Digits(v) + rest, 0) == Min(v, INT_MAX)
  {
    if v < 10 {
      ParseDigits(v, rest);
    } else {
      ParseLast(v / 10, v % 10, rest);
    }
  }

  lemma ParseWide(n: nat, d: nat, rest: seq<byte>)
    requires d < 10 && n <= INT_MAX
    ensures Parse([0x30 + d] + rest, n) == var m := Int32(n * 10 + d); if m < 0 then INT_MAX else Parse(rest, m)
  {
    assert ([0x30 + d] + rest)[1..] == rest;
  }

  lemma Residue(x: nat)
    ensures var w := x % 0x1_0000_0000; Int32(x) == if w <= INT_MAX then w else w - 0x1_0000_0000
  {
    var q, w := x / 0x1_0000_0000, x % 0x1_0000_0000;
    var y := w + 0x8000_0000;
    assert x + 0x8000_0000 == 0x1_0000_0000 * q + y;
    if y < 0x1_0000_0000 {
      RemainderIs(x + 0x8000_0000, q, y);
    } else {
      RemainderIs(x + 0x8000_0000, q + 1, y - 0x1_0000_0000);
    }
  }

  lemma RemainderIs(x: nat, q: nat, r: nat)
    requires x == 0x1_0000_0000 * q + r && r < 0x1_0000_0000
    ensures x % 0x1_0000_0000 == r
  {
  }

  /** The first digits that exceed the range decide, whatever follows: what is left of them in 32 bits. */
  lemma ParseBeyond(v: nat, rest: seq<byte>)
    requires INT_MAX < v < 10 * 0x8000_0000
    ensures var w := v % 0x1_0000_0000;
      Parse(Digits(v) + rest, 0) == if w <= INT_MAX then Parse(rest, w) else INT_MAX
  {
    var n, d := v / 10, v % 10;
    assert Digits(v) + rest == Digits(n) + ([0x30 + d] + rest);
    ParseDigits(n, [0x30 + d] + rest);
    ParseWide(n, d, rest);
    Residue(v);
  }

  /** Above the range of int the result is the greatest int, as it should be, exactly if the number is
      below 2^32 or what is left of it in 32 bits is not a smaller int. */
  lemma SaturatesExactly(v: nat, rest: seq<byte>)
    requires v < 10 * 0x8000_0000 && (rest == [] || !IsDigit(rest[0]))
    ensures Atoi(Digits(v) + rest) == Min(v, INT_MAX) <==> v < 0x1_0000_0000 || v % 0x1_0000_0000 >= INT_MAX
  {
    if v < 0x1_0000_0000 {
      PrintThenParse(v, rest);
    } else {
      ParseBeyond(v, rest);
      NoSign(v, rest);
      assert v % 0x1_0000_0000 <= INT_MAX ==> Parse(rest, v % 0x1_0000_0000) == v % 0x1_0000_0000;
    }
  }

  lemma NoSign(v: nat, rest: seq<byte>)
    ensures Atoi(Digits(v) + rest) == Parse(Digits(v) + rest, 0)
  {
    FirstIsDigit(v);
    var t := Digits(v) + rest;
    assert t[0] == Digits(v)[0] && SkipSpaces(t) == t;
  }

  /** The first number that is misread: 2^32 is read as 0. */
  lemma WrapsToZero(v: nat)
    requires v == 0x1_0000_0000
    ensures Atoi(Digits(v)) == 0
  {
    assert Digits(v) == Digits(v) + [];
    ParseBeyond(v, []);
    NoSign(v, []);
  }
}
