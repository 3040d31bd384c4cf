/**
 * The MD5 message digest as RFC 1321 defines it: padding (section 3.1), length (section 3.2), initial
 * registers (section 3.3), the 64 indexed operations (section 3.4) and the output (section 3.5).
 */
module Md5Spec {
  import opened Words

  datatype Regs = Regs(a: u32, b: u32, c: u32, d: u32)

  const INITIAL := Regs(0x67452301, 0xefcdab89, 0x98badcfe, 0x10325476)

  /** The sine table of section 3.4, sixteen entries a round. */
  const T1: seq<u32> := [
    0xd76aa478, 0xe8c7b756, 0x242070db, 0xc1bdceee,
    0xf57c0faf, 0x4787c62a, 0xa8304613, 0xfd469501,
    0x698098d8, 0x8b44f7af, 0xffff5bb1, 0x895cd7be,
    0x6b901122, 0xfd987193, 0xa679438e, 0x49b40821
  ]
  const T2: seq<u32> := [
    0xf61e2562, 0xc040b340, 0x265e5a51, 0xe9b6c7aa,
    0xd62f105d, 0x02441453, 0xd8a1e681, 0xe7d3fbc8,
    0x21e1cde6, 0xc33707d6, 0xf4d50d87, 0x455a14ed,
    0xa9e3e905, 0xfcefa3f8, 0x676f02d9, 0x8d2a4c8a
  ]
  const T3: seq<u32> := [
    0xfffa3942, 0x8771f681, 0x6d9d6122, 0xfde5380c,
    0xa4beea44, 0x4bdecfa9, 0xf6bb4b60, 0xbebfbc70,
    0x289b7ec6, 0xeaa127fa, 0xd4ef3085, 0x04881d05,
    0xd9d4d039, 0xe6db99e5, 0x1fa27cf8, 0xc4ac5665
  ]
  const T4: seq<u32> := [
    0xf4292244, 0x432aff97, 0xab9423a7, 0xfc93a039,
    0x655b59c3, 0x8f0ccc92, 0xffeff47d, 0x85845dd1,
    0x6fa87e4f, 0xfe2ce6e0, 0xa3014314, 0x4e0811a1,
    0xf7537e82, 0xbd3af235, 0x2ad7d2bb, 0xeb86d391
  ]

  function T(i: nat): u32
    requires i < 64
  {
    if i < 16 then T1[i] else if i < 32 then T2[i - 16] else if i < 48 then T3[i - 32] else T4[i - 48]
  }

  function Pow2(n: nat): (p: nat)
    ensures p > 0
  {
    if n == 0 then 1 else 2 * Pow2(n - 1)
  }

  /** Applies a boolean function to each of the low bits of three words. */
  function Bitwise(f: (bool, bool, bool) -> bool, x: nat, y: nat, z: nat, bits: nat): (r: nat)
    ensures r < Pow2(bits)
    decreases bits, x
  {
    if bits == 0 then 0
    else (if f(x % 2 == 1, y % 2 == 1, z % 2 == 1) then 1 else 0) + 2 * Bitwise(f, x / 2, y / 2, z / 2, bits - 1)
  }

  function Bitwise32(f: (bool, bool, bool) -> bool, x: u32, y: u32, z: u32): u32 {
    assert Pow2(8) == TWO8 && Pow2(16) == TWO16 && Pow2(24) == TWO24 && Pow2(32) == TWO32;
    Bitwise(f, x, y, z, 32)
  }

  function F(x: u32, y: u32, z: u32): u32 { Bitwise32((p, q, r) => (p && q) || (!p && r), x, y, z) }
  function G(x: u32, y: u32, z: u32): u32 { Bitwise32((p, q, r) => (p && r) || (q && !r), x, y, z) }
  function H(x: u32, y: u32, z: u32): u32 { Bitwise32((p, q, r) => (p != q) != r, x, y, z) }
  function I(x: u32, y: u32, z: u32): u32 { Bitwise32((p, q, r) => q != (p || !r), x, y, z) }

  /** Bit k of a number. */
  predicate BitAt(w: nat, k: nat) { w / Pow2(k) % 2 == 1 }

  lemma NextBit(w: nat, k: nat)
    ensures BitAt(w, 0) == (w % 2 == 1) && BitAt(w, k + 1) == BitAt(w / 2, k)
  {
    var p, q, r := Pow2(k), w / 2 / Pow2(k), w / 2 % Pow2(k);
    assert w / 2 == p * q + r;
    assert w == (2 * p) * q + (2 * r + w % 2);
    Remainder(2 * p, q, 2 * r + w % 2, w);
  }

  lemma {:induction false} BitwiseAt(f: (bool, bool, bool) -> bool, x: nat, y: nat, z: nat, bits: nat, k: nat)
    requires k < bits
    ensures BitAt(Bitwise(f, x, y, z, bits), k) == f(BitAt(x, k), BitAt(y, k), BitAt(z, k))
    decreases bits
  {
    hide BitAt;
    var w := Bitwise(f, x, y, z, bits);
    var more := Bitwise(f, x / 2, y / 2, z / 2, bits - 1);
    var low := if f(x % 2 == 1, y % 2 == 1, z % 2 == 1) then 1 else 0;
    assert w == low + 2 * more && w / 2 == more && w % 2 == low;
    var j := if k == 0 then 0 else k - 1;
    NextBit(x, j);
    NextBit(y, j);
    NextBit(z, j);
    NextBit(w, j);
    if k > 0 {
      BitwiseAt(f, x / 2, y / 2, z / 2, bits - 1, k - 1);
    }
  }

  /** What the mixing functions do to each bit. */
  lemma MixingBits(x: u32, y: u32, z: u32, k: nat)
    requires k < 32
    ensures BitAt(F(x, y, z), k) == if BitAt(x, k) then BitAt(y, k) else BitAt(z, k)
    ensures BitAt(G(x, y, z), k) == if BitAt(z, k) then BitAt(x, k) else BitAt(y, k)
    ensures BitAt(H(x, y, z), k) == ((Bit(BitAt(x, k)) + Bit(BitAt(y, k)) + Bit(BitAt(z, k))) % 2 == 1)
    ensures BitAt(I(x, y, z), k) == (BitAt(y, k) != (BitAt(x, k) || !BitAt(z, k)))
  {
    hide BitAt, Bitwise;
    BitwiseAt((p, q, r) => (p && q) || (!p && r), x, y, z, 32, k);
    BitwiseAt((p, q, r) => (p && r) || (q && !r), x, y, z, 32, k);
    BitwiseAt((p, q, r) => (p != q) != r, x, y, z, 32, k);
    BitwiseAt((p, q, r) => q != (p || !r), x, y, z, 32, k);
  }

  function RotateOne(x: u32): u32 { if x < TWO31 then 2 * x else 2 * x - TWO32 + 1 }

  /** Circular left shift by n places. */
  function RotateLeft(x: u32, n: nat): u32
    decreases n, x
  {
    if n == 0 then x else RotateLeft(RotateOne(x), n - 1)
  }

  /** The round function of operation i. */
  function Mix(i: nat, x: u32, y: u32, z: u32): u32 {
    if i < 16 then F(x, y, z) else if i < 32 then G(x, y, z) else if i < 48 then H(x, y, z) else I(x, y, z)
  }

  /** The message word used by operation i. */
  function K(i: nat): (k: nat)
    ensures k < 16
  {
    if i < 16 then i else if i < 32 then (5 * i + 1) % 16 else if i < 48 then (3 * i + 5) % 16 else 7 * i % 16
  }

  /** The rotation of operation i. */
  function S(i: nat): (s: nat)
    ensures 0 < s < 32
  {
    var j := i % 4;
    if i < 16 then (if j == 0 then 7 else if j == 1 then 12 else if j == 2 then 17 else 22)
    else if i < 32 then (if j == 0 then 5 else if j == 1 then 9 else if j == 2 then 14 else 20)
    else if i < 48 then (if j == 0 then 4 else if j == 1 then 11 else if j == 2 then 16 else 23)
    else (if j == 0 then 6 else if j == 1 then 10 else if j == 2 then 15 else 21)
  }

  /** b + ((a + mix + x + t) <<< s), all modulo 2^32. */
  function Blend(a: u32, b: u32, mix: u32, x: u32, s: nat, t: u32): u32
    requires 0 < s < 32
  {
    Add32(b, RotateLeft(Add32(Add32(Add32(a, mix), x), t), s))
  }

  /** Operation i on the registers, which then move one place round. */
  function Operation(r: Regs, x: seq<u32>, i: nat): Regs
    requires |x| == 16 && i < 64
  {
    Regs(r.d, Blend(r.a, r.b, Mix(i, r.b, r.c, r.d), x[K(i)], S(i), T(i)), r.b, r.c)
  }

  /** Operations lo, lo + 1, ..., hi - 1. */
  function Rounds(r: Regs, x: seq<u32>, lo: nat, hi: nat): Regs
    requires |x| == 16 && hi <= 64
    decreases hi
  {
    if hi <= lo then r else Operation(Rounds(r, x, lo, hi - 1), x, hi - 1)
  }

  lemma {:induction false} RoundsCompose(r: Regs, x: seq<u32>, lo: nat, mid: nat, hi: nat)
    requires |x| == 16 && lo <= mid <= hi <= 64
    ensures Rounds(Rounds(r, x, lo, mid), x, mid, hi) == Rounds(r, x, lo, hi)
    decreases hi
  {
    if mid < hi {
      RoundsCompose(r, x, lo, mid, hi - 1);
    }
  }

  // ---------- what section 3.4 says of the operations

  /** A rotation moves every bit n places up, and those that fall out at the top come in again below. */
  lemma {:induction false} RotationBits(x: u32, n: nat, k: nat)
    requires k < 32
    ensures BitAt(RotateLeft(x, n), (k + n) % 32) == BitAt(x, k)
    decreases n
  {
    hide BitAt;
    if n > 0 {
      RotateOneBits(x, k);
      RotationBits(RotateOne(x), n - 1, (k + 1) % 32);
      assert ((k + 1) % 32 + (n - 1)) % 32 == (k + n) % 32;
    }
  }

  lemma RotateOneBits(x: u32, k: nat)
    requires k < 32
    ensures BitAt(RotateOne(x), (k + 1) % 32) == BitAt(x, k)
  {
    hide BitAt;
    HighBit(x);
    var y := RotateOne(x);
    if k < 31 {
      assert y / 2 == x % TWO31;
      NextBit(y, k);
      LowBits(x, k);
    } else {
      NextBit(y, 0);
    }
  }

  lemma HighBit(x: u32)
    ensures BitAt(x, 31) <==> x >= TWO31
  {
    assert Pow2(8) == TWO8 && Pow2(16) == TWO16 && Pow2(24) == TWO24 && Pow2(31) == TWO31;
  }

  lemma LowBits(x: u32, k: nat)
    requires k < 31
    ensures BitAt(x % TWO31, k) == BitAt(x, k)
  {
    if x >= TWO31 {
      PowersDivide(k, 30 - k);
      Pow30();
      hide Pow2;
      AboveDoesNotShow(Pow2(k), Pow2(30 - k), x - TWO31);
    }
  }

  lemma AboveDoesNotShow(p: nat, q: nat, l: nat)
    requires p > 0 && p * q == 0x4000_0000
    ensures (TWO31 + l) / p % 2 == l / p % 2
  {
    var d, r := Quotient(l, p);
    TwiceAbove(p, q, d);
    Remainder(p, 2 * q + d, r, TWO31 + l);
    EvenAbove(q, d);
  }

  lemma Quotient(n: nat, p: nat) returns (d: nat, r: nat)
    requires p > 0
    ensures d == n / p && r < p && n == p * d + r
  {
    d, r := n / p, n % p;
  }

  lemma TwiceAbove(p: nat, q: nat, d: nat)
    ensures p * (2 * q + d) == 2 * (p * q) + p * d
  {
  }

  lemma EvenAbove(q: nat, d: nat)
    ensures (2 * q + d) % 2 == d % 2
  {
  }

  lemma {:induction false} PowersDivide(k: nat, j: nat)
    ensures Pow2(k) * Pow2(j) == Pow2(k + j)
  {
    if k > 0 {
      PowersDivide(k - 1, j);
      var p := Pow2(k - 1);
      assert 2 * p * Pow2(j) == 2 * (p * Pow2(j));
    }
  }

  lemma Pow30()
    ensures Pow2(30) == 0x4000_0000
  {
    assert Pow2(8) == TWO8 && Pow2(16) == TWO16 && Pow2(24) == TWO24;
  }

  /** Round by round: the mixing function and the order of the message words. */
  lemma RoundTables(j: nat, x: u32, y: u32, z: u32)
    requires j < 16
    ensures Mix(j, x, y, z) == F(x, y, z) && Mix(16 + j, x, y, z) == G(x, y, z)
    ensures Mix(32 + j, x, y, z) == H(x, y, z) && Mix(48 + j, x, y, z) == I(x, y, z)
    ensures K(j) == j && K(16 + j) == (1 + 5 * j) % 16 && K(32 + j) == (5 + 3 * j) % 16 && K(48 + j) == 7 * j % 16
  {
    hide F, G, H, I;
  }

  /** The four rotations of each round, taken in turn. */
  lemma Rotations(q: nat)
    requires q < 4
    ensures S(4 * q) == 7 && S(4 * q + 1) == 12 && S(4 * q + 2) == 17 && S(4 * q + 3) == 22
    ensures S(16 + 4 * q) == 5 && S(16 + 4 * q + 1) == 9 && S(16 + 4 * q + 2) == 14 && S(16 + 4 * q + 3) == 20
    ensures S(32 + 4 * q) == 4 && S(32 + 4 * q + 1) == 11 && S(32 + 4 * q + 2) == 16 && S(32 + 4 * q + 3) == 23
    ensures S(48 + 4 * q) == 6 && S(48 + 4 * q + 1) == 10 && S(48 + 4 * q + 2) == 15 && S(48 + 4 * q + 3) == 21
  {
  }

  /** a = b + ((a + mix + X[k] + T[i]) <<< s), modulo 2^32, in the order in which the registers take turns. */
  lemma OperationIs(r: Regs, x: seq<u32>, i: nat)
    requires |x| == 16 && i < 64
    ensures Operation(r, x, i)
         == Regs(r.d, (r.b + RotateLeft((r.a + Mix(i, r.b, r.c, r.d) + x[K(i)] + T(i)) % TWO32, S(i))) % TWO32, r.b, r.c)
  {
    hide Mix, K, S, T, RotateLeft;
    var mix, m, t := Mix(i, r.b, r.c, r.d), x[K(i)], T(i);
    SumOfFour(r.a, mix, m, t);
  }

  lemma SumOfFour(a: u32, b: u32, c: u32, d: u32)
    ensures Add32(Add32(Add32(a, b), c), d) == (a + b + c + d) % TWO32
  {
  }

  /** Twice the cosine of 1, by its series up to the term of x^16, is this quotient. */
  lemma CosineOfOne()
    ensures 2.0 * (1.0 - 1.0 / 2.0 + 1.0 / 24.0 - 1.0 / 720.0 + 1.0 / 40320.0 - 1.0 / 3628800.0 + 1.0 / 479001600.0
                   - 1.0 / 87178291200.0 + 1.0 / 20922789888000.0)
         == 11304631621681.0 / 10461394944000.0
  {
  }

  /** The sine of 1, by its series up to the term of x^13. */
  const SIN_ONE: real :=
    1.0 - 1.0 / 6.0 + 1.0 / 120.0 - 1.0 / 5040.0 + 1.0 / 362880.0 - 1.0 / 39916800.0 + 1.0 / 6227020800.0

  /** With their signs: sin (k + 1) + sin (k - 1) = 2 cos 1 sin k, up to the 3.2 that three integer parts can lose. */
  predicate Recurs(k: nat, before: int, now: int, after: int) {
    2 <= k < 64
    && -33476463820800
       < 10461394944000 * (Signed(after, T(k)) + Signed(before, T(k - 2))) - 11304631621681 * Signed(now, T(k - 1))
       < 33476463820800
  }

  function Signed(sign: int, n: nat): int { if sign > 0 then n else 0 - n }

  /** Entry k is the integer part of 2^32 times the sine of k, without its sign: it begins so, and goes on as sines do. */
  lemma SineOfOne()
    ensures 0.0 <= 4294967296.0 * SIN_ONE - T(0) as real < 1.0
    ensures -33476463820800 < 10461394944000 * T(1) - 11304631621681 * T(0) < 33476463820800
  {
    hide T;
    Entries1();
  }

  lemma Sines1()
    ensures Recurs(2, 1, 1, 1) && Recurs(3, 1, 1, -1) && Recurs(4, 1, -1, -1) && Recurs(5, -1, -1, -1)
    ensures Recurs(6, -1, -1, 1) && Recurs(7, -1, 1, 1) && Recurs(8, 1, 1, 1) && Recurs(9, 1, 1, -1)
    ensures Recurs(10, 1, -1, -1) && Recurs(11, -1, -1, -1) && Recurs(12, -1, -1, 1) && Recurs(13, -1, 1, 1)
    ensures Recurs(14, 1, 1, 1) && Recurs(15, 1, 1, -1) && Recurs(16, 1, -1, -1)
  {
    hide T;
    Entries1();
    Entries2();
  }

  lemma Sines2()
    ensures Recurs(17, -1, -1, -1) && Recurs(18, -1, -1, 1) && Recurs(19, -1, 1, 1) && Recurs(20, 1, 1, 1)
    ensures Recurs(21, 1, 1, -1) && Recurs(22, 1, -1, -1) && Recurs(23, -1, -1, -1) && Recurs(24, -1, -1, -1)
    ensures Recurs(25, -1, -1, 1) && Recurs(26, -1, 1, 1) && Recurs(27, 1, 1, 1) && Recurs(28, 1, 1, -1)
    ensures Recurs(29, 1, -1, -1) && Recurs(30, -1, -1, -1) && Recurs(31, -1, -1, 1) && Recurs(32, -1, 1, 1)
  {
    hide T;
    Entries1();
    Entries2();
    Entries3();
  }

  lemma Sines3()
    ensures Recurs(33, 1, 1, 1) && Recurs(34, 1, 1, -1) && Recurs(35, 1, -1, -1) && Recurs(36, -1, -1, -1)
    ensures Recurs(37, -1, -1, 1) && Recurs(38, -1, 1, 1) && Recurs(39, 1, 1, 1) && Recurs(40, 1, 1, -1)
    ensures Recurs(41, 1, -1, -1) && Recurs(42, -1, -1, -1) && Recurs(43, -1, -1, 1) && Recurs(44, -1, 1, 1)
    ensures Recurs(45, 1, 1, 1) && Recurs(46, 1, 1, 1) && Recurs(47, 1, 1, -1) && Recurs(48, 1, -1, -1)
  {
    hide T;
    Entries2();
    Entries3();
    Entries4();
  }

  lemma Sines4()
    ensures Recurs(49, -1, -1, -1) && Recurs(50, -1, -1, 1) && Recurs(51, -1, 1, 1) && Recurs(52, 1, 1, 1)
    ensures Recurs(53, 1, 1, -1) && Recurs(54, 1, -1, -1) && Recurs(55, -1, -1, -1) && Recurs(56, -1, -1, 1)
    ensures Recurs(57, -1, 1, 1) && Recurs(58, 1, 1, 1) && Recurs(59, 1, 1, -1) && Recurs(60, 1, -1, -1)
    ensures Recurs(61, -1, -1, -1) && Recurs(62, -1, -1, 1) && Recurs(63, -1, 1, 1)
  {
    hide T;
    Entries3();
    Entries4();
  }

  lemma Entries1()
    ensures T(0) == 0xd76aa478 && T(1) == 0xe8c7b756 && T(2) == 0x242070db && T(3) == 0xc1bdceee
    ensures T(4) == 0xf57c0faf && T(5) == 0x4787c62a && T(6) == 0xa8304613 && T(7) == 0xfd469501
    ensures T(8) == 0x698098d8 && T(9) == 0x8b44f7af && T(10) == 0xffff5bb1 && T(11) == 0x895cd7be
    ensures T(12) == 0x6b901122 && T(13) == 0xfd987193 && T(14) == 0xa679438e && T(15) == 0x49b40821
  {
  }

  lemma Entries2()
    ensures T(16) == 0xf61e2562 && T(17) == 0xc040b340 && T(18) == 0x265e5a51 && T(19) == 0xe9b6c7aa
    ensures T(20) == 0xd62f105d && T(21) == 0x02441453 && T(22) == 0xd8a1e681 && T(23) == 0xe7d3fbc8
    ensures T(24) == 0x21e1cde6 && T(25) == 0xc33707d6 && T(26) == 0xf4d50d87 && T(27) == 0x455a14ed
    ensures T(28) == 0xa9e3e905 && T(29) == 0xfcefa3f8 && T(30) == 0x676f02d9 && T(31) == 0x8d2a4c8a
  {
  }

  lemma Entries3()
    ensures T(32) == 0xfffa3942 && T(33) == 0x8771f681 && T(34) == 0x6d9d6122 && T(35) == 0xfde5380c
    ensures T(36) == 0xa4beea44 && T(37) == 0x4bdecfa9 && T(38) == 0xf6bb4b60 && T(39) == 0xbebfbc70
    ensures T(40) == 0x289b7ec6 && T(41) == 0xeaa127fa && T(42) == 0xd4ef3085 && T(43) == 0x04881d05
    ensures T(44) == 0xd9d4d039 && T(45) == 0xe6db99e5 && T(46) == 0x1fa27cf8 && T(47) == 0xc4ac5665
  {
  }

  lemma Entries4()
    ensures T(48) == 0xf4292244 && T(49) == 0x432aff97 && T(50) == 0xab9423a7 && T(51) == 0xfc93a039
    ensures T(52) == 0x655b59c3 && T(53) == 0x8f0ccc92 && T(54) == 0xffeff47d && T(55) == 0x85845dd1
    ensures T(56) == 0x6fa87e4f && T(57) == 0xfe2ce6e0 && T(58) == 0xa3014314 && T(59) == 0x4e0811a1
    ensures T(60) == 0xf7537e82 && T(61) == 0xbd3af235 && T(62) == 0x2ad7d2bb && T(63) == 0xeb86d391
  {
  }

  /** The n little-endian words of 4 * n bytes. */
  function WordsOf(s: seq<byte>): (w: seq<u32>)
    requires |s| % 4 == 0
    ensures |w| == |s| / 4
  {
    seq(|s| / 4, i requires 0 <= i < |s| / 4 => FromLe32(s[4 * i..4 * i + 4]))
  }

  function BytesOf(w: seq<u32>): (s: seq<byte>)
    ensures |s| == 4 * |w|
  {
    if w == [] then [] else Le32(w[0]) + BytesOf(w[1..])
  }

  lemma WordsOfStep(s: seq<byte>)
    requires |s| % 4 == 0 && s != []
    ensures WordsOf(s) == [FromLe32(s[..4])] + WordsOf(s[4..])
  {
    forall i | 1 <= i < |s| / 4
      ensures WordsOf(s)[i] == WordsOf(s[4..])[i - 1]
    {
      assert s[4..][4 * (i - 1)..4 * (i - 1) + 4] == s[4 * i..4 * i + 4];
    }
  }

  /** The initial registers hold these bytes, as section 3.3 lists them. */
  lemma InitialBytes()
    ensures BytesOf([INITIAL.a, INITIAL.b, INITIAL.c, INITIAL.d])
         == [0x01, 0x23, 0x45, 0x67, 0x89, 0xab, 0xcd, 0xef, 0xfe, 0xdc, 0xba, 0x98, 0x76, 0x54, 0x32, 0x10]
  {
    BytesOfFour(INITIAL.a, INITIAL.b, INITIAL.c, INITIAL.d);
    FromBytes([0x01, 0x23, 0x45, 0x67], INITIAL.a);
    FromBytes([0x89, 0xab, 0xcd, 0xef], INITIAL.b);
    FromBytes([0xfe, 0xdc, 0xba, 0x98], INITIAL.c);
    FromBytes([0x76, 0x54, 0x32, 0x10], INITIAL.d);
  }

  lemma BytesOfFour(a: u32, b: u32, c: u32, d: u32)
    ensures BytesOf([a, b, c, d]) == Le32(a) + Le32(b) + Le32(c) + Le32(d)
  {
    hide Le32;
    assert [a, b, c, d][1..] == [b, c, d] && [b, c, d][1..] == [c, d] && [c, d][1..] == [d] && [d][1..] == [];
    assert BytesOf([d]) == Le32(d) + BytesOf([]);
    assert BytesOf([c, d]) == Le32(c) + BytesOf([d]);
    assert BytesOf([b, c, d]) == Le32(b) + BytesOf([c, d]);
  }

  lemma FromBytes(s: seq<byte>, w: u32)
    requires |s| == 4 && w == s[0] + TWO8 * s[1] + TWO16 * s[2] + TWO24 * s[3]
    ensures Le32(w) == s
  {
    assert w / TWO8 == s[1] + TWO8 * s[2] + TWO16 * s[3];
    assert Le(w, 4) == [s[0]] + Le(w / TWO8, 3);
    assert w / TWO8 / TWO8 == s[2] + TWO8 * s[3];
    assert Le(w / TWO8, 3) == [s[1]] + Le(w / TWO8 / TWO8, 2);
    assert Le(s[2] + TWO8 * s[3], 2) == [s[2]] + Le(s[3], 1);
    assert Le(s[3], 1) == [s[3]] + Le(0, 0);
  }

  /** Encode and Decode undo each other. */
  lemma {:induction false} BytesOfWordsOf(s: seq<byte>)
    requires |s| % 4 == 0
    ensures BytesOf(WordsOf(s)) == s
  {
    if s != [] {
      WordsOfStep(s);
      FromLeRoundTrip(s[..4]);
      BytesOfWordsOf(s[4..]);
    }
  }

  lemma {:induction false} WordsOfBytesOf(w: seq<u32>)
    ensures WordsOf(BytesOf(w)) == w
  {
    if w != [] {
      Le32RoundTrip(w[0]);
      var s := BytesOf(w);
      assert s[..4] == Le32(w[0]) && s[4..] == BytesOf(w[1..]);
      WordsOfStep(s);
      WordsOfBytesOf(w[1..]);
    }
  }

  type Block = s: seq<byte> | |s| == 64 witness seq(64, _ => 0)

  function Plus(r: Regs, e: Regs): Regs {
    Regs(Add32(r.a, e.a), Add32(r.b, e.b), Add32(r.c, e.c), Add32(r.d, e.d))
  }

  /** The effect of one 16-word block. */
  function Compress(r: Regs, block: Block): Regs { Plus(r, Rounds(r, WordsOf(block), 0, 64)) }

  /** All complete blocks of m, in order, for any block function. */
  function Fold<R>(compress: (R, Block) -> R, r: R, m: seq<byte>): R
  {
    if |m| < 64 then r else Fold(compress, compress(r, m[..64]), m[64..])
  }

  lemma {:induction false} FoldAppend<R>(compress: (R, Block) -> R, r: R, m: seq<byte>, n: seq<byte>)
    requires |m| % 64 == 0
    ensures Fold(compress, r, m + n) == Fold(compress, Fold(compress, r, m), n)
  {
    if m == [] {
      assert m + n == n;
    } else {
      assert (m + n)[..64] == m[..64] && (m + n)[64..] == m[64..] + n;
      FoldAppend(compress, compress(r, m[..64]), m[64..], n);
    }
  }

  /** The bytes after the last complete block. */
  function Tail(m: seq<byte>): (t: seq<byte>)
    ensures |t| == |m| % 64
  {
    m[|m| - |m| % 64..]
  }

  lemma TailAppend(m: seq<byte>, n: seq<byte>)
    ensures Tail(m + n) == Tail(Tail(m) + n)
  {
    var w := |m| - |m| % 64;
    assert m == m[..w] + Tail(m);
    assert (m + n)[w..] == Tail(m) + n;
    var k := |Tail(m) + n| - |Tail(m) + n| % 64;
    WholeBefore(|m|, |n|);
    assert (m + n)[w..][k..] == (m + n)[w + k..];
  }

  lemma WholeBefore(m: nat, n: nat)
    ensures (m + n) % 64 == (m % 64 + n) % 64
  {
  }

  /** Hashing depends on what came before only through its fold and its tail. */
  lemma FoldTail<R>(compress: (R, Block) -> R, r: R, m: seq<byte>, n: seq<byte>)
    ensures Fold(compress, r, m + n) == Fold(compress, Fold(compress, r, m), Tail(m) + n)
  {
    var w := |m| - |m| % 64;
    assert m[..w] + Tail(m) == m;
    assert m[..w] + (Tail(m) + n) == m + n;
    FoldAppendTail(compress, r, m[..w], Tail(m), n);
  }

  lemma FoldAppendTail<R>(compress: (R, Block) -> R, r: R, whole: seq<byte>, tail: seq<byte>, n: seq<byte>)
    requires |whole| % 64 == 0 && |tail| < 64
    ensures Fold(compress, r, whole + (tail + n)) == Fold(compress, Fold(compress, r, whole + tail), tail + n)
  {
    FoldAppend(compress, r, whole, tail);
    FoldAppend(compress, r, whole, tail + n);
  }

  function Zeros(n: nat): (s: seq<byte>) ensures |s| == n { seq(n, _ => 0) }

  /** The message length in bits, modulo 2^64. */
  function BitLength(m: seq<byte>): u64 { 8 * |m| % TWO64 }

  /** Sections 3.1 and 3.2. */
  function PadLength(n: nat): nat { if n % 64 < 56 then 56 - n % 64 else 120 - n % 64 }

  lemma PadFillsBlocks(n: nat)
    ensures (n + PadLength(n) + 8) % 64 == 0 && 1 <= PadLength(n) <= 64
  {
    assert n == 64 * (n / 64) + n % 64;
  }

  function Pad(m: seq<byte>): (p: seq<byte>)
    ensures |p| % 64 == 0 && m <= p
  {
    PadFillsBlocks(|m|);
    m + [0x80] + Zeros(PadLength(|m|) - 1) + BytesOf([BitLength(m) % TWO32, BitLength(m) / TWO32])
  }

  function Output(r: Regs): (d: seq<byte>)
    ensures |d| == 16
  {
    BytesOf([r.a, r.b, r.c, r.d])
  }

  function Digest(m: seq<byte>): (d: seq<byte>)
    ensures |d| == 16
  {
    Output(Fold(Compress, INITIAL, Pad(m)))
  }

  /** The padded message: a one bit, zeros, and the length in bits as a 64-bit number; no longer than it must be. */
  lemma PadIs(m: seq<byte>)
    ensures var p := Pad(m);
      |p| % 64 == 0 && |m| + 9 <= |p| <= |m| + 72
      && p[..|m|] == m && p[|m|] == 0x80 && (forall i :: |m| < i < |p| - 8 ==> p[i] == 0)
      && FromLe64(p[|p| - 8..]) == 8 * |m| % TWO64
  {
    hide BytesOf, Le32;
    PadFillsBlocks(|m|);
    var low, high := BitLength(m) % TWO32, BitLength(m) / TWO32;
    var head := m + [0x80] + Zeros(PadLength(|m|) - 1);
    var p := Pad(m);
    assert p == head + BytesOf([low, high]);
    assert p[|p| - 8..] == BytesOf([low, high]);
    assert forall i :: |m| < i < |head| ==> head[i] == 0;
    LengthBytes(low, high);
  }

  lemma LengthBytes(low: u32, high: u32)
    ensures FromLe64(BytesOf([low, high])) == low + TWO32 * high
  {
    assert [low, high][1..] == [high] && [high][1..] == [];
    assert BytesOf([high]) == Le32(high) + BytesOf([]);
    assert BytesOf([low, high]) == Le32(low) + Le32(high);
    Le32RoundTrip(low);
    Le32RoundTrip(high);
    FromLeAppend(Le32(low), Le32(high));
    Powers();
  }

  lemma {:induction false} FromLeAppend(s: seq<byte>, t: seq<byte>)
    ensures FromLe(s + t) == FromLe(s) + Power256(|s|) * FromLe(t)
  {
    if s == [] {
      assert s + t == t;
    } else {
      assert (s + t)[1..] == s[1..] + t;
      FromLeAppend(s[1..], t);
      assert TWO8 * (Power256(|s| - 1) * FromLe(t)) == Power256(|s|) * FromLe(t);
    }
  }

  /** A block adds the outcome of its 64 operations to the registers, which at the end are put out low byte first. */
  lemma DigestIs(m: seq<byte>, r: Regs, block: Block)
    ensures var e := Rounds(r, WordsOf(block), 0, 64);
      Compress(r, block) == Regs((r.a + e.a) % TWO32, (r.b + e.b) % TWO32, (r.c + e.c) % TWO32, (r.d + e.d) % TWO32)
    ensures var e := Fold(Compress, INITIAL, Pad(m)); Digest(m) == Le32(e.a) + Le32(e.b) + Le32(e.c) + Le32(e.d)
  {
    hide Rounds, Fold, Pad, Le32;
    var e := Fold(Compress, INITIAL, Pad(m));
    BytesOfFour(e.a, e.b, e.c, e.d);
  }

  /** The operations of a block follow one another, and so do the blocks of a message; words come low byte first. */
  lemma InTurn(r: Regs, x: seq<u32>, i: nat, m: seq<byte>, k: nat)
    requires |x| == 16 && i < 64 && k < 16
    ensures Rounds(r, x, 0, 0) == r && Rounds(r, x, 0, i + 1) == Operation(Rounds(r, x, 0, i), x, i)
    ensures |m| < 64 ==> Fold(Compress, r, m) == r
    ensures |m| >= 64 ==> Fold(Compress, r, m) == Fold(Compress, Compress(r, m[..64]), m[64..])
    ensures |m| == 64 ==>
              WordsOf(m)[k] == m[4 * k] + TWO8 * m[4 * k + 1] + TWO16 * m[4 * k + 2] + TWO24 * m[4 * k + 3]
  {
    hide Operation, Compress;
    if |m| == 64 {
      LowByteFirst(m[4 * k..4 * k + 4]);
    }
  }

  lemma LowByteFirst(s: seq<byte>)
    requires |s| == 4
    ensures FromLe32(s) == s[0] + TWO8 * s[1] + TWO16 * s[2] + TWO24 * s[3]
  {
    FromLeStep(s);
    FromLeStep(s[1..]);
    FromLeStep(s[2..]);
    FromLeStep(s[3..]);
  }

  lemma FromLeStep(s: seq<byte>)
    requires s != []
    ensures FromLe(s) == s[0] + TWO8 * FromLe(s[1..])
  {
  }
}
