/** The streaming MD5 of lfutil/src/math/md5.cpp, proved against Md5Spec. */
module Md5 {
  import opened Words
  import opened Md5Spec

  const S11 := 7
  const S12 := 12
  const S13 := 17
  const S14 := 22
  const S21 := 5
  const S22 := 9
  const S23 := 14
  const S24 := 20
  const S31 := 4
  const S32 := 11
  const S33 := 16
  const S34 := 23
  const S41 := 6
  const S42 := 10
  const S43 := 15
  const S44 := 21

  lemma {:induction false} PowAdd(m: nat, n: nat)
    ensures Pow2(m) > 0 && Pow2(m) * Pow2(n) == Pow2(m + n)
  {
    if m > 0 {
      PowAdd(m - 1, n);
      assert Pow2(m) * Pow2(n) == 2 * (Pow2(m - 1) * Pow2(n));
    }
  }

  lemma Parts(a: nat, b: nat, q: nat, r: nat)
    requires a * b == TWO31 && r < b
    ensures a * (b * q) == TWO31 * q && a * r + a <= TWO31
  {
    assert a * (b * q) == (a * b) * q;
    MulMono(a, r + 1, b);
    assert a * (r + 1) == a * r + a;
  }

  /** Shifting h * 2^31 + b * q + r left and right, where a = 2^(n-1) and b = 2^(32-n). */
  lemma ShiftParts(a: nat, b: nat, h: nat, q: nat, r: nat, x: nat)
    requires a * b == TWO31 && h <= 1 && r < b && x == h * TWO31 + b * q + r
    ensures x * (2 * a) % TWO32 == 2 * (a * r) && x / b == h * a + q
  {
    Parts(a, b, q, r);
    Spread(a, h * TWO31, b * q, r);
    assert a * (h * TWO31) == (h * a) * TWO31;
    assert x * (2 * a) == 2 * (a * x);
    Remainder(TWO32, h * a + q, 2 * (a * r), x * (2 * a));
    if h == 1 {
      Spread(b, a, q, 0);
    }
    Remainder(b, h * a + q, r, x);
  }

  /** The same for the word after one rotation, which is shifted one place less. */
  lemma NextShiftParts(a: nat, b: nat, h: nat, q: nat, r: nat, y: nat)
    requires a * b == TWO31 && h <= 1 && r < b && y == 2 * (b * q + r) + h
    ensures y * a % TWO32 == 2 * (a * r) + h * a && y / (2 * b) == q
  {
    Parts(a, b, q, r);
    Spread(a, 2 * (b * q), 2 * r, h);
    Double(a, b * q);
    Double(a, r);
    assert h * a <= a;
    assert y * a == a * y;
    Remainder(TWO32, q, 2 * (a * r) + h * a, y * a);
    assert y == (2 * b) * q + (2 * r + h);
    Remainder(2 * b, q, 2 * r + h, y);
  }

  lemma Spread(a: nat, x: nat, y: nat, z: nat)
    ensures a * (x + y + z) == a * x + a * y + a * z
  {
  }

  lemma Double(a: nat, x: nat)
    ensures a * (2 * x) == 2 * (a * x)
  {
  }

  lemma ShiftsCommute(x: u32, a: nat, b: nat)
    requires b > 0 && a * b == TWO31
    ensures x * (2 * a) % TWO32 + x / b == RotateOne(x) * a % TWO32 + RotateOne(x) / (2 * b)
  {
    hide RotateOne;
    var h, q, r := WordParts(x, b);
    ShiftParts(a, b, h, q, r, x);
    NextShiftParts(a, b, h, q, r, RotateOne(x));
  }

  /** The highest bit, and the rest divided by b. */
  lemma WordParts(x: u32, b: nat) returns (h: nat, q: nat, r: nat)
    requires b > 0
    ensures h <= 1 && r < b && x == h * TWO31 + b * q + r && RotateOne(x) == 2 * (b * q + r) + h
  {
    h := x / TWO31;
    var l: nat := x % TWO31;
    assert RotateOne(x) == 2 * l + h && x == h * TWO31 + l;
    q, r := l / b, l % b;
    assert l == b * q + r;
  }

  lemma PowPair(n: nat)
    requires 0 < n < 32
    ensures Pow2(n - 1) * Pow2(32 - n) == TWO31 && Pow2(32 - n) > 0
  {
    PowAdd(n - 1, 32 - n);
    PowAdd(32 - n, 0);
    assert Pow2(8) == TWO8 && Pow2(16) == TWO16 && Pow2(24) == TWO24 && Pow2(31) == TWO31;
  }

  function Shifts(x: u32, left: nat, right: nat): nat
    requires right > 0
  {
    x * left % TWO32 + x / right
  }

  lemma ShiftByOne(x: u32)
    ensures RotateLeft(x, 1) == RotateOne(x) == Shifts(RotateOne(x), 1, TWO32)
  {
    assert RotateLeft(RotateOne(x), 0) == RotateOne(x);
  }

  /** The shift-and-or macro is the circular shift; its two parts share no bit, so their disjunction is their sum. */
  lemma {:induction false} RotationIsShifts(x: u32, n: nat, left: nat, right: nat)
    requires 0 < n < 32 && left == Pow2(n) && right == Pow2(32 - n) > 0
    ensures RotateLeft(x, n) == Shifts(x, left, right)
    decreases n
  {
    var half := Pow2(n - 1);
    PowPair(n);
    ShiftsCommute(x, half, right);
    assert Shifts(x, left, right) == Shifts(RotateOne(x), half, 2 * right);
    if n == 1 {
      ShiftByOne(x);
    } else {
      RotationIsShifts(RotateOne(x), n - 1, half, 2 * right);
    }
  }

  method RotateMacro(x: u32, n: nat) returns (r: u32)
    requires 0 < n < 32
    ensures r == RotateLeft(x, n)
  {
    PowPair(n);
    RotationIsShifts(x, n, Pow2(n), Pow2(32 - n));
    r := x * Pow2(n) % TWO32 + x / Pow2(32 - n);
  }

  lemma AddReassociates(a: u32, f: u32, x: u32, ac: u32)
    ensures Add32(a, Add32(Add32(f, x), ac)) == Add32(Add32(Add32(a, f), x), ac)
  {
  }

  /** The common part of the four macros, which differ in the mixing function. */
  method Accumulate(a: u32, b: u32, mix: u32, x: u32, s: nat, ac: u32) returns (r: u32)
    requires 0 < s < 32
    ensures r == Blend(a, b, mix, x, s, ac)
  {
    r := Add32(a, Add32(Add32(mix, x), ac));
    AddReassociates(a, mix, x, ac);
    r := RotateMacro(r, s);
    r := Add32(r, b);
  }

  method FF(a: u32, b: u32, c: u32, d: u32, x: u32, s: nat, ac: u32) returns (r: u32)
    requires 0 < s < 32
    ensures r == Blend(a, b, F(b, c, d), x, s, ac)
  {
    r := Accumulate(a, b, F(b, c, d), x, s, ac);
  }

  method GG(a: u32, b: u32, c: u32, d: u32, x: u32, s: nat, ac: u32) returns (r: u32)
    requires 0 < s < 32
    ensures r == Blend(a, b, G(b, c, d), x, s, ac)
  {
    r := Accumulate(a, b, G(b, c, d), x, s, ac);
  }

  method HH(a: u32, b: u32, c: u32, d: u32, x: u32, s: nat, ac: u32) returns (r: u32)
    requires 0 < s < 32
    ensures r == Blend(a, b, H(b, c, d), x, s, ac)
  {
    r := Accumulate(a, b, H(b, c, d), x, s, ac);
  }

  method II(a: u32, b: u32, c: u32, d: u32, x: u32, s: nat, ac: u32) returns (r: u32)
    requires 0 < s < 32
    ensures r == Blend(a, b, I(b, c, d), x, s, ac)
  {
    r := Accumulate(a, b, I(b, c, d), x, s, ac);
  }

  /** The schedule of round 1. */
  lemma Schedule1()
    ensures K(0) == 0 && S(0) == S11 && T(0) == 0xd76aa478
    ensures K(1) == 1 && S(1) == S12 && T(1) == 0xe8c7b756
    ensures K(2) == 2 && S(2) == S13 && T(2) == 0x242070db
    ensures K(3) == 3 && S(3) == S14 && T(3) == 0xc1bdceee
    ensures K(4) == 4 && S(4) == S11 && T(4) == 0xf57c0faf
    ensures K(5) == 5 && S(5) == S12 && T(5) == 0x4787c62a
    ensures K(6) == 6 && S(6) == S13 && T(6) == 0xa8304613
    ensures K(7) == 7 && S(7) == S14 && T(7) == 0xfd469501
    ensures K(8) == 8 && S(8) == S11 && T(8) == 0x698098d8
    ensures K(9) == 9 && S(9) == S12 && T(9) == 0x8b44f7af
    ensures K(10) == 10 && S(10) == S13 && T(10) == 0xffff5bb1
    ensures K(11) == 11 && S(11) == S14 && T(11) == 0x895cd7be
    ensures K(12) == 12 && S(12) == S11 && T(12) == 0x6b901122
    ensures K(13) == 13 && S(13) == S12 && T(13) == 0xfd987193
    ensures K(14) == 14 && S(14) == S13 && T(14) == 0xa679438e
    ensures K(15) == 15 && S(15) == S14 && T(15) == 0x49b40821
  {
  }

  method Round1(r: Regs, x: seq<u32>) returns (r': Regs)
    requires |x| == 16
    ensures r' == Rounds(r, x, 0, 16)
  {
    var a, b, c, d := r.a, r.b, r.c, r.d;
    Schedule1();
    a := FF(a, b, c, d, x[0], S11, 0xd76aa478);
    assert Regs(d, a, b, c) == Rounds(r, x, 0, 1);
    d := FF(d, a, b, c, x[1], S12, 0xe8c7b756);
    assert Regs(c, d, a, b) == Rounds(r, x, 0, 2);
    c := FF(c, d, a, b, x[2], S13, 0x242070db);
    assert Regs(b, c, d, a) == Rounds(r, x, 0, 3);
    b := FF(b, c, d, a, x[3], S14, 0xc1bdceee);
    assert Regs(a, b, c, d) == Rounds(r, x, 0, 4);
    a := FF(a, b, c, d, x[4], S11, 0xf57c0faf);
    assert Regs(d, a, b, c) == Rounds(r, x, 0, 5);
    d := FF(d, a, b, c, x[5], S12, 0x4787c62a);
    assert Regs(c, d, a, b) == Rounds(r, x, 0, 6);
    c := FF(c, d, a, b, x[6], S13, 0xa8304613);
    assert Regs(b, c, d, a) == Rounds(r, x, 0, 7);
    b := FF(b, c, d, a, x[7], S14, 0xfd469501);
    assert Regs(a, b, c, d) == Rounds(r, x, 0, 8);
    a := FF(a, b, c, d, x[8], S11, 0x698098d8);
    assert Regs(d, a, b, c) == Rounds(r, x, 0, 9);
    d := FF(d, a, b, c, x[9], S12, 0x8b44f7af);
    assert Regs(c, d, a, b) == Rounds(r, x, 0, 10);
    c := FF(c, d, a, b, x[10], S13, 0xffff5bb1);
    assert Regs(b, c, d, a) == Rounds(r, x, 0, 11);
    b := FF(b, c, d, a, x[11], S14, 0x895cd7be);
    assert Regs(a, b, c, d) == Rounds(r, x, 0, 12);
    a := FF(a, b, c, d, x[12], S11, 0x6b901122);
    assert Regs(d, a, b, c) == Rounds(r, x, 0, 13);
    d := FF(d, a, b, c, x[13], S12, 0xfd987193);
    assert Regs(c, d, a, b) == Rounds(r, x, 0, 14);
    c := FF(c, d, a, b, x[14], S13, 0xa679438e);
    assert Regs(b, c, d, a) == Rounds(r, x, 0, 15);
    b := FF(b, c, d, a, x[15], S14, 0x49b40821);
    r' := Regs(a, b, c, d);
  }

  /** The schedule of round 2. */
  lemma Schedule2()
    ensures K(16) == 1 && S(16) == S21 && T(16) == 0xf61e2562
    ensures K(17) == 6 && S(17) == S22 && T(17) == 0xc040b340
    ensures K(18) == 11 && S(18) == S23 && T(18) == 0x265e5a51
    ensures K(19) == 0 && S(19) == S24 && T(19) == 0xe9b6c7aa
    ensures K(20) == 5 && S(20) == S21 && T(20) == 0xd62f105d
    ensures K(21) == 10 && S(21) == S22 && T(21) == 0x2441453
    ensures K(22) == 15 && S(22) == S23 && T(22) == 0xd8a1e681
    ensures K(23) == 4 && S(23) == S24 && T(23) == 0xe7d3fbc8
    ensures K(24) == 9 && S(24) == S21 && T(24) == 0x21e1cde6
    ensures K(25) == 14 && S(25) == S22 && T(25) == 0xc33707d6
    ensures K(26) == 3 && S(26) == S23 && T(26) == 0xf4d50d87
    ensures K(27) == 8 && S(27) == S24 && T(27) == 0x455a14ed
    ensures K(28) == 13 && S(28) == S21 && T(28) == 0xa9e3e905
    ensures K(29) == 2 && S(29) == S22 && T(29) == 0xfcefa3f8
    ensures K(30) == 7 && S(30) == S23 && T(30) == 0x676f02d9
    ensures K(31) == 12 && S(31) == S24 && T(31) == 0x8d2a4c8a
  {
  }

  method Round2(r: Regs, x: seq<u32>) returns (r': Regs)
    requires |x| == 16
    ensures r' == Rounds(r, x, 16, 32)
  {
    var a, b, c, d := r.a, r.b, r.c, r.d;
    Schedule2();
    a := GG(a, b, c, d, x[1], S21, 0xf61e2562);
    assert Regs(d, a, b, c) == Rounds(r, x, 16, 17);
    d := GG(d, a, b, c, x[6], S22, 0xc040b340);
    assert Regs(c, d, a, b) == Rounds(r, x, 16, 18);
    c := GG(c, d, a, b, x[11], S23, 0x265e5a51);
    assert Regs(b, c, d, a) == Rounds(r, x, 16, 19);
    b := GG(b, c, d, a, x[0], S24, 0xe9b6c7aa);
    assert Regs(a, b, c, d) == Rounds(r, x, 16, 20);
    a := GG(a, b, c, d, x[5], S21, 0xd62f105d);
    assert Regs(d, a, b, c) == Rounds(r, x, 16, 21);
    d := GG(d, a, b, c, x[10], S22, 0x2441453);
    assert Regs(c, d, a, b) == Rounds(r, x, 16, 22);
    c := GG(c, d, a, b, x[15], S23, 0xd8a1e681);
    assert Regs(b, c, d, a) == Rounds(r, x, 16, 23);
    b := GG(b, c, d, a, x[4], S24, 0xe7d3fbc8);
    assert Regs(a, b, c, d) == Rounds(r, x, 16, 24);
    a := GG(a, b, c, d, x[9], S21, 0x21e1cde6);
    assert Regs(d, a, b, c) == Rounds(r, x, 16, 25);
    d := GG(d, a, b, c, x[14], S22, 0xc33707d6);
    assert Regs(c, d, a, b) == Rounds(r, x, 16, 26);
    c := GG(c, d, a, b, x[3], S23, 0xf4d50d87);
    assert Regs(b, c, d, a) == Rounds(r, x, 16, 27);
    b := GG(b, c, d, a, x[8], S24, 0x455a14ed);
    assert Regs(a, b, c, d) == Rounds(r, x, 16, 28);
    a := GG(a, b, c, d, x[13], S21, 0xa9e3e905);
    assert Regs(d, a, b, c) == Rounds(r, x, 16, 29);
    d := GG(d, a, b, c, x[2], S22, 0xfcefa3f8);
    assert Regs(c, d, a, b) == Rounds(r, x, 16, 30);
    c := GG(c, d, a, b, x[7], S23, 0x676f02d9);
    assert Regs(b, c, d, a) == Rounds(r, x, 16, 31);
    b := GG(b, c, d, a, x[12], S24, 0x8d2a4c8a);
    r' := Regs(a, b, c, d);
  }

  /** The schedule of round 3. */
  lemma Schedule3()
    ensures K(32) == 5 && S(32) == S31 && T(32) == 0xfffa3942
    ensures K(33) == 8 && S(33) == S32 && T(33) == 0x8771f681
    ensures K(34) == 11 && S(34) == S33 && T(34) == 0x6d9d6122
    ensures K(35) == 14 && S(35) == S34 && T(35) == 0xfde5380c
    ensures K(36) == 1 && S(36) == S31 && T(36) == 0xa4beea44
    ensures K(37) == 4 && S(37) == S32 && T(37) == 0x4bdecfa9
    ensures K(38) == 7 && S(38) == S33 && T(38) == 0xf6bb4b60
    ensures K(39) == 10 && S(39) == S34 && T(39) == 0xbebfbc70
    ensures K(40) == 13 && S(40) == S31 && T(40) == 0x289b7ec6
    ensures K(41) == 0 && S(41) == S32 && T(41) == 0xeaa127fa
    ensures K(42) == 3 && S(42) == S33 && T(42) == 0xd4ef3085
    ensures K(43) == 6 && S(43) == S34 && T(43) == 0x4881d05
    ensures K(44) == 9 && S(44) == S31 && T(44) == 0xd9d4d039
    ensures K(45) == 12 && S(45) == S32 && T(45) == 0xe6db99e5
    ensures K(46) == 15 && S(46) == S33 && T(46) == 0x1fa27cf8
    ensures K(47) == 2 && S(47) == S34 && T(47) == 0xc4ac5665
  {
  }

  method Round3(r: Regs, x: seq<u32>) returns (r': Regs)
    requires |x| == 16
    ensures r' == Rounds(r, x, 32, 48)
  {
    var a, b, c, d := r.a, r.b, r.c, r.d;
    Schedule3();
    a := HH(a, b, c, d, x[5], S31, 0xfffa3942);
    assert Regs(d, a, b, c) == Rounds(r, x, 32, 33);
    d := HH(d, a, b, c, x[8], S32, 0x8771f681);
    assert Regs(c, d, a, b) == Rounds(r, x, 32, 34);
    c := HH(c, d, a, b, x[11], S33, 0x6d9d6122);
    assert Regs(b, c, d, a) == Rounds(r, x, 32, 35);
    b := HH(b, c, d, a, x[14], S34, 0xfde5380c);
    assert Regs(a, b, c, d) == Rounds(r, x, 32, 36);
    a := HH(a, b, c, d, x[1], S31, 0xa4beea44);
    assert Regs(d, a, b, c) == Rounds(r, x, 32, 37);
    d := HH(d, a, b, c, x[4], S32, 0x4bdecfa9);
    assert Regs(c, d, a, b) == Rounds(r, x, 32, 38);
    c := HH(c, d, a, b, x[7], S33, 0xf6bb4b60);
    assert Regs(b, c, d, a) == Rounds(r, x, 32, 39);
    b := HH(b, c, d, a, x[10], S34, 0xbebfbc70);
    assert Regs(a, b, c, d) == Rounds(r, x, 32, 40);
    a := HH(a, b, c, d, x[13], S31, 0x289b7ec6);
    assert Regs(d, a, b, c) == Rounds(r, x, 32, 41);
    d := HH(d, a, b, c, x[0], S32, 0xeaa127fa);
    assert Regs(c, d, a, b) == Rounds(r, x, 32, 42);
    c := HH(c, d, a, b, x[3], S33, 0xd4ef3085);
    assert Regs(b, c, d, a) == Rounds(r, x, 32, 43);
    b := HH(b, c, d, a, x[6], S34, 0x4881d05);
    assert Regs(a, b, c, d) == Rounds(r, x, 32, 44);
    a := HH(a, b, c, d, x[9], S31, 0xd9d4d039);
    assert Regs(d, a, b, c) == Rounds(r, x, 32, 45);
    d := HH(d, a, b, c, x[12], S32, 0xe6db99e5);
    assert Regs(c, d, a, b) == Rounds(r, x, 32, 46);
    c := HH(c, d, a, b, x[15], S33, 0x1fa27cf8);
    assert Regs(b, c, d, a) == Rounds(r, x, 32, 47);
    b := HH(b, c, d, a, x[2], S34, 0xc4ac5665);
    r' := Regs(a, b, c, d);
  }

  /** The schedule of round 4. */
  lemma Schedule4()
    ensures K(48) == 0 && S(48) == S41 && T(48) == 0xf4292244
    ensures K(49) == 7 && S(49) == S42 && T(49) == 0x432aff97
    ensures K(50) == 14 && S(50) == S43 && T(50) == 0xab9423a7
    ensures K(51) == 5 && S(51) == S44 && T(51) == 0xfc93a039
    ensures K(52) == 12 && S(52) == S41 && T(52) == 0x655b59c3
    ensures K(53) == 3 && S(53) == S42 && T(53) == 0x8f0ccc92
    ensures K(54) == 10 && S(54) == S43 && T(54) == 0xffeff47d
    ensures K(55) == 1 && S(55) == S44 && T(55) == 0x85845dd1
    ensures K(56) == 8 && S(56) == S41 && T(56) == 0x6fa87e4f
    ensures K(57) == 15 && S(57) == S42 && T(57) == 0xfe2ce6e0
    ensures K(58) == 6 && S(58) == S43 && T(58) == 0xa3014314
    ensures K(59) == 13 && S(59) == S44 && T(59) == 0x4e0811a1
    ensures K(60) == 4 && S(60) == S41 && T(60) == 0xf7537e82
    ensures K(61) == 11 && S(61) == S42 && T(61) == 0xbd3af235
    ensures K(62) == 2 && S(62) == S43 && T(62) == 0x2ad7d2bb
    ensures K(63) == 9 && S(63) == S44 && T(63) == 0xeb86d391
  {
  }

  method Round4(r: Regs, x: seq<u32>) returns (r': Regs)
    requires |x| == 16
    ensures r' == Rounds(r, x, 48, 64)
  {
    var a, b, c, d := r.a, r.b, r.c, r.d;
    Schedule4();
    a := II(a, b, c, d, x[0], S41, 0xf4292244);
    assert Regs(d, a, b, c) == Rounds(r, x, 48, 49);
    d := II(d, a, b, c, x[7], S42, 0x432aff97);
    assert Regs(c, d, a, b) == Rounds(r, x, 48, 50);
    c := II(c, d, a, b, x[14], S43, 0xab9423a7);
    assert Regs(b, c, d, a) == Rounds(r, x, 48, 51);
    b := II(b, c, d, a, x[5], S44, 0xfc93a039);
    assert Regs(a, b, c, d) == Rounds(r, x, 48, 52);
    a := II(a, b, c, d, x[12], S41, 0x655b59c3);
    assert Regs(d, a, b, c) == Rounds(r, x, 48, 53);
    d := II(d, a, b, c, x[3], S42, 0x8f0ccc92);
    assert Regs(c, d, a, b) == Rounds(r, x, 48, 54);
    c := II(c, d, a, b, x[10], S43, 0xffeff47d);
    assert Regs(b, c, d, a) == Rounds(r, x, 48, 55);
    b := II(b, c, d, a, x[1], S44, 0x85845dd1);
    assert Regs(a, b, c, d) == Rounds(r, x, 48, 56);
    a := II(a, b, c, d, x[8], S41, 0x6fa87e4f);
    assert Regs(d, a, b, c) == Rounds(r, x, 48, 57);
    d := II(d, a, b, c, x[15], S42, 0xfe2ce6e0);
    assert Regs(c, d, a, b) == Rounds(r, x, 48, 58);
    c := II(c, d, a, b, x[6], S43, 0xa3014314);
    assert Regs(b, c, d, a) == Rounds(r, x, 48, 59);
    b := II(b, c, d, a, x[13], S44, 0x4e0811a1);
    assert Regs(a, b, c, d) == Rounds(r, x, 48, 60);
    a := II(a, b, c, d, x[4], S41, 0xf7537e82);
    assert Regs(d, a, b, c) == Rounds(r, x, 48, 61);
    d := II(d, a, b, c, x[11], S42, 0xbd3af235);
    assert Regs(c, d, a, b) == Rounds(r, x, 48, 62);
    c := II(c, d, a, b, x[2], S43, 0x2ad7d2bb);
    assert Regs(b, c, d, a) == Rounds(r, x, 48, 63);
    b := II(b, c, d, a, x[9], S44, 0xeb86d391);
    r' := Regs(a, b, c, d);
  }

  method AllRounds(r: Regs, x: seq<u32>) returns (r': Regs)
    requires |x| == 16
    ensures r' == Rounds(r, x, 0, 64)
  {
    r' := Round1(r, x);
    r' := Round2(r', x);
    RoundsCompose(r, x, 0, 16, 32);
    r' := Round3(r', x);
    RoundsCompose(r, x, 0, 32, 48);
    r' := Round4(r', x);
    RoundsCompose(r, x, 0, 48, 64);
  }

  lemma Quotients(w: nat)
    ensures w / TWO8 / TWO8 == w / TWO16 && w / TWO16 / TWO8 == w / TWO24
  {
  }

  lemma BytesOfWord(w: u32)
    ensures Le32(w) == [w % TWO8, w / TWO8 % TWO8, w / TWO16 % TWO8, w / TWO24 % TWO8]
  {
    Quotients(w);
    var q := w / TWO8;
    assert Le(w, 4) == [w % TWO8] + Le(q, 3);
    assert Le(q, 3) == [q % TWO8] + Le(q / TWO8, 2);
    assert Le(q / TWO8, 2) == [q / TWO8 % TWO8] + Le(q / TWO16, 1);
  }

  lemma WordOfBytes(s: seq<byte>)
    requires |s| == 4
    ensures FromLe32(s) == s[0] + TWO8 * s[1] + TWO16 * s[2] + TWO24 * s[3]
  {
    assert FromLe(s[1..]) == s[1] + TWO8 * FromLe(s[1..][1..]);
    assert FromLe(s[2..]) == s[2] + TWO8 * FromLe(s[2..][1..]);
    assert s[1..][1..] == s[2..] && s[2..][1..] == s[3..] == [s[3]];
    assert FromLe([s[3]]) == s[3];
  }

  /** Encode: words into bytes, least significant first. */
  method Encode(input: seq<u32>) returns (output: seq<byte>)
    ensures output == BytesOf(input)
  {
    output := [];
    var i := 0;
    while i < |input|
      invariant 0 <= i <= |input|
      invariant output + BytesOf(input[i..]) == BytesOf(input)
    {
      var w := input[i];
      BytesOfWord(w);
      output := output + [w % TWO8, w / TWO8 % TWO8, w / TWO16 % TWO8, w / TWO24 % TWO8];
      assert Le32(w) + BytesOf(input[i + 1..]) == BytesOf(input[i..]) by {
        assert input[i..][1..] == input[i + 1..];
      }
      i := i + 1;
    }
    assert input[i..] == [];
  }

  /** Decode: bytes into words. */
  method Decode(input: seq<byte>) returns (output: seq<u32>)
    requires |input| % 4 == 0
    ensures output == WordsOf(input)
  {
    output := [];
    var i, j := 0, 0;
    while j < |input|
      invariant 0 <= j == 4 * i <= |input| && |output| == i
      invariant output == WordsOf(input)[..i]
    {
      WordOfBytes(input[j..j + 4]);
      output := output + [input[j] + TWO8 * input[j + 1] + TWO16 * input[j + 2] + TWO24 * input[j + 3]];
      i, j := i + 1, j + 4;
    }
  }

  /** The streaming loop of MD5Update reads its counter in 32-bit arithmetic. */
  function LoopCounter(index: nat, rounds: nat): u32
    requires index < 64
  {
    Wrap32(64 - index + 64 * rounds)
  }

  predicate LoopGuard(i: u32, inputLen: u32) { Wrap32(i + 63) < inputLen }

  /**
   * The block loop of MD5Update ends exactly when the buffered bytes and the input together stay below 2^32
   * bytes; otherwise its guard is true at every counter value it ever reaches.
   */
  lemma UpdateLoopEnds(index: nat, inputLen: u32)
    requires index < 64 && inputLen >= 64 - index
    ensures (exists n: nat :: !LoopGuard(LoopCounter(index, n), inputLen)) <==> index + inputLen < TWO32
  {
    if index + inputLen < TWO32 {
      var n: nat := 0x400_0000 - 2;
      assert LoopCounter(index, n) == TWO32 - 64 - index;
      assert !LoopGuard(LoopCounter(index, n), inputLen);
    } else {
      forall n: nat
        ensures LoopGuard(LoopCounter(index, n), inputLen)
      {
        LastReachable(index, n);
      }
    }
  }

  lemma LastReachable(index: nat, n: nat)
    requires index < 64
    ensures Wrap32(LoopCounter(index, n) + 63) <= TWO32 - 1 - index
  {
    var k := 127 - index + 64 * n;
    ModTwice(64 - index + 64 * n, 63);
    var q := k / TWO32;
    assert k - TWO32 * q == 64 * (n + 1 - 0x400_0000 * q) + (63 - index);
  }

  lemma ModTwice(a: nat, b: nat)
    ensures (a % TWO32 + b) % TWO32 == (a + b) % TWO32
  {
    var q := a / TWO32;
    Remainder(TWO32, (a % TWO32 + b) / TWO32 + q, (a % TWO32 + b) % TWO32, a + b);
  }

  /** A context that has buffered one byte never finishes absorbing 2^32 - 1 more. */
  lemma UpdateLoopCanDiverge()
    ensures forall n: nat :: LoopGuard(LoopCounter(1, n), TWO32 - 1)
  {
    UpdateLoopEnds(1, TWO32 - 1);
  }

  lemma IndexFromCount(total: nat, low: u32, high: u32)
    requires low + TWO32 * high == 8 * total % TWO64
    ensures low / 8 % 64 == total % 64
  {
    var q := 8 * total / TWO64;
    assert total == 64 * (0x80_0000_0000_0000 * q + 0x80_0000 * high) + low / 8;
  }

  /** Adding the bit length of the input to the two counter words. */
  lemma CountStep(total: nat, low: u32, high: u32, inputLen: u32)
    requires low + TWO32 * high == 8 * total % TWO64
    ensures
      var low' := Wrap32(low + Wrap32(8 * inputLen));
      var carry := if low' < Wrap32(8 * inputLen) then 1 else 0;
      low' + TWO32 * Wrap32(Wrap32(high + carry) + inputLen / 0x2000_0000) == 8 * (total + inputLen) % TWO64
  {
    var shifted, top := Wrap32(8 * inputLen), inputLen / 0x2000_0000;
    assert 8 * inputLen == TWO32 * top + shifted;
    var low' := Wrap32(low + shifted);
    var carry := if low' < shifted then 1 else 0;
    assert low + shifted == low' + TWO32 * carry;
    ModTwice(high + carry, top);
    var sum := high + carry + top;
    var over := sum / TWO32;
    var q := 8 * total / TWO64;
    Remainder(TWO64, q + over, low' + TWO32 * Wrap32(sum), 8 * (total + inputLen));
  }

  lemma NoWrap(index: nat, i: nat, len: nat, n: nat)
    requires index < 64 && index + len < TWO32 && i <= len && i + index == 64 * n
    ensures Wrap32(i + 63) == i + 63
  {
    assert 64 * n < 64 * 0x400_0000;
  }

  lemma TailOfSum(tail: seq<byte>, input: seq<byte>, i: nat, n: nat)
    requires i <= |input| < i + 64 && i + |tail| == 64 * n
    ensures Tail(tail + input) == input[i..]
  {
    assert |tail + input| - |tail + input| % 64 == i + |tail|;
  }

  lemma FoldFirst<R>(compress: (R, Block) -> R, r: R, tail: seq<byte>, input: seq<byte>)
    requires |tail| < 64 && 64 - |tail| <= |input|
    ensures Fold(compress, r, tail + input)
         == Fold(compress, compress(r, tail + input[..64 - |tail|]), input[64 - |tail|..])
  {
    assert (tail + input)[..64] == tail + input[..64 - |tail|];
    assert (tail + input)[64..] == input[64 - |tail|..];
  }

  lemma FoldNext<R>(compress: (R, Block) -> R, r: R, input: seq<byte>, i: nat)
    requires i + 64 <= |input|
    ensures Fold(compress, r, input[i..]) == Fold(compress, compress(r, input[i..i + 64]), input[i + 64..])
  {
    assert input[i..][..64] == input[i..i + 64] && input[i..][64..] == input[i + 64..];
  }

  class Context {
    var state: Regs
    var count0: u32
    var count1: u32
    const buffer: array<byte>
    ghost var message: seq<byte>

    ghost predicate StateIsFold()
      reads this
    {
      state == Fold(Compress, INITIAL, message)
    }

    ghost predicate BufferIsTail()
      reads this, buffer
    {
      buffer.Length == 64 && buffer[..|Tail(message)|] == Tail(message)
    }

    ghost predicate CountIsLength()
      reads this
    {
      count0 + TWO32 * count1 == BitLength(message)
    }

    ghost predicate Valid()
      reads this, buffer
    {
      StateIsFold() && BufferIsTail() && CountIsLength()
    }

    /** The number of buffered bytes. */
    function Index(): (k: nat)
      reads this, buffer
      ensures k < 64
      ensures Valid() ==> k == |message| % 64
    {
      assert Valid() ==> count0 / 8 % 64 == |message| % 64 by {
        if Valid() { IndexFromCount(|message|, count0, count1); }
      }
      count0 / 8 % 64
    }

    /** MD5Init. */
    constructor ()
      ensures Valid() && message == [] && fresh(buffer)
    {
      state := INITIAL;
      count0, count1 := 0, 0;
      buffer := new byte[64];
      message := [];
      new;
      assert StateIsFold();
      assert CountIsLength();
    }

    /** MD5Transform. */
    method Transform(block: Block)
      modifies this`state
      ensures state == Compress(old(state), block)
    {
      var x := Decode(block);
      var r := AllRounds(state, x);
      state := Plus(state, r);
    }

    /** MD5_memcpy into the buffer. */
    method Copy(at: nat, input: seq<byte>)
      requires at + |input| <= buffer.Length
      modifies buffer
      ensures buffer[..] == old(buffer[..at]) + input + old(buffer[at + |input|..])
    {
      var i := 0;
      while i < |input|
        invariant 0 <= i <= |input|
        invariant buffer[..at + i] == old(buffer[..at]) + input[..i]
        invariant buffer[at + i..] == old(buffer[at + i..])
      {
        buffer[at + i] := input[i];
        i := i + 1;
      }
      assert input[..i] == input;
    }

    /** The two-word bit counter of MD5Update. */
    method AddLength(inputLen: u32)
      requires CountIsLength()
      modifies this`count0, this`count1
      ensures count0 + TWO32 * count1 == 8 * (|message| + inputLen) % TWO64
    {
      CountStep(|message|, count0, count1, inputLen);
      var shifted := Wrap32(8 * inputLen);
      count0 := Wrap32(count0 + shifted);
      var carry := if count0 < shifted then 1 else 0;
      count1 := Wrap32(Wrap32(count1 + carry) + inputLen / 0x2000_0000);
    }

    /** MD5Update; the caller keeps the buffered bytes and the input together below 2^32 bytes. */
    method Update(input: seq<byte>)
      requires Valid() && Index() + |input| < TWO32
      modifies this, buffer
      ensures Valid() && message == old(message) + input
    {
      hide Operation, Fold, Tail, Index;
      var index := Index();
      AddLength(|input|);
      ghost var before := message;
      TailAppend(before, input);
      FoldTail(Compress, INITIAL, before, input);
      Absorb(index, input, Tail(before));
      message := before + input;
    }

    /** The block loop of MD5Update and the copy of what is left over. */
    method Absorb(index: nat, input: seq<byte>, ghost tail: seq<byte>)
      requires buffer.Length == 64 && index == |tail| < 64 && buffer[..index] == tail && index + |input| < TWO32
      modifies this`state, buffer
      ensures state == Fold(Compress, old(state), tail + input)
      ensures buffer[..|Tail(tail + input)|] == Tail(tail + input)
    {
      hide Operation;
      var inputLen: u32 := |input|;
      var partLen := 64 - index;
      if inputLen >= partLen {
        ghost var n;
        var i;
        i, n := AbsorbBlocks(index, input, tail);
        TailOfSum(tail, input, i, n);
        Copy(0, input[i..]);
      } else {
        Copy(index, input);
        assert Tail(tail + input) == tail + input;
      }
    }

    method FillBuffer(index: nat, input: seq<byte>, ghost tail: seq<byte>)
      requires buffer.Length == 64 && index == |tail| && index + |input| == 64 && buffer[..index] == tail
      modifies this`state, buffer
      ensures state == Compress(old(state), tail + input)
    {
      Copy(index, input);
      assert buffer[..] == tail + input;
      Transform(buffer[..]);
    }

    /** The first block completes the buffer; the others come straight from the input. */
    method AbsorbBlocks(index: nat, input: seq<byte>, ghost tail: seq<byte>) returns (i: u32, ghost n: nat)
      requires buffer.Length == 64 && index == |tail| < 64 && buffer[..index] == tail
      requires 64 - index <= |input| && index + |input| < TWO32
      modifies this`state, buffer
      ensures i <= |input| < i + 64 && i + index == 64 * n
      ensures state == Fold(Compress, old(state), tail + input)
    {
      hide Operation;
      FoldFirst(Compress, state, tail, input);
      FillBuffer(index, input[..64 - index], tail);
      i, n := WholeBlocks(index, input);
    }

    method WholeBlocks(index: nat, input: seq<byte>) returns (i: u32, ghost n: nat)
      requires index < 64 && 64 - index <= |input| && index + |input| < TWO32
      modifies this`state
      ensures i <= |input| < i + 64 && i + index == 64 * n
      ensures state == Fold(Compress, old(state), input[64 - index..])
    {
      hide Operation;
      i, n := 64 - index, 1;
      ghost var goal := Fold(Compress, state, input[i..]);
      while Wrap32(i + 63) < |input|
        invariant i + index == 64 * n && i <= |input|
        invariant Fold(Compress, state, input[i..]) == goal
        decreases |input| - i
      {
        NoWrap(index, i, |input|, n);
        AbsorbOne(input, i, goal);
        i, n := i + 64, n + 1;
      }
      NoWrap(index, i, |input|, n);
    }

    method AbsorbOne(input: seq<byte>, i: u32, ghost goal: Regs)
      requires i + 64 <= |input| && Fold(Compress, state, input[i..]) == goal
      modifies this`state
      ensures Fold(Compress, state, input[i + 64..]) == goal
    {
      hide Operation;
      FoldNext(Compress, state, input, i);
      Transform(input[i..i + 64]);
    }

    /** The two calls of MD5Update inside MD5Final. */
    method AbsorbPadding(bits: seq<byte>)
      requires Valid() && |bits| == 8
      modifies this, buffer
      ensures Valid()
      ensures message == old(message) + [0x80] + Zeros(PadLength(|old(message)|) - 1) + bits
    {
      ghost var text := message;
      var index := Index();
      var padLen := if index < 56 then 56 - index else 120 - index;
      var padding := [0x80] + Zeros(padLen - 1);
      Update(padding);
      Update(bits);
      assert text + padding == text + [0x80] + Zeros(padLen - 1);
    }

    /** MD5Final: pads, appends the length, writes the digest and clears the context. */
    method Final() returns (digest: seq<byte>)
      requires Valid()
      modifies this, buffer
      ensures digest == Digest(old(message))
      ensures state == Regs(0, 0, 0, 0) && count0 == count1 == 0 && forall i :: 0 <= i < buffer.Length ==> buffer[i] == 0
    {
      ghost var text := message;
      var bits := Encode([count0, count1]);
      assert count0 == BitLength(text) % TWO32 && count1 == BitLength(text) / TWO32;
      AbsorbPadding(bits);
      assert message == Pad(text);
      digest := Encode([state.a, state.b, state.c, state.d]);
      state, count0, count1 := Regs(0, 0, 0, 0), 0, 0;
      forall i | 0 <= i < buffer.Length {
        buffer[i] := 0;
      }
    }
  }

  /** MD5File: the reads of a file arrive as chunks of at most 1024 bytes. */
  method DigestChunks(chunks: seq<seq<byte>>) returns (digest: seq<byte>)
    requires forall c :: c in chunks ==> |c| <= 1024
    ensures digest == Digest(Flatten(chunks))
  {
    var context := new Context();
    var i := 0;
    while i < |chunks|
      invariant 0 <= i <= |chunks|
      invariant context.Valid() && fresh(context) && fresh(context.buffer)
      invariant context.message == Flatten(chunks[..i])
    {
      context.Update(chunks[i]);
      FlattenPrefix(chunks, i);
      i := i + 1;
    }
    assert chunks[..i] == chunks;
    digest := context.Final();
  }

  /** MD5Buffer and MD5String: one call on a fresh context takes any length an unsigned int can hold. */
  method DigestBuffer(text: seq<byte>) returns (digest: seq<byte>)
    requires |text| < TWO32
    ensures digest == Digest(text)
  {
    var context := new Context();
    context.Update(text);
    assert [] + text == text;
    digest := context.Final();
  }
}
