/** Machine integers as ranges of the mathematical integers, little-endian byte encodings, and sequence helpers. */
module Words {
  datatype Option<T> = None | Some(value: T)

  function Bit(b: bool): nat { if b then 1 else 0 }

  /** The characters isspace accepts. */
  predicate Space(c: char) { c == ' ' || '\t' <= c <= '\r' }

  const TWO8: int := 0x100
  const TWO16: int := 0x1_0000
  const TWO24: int := 0x100_0000
  const TWO31: int := 0x8000_0000
  const TWO32: int := 0x1_0000_0000
  const TWO64: int := 0x1_0000_0000_0000_0000

  type byte = b: nat | b < 0x100
  type u32 = n: nat | n < 0x1_0000_0000
  type s32 = n: int | -0x8000_0000 <= n < 0x8000_0000
  type u64 = n: nat | n < 0x1_0000_0000_0000_0000

  /** Unsigned 32-bit wrap-around. */
  function Wrap32(n: int): u32 { n % TWO32 }

  /** Unsigned 32-bit addition. */
  function Add32(x: u32, y: u32): u32 { if x + y < TWO32 then x + y else x + y - TWO32 }

  /** Two's complement reading of the low 32 bits. */
  function Signed32(n: int): s32 {
    var low := n % TWO32;
    if low < TWO31 then low else low - TWO32
  }

  /** The n low bytes of a number, least significant first. */
  function Le(w: nat, n: nat): (s: seq<byte>)
    ensures |s| == n
    decreases n, w
  {
    if n == 0 then [] else [w % TWO8] + Le(w / TWO8, n - 1)
  }

  function FromLe(s: seq<byte>): nat {
    if s == [] then 0 else s[0] + TWO8 * FromLe(s[1..])
  }

  function Power256(n: nat): nat {
    if n == 0 then 1 else TWO8 * Power256(n - 1)
  }

  lemma {:induction false} LeRoundTrip(w: nat, n: nat)
    requires w < Power256(n)
    ensures FromLe(Le(w, n)) == w
  {
    if n > 0 {
      assert w / TWO8 < Power256(n - 1);
      LeRoundTrip(w / TWO8, n - 1);
    }
  }

  lemma {:induction false} FromLeRoundTrip(s: seq<byte>)
    ensures FromLe(s) < Power256(|s|) && Le(FromLe(s), |s|) == s
  {
    if s != [] {
      FromLeRoundTrip(s[1..]);
    }
  }

  lemma Powers()
    ensures Power256(4) == TWO32 && Power256(8) == TWO64
  {
    assert Power256(4) == TWO8 * Power256(3);
    assert Power256(8) == TWO8 * Power256(7) && Power256(7) == TWO8 * Power256(6);
    assert Power256(6) == TWO8 * Power256(5) && Power256(5) == TWO8 * Power256(4);
  }

  /** A word in memory: four bytes, least significant first. */
  function Le32(w: u32): (s: seq<byte>)
    ensures |s| == 4
  {
    Le(w, 4)
  }

  function FromLe32(s: seq<byte>): u32
    requires |s| == 4
  {
    FromLeRoundTrip(s);
    Powers();
    FromLe(s)
  }

  function Le64(w: u64): (s: seq<byte>)
    ensures |s| == 8
  {
    Le(w, 8)
  }

  function FromLe64(s: seq<byte>): u64
    requires |s| == 8
  {
    FromLeRoundTrip(s);
    Powers();
    FromLe(s)
  }

  lemma Le32RoundTrip(w: u32)
    ensures FromLe32(Le32(w)) == w
  {
    Powers();
    LeRoundTrip(w, 4);
  }

  lemma Le64RoundTrip(w: u64)
    ensures FromLe64(Le64(w)) == w
  {
    Powers();
    LeRoundTrip(w, 8);
  }

  /** Low 32 bits of a signed word, as stored in memory. */
  function Unsigned32(n: s32): (w: u32)
    ensures Signed32(w) == n
  {
    if n < 0 then n + TWO32 else n
  }

  lemma MulMono(d: nat, x: nat, y: nat)
    requires x <= y
    ensures d * x <= d * y
  {
  }

  /** Quotient and remainder are unique. */
  lemma Remainder(d: nat, q: nat, r: nat, n: nat)
    requires r < d && n == d * q + r
    ensures n / d == q && n % d == r
  {
    var p := n / d;
    assert n == d * p + n % d;
    assert d * (q + 1) == d * q + d && d * (p + 1) == d * p + d;
    if p > q {
      MulMono(d, q + 1, p);
    }
    if p < q {
      MulMono(d, p + 1, q);
    }
  }

  /** Concatenation of a sequence of sequences. */
  function Flatten<T>(ss: seq<seq<T>>): (r: seq<T>)
  {
    if ss == [] then [] else ss[0] + Flatten(ss[1..])
  }

  lemma {:induction false} FlattenAppend<T>(a: seq<seq<T>>, b: seq<seq<T>>)
    ensures Flatten(a + b) == Flatten(a) + Flatten(b)
  {
    if a == [] {
      assert a + b == b;
    } else {
      assert (a + b)[1..] == a[1..] + b;
      FlattenAppend(a[1..], b);
    }
  }

  lemma FlattenSnoc<T>(a: seq<seq<T>>, x: seq<T>)
    ensures Flatten(a + [x]) == Flatten(a) + x
  {
    FlattenAppend(a, [x]);
    assert Flatten([x]) == x + Flatten([]);
  }

  lemma FlattenPrefix<T>(a: seq<seq<T>>, i: nat)
    requires i < |a|
    ensures Flatten(a[..i + 1]) == Flatten(a[..i]) + a[i]
  {
    assert a[..i + 1] == a[..i] + [a[i]];
    FlattenSnoc(a[..i], a[i]);
  }

  function Sum(s: seq<nat>): nat {
    if s == [] then 0 else s[0] + Sum(s[1..])
  }

  lemma {:induction false} SumAppend(a: seq<nat>, b: seq<nat>)
    ensures Sum(a + b) == Sum(a) + Sum(b)
  {
    if a == [] {
      assert a + b == b;
    } else {
      assert (a + b)[1..] == a[1..] + b;
      SumAppend(a[1..], b);
    }
  }
}
