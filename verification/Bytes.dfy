/** Bytes, machine words and the few arithmetic facts that every other module needs. */
module Bytes {

  type Byte = b: int | 0 <= b < 256

  datatype Option<+T> = None | Some(value: T)

  const TWO_31 := 0x8000_0000
  const TWO_32 := 0x1_0000_0000
  const TWO_63 := 0x8000_0000_0000_0000
  const TWO_64 := 0x1_0000_0000_0000_0000

  /** `n` zero bytes. */
  function Zeros(n: nat): (z: seq<Byte>)
    ensures |z| == n
    ensures forall i :: 0 <= i < n ==> z[i] == 0
  {
    seq(n, _ => 0)
  }

  function Min(a: int, b: int): int { if a < b then a else b }

  function Max(a: int, b: int): int { if a < b then b else a }

  /** 1 << n */
  function Pow2(n: nat): (p: nat)
    ensures p >= 1
  {
    if n == 0 then 1 else 2 * Pow2(n - 1)
  }

  lemma {:induction false} Pow2Add(m: nat, n: nat)
    ensures Pow2(m + n) == Pow2(m) * Pow2(n)
  {
    if n > 0 {
      Pow2Add(m, n - 1);
      assert Pow2(m + n) == 2 * Pow2(m + n - 1);
      assert Pow2(m) * (2 * Pow2(n - 1)) == 2 * (Pow2(m) * Pow2(n - 1));
    }
  }

  /** 256 to the n: one more than the largest value of n bytes. */
  function Base256(n: nat): (p: nat)
    ensures p >= 1
  {
    if n == 0 then 1 else 256 * Base256(n - 1)
  }

  /** Little-endian value of a byte string. */
  function Le(s: seq<Byte>): (v: nat)
    ensures v < Base256(|s|)
  {
    if s == [] then 0 else s[0] + 256 * Le(s[1..])
  }

  /** Big-endian value of a byte string. */
  function Be(s: seq<Byte>): (v: nat)
    ensures v < Base256(|s|)
  {
    if s == [] then 0 else 256 * Be(s[..|s| - 1]) + s[|s| - 1]
  }

  /** The `n` low bytes of `v`, lowest first. */
  function LeBytes(v: nat, n: nat): (s: seq<Byte>)
    ensures |s| == n
  {
    if n == 0 then [] else [v % 256] + LeBytes(v / 256, n - 1)
  }

  /** The `n` low bytes of `v`, highest first. */
  function BeBytes(v: nat, n: nat): (s: seq<Byte>)
    ensures |s| == n
  {
    if n == 0 then [] else BeBytes(v / 256, n - 1) + [v % 256]
  }

  lemma {:induction false} BeRoundTrip(v: nat, n: nat)
    requires v < Base256(n)
    ensures Be(BeBytes(v, n)) == v
  {
    if n > 0 {
      BeRoundTrip(v / 256, n - 1);
      assert BeBytes(v, n)[..n - 1] == BeBytes(v / 256, n - 1);
    }
  }

  lemma {:induction false} LeRoundTrip(v: nat, n: nat)
    requires v < Base256(n)
    ensures Le(LeBytes(v, n)) == v
  {
    if n > 0 {
      LeRoundTrip(v / 256, n - 1);
      assert LeBytes(v, n)[1..] == LeBytes(v / 256, n - 1);
    }
  }

  lemma SliceOfSlice<T>(s: seq<T>, start: nat, len: nat, a: nat, b: nat)
    requires a <= b <= len && start + len <= |s|
    ensures s[start..start + len][a..b] == s[start + a..start + b]
  {
    var t := s[start..start + len];
    assert forall i :: 0 <= i < len ==> t[i] == s[start + i];
  }

  // ----- division -----

  lemma DivModUnique(n: int, d: int, k: int, m: int)
    requires d > 0 && 0 <= m < d && n == k * d + m
    ensures n / d == k && n % d == m
  {
    var e := n / d - k;
    assert n == (n / d) * d + n % d;
    assert e * d == m - n % d;
    assert -d < e * d < d;
    assert e == 0 by {
      if e != 0 {
        MulAtLeast(e, d);
      }
    }
  }

  lemma MulAtLeast(e: int, d: int)
    requires d > 0 && e != 0
    ensures e * d >= d || e * d <= -d
  {
    if e > 0 {
      MulMono(1, e, d);
    } else {
      MulMono(e, -1, d);
    }
  }

  lemma {:induction false} MulMono(a: int, b: int, d: nat)
    requires a <= b
    ensures a * d <= b * d
    decreases d
  {
    if d > 0 {
      MulMono(a, b, d - 1);
      assert a * d == a * (d - 1) + a;
      assert b * d == b * (d - 1) + b;
    }
  }

  lemma MulPositive(a: nat, b: nat)
    requires b >= 1
    ensures a * b >= a
    ensures a == 0 <==> a * b == 0
  {
    MulMono(1, b, a);
  }

  lemma Distribute(a: int, b: int, c: int)
    ensures (a + b) * c == a * c + b * c
    ensures (a - b) * c == a * c - b * c
  {
  }

  lemma MulAssoc(a: int, b: int, c: int)
    ensures (a * b) * c == a * (b * c)
  {
  }

  /** Adding whole multiples of d moves the quotient and leaves the remainder. */
  lemma DivAddMul(n: int, j: int, d: int)
    requires d > 0
    ensures (n + j * d) / d == n / d + j
    ensures (n + j * d) % d == n % d
  {
    Distribute(n / d, j, d);
    DivModUnique(n + j * d, d, n / d + j, n % d);
  }

  // ----- exclusive or -----

  /** Exclusive or of the `n` low bits of `a` and `b`, from the lowest bit up. */
  function XorLow(n: nat, a: nat, b: nat): (r: nat)
    ensures r < Pow2(n)
  {
    if n == 0 then 0
    else (if a % 2 == b % 2 then 0 else 1) + 2 * XorLow(n - 1, a / 2, b / 2)
  }

  function Xor(a: Byte, b: Byte): (r: Byte)
  {
    assert Pow2(8) == 256;
    XorLow(8, a, b)
  }

  /** The lowest bit, and the others. */
  lemma {:induction false} XorLowStep(n: nat, a: nat, b: nat)
    requires n > 0
    ensures XorLow(n, a, b) % 2 == (if a % 2 == b % 2 then 0 else 1)
    ensures XorLow(n, a, b) / 2 == XorLow(n - 1, a / 2, b / 2)
  {
  }

  /** Bit `i` of a number. */
  function Bit(x: nat, i: nat): nat
  {
    if i == 0 then x % 2 else Bit(x / 2, i - 1)
  }

  /** Every bit of the result is set exactly when it is set in one of the two. */
  lemma {:induction false} XorBits(n: nat, a: nat, b: nat, i: nat)
    requires i < n
    ensures Bit(XorLow(n, a, b), i) == 1 <==> Bit(a, i) != Bit(b, i)
  {
    XorLowStep(n, a, b);
    if i > 0 { XorBits(n - 1, a / 2, b / 2, i - 1); }
  }

  lemma {:induction false} XorLowAssoc(n: nat, a: nat, b: nat, c: nat)
    ensures XorLow(n, XorLow(n, a, b), c) == XorLow(n, a, XorLow(n, b, c))
  {
    if n > 0 {
      XorLowAssoc(n - 1, a / 2, b / 2, c / 2);
      var ab, bc := XorLow(n, a, b), XorLow(n, b, c);
      XorLowStep(n, a, b);
      XorLowStep(n, b, c);
      XorLowStep(n, ab, c);
      XorLowStep(n, a, bc);
      hide XorLow;
      assert XorLow(n, ab, c) % 2 == XorLow(n, a, bc) % 2;
    }
  }

  lemma {:induction false} XorLowLaws(n: nat, a: nat, b: nat)
    ensures XorLow(n, a, b) == XorLow(n, b, a)
    ensures XorLow(n, a, a) == 0
    ensures a < Pow2(n) ==> XorLow(n, a, 0) == a
  {
    if n > 0 { XorLowLaws(n - 1, a / 2, b / 2); }
  }

  lemma XorAssoc(a: Byte, b: Byte, c: Byte)
    ensures Xor(Xor(a, b), c) == Xor(a, Xor(b, c))
  {
    XorLowAssoc(8, a, b, c);
  }

  lemma XorComm(a: Byte, b: Byte)
    ensures Xor(a, b) == Xor(b, a)
  {
    XorLowLaws(8, a, b);
  }

  lemma XorZero(a: Byte)
    ensures Xor(a, 0) == a == Xor(0, a)
    ensures Xor(a, a) == 0
  {
    XorLowLaws(8, a, 0);
    assert Pow2(8) == 256;
  }
}
