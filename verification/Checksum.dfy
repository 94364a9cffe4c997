/** The Fletcher checksums, their closed forms, and what they are sure to detect. */
module Checksum {
  import opened Bytes
  import opened Blkptr

  // ----- words of a block -----

  /** The value of `width` bytes in the byte order of the writer. */
  function WordOf(s: seq<Byte>, byteswap: bool): (w: nat)
    ensures w < Base256(|s|)
  {
    if byteswap then Be(s) else Le(s)
  }

  /** Word `i` of a block cut into words of `width` bytes. */
  function WordIn(data: seq<Byte>, width: nat, byteswap: bool, i: nat): (w: nat)
    requires width > 0 && i < |data| / width
    ensures w < Base256(width)
  {
    WordBounds(|data|, width, i);
    WordOf(data[i * width..i * width + width], byteswap)
  }

  /** The whole words of a block; trailing bytes are ignored. */
  function Words(data: seq<Byte>, width: nat, byteswap: bool): (ws: seq<nat>)
    requires width > 0
    ensures |ws| == |data| / width
    ensures forall i :: 0 <= i < |ws| ==> ws[i] < Base256(width)
  {
    seq(|data| / width, i requires 0 <= i < |data| / width => WordIn(data, width, byteswap, i))
  }

  lemma WordBounds(n: nat, width: nat, i: nat)
    requires width > 0 && i < n / width
    ensures 0 <= i * width && i * width + width <= n
  {
    MulMono(i + 1, n / width, width);
    MulMono(0, i, width);
    Distribute(i, 1, width);
  }

  // ----- weighted sums -----

  /** Entry m of the k-th iterated sum of 1, 1, 1, ...: the binomial coefficient C(m + k - 1, k). */
  function Weight(k: nat, m: nat): nat
    decreases k, m
  {
    if k == 0 then 1 else if m == 0 then 0 else Weight(k, m - 1) + Weight(k - 1, m)
  }

  /** Every word times its weight, m being the number of words from it to the end. */
  function Weighted(k: nat, ws: seq<nat>): nat
  {
    if ws == [] then 0 else ws[0] * Weight(k, |ws|) + Weighted(k, ws[1..])
  }

  lemma {:induction false} WeightClosed(m: nat)
    ensures Weight(1, m) == m
    ensures 2 * Weight(2, m) == m * (m + 1)
    ensures 6 * Weight(3, m) == m * (m + 1) * (m + 2)
  {
    if m > 0 {
      WeightClosed(m - 1);
      Products(m);
    }
  }

  lemma Products(m: nat)
    ensures m * (m + 1) == (m - 1) * m + 2 * m
    ensures m * (m + 1) * (m + 2) == (m - 1) * m * (m + 1) + 3 * (m * (m + 1))
  {
    var p := m * (m + 1);
    Distribute(m + 1, -1 - 1, m);
    MulAssoc(m - 1, m, m + 1);
    Distribute(m - 1, 3, p);
  }

  lemma {:induction false} WeightedCons(k: nat, ws: seq<nat>)
    requires ws != []
    ensures Weighted(k, ws) == ws[0] * Weight(k, |ws|) + Weighted(k, ws[1..])
  {
    hide Weight;
  }

  lemma HeadStep(k: nat, m: nat, w: nat)
    requires k > 0
    ensures w * Weight(k, m + 1) == w * Weight(k, m) + w * Weight(k - 1, m + 1)
    ensures m == 0 ==> w * Weight(k, m) == 0
  {
    Distribute(Weight(k, m), Weight(k - 1, m + 1), w);
  }

  /** One more word at the end adds the sum one order lower. */
  lemma {:induction false} WeightedAppend(k: nat, ws: seq<nat>, x: nat)
    requires k > 0
    ensures Weighted(k, ws + [x]) == Weighted(k, ws) + Weighted(k - 1, ws + [x])
    decreases |ws|
  {
    hide Weight, Weighted;
    var all := ws + [x];
    WeightedCons(k, all);
    WeightedCons(k - 1, all);
    HeadStep(k, |ws|, all[0]);
    if ws == [] {
      assert all[1..] == [];
      assert Weighted(k, []) == 0 && Weighted(k - 1, []) == 0 by { NoWords(k); NoWords(k - 1); }
    } else {
      assert all[1..] == ws[1..] + [x];
      WeightedCons(k, ws);
      WeightedAppend(k, ws[1..], x);
    }
  }

  lemma {:induction false} NoWords(k: nat)
    ensures Weighted(k, []) == 0
  {
  }

  lemma {:induction false} SumAppend(ws: seq<nat>, x: nat)
    ensures Weighted(0, ws + [x]) == Weighted(0, ws) + x
  {
    var all := ws + [x];
    if ws == [] {
      assert all[1..] == [];
    } else {
      assert all[1..] == ws[1..] + [x];
      SumAppend(ws[1..], x);
    }
  }

  function Fletcher4Of(ws: seq<nat>): Cksum
  {
    (Weighted(0, ws) % TWO_64, Weighted(1, ws) % TWO_64, Weighted(2, ws) % TWO_64, Weighted(3, ws) % TWO_64)
  }

  lemma AddMod(x: nat, y: nat)
    ensures (x % TWO_64 + y % TWO_64) % TWO_64 == (x + y) % TWO_64
    ensures (x % TWO_64 + y) % TWO_64 == (x + y) % TWO_64
  {
    DivAddMul(x % TWO_64 + y, x / TWO_64, TWO_64);
    DivAddMul(x % TWO_64 + y % TWO_64, x / TWO_64 + y / TWO_64, TWO_64);
  }

  lemma Fletcher4Step(ws: seq<nat>, x: nat, a: nat, b: nat, c: nat, d: nat)
    requires (a, b, c, d) == Fletcher4Of(ws)
    ensures var a' := (a + x) % TWO_64;
            var b' := (b + a') % TWO_64;
            var c' := (c + b') % TWO_64;
            Fletcher4Of(ws + [x]) == (a', b', c', (d + c') % TWO_64)
  {
    hide Weighted;
    SumAppend(ws, x);
    WeightedAppend(1, ws, x);
    WeightedAppend(2, ws, x);
    WeightedAppend(3, ws, x);
    AddMod(Weighted(0, ws), x);
    AddMod(Weighted(1, ws), Weighted(0, ws + [x]));
    AddMod(Weighted(2, ws), Weighted(1, ws + [x]));
    AddMod(Weighted(3, ws), Weighted(2, ws + [x]));
  }

  /** Fletcher-4: four running sums, equal to the weighted sums of order 0 to 3. */
  method Fletcher4(data: seq<Byte>, byteswap: bool) returns (r: Cksum)
    ensures r == Fletcher4Of(Words(data, 4, byteswap))
  {
    hide Fletcher4Of;
    var words := Words(data, 4, byteswap);
    var a: Word, b: Word, c: Word, d: Word := 0, 0, 0, 0;
    var i := 0;
    assert Fletcher4Of(words[..0]) == (0, 0, 0, 0) by { Fletcher4Empty(words[..0]); }
    while i < |words|
      invariant 0 <= i <= |words|
      invariant (a, b, c, d) == Fletcher4Of(words[..i])
    {
      var x := words[i];
      Fletcher4Step(words[..i], x, a, b, c, d);
      assert words[..i + 1] == words[..i] + [x];
      a := (a + x) % TWO_64;
      b := (b + a) % TWO_64;
      c := (c + b) % TWO_64;
      d := (d + c) % TWO_64;
      i := i + 1;
    }
    assert words[..|words|] == words;
    r := (a, b, c, d);
  }

  lemma Fletcher4Empty(ws: seq<nat>)
    requires ws == []
    ensures Fletcher4Of(ws) == (0, 0, 0, 0)
  {
  }

  // ----- Fletcher-2 -----

  /** Every other word from `start`, as many as there are whole pairs. */
  function Lane(ws: seq<nat>, start: nat): (l: seq<nat>)
    requires start < 2
    ensures |l| == |ws| / 2
  {
    seq(|ws| / 2, i requires 0 <= i < |ws| / 2 => ws[2 * i + start])
  }

  function Fletcher2Of(ws: seq<nat>): Cksum
  {
    (Weighted(0, Lane(ws, 0)) % TWO_64, Weighted(0, Lane(ws, 1)) % TWO_64,
     Weighted(1, Lane(ws, 0)) % TWO_64, Weighted(1, Lane(ws, 1)) % TWO_64)
  }

  /** The two sums of one lane so far. */
  ghost predicate Running(lane: seq<nat>, a: nat, b: nat)
  {
    a == Weighted(0, lane) % TWO_64 && b == Weighted(1, lane) % TWO_64
  }

  lemma LaneStep(lane: seq<nat>, n: nat, a: nat, b: nat)
    requires n < |lane| && Running(lane[..n], a, b)
    ensures var a' := (a + lane[n]) % TWO_64;
            Running(lane[..n + 1], a', (b + a') % TWO_64)
  {
    hide Weighted;
    var before, x := lane[..n], lane[n];
    assert lane[..n + 1] == before + [x];
    SumAppend(before, x);
    WeightedAppend(1, before, x);
    AddMod(Weighted(0, before), x);
    AddMod(Weighted(1, before), Weighted(0, before + [x]));
  }

  lemma {:induction false} LanesDone(even: seq<nat>, odd: seq<nat>, n: nat, a0: nat, a1: nat, b0: nat, b1: nat)
    requires n == |even| == |odd| && Running(even[..n], a0, b0) && Running(odd[..n], a1, b1)
    ensures (a0, a1, b0, b1) == (Weighted(0, even) % TWO_64, Weighted(0, odd) % TWO_64,
                                 Weighted(1, even) % TWO_64, Weighted(1, odd) % TWO_64)
  {
    assert even[..n] == even && odd[..n] == odd;
  }

  /** Fletcher-2: two lanes of 64-bit words, two running sums each. */
  method Fletcher2(data: seq<Byte>, byteswap: bool) returns (r: Cksum)
    ensures r == Fletcher2Of(Words(data, 8, byteswap))
  {
    hide Running, Weighted, WordIn;
    var words := Words(data, 8, byteswap);
    assert Base256(8) == TWO_64;
    hide Base256, Words;
    ghost var even, odd := Lane(words, 0), Lane(words, 1);
    var a0: Word, a1: Word, b0: Word, b1: Word := 0, 0, 0, 0;
    LanesStart(even, odd);
    var i := 0;
    ghost var n := 0;
    while i < |words| - 1
      invariant i == 2 * n && n <= |even|
      invariant Running(even[..n], a0, b0) && Running(odd[..n], a1, b1)
    {
      LaneStep(even, n, a0, b0);
      LaneStep(odd, n, a1, b1);
      a0 := (a0 + words[i]) % TWO_64;
      a1 := (a1 + words[i + 1]) % TWO_64;
      b0 := (b0 + a0) % TWO_64;
      b1 := (b1 + a1) % TWO_64;
      i, n := i + 2, n + 1;
    }
    LanesDone(even, odd, n, a0, a1, b0, b1);
    r := (a0, a1, b0, b1);
  }

  lemma LanesStart(even: seq<nat>, odd: seq<nat>)
    ensures Running(even[..0], 0, 0) && Running(odd[..0], 0, 0)
  {
  }

  // ----- verification -----

  datatype Check = Checked(ok: bool, computed: Cksum) | Unsupported

  function ByteSwap64(w: Word): Word
  {
    assert Base256(8) == TWO_64;
    Be(LeBytes(w, 8))
  }

  function Expected(expected: Cksum, byteswap: bool): Cksum
  {
    if byteswap then
      (ByteSwap64(expected.0), ByteSwap64(expected.1), ByteSwap64(expected.2), ByteSwap64(expected.3))
    else expected
  }

  /** The checksum of a block; SHA-256 is foreign code. */
  function Compute(sha256: seq<Byte> -> Cksum, kind: nat, data: seq<Byte>, byteswap: bool): Option<Cksum>
  {
    if kind == 6 then Some(Fletcher2Of(Words(data, 8, byteswap)))
    else if kind == 7 then Some(Fletcher4Of(Words(data, 4, byteswap)))
    else if kind == 8 then Some(sha256(data))
    else None
  }

  function Verify(sha256: seq<Byte> -> Cksum, kind: nat, data: seq<Byte>, expected: Cksum, byteswap: bool): Check
  {
    if kind in {0, 1, 2, 10} then Checked(true, expected)
    else
      match Compute(sha256, kind, data, byteswap)
      case None => Unsupported
      case Some(computed) => Checked(computed == Expected(expected, byteswap), computed)
  }

  /** The program's verification, on the running sums. */
  method VerifyBlock(sha256: seq<Byte> -> Cksum, kind: nat, data: seq<Byte>, expected: Cksum, byteswap: bool)
    returns (r: Check)
    ensures r == Verify(sha256, kind, data, expected, byteswap)
  {
    hide Words, Fletcher2Of, Fletcher4Of, Expected;
    if kind in {0, 1, 2, 10} {
      return Checked(true, expected);
    }
    var computed;
    if kind == 6 {
      computed := Fletcher2(data, byteswap);
    } else if kind == 7 {
      computed := Fletcher4(data, byteswap);
    } else if kind == 8 {
      computed := sha256(data);
    } else {
      return Unsupported;
    }
    r := Checked(computed == Expected(expected, byteswap), computed);
  }

  // ----- detection -----

  lemma {:induction false} WeightedUpdate(k: nat, ws: seq<nat>, i: nat, x: nat, delta: int)
    requires i < |ws|
    requires ws[i] + delta == x
    ensures Weighted(k, ws[i := x]) == Weighted(k, ws) + delta * Weight(k, |ws| - i)
  {
    var us := ws[i := x];
    if i == 0 {
      assert us[1..] == ws[1..];
      Distribute(ws[0], delta, Weight(k, |ws|));
    } else {
      assert us[1..] == ws[1..][i - 1 := x];
      WeightedUpdate(k, ws[1..], i - 1, x, delta);
    }
  }

  /** Two blocks that differ in at most the words i and j (the same word, perhaps). */
  predicate DifferAt(ws: seq<nat>, us: seq<nat>, i: nat, j: nat)
  {
    |ws| == |us| && i <= j < |ws| && us == ws[i := us[i]][j := us[j]]
  }

  lemma {:induction false} WeightedDifference(k: nat, ws: seq<nat>, us: seq<nat>, i: nat, j: nat, a: int, b: int)
    requires DifferAt(ws, us, i, j) && ws[i] + a == us[i] && if i == j then b == 0 else ws[j] + b == us[j]
    ensures Weighted(k, us) - Weighted(k, ws) == a * Weight(k, |ws| - i) + b * Weight(k, |ws| - j)
  {
    hide Weighted, Weight;
    var one := ws[i := us[i]];
    WeightedUpdate(k, ws, i, us[i], a);
    if i == j {
      assert us == one;
    } else {
      assert one[j] == ws[j];
      WeightedUpdate(k, one, j, us[j], b);
    }
  }

  lemma SmallCongruent(x: nat, y: nat)
    requires x % TWO_64 == y % TWO_64 && -TWO_64 < x - y < TWO_64
    ensures x == y
  {
  }

  lemma ProductBound(a: int, b: int)
    requires -TWO_32 < a < TWO_32 && 0 < b < TWO_32
    ensures -TWO_64 < a * b < TWO_64
    ensures a != 0 ==> a * b != 0
  {
    MulMono(a, TWO_32 - 1, b);
    MulMono(-(TWO_32 - 1), a, b);
    if a != 0 { MulAtLeast(a, b); }
  }

  /** Fletcher-4 sees every change confined to two 32-bit words of a block of fewer than 2^32
      words: in particular one changed word, and two exchanged words. */
  lemma Fletcher4SeesTwoWords(ws: seq<nat>, us: seq<nat>, i: nat, j: nat)
    requires DifferAt(ws, us, i, j) && ws != us && |ws| < TWO_32
    requires forall n :: 0 <= n < |ws| ==> ws[n] < TWO_32 && us[n] < TWO_32
    ensures Fletcher4Of(ws) != Fletcher4Of(us)
  {
    hide Weighted, Weight;
    if Fletcher4Of(ws) == Fletcher4Of(us) {
      var a := (us[i] as int) - ws[i];
      var b := if i == j then 0 else (us[j] as int) - ws[j];
      var m, n := |ws| - i, |ws| - j;
      WeightedDifference(0, ws, us, i, j, a, b);
      WeightedDifference(1, ws, us, i, j, a, b);
      WeightsLow(m);
      WeightsLow(n);
      SmallCongruent(Weighted(0, us), Weighted(0, ws));
      assert b == -a;
      if i < j { SecondSumDiffers(Weighted(1, us), Weighted(1, ws), a, m, n); }
    }
  }

  lemma SecondSumDiffers(x: nat, y: nat, a: int, m: int, n: int)
    requires 0 < m - n < TWO_32 && -TWO_32 < a < TWO_32 && a != 0
    requires x - y == a * m + (-a) * n
    ensures x % TWO_64 != y % TWO_64
  {
    Distribute(m, -n, a);
    ProductBound(a, m - n);
    if x % TWO_64 == y % TWO_64 { SmallCongruent(x, y); }
  }

  lemma {:induction false} WeightsLow(m: nat)
    ensures Weight(0, m) == 1 && Weight(1, m) == m
  {
    WeightClosed(m);
  }

  /** Hence a valid block stops being valid after any such change of its bytes. */
  lemma VerifyRejectsTwoWords(sha256: seq<Byte> -> Cksum, data: seq<Byte>, other: seq<Byte>,
                              expected: Cksum, byteswap: bool, i: nat, j: nat)
    requires |data| / 4 < TWO_32
    requires Verify(sha256, 7, data, expected, byteswap).Checked?
    requires Verify(sha256, 7, data, expected, byteswap).ok
    requires DifferAt(Words(data, 4, byteswap), Words(other, 4, byteswap), i, j)
    requires Words(data, 4, byteswap) != Words(other, 4, byteswap)
    ensures Verify(sha256, 7, other, expected, byteswap).Checked?
    ensures !Verify(sha256, 7, other, expected, byteswap).ok
  {
    assert Base256(4) == TWO_32;
    Fletcher4SeesTwoWords(Words(data, 4, byteswap), Words(other, 4, byteswap), i, j);
  }

  /** Fletcher-2 sees a change of one 64-bit word exactly when the word belongs to a whole pair:
      the last word of a block of an odd number of words is not covered. */
  lemma Fletcher2SeesOneWord(ws: seq<nat>, i: nat, x: nat)
    requires i < |ws| && ws[i] != x && x < TWO_64 && ws[i] < TWO_64
    ensures Fletcher2Of(ws[i := x]) != Fletcher2Of(ws) <==> i / 2 < |ws| / 2
  {
    hide Weighted, Weight;
    var us, n := ws[i := x], i / 2;
    if n < |ws| / 2 {
      var lane := Lane(ws, i % 2);
      assert Lane(us, i % 2) == lane[n := x];
      WeightedUpdate(0, lane, n, x, (x as int) - ws[i]);
      WeightsLow(|lane| - n);
      if Fletcher2Of(us) == Fletcher2Of(ws) {
        SmallCongruent(Weighted(0, lane[n := x]), Weighted(0, lane));
      }
    } else {
      assert Lane(us, 0) == Lane(ws, 0) && Lane(us, 1) == Lane(ws, 1);
    }
  }

  /** Any two blocks of one word have one Fletcher-2. */
  lemma {:induction false} Fletcher2Blind(x: Word, y: Word)
    ensures Fletcher2Of([x]) == Fletcher2Of([y])
  {
    hide Weighted;
    if x != y {
      Fletcher2SeesOneWord([y], 0, x);
      assert [y][0 := x] == [x];
    }
  }

  /** Five consecutive words from `i` on, changed by e, -4e, 6e, -4e and e. */
  predicate Balanced(ws: seq<nat>, us: seq<nat>, i: nat, e: int)
  {
    && |ws| == |us| && i + 5 <= |ws|
    && us[i] == ws[i] + e && us[i + 1] == ws[i + 1] - 4 * e && us[i + 2] == ws[i + 2] + 6 * e
    && us[i + 3] == ws[i + 3] - 4 * e && us[i + 4] == ws[i + 4] + e
    && us == ws[i := us[i]][i + 1 := us[i + 1]][i + 2 := us[i + 2]][i + 3 := us[i + 3]][i + 4 := us[i + 4]]
  }

  /** Fletcher-4 does not see every change: in any block, five consecutive words can be changed in
      balance, wherever they have room for it, and the checksum stays the same. */
  lemma {:induction false} Fletcher4Blind(ws: seq<nat>, us: seq<nat>, i: nat, e: int)
    requires Balanced(ws, us, i, e)
    ensures Fletcher4Of(us) == Fletcher4Of(ws)
  {
    hide Weighted, Balanced;
    SumsBalance(0, ws, us, i, e);
    SumsBalance(1, ws, us, i, e);
    SumsBalance(2, ws, us, i, e);
    SumsBalance(3, ws, us, i, e);
  }

  lemma {:induction false} SumsBalance(k: nat, ws: seq<nat>, us: seq<nat>, i: nat, e: int)
    requires Balanced(ws, us, i, e) && k <= 3
    ensures Weighted(k, us) == Weighted(k, ws)
  {
    hide Weighted, Weight;
    var m := |ws| - i;
    var one := ws[i := us[i]];
    var two := one[i + 1 := us[i + 1]];
    var three := two[i + 2 := us[i + 2]];
    var four := three[i + 3 := us[i + 3]];
    WeightedUpdate(k, ws, i, us[i], e);
    WeightedUpdate(k, one, i + 1, us[i + 1], -4 * e);
    WeightedUpdate(k, two, i + 2, us[i + 2], 6 * e);
    WeightedUpdate(k, three, i + 3, us[i + 3], -4 * e);
    WeightedUpdate(k, four, i + 4, us[i + 4], e);
    FourthDifference(k, m);
    FiveProducts(e, Weight(k, m), Weight(k, m - 1), Weight(k, m - 2), Weight(k, m - 3), Weight(k, m - 4));
  }

  /** Polynomials of degree 3 have no fourth difference. */
  lemma {:induction false} FourthDifference(k: nat, m: nat)
    requires k <= 3 && m >= 5
    ensures Weight(k, m) - 4 * Weight(k, m - 1) + 6 * Weight(k, m - 2) - 4 * Weight(k, m - 3) + Weight(k, m - 4) == 0
  {
    hide Weight;
    Pascal(k, m);
    Pascal(k, m - 1);
    Pascal(k, m - 2);
    Pascal(k, m - 3);
    if k > 0 {
      Pascal(k - 1, m);
      Pascal(k - 1, m - 1);
      Pascal(k - 1, m - 2);
    }
    if k > 1 {
      Pascal(k - 2, m);
      Pascal(k - 2, m - 1);
    }
    if k > 2 { Pascal(k - 3, m); }
  }

  lemma Pascal(k: nat, m: nat)
    requires m > 0
    ensures Weight(k, m) == if k == 0 then 1 else Weight(k, m - 1) + Weight(k - 1, m)
    ensures k == 0 ==> Weight(k, m - 1) == 1
  {
  }

  lemma FiveProducts(e: int, a: int, b: int, c: int, d: int, f: int)
    requires a - 4 * b + 6 * c - 4 * d + f == 0
    ensures e * a + (-4 * e) * b + (6 * e) * c + (-4 * e) * d + e * f == 0
  {
    assert e * a + (-4 * e) * b + (6 * e) * c + (-4 * e) * d + e * f == e * (a - 4 * b + 6 * c - 4 * d + f);
  }

  /** Such a change on a block of five words. */
  lemma {:induction false} FiveWords()
    ensures Balanced([0, 4, 0, 4, 0], [1, 0, 6, 0, 1], 0, 1)
    ensures Fletcher4Of([1, 0, 6, 0, 1]) == Fletcher4Of([0, 4, 0, 4, 0])
  {
    assert Balanced([0, 4, 0, 4, 0], [1, 0, 6, 0, 1], 0, 1);
    Fletcher4Blind([0, 4, 0, 4, 0], [1, 0, 6, 0, 1], 0, 1);
  }
}
