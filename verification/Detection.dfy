/** Exactly which changes of a few consecutive words Fletcher-4 does not see. */
module Detection {
  import opened Bytes
  import opened Checksum

  predicate Small(ws: seq<nat>) { forall n :: 0 <= n < |ws| ==> ws[n] < TWO_32 }

  /** The blocks agree outside the `len` words from `i` on. */
  predicate Within(ws: seq<nat>, us: seq<nat>, i: nat, len: nat)
  {
    |ws| == |us| && forall n :: 0 <= n < |ws| && !(i <= n < i + len) ==> ws[n] == us[n]
  }

  /** Weights up to four words further from the end, by the weights of lower order. */
  lemma {:induction false} WeightAhead(n: nat)
    ensures Weight(0, n) == Weight(0, n + 1) == Weight(0, n + 2) == Weight(0, n + 3) == Weight(0, n + 4) == 1
    ensures var x := Weight(1, n);
            && Weight(1, n + 1) == x + 1 && Weight(1, n + 2) == x + 2 && Weight(1, n + 3) == x + 3
            && Weight(1, n + 4) == x + 4
    ensures var x, y := Weight(1, n), Weight(2, n);
            && Weight(2, n + 1) == y + x + 1 && Weight(2, n + 2) == y + 2 * x + 3
            && Weight(2, n + 3) == y + 3 * x + 6 && Weight(2, n + 4) == y + 4 * x + 10
    ensures var x, y, z := Weight(1, n), Weight(2, n), Weight(3, n);
            && Weight(3, n + 1) == z + y + x + 1 && Weight(3, n + 2) == z + 2 * y + 3 * x + 4
            && Weight(3, n + 3) == z + 3 * y + 6 * x + 10 && Weight(3, n + 4) == z + 4 * y + 10 * x + 20
  {
    hide Weight;
    WeightsLow(n);
    WeightsLow(n + 1);
    WeightsLow(n + 2);
    WeightsLow(n + 3);
    WeightsLow(n + 4);
    Pascal(2, n + 1);
    Pascal(2, n + 2);
    Pascal(2, n + 3);
    Pascal(2, n + 4);
    Pascal(3, n + 1);
    Pascal(3, n + 2);
    Pascal(3, n + 3);
    Pascal(3, n + 4);
  }

  function Times(a: int, b: int): int { a * b }

  /** The changes of five words, from the last to the first, each times its weight. */
  function Sum5(a: int, b: int, c: int, d: int, e: int, v: int, w: int, x: int, y: int, z: int): int
  {
    Times(a, v) + Times(b, w) + Times(c, x) + Times(d, y) + Times(e, z)
  }

  /** Five changes gathered by Pascal's rule, order by order. */
  function Gather(order: nat, a: int, b: int, c: int, d: int, e: int): int
  {
    if order == 0 then a + b + c + d + e
    else if order == 1 then b + 2 * c + 3 * d + 4 * e
    else if order == 2 then b + 3 * c + 6 * d + 10 * e
    else b + 4 * c + 10 * d + 20 * e
  }

  /** A product spread over weights of four orders. */
  lemma Spread(e: int, z: int, y: int, x: int, u: int, p: int, q: int, r: int)
    ensures Times(e, z + p * y + q * x + r * u)
         == Times(e, z) + p * Times(e, y) + q * Times(e, x) + r * Times(e, u)
  {
    Distribute(z + p * y + q * x, r * u, e);
    Distribute(z + p * y, q * x, e);
    Distribute(z, p * y, e);
    MulAssoc(p, y, e);
    MulAssoc(q, x, e);
    MulAssoc(r, u, e);
  }

  /** A product of a gathered change, term by term. */
  lemma SpreadGather(order: nat, a: int, b: int, c: int, d: int, e: int, w: int)
    requires order <= 3
    ensures Times(Gather(order, a, b, c, d, e), w)
         == Gather(order, Times(a, w), Times(b, w), Times(c, w), Times(d, w), Times(e, w))
  {
    Terms(if order == 0 then 1 else 0, a, b,
          if order == 0 then 1 else if order == 1 then 2 else if order == 2 then 3 else 4, c,
          if order == 0 then 1 else if order == 1 then 3 else if order == 2 then 6 else 10, d,
          if order == 0 then 1 else if order == 1 then 4 else if order == 2 then 10 else 20, e, w);
    hide Times;
  }

  lemma Terms(f: int, a: int, b: int, g: int, c: int, h: int, d: int, j: int, e: int, w: int)
    ensures Times(f * a + b + g * c + h * d + j * e, w)
         == f * Times(a, w) + Times(b, w) + g * Times(c, w) + h * Times(d, w) + j * Times(e, w)
  {
    Distribute(f * a + b + g * c + h * d, j * e, w);
    Distribute(f * a + b + g * c, h * d, w);
    Distribute(f * a + b, g * c, w);
    Distribute(f * a, b, w);
    MulAssoc(f, a, w);
    MulAssoc(g, c, w);
    MulAssoc(h, d, w);
    MulAssoc(j, e, w);
  }

  /** The weighted changes, gathered. */
  lemma Combine(a: int, b: int, c: int, d: int, e: int, z: int, y: int, x: int, u: int)
    ensures Sum5(a, b, c, d, e, z, z + y + x + u, z + 2 * y + 3 * x + 4 * u, z + 3 * y + 6 * x + 10 * u,
                 z + 4 * y + 10 * x + 20 * u)
         == Times(Gather(0, a, b, c, d, e), z) + Times(Gather(1, a, b, c, d, e), y)
            + Times(Gather(2, a, b, c, d, e), x) + Times(Gather(3, a, b, c, d, e), u)
  {
    hide Times;
    Spread(b, z, y, x, u, 1, 1, 1);
    Spread(c, z, y, x, u, 2, 3, 4);
    Spread(d, z, y, x, u, 3, 6, 10);
    Spread(e, z, y, x, u, 4, 10, 20);
    SpreadGather(0, a, b, c, d, e, z);
    SpreadGather(1, a, b, c, d, e, y);
    SpreadGather(2, a, b, c, d, e, x);
    SpreadGather(3, a, b, c, d, e, u);
  }

  /** The change of one sum when the five words before the last n change. */
  function Change(k: nat, n: nat, a: int, b: int, c: int, d: int, e: int): int
  {
    Sum5(a, b, c, d, e, Weight(k, n), Weight(k, n + 1), Weight(k, n + 2), Weight(k, n + 3), Weight(k, n + 4))
  }

  lemma {:induction false} ChangeGathered(n: nat, a: int, b: int, c: int, d: int, e: int)
    ensures var x, y, z := Weight(1, n), Weight(2, n), Weight(3, n);
            var s, t := Gather(0, a, b, c, d, e), Gather(1, a, b, c, d, e);
            var u, v := Gather(2, a, b, c, d, e), Gather(3, a, b, c, d, e);
            && Change(0, n, a, b, c, d, e) == s
            && Change(1, n, a, b, c, d, e) == Times(s, x) + t
            && Change(2, n, a, b, c, d, e) == Times(s, y) + Times(t, x) + u
            && Change(3, n, a, b, c, d, e) == Times(s, z) + Times(t, y) + Times(u, x) + v
  {
    hide Weight, Sum5, Gather;
    var x, y, z := Weight(1, n), Weight(2, n), Weight(3, n);
    WeightAhead(n);
    Combine(a, b, c, d, e, 1, 0, 0, 0);
    Combine(a, b, c, d, e, x, 1, 0, 0);
    Combine(a, b, c, d, e, y, x, 1, 0);
    Combine(a, b, c, d, e, z, y, x, 1);
  }

  lemma Multiple(s: int, w: int)
    requires s % TWO_64 == 0
    ensures Times(s, w) % TWO_64 == 0
  {
    var q := s / TWO_64;
    MulAssoc(w, q, TWO_64);
    DivModUnique(s * w, TWO_64, w * q, 0);
  }

  lemma Drop(m: int, t: int)
    requires m % TWO_64 == 0 && (m + t) % TWO_64 == 0
    ensures t % TWO_64 == 0
  {
  }

  /** From the last word to the first, five words of a block. */
  lemma {:induction false} FiveChanges(k: nat, ws: seq<nat>, us: seq<nat>, i: nat)
    requires Within(ws, us, i, 5) && i + 5 <= |ws|
    ensures var n := |ws| - i - 4;
            Weighted(k, us) - Weighted(k, ws)
            == Change(k, n, Delta(ws, us, i + 4), Delta(ws, us, i + 3), Delta(ws, us, i + 2), Delta(ws, us, i + 1),
                      Delta(ws, us, i))
  {
    hide Weighted, Weight, Times;
    var one := ws[i := us[i]];
    var two := one[i + 1 := us[i + 1]];
    var three := two[i + 2 := us[i + 2]];
    var four := three[i + 3 := us[i + 3]];
    assert us == four[i + 4 := us[i + 4]];
    OneChange(k, ws, i, us[i]);
    OneChange(k, one, i + 1, us[i + 1]);
    OneChange(k, two, i + 2, us[i + 2]);
    OneChange(k, three, i + 3, us[i + 3]);
    OneChange(k, four, i + 4, us[i + 4]);
  }

  function Delta(ws: seq<nat>, us: seq<nat>, n: nat): int
    requires n < |ws| == |us|
  {
    (us[n] as int) - ws[n]
  }

  lemma {:induction false} OneChange(k: nat, ws: seq<nat>, i: nat, x: nat)
    requires i < |ws|
    ensures Weighted(k, ws[i := x]) - Weighted(k, ws) == Times((x as int) - ws[i], Weight(k, |ws| - i))
  {
    hide Weighted, Weight;
    WeightedUpdate(k, ws, i, x, (x as int) - ws[i]);
  }

  lemma Congruent(x: int, y: int)
    requires x % TWO_64 == y % TWO_64
    ensures (x - y) % TWO_64 == 0
  {
  }

  /** Exactly which changes of five consecutive words Fletcher-4 does not see, in a block of any
      length: those in balance. */
  lemma {:induction false} Fletcher4FiveWords(ws: seq<nat>, us: seq<nat>, i: nat)
    requires Within(ws, us, i, 5) && i + 5 <= |ws| && Small(ws) && Small(us)
    ensures Fletcher4Of(us) == Fletcher4Of(ws) <==> Balanced(ws, us, i, Delta(ws, us, i))
  {
    hide Weighted, Weight, Balanced, Change, Gather;
    var a, b, c := Delta(ws, us, i + 4), Delta(ws, us, i + 3), Delta(ws, us, i + 2);
    var d, e := Delta(ws, us, i + 1), Delta(ws, us, i);
    if Balanced(ws, us, i, e) { Fletcher4Blind(ws, us, i, e); }
    if Fletcher4Of(us) == Fletcher4Of(ws) {
      Congruent(Weighted(0, us), Weighted(0, ws));
      Congruent(Weighted(1, us), Weighted(1, ws));
      Congruent(Weighted(2, us), Weighted(2, ws));
      Congruent(Weighted(3, us), Weighted(3, ws));
      FiveChanges(0, ws, us, i);
      FiveChanges(1, ws, us, i);
      FiveChanges(2, ws, us, i);
      FiveChanges(3, ws, us, i);
      Eliminate(|ws| - i - 4, a, b, c, d, e);
      InBalance(a, b, c, d, e);
      BalancedIs(ws, us, i);
    }
  }

  lemma BalancedIs(ws: seq<nat>, us: seq<nat>, i: nat)
    requires Within(ws, us, i, 5) && i + 5 <= |ws|
    requires var e := Delta(ws, us, i);
             && Delta(ws, us, i + 1) == -4 * e && Delta(ws, us, i + 2) == 6 * e
             && Delta(ws, us, i + 3) == -4 * e && Delta(ws, us, i + 4) == e
    ensures Balanced(ws, us, i, Delta(ws, us, i))
  {
  }

  /** Zero words in front of a block change nothing. */
  lemma {:induction false} ZerosBefore(k: nat, n: nat, ws: seq<nat>)
    ensures Weighted(k, seq<nat>(n, _ => 0) + ws) == Weighted(k, ws)
    decreases n
  {
    hide Weight, Weighted;
    var all := seq<nat>(n, _ => 0) + ws;
    if n == 0 {
      assert all == ws;
    } else {
      assert all[1..] == seq<nat>(n - 1, _ => 0) + ws;
      WeightedCons(k, all);
      ZerosBefore(k, n - 1, ws);
      assert all[0] * Weight(k, |all|) == 0;
    }
  }

  /** Hence every change confined to four consecutive words is seen, in a block of any length. */
  lemma {:induction false} Fletcher4SeesFourWords(ws: seq<nat>, us: seq<nat>, i: nat)
    requires Within(ws, us, i, 4) && Small(ws) && Small(us) && ws != us
    ensures Fletcher4Of(us) != Fletcher4Of(ws)
  {
    hide Weighted;
    var pad := seq<nat>(5, _ => 0);
    var vs, ts := pad + ws, pad + us;
    var p := Min(i + 4, |ws|);
    forall k: nat
      ensures Weighted(k, vs) == Weighted(k, ws) && Weighted(k, ts) == Weighted(k, us)
    {
      ZerosBefore(k, 5, ws);
      ZerosBefore(k, 5, us);
    }
    forall n | 0 <= n < |vs| && !(p <= n < p + 5)
      ensures vs[n] == ts[n]
    {
      if n >= 5 { assert vs[n] == ws[n - 5] && ts[n] == us[n - 5]; }
    }
    Fletcher4FiveWords(vs, ts, p);
    assert vs[p] == ts[p] && vs[5..] == ws && ts[5..] == us;
    NoBalance(vs, ts, p);
  }

  lemma NoBalance(ws: seq<nat>, us: seq<nat>, i: nat)
    requires Within(ws, us, i, 5) && i + 5 <= |ws| && ws != us && ws[i] == us[i]
    ensures !Balanced(ws, us, i, 0)
  {
  }

  /** If all four sums change by multiples of 2^64, so does what Pascal's rule gathers. */
  lemma {:induction false} Eliminate(n: nat, a: int, b: int, c: int, d: int, e: int)
    requires Change(0, n, a, b, c, d, e) % TWO_64 == 0 && Change(1, n, a, b, c, d, e) % TWO_64 == 0
    requires Change(2, n, a, b, c, d, e) % TWO_64 == 0 && Change(3, n, a, b, c, d, e) % TWO_64 == 0
    ensures Gather(0, a, b, c, d, e) % TWO_64 == 0 && Gather(1, a, b, c, d, e) % TWO_64 == 0
    ensures Gather(2, a, b, c, d, e) % TWO_64 == 0 && Gather(3, a, b, c, d, e) % TWO_64 == 0
  {
    hide Weight, Change, Gather, Times;
    var x, y, z := Weight(1, n), Weight(2, n), Weight(3, n);
    var s, t, u := Gather(0, a, b, c, d, e), Gather(1, a, b, c, d, e), Gather(2, a, b, c, d, e);
    ChangeGathered(n, a, b, c, d, e);
    Multiple(s, x);
    Drop(Times(s, x), t);
    Multiple(s, y);
    Multiple(t, x);
    Drop(Times(s, y), Times(t, x) + u);
    Drop(Times(t, x), u);
    Multiple(s, z);
    Multiple(t, y);
    Multiple(u, x);
    Drop(Times(s, z), Times(t, y) + Times(u, x) + Gather(3, a, b, c, d, e));
    Drop(Times(t, y), Times(u, x) + Gather(3, a, b, c, d, e));
    Drop(Times(u, x), Gather(3, a, b, c, d, e));
  }

  /** Small changes whose gathered sums vanish modulo 2^64 are in balance. */
  lemma InBalance(a: int, b: int, c: int, d: int, e: int)
    requires -TWO_32 < a < TWO_32 && -TWO_32 < b < TWO_32 && -TWO_32 < c < TWO_32
    requires -TWO_32 < d < TWO_32 && -TWO_32 < e < TWO_32
    requires Gather(0, a, b, c, d, e) % TWO_64 == 0 && Gather(1, a, b, c, d, e) % TWO_64 == 0
    requires Gather(2, a, b, c, d, e) % TWO_64 == 0 && Gather(3, a, b, c, d, e) % TWO_64 == 0
    ensures d == -4 * e && c == 6 * e && b == -4 * e && a == e
  {
    SmallMultiple(Gather(0, a, b, c, d, e));
    SmallMultiple(Gather(1, a, b, c, d, e));
    SmallMultiple(Gather(2, a, b, c, d, e));
    SmallMultiple(Gather(3, a, b, c, d, e));
  }

  lemma SmallMultiple(x: int)
    ensures -TWO_64 < x < TWO_64 && x % TWO_64 == 0 ==> x == 0
  {
  }
}
