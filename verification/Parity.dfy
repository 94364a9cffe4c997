/** Exclusive-or parity over columns of unequal length, and the rebuilding of one of them. */
module Parity {
  import opened Bytes
  import opened Raidz

  /** The accumulator after one column has been folded into it. */
  function XorInto(acc: seq<Byte>, d: seq<Byte>): (r: seq<Byte>)
    ensures |r| == |acc|
  {
    seq(|acc|, i requires 0 <= i < |acc| => if i < |d| then Xor(acc[i], d[i]) else acc[i])
  }

  /** All data columns among the first `n`, except column `skip`, folded into `acc`. */
  function XorColumns(cols: seq<Column>, bytes: seq<seq<Byte>>, skip: nat, acc: seq<Byte>, n: nat): (r: seq<Byte>)
    requires n <= |cols| == |bytes|
    ensures |r| == |acc|
  {
    if n == 0 then acc
    else
      var r := XorColumns(cols, bytes, skip, acc, n - 1);
      if cols[n - 1].role == Data && n - 1 != skip then XorInto(r, bytes[n - 1]) else r
  }

  /** The parity of the data columns, each zero-extended to `size`. */
  function ParityOf(cols: seq<Column>, bytes: seq<seq<Byte>>, size: nat): (p: seq<Byte>)
    requires |cols| == |bytes|
    ensures |p| == size
  {
    XorColumns(cols, bytes, |cols|, Zeros(size), |cols|)
  }

  /** Byte `i` of a column, zero beyond its end. */
  function At(d: seq<Byte>, i: nat): Byte
  {
    if i < |d| then d[i] else 0
  }

  function XorAt(cols: seq<Column>, bytes: seq<seq<Byte>>, skip: nat, i: nat, n: nat): Byte
    requires n <= |cols| == |bytes|
  {
    if n == 0 then 0
    else
      var r := XorAt(cols, bytes, skip, i, n - 1);
      if cols[n - 1].role == Data && n - 1 != skip then Xor(r, At(bytes[n - 1], i)) else r
  }

  lemma {:induction false} XorColumnsAt(cols: seq<Column>, bytes: seq<seq<Byte>>, skip: nat,
                                        acc: seq<Byte>, i: nat, n: nat)
    requires n <= |cols| == |bytes| && i < |acc|
    ensures XorColumns(cols, bytes, skip, acc, n)[i] == Xor(acc[i], XorAt(cols, bytes, skip, i, n))
  {
    hide Xor;
    if n == 0 {
      XorZero(acc[i]);
    } else {
      XorColumnsAt(cols, bytes, skip, acc, i, n - 1);
      var x, d := XorAt(cols, bytes, skip, i, n - 1), At(bytes[n - 1], i);
      XorAssoc(acc[i], x, d);
      XorZero(Xor(acc[i], x));
    }
  }

  /** Taking column `k` out of the fold and adding it back gives the full fold. */
  lemma {:induction false} XorAtSplit(cols: seq<Column>, bytes: seq<seq<Byte>>, k: nat, i: nat, n: nat)
    requires n <= |cols| == |bytes| && k < |cols| && cols[k].role == Data
    ensures XorAt(cols, bytes, |cols|, i, n)
         == if k < n then Xor(XorAt(cols, bytes, k, i, n), At(bytes[k], i)) else XorAt(cols, bytes, k, i, n)
  {
    hide Xor;
    if n > 0 {
      XorAtSplit(cols, bytes, k, i, n - 1);
      if k < n - 1 && cols[n - 1].role == Data {
        var r, b, d := XorAt(cols, bytes, k, i, n - 1), At(bytes[k], i), At(bytes[n - 1], i);
        XorAssoc(r, b, d);
        XorComm(b, d);
        XorAssoc(r, d, b);
      }
    }
  }

  /** What the reconstruction of column `k` computes: the head of the parity, folded with
      the other data columns, is the missing column. */
  lemma {:induction false} Rebuild(cols: seq<Column>, bytes: seq<seq<Byte>>, size: nat, k: nat)
    requires |cols| == |bytes| && k < |cols| && cols[k].role == Data && |bytes[k]| <= size
    ensures XorColumns(cols, bytes, k, ParityOf(cols, bytes, size)[..|bytes[k]|], |cols|) == bytes[k]
  {
    hide Xor;
    var p := ParityOf(cols, bytes, size);
    var acc := p[..|bytes[k]|];
    var n := |cols|;
    forall i | 0 <= i < |bytes[k]|
      ensures XorColumns(cols, bytes, k, acc, n)[i] == bytes[k][i]
    {
      var others := XorAt(cols, bytes, k, i, n);
      XorColumnsAt(cols, bytes, k, acc, i, n);
      XorColumnsAt(cols, bytes, n, Zeros(size), i, n);
      XorAtSplit(cols, bytes, k, i, n);
      var b := bytes[k][i];
      XorZero(XorAt(cols, bytes, n, i, n));
      XorComm(others, b);
      XorAssoc(b, others, others);
      XorZero(others);
      XorZero(b);
    }
  }

  /** The fold does not look at the column it skips. */
  lemma {:induction false} XorColumnsIgnores(cols: seq<Column>, bytes: seq<seq<Byte>>,
                                             bytes': seq<seq<Byte>>, skip: nat, acc: seq<Byte>, n: nat)
    requires n <= |cols| == |bytes| == |bytes'|
    requires forall i :: 0 <= i < n && i != skip && cols[i].role == Data ==> bytes[i] == bytes'[i]
    ensures XorColumns(cols, bytes, skip, acc, n) == XorColumns(cols, bytes', skip, acc, n)
  {
    if n > 0 {
      XorColumnsIgnores(cols, bytes, bytes', skip, acc, n - 1);
    }
  }
}
