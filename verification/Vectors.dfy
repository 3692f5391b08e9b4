/**
Exact-arithmetic vectors and matrices: the part of numpy the int8 conversion relies on
(`@`, `np.kron`, row reductions), over `real`.
*/
module Vectors {
  import opened Arith

  type Vector = seq<real>
  type Matrix = seq<Vector>

  function Abs(x: real): real { if x < 0.0 then -x else x }

  /** The product of two reals, named so that proofs can keep it uninterpreted. */
  function Mul(a: real, b: real): real { a * b }

  function Dot(x: Vector, y: Vector): real
    requires |x| == |y|
  {
    if x == [] then 0.0 else Mul(x[0], y[0]) + Dot(x[1..], y[1..])
  }

  function Scale(c: real, x: Vector): Vector { seq(|x|, i requires 0 <= i < |x| => Mul(c, x[i])) }

  function Add(x: Vector, y: Vector): Vector
    requires |x| == |y|
  {
    seq(|x|, i requires 0 <= i < |x| => x[i] + y[i])
  }

  function Sub(x: Vector, y: Vector): Vector
    requires |x| == |y|
  {
    seq(|x|, i requires 0 <= i < |x| => x[i] - y[i])
  }

  function Zero(n: nat): Vector { seq(n, i => 0.0) }

  /** The sum of the magnitudes of a vector's entries. */
  function Norm1(x: Vector): real { if x == [] then 0.0 else Abs(x[0]) + Norm1(x[1..]) }

  ghost predicate IsSquare(m: Matrix, n: nat) {
    |m| == n && forall i :: 0 <= i < n ==> |m[i]| == n
  }

  ghost predicate Symmetric(m: Matrix, n: nat)
    requires IsSquare(m, n)
  {
    forall i, j :: 0 <= i < n && 0 <= j < n ==> m[i][j] == m[j][i]
  }

  function Delta(i: int, j: int): real { if i == j then 1.0 else 0.0 }

  /** The rows of `m` are orthonormal: m * m^T is the identity. */
  ghost predicate Orthogonal(m: Matrix, n: nat)
    requires IsSquare(m, n)
  {
    forall i, j :: 0 <= i < n && 0 <= j < n ==> Dot(m[i], m[j]) == Delta(i, j)
  }

  /** The row vector x times the matrix m (`x @ m`): the x-weighted sum of the rows of m. */
  function Times(x: Vector, m: Matrix, n: nat): (r: Vector)
    requires |x| == |m| && forall i :: 0 <= i < |m| ==> |m[i]| == n
    ensures |r| == n
  {
    if x == [] then Zero(n) else Add(Scale(x[0], m[0]), Times(x[1..], m[1..], n))
  }

  /** Column j of a matrix. */
  function Column(m: Matrix, j: nat): Vector
    requires forall i :: 0 <= i < |m| ==> j < |m[i]|
  {
    seq(|m|, i requires 0 <= i < |m| => m[i][j])
  }

  /** The Kronecker product of two row vectors. */
  function KronRow(u: Vector, v: Vector): (r: Vector)
    ensures |r| == |u| * |v|
  {
    if u == [] then [] else Scale(u[0], v) + KronRow(u[1..], v)
  }

  /** `np.kron(a, b)`: row i pairs row i / |b| of a with row i % |b| of b. */
  function Kron(a: Matrix, b: Matrix): (r: Matrix)
    ensures |r| == |a| * |b|
  {
    if b == [] then [] else
      seq(|a| * |b|, i requires 0 <= i < |a| * |b| => IndexSplit(i, |a|, |b|); KronRow(a[i / |b|], b[i % |b|]))
  }

  lemma IndexSplit(i: nat, n: nat, m: nat)
    requires 0 < m && i < n * m
    ensures 0 <= i / m < n && 0 <= i % m < m && i == (i / m) * m + i % m
  {
    assert i == (i / m) * m + i % m;
    if i / m >= n {
      assert (i / m) * m >= n * m by { MulMonotone(n, i / m, m); }
      assert false;
    }
  }

  lemma IndexStep(i: nat, m: nat)
    requires 0 < m
    ensures i < m ==> i / m == 0 && i % m == i
    ensures m <= i ==> (i - m) / m == i / m - 1 && (i - m) % m == i % m
  {
    if m <= i {
      var d, r := (i - m) / m, (i - m) % m;
      assert i - m == d * m + r;
      DivUnique(i, m, d + 1, r);
    } else {
      DivUnique(i, m, 0, i);
    }
  }

  // ---- bilinearity of the dot product

  lemma {:induction false} DotSymmetric(x: Vector, y: Vector)
    requires |x| == |y|
    ensures Dot(x, y) == Dot(y, x)
  {
    if x != [] { DotSymmetric(x[1..], y[1..]); }
  }

  lemma {:induction false} DotScale(c: real, x: Vector, y: Vector)
    requires |x| == |y|
    ensures Dot(Scale(c, x), y) == Mul(c, Dot(x, y))
  {
    hide Mul;
    if x == [] {
      MulZero(c);
    } else {
      DotScale(c, x[1..], y[1..]);
      ScaleTail(c, x);
      FactorLeft(c, x[0], y[0], Dot(x[1..], y[1..]));
    }
  }

  lemma ScaleTail(c: real, x: Vector)
    requires x != []
    ensures Scale(c, x)[1..] == Scale(c, x[1..])
  {
    var l, r := Scale(c, x)[1..], Scale(c, x[1..]);
    hide Mul;
    forall i | 0 <= i < |l| ensures l[i] == r[i] { assert x[1..][i] == x[i + 1]; }
  }

  lemma FactorLeft(c: real, a: real, b: real, d: real)
    ensures Mul(Mul(c, a), b) + Mul(c, d) == Mul(c, Mul(a, b) + d)
  {}

  lemma MulZero(c: real)
    ensures Mul(c, 0.0) == 0.0 && Mul(0.0, c) == 0.0
  {}

  lemma {:induction false} DotAdd(x: Vector, z: Vector, y: Vector)
    requires |x| == |y| == |z|
    ensures Dot(Add(x, z), y) == Dot(x, y) + Dot(z, y)
  {
    if x != [] {
      DotAdd(x[1..], z[1..], y[1..]);
      assert Add(x, z)[1..] == Add(x[1..], z[1..]);
      assert Mul(x[0] + z[0], y[0]) == Mul(x[0], y[0]) + Mul(z[0], y[0]);
    }
  }

  lemma {:induction false} DotSub(x: Vector, z: Vector, y: Vector)
    requires |x| == |y| == |z|
    ensures Dot(Sub(x, z), y) == Dot(x, y) - Dot(z, y)
  {
    if x != [] {
      DotSub(x[1..], z[1..], y[1..]);
      assert Sub(x, z)[1..] == Sub(x[1..], z[1..]);
      assert Mul(x[0] - z[0], y[0]) == Mul(x[0], y[0]) - Mul(z[0], y[0]);
    }
  }

  lemma {:induction false} DotZero(n: nat, y: Vector)
    requires |y| == n
    ensures Dot(Zero(n), y) == 0.0
  {
    hide Mul;
    if n != 0 {
      MulZero(y[0]);
      DotZero(n - 1, y[1..]);
      assert Zero(n)[1..] == Zero(n - 1);
    }
  }

  lemma {:induction false} DotAppend(x: Vector, y: Vector, s: Vector, t: Vector)
    requires |x| == |s| && |y| == |t|
    ensures Dot(x + y, s + t) == Dot(x, s) + Dot(y, t)
  {
    hide Mul;
    if x == [] {
      assert x + y == y && s + t == t;
    } else {
      DotAppend(x[1..], y, s[1..], t);
      assert (x + y)[1..] == x[1..] + y && (s + t)[1..] == s[1..] + t;
    }
  }

  // ---- the Kronecker mixed-product law

  /** The dot product of Kronecker rows factors: (u (x) v).(s (x) t) = (u.s)(v.t). */
  lemma {:induction false} KronRowDot(u: Vector, v: Vector, s: Vector, t: Vector)
    requires |u| == |s| && |v| == |t|
    ensures Dot(KronRow(u, v), KronRow(s, t)) == Mul(Dot(u, s), Dot(v, t))
  {
    hide Mul;
    if u == [] {
      MulZero(Dot(v, t));
    } else {
      var a, b := KronRow(u[1..], v), KronRow(s[1..], t);
      DotAppend(Scale(u[0], v), a, Scale(s[0], t), b);
      DotScaleBoth(u[0], v, s[0], t);
      KronRowDot(u[1..], v, s[1..], t);
      Factor(u[0], s[0], Dot(v, t), Dot(u[1..], s[1..]));
    }
  }

  lemma DotScaleBoth(a: real, x: Vector, b: real, y: Vector)
    requires |x| == |y|
    ensures Dot(Scale(a, x), Scale(b, y)) == Mul(a, Mul(b, Dot(x, y)))
  {
    hide Mul;
    DotScale(a, x, Scale(b, y));
    DotSymmetric(x, Scale(b, y));
    DotScale(b, y, x);
    DotSymmetric(y, x);
  }

  lemma Factor(a: real, b: real, d: real, e: real)
    ensures Mul(a, Mul(b, d)) + Mul(e, d) == Mul(Mul(a, b) + e, d)
  {}

  lemma {:induction false} KronRowEntry(u: Vector, v: Vector, c: nat)
    requires 0 < |v| && c < |u| * |v|
    ensures c / |v| < |u| && c % |v| < |v|
    ensures KronRow(u, v)[c] == Mul(u[c / |v|], v[c % |v|])
  {
    hide Mul;
    IndexSplit(c, |u|, |v|);
    IndexStep(c, |v|);
    if |v| <= c {
      assert |u[1..]| * |v| == |u| * |v| - |v|;
      KronRowEntry(u[1..], v, c - |v|);
    }
  }

  /** np.kron, entry by entry. */
  lemma KronEntry(a: Matrix, b: Matrix, n: nat, m: nat, i: nat, j: nat)
    requires IsSquare(a, n) && IsSquare(b, m) && 0 < m
    requires i < n * m && j < n * m
    ensures 0 <= i / m < n && 0 <= j / m < n && 0 <= i % m < m && 0 <= j % m < m
    ensures |Kron(a, b)| == n * m && |Kron(a, b)[i]| == n * m
    ensures Kron(a, b)[i][j] == Mul(a[i / m][j / m], b[i % m][j % m])
  {
    hide Mul;
    KronSquare(a, b, n, m);
    IndexSplit(i, n, m);
    IndexSplit(j, n, m);
    KronRowEntry(a[i / m], b[i % m], j);
  }

  lemma KronSquare(a: Matrix, b: Matrix, n: nat, m: nat)
    requires IsSquare(a, n) && IsSquare(b, m)
    ensures IsSquare(Kron(a, b), n * m)
  {
    forall i | 0 <= i < n * m ensures |Kron(a, b)[i]| == n * m {
      if 0 < m { IndexSplit(i, n, m); }
    }
  }

  /** A Kronecker product of orthogonal matrices is orthogonal. */
  lemma KronOrthogonal(a: Matrix, b: Matrix, n: nat, m: nat)
    requires IsSquare(a, n) && IsSquare(b, m) && 0 < m
    requires Orthogonal(a, n) && Orthogonal(b, m)
    ensures IsSquare(Kron(a, b), n * m) && Orthogonal(Kron(a, b), n * m)
  {
    KronSquare(a, b, n, m);
    var k := Kron(a, b);
    forall i, j | 0 <= i < n * m && 0 <= j < n * m ensures Dot(k[i], k[j]) == Delta(i, j) {
      IndexSplit(i, n, m);
      IndexSplit(j, n, m);
      KronRowDot(a[i / m], b[i % m], a[j / m], b[j % m]);
    }
  }

  /** A Kronecker product of symmetric matrices is symmetric. */
  lemma KronSymmetric(a: Matrix, b: Matrix, n: nat, m: nat)
    requires IsSquare(a, n) && IsSquare(b, m) && 0 < m
    requires Symmetric(a, n) && Symmetric(b, m)
    ensures IsSquare(Kron(a, b), n * m) && Symmetric(Kron(a, b), n * m)
  {
    KronSquare(a, b, n, m);
    hide Mul;
    var k := Kron(a, b);
    forall i, j | 0 <= i < n * m && 0 <= j < n * m ensures k[i][j] == k[j][i] {
      KronEntry(a, b, n, m, i, j);
      KronEntry(a, b, n, m, j, i);
    }
  }

  // ---- multiplication by an orthogonal matrix

  /** Times is numpy's product: entry j is the dot product with column j. */
  lemma {:induction false} TimesEntry(x: Vector, m: Matrix, n: nat, j: nat)
    requires |x| == |m| && forall i :: 0 <= i < |m| ==> |m[i]| == n
    requires j < n
    ensures Times(x, m, n)[j] == Dot(x, Column(m, j))
  {
    hide Mul;
    if x != [] {
      TimesEntry(x[1..], m[1..], n, j);
      assert Column(m, j)[1..] == Column(m[1..], j);
    }
  }

  lemma TimesSub(x: Vector, y: Vector, m: Matrix, n: nat)
    requires |x| == |y| == |m| && forall i :: 0 <= i < |m| ==> |m[i]| == n
    ensures Times(Sub(x, y), m, n) == Sub(Times(x, m, n), Times(y, m, n))
  {
    forall j | 0 <= j < n ensures Times(Sub(x, y), m, n)[j] == Times(x, m, n)[j] - Times(y, m, n)[j] {
      TimesEntry(Sub(x, y), m, n, j);
      TimesEntry(x, m, n, j);
      TimesEntry(y, m, n, j);
      DotSub(x, y, Column(m, j));
    }
  }

  /** The dot products of z with the rows of m. */
  function Against(m: Matrix, z: Vector): (r: Vector)
    requires forall i :: 0 <= i < |m| ==> |m[i]| == |z|
    ensures |r| == |m|
  {
    seq(|m|, i requires 0 <= i < |m| => Dot(m[i], z))
  }

  /** Moving the matrix across the dot product: (x m).z = x.(m z). */
  lemma {:induction false} TimesDot(x: Vector, m: Matrix, z: Vector)
    requires |x| == |m| && forall i :: 0 <= i < |m| ==> |m[i]| == |z|
    ensures Dot(Times(x, m, |z|), z) == Dot(x, Against(m, z))
  {
    hide Mul;
    if x == [] {
      DotZero(|z|, z);
    } else {
      TimesDot(x[1..], m[1..], z);
      DotAdd(Scale(x[0], m[0]), Times(x[1..], m[1..], |z|), z);
      DotScale(x[0], m[0], z);
      assert Against(m, z)[1..] == Against(m[1..], z);
    }
  }

  /** The vector with a 1 at position k and zeros elsewhere. */
  function Unit(n: nat, k: int): Vector { seq(n, i => Delta(i, k)) }

  lemma {:induction false} DotUnit(y: Vector, k: int)
    ensures Dot(y, Unit(|y|, k)) == if 0 <= k < |y| then y[k] else 0.0
  {
    if y != [] {
      DotUnit(y[1..], k - 1);
      assert Unit(|y|, k)[1..] == Unit(|y| - 1, k - 1);
    }
  }

  /** An orthogonal matrix undoes itself through its rows: m (y m) = y. */
  lemma AgainstTimes(m: Matrix, n: nat, y: Vector)
    requires IsSquare(m, n) && Orthogonal(m, n) && |y| == n
    ensures Against(m, Times(y, m, n)) == y
  {
    forall k | 0 <= k < n ensures Against(m, Times(y, m, n))[k] == y[k] {
      DotSymmetric(m[k], Times(y, m, n));
      TimesDot(y, m, m[k]);
      assert Against(m, m[k]) == Unit(n, k);
      DotUnit(y, k);
    }
  }

  /** Multiplying both sides by one orthogonal matrix keeps the dot product. */
  lemma TimesKeepsDot(x: Vector, y: Vector, m: Matrix, n: nat)
    requires IsSquare(m, n) && Orthogonal(m, n) && |x| == |y| == n
    ensures Dot(Times(x, m, n), Times(y, m, n)) == Dot(x, y)
  {
    TimesDot(x, m, Times(y, m, n));
    AgainstTimes(m, n, y);
  }

  /** A symmetric orthogonal matrix is its own inverse. */
  lemma TimesTwice(y: Vector, m: Matrix, n: nat)
    requires IsSquare(m, n) && Orthogonal(m, n) && Symmetric(m, n) && |y| == n
    ensures Times(Times(y, m, n), m, n) == y
  {
    var z := Times(y, m, n);
    AgainstTimes(m, n, y);
    forall j | 0 <= j < n ensures Times(z, m, n)[j] == y[j] {
      TimesEntry(z, m, n, j);
      assert Column(m, j) == m[j];
      DotSymmetric(z, m[j]);
      assert Against(m, z)[j] == y[j];
    }
  }
}
