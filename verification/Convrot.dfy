/**
The convrot int8 layout of server/scripts/convert_moss_image.py in exact arithmetic:
every 256-wide group of a weight row is rotated by a Kronecker power of a 4x4 Hadamard matrix,
and the rotated row is quantized to int8 with one scale.
*/
module Convrot {
  import opened Vectors

  const GROUP: nat := 256

  const H4: Matrix := [
    [0.5, 0.5, 0.5, -0.5],
    [0.5, 0.5, -0.5, 0.5],
    [0.5, -0.5, 0.5, 0.5],
    [-0.5, 0.5, 0.5, 0.5]]

  function Pow4(k: nat): (r: nat)
    ensures r > 0
  {
    if k == 0 then 1 else Pow4(k - 1) * 4
  }

  /** The (k+1)-fold Kronecker power of H4. */
  function Hadamard(k: nat): Matrix { if k == 0 then H4 else Kron(Hadamard(k - 1), H4) }

  ghost predicate IsRotation(m: Matrix, n: nat) {
    IsSquare(m, n) && Symmetric(m, n) && Orthogonal(m, n)
  }

  lemma DotOfFour(a: real, b: real, c: real, d: real, e: real, f: real, g: real, h: real)
    ensures Dot([a, b, c, d], [e, f, g, h]) == Mul(a, e) + Mul(b, f) + Mul(c, g) + Mul(d, h)
  {
    hide Mul;
    assert [a, b, c, d][1..] == [b, c, d] && [e, f, g, h][1..] == [f, g, h];
    assert [b, c, d][1..] == [c, d] && [f, g, h][1..] == [g, h];
    assert [c, d][1..] == [d] && [g, h][1..] == [h];
    assert [d][1..] == [] && [h][1..] == [];
    assert Dot([d], [h]) == Mul(d, h) + Dot([], []);
    assert Dot([c, d], [g, h]) == Mul(c, g) + Dot([d], [h]);
  }

  lemma H4IsRotation()
    ensures IsRotation(H4, 4)
  {
    forall i, j | 0 <= i < 4 && 0 <= j < 4
      ensures H4[i][j] == H4[j][i] && Dot(H4[i], H4[j]) == Delta(i, j)
    {
      var x, y := H4[i], H4[j];
      assert x == [x[0], x[1], x[2], x[3]] && y == [y[0], y[1], y[2], y[3]];
      DotOfFour(x[0], x[1], x[2], x[3], y[0], y[1], y[2], y[3]);
    }
  }

  /** Every Kronecker power of H4 is symmetric and orthogonal. */
  lemma {:induction false} HadamardIsRotation(k: nat)
    ensures IsRotation(Hadamard(k), Pow4(k + 1))
  {
    H4IsRotation();
    if k > 0 {
      HadamardIsRotation(k - 1);
      KronOrthogonal(Hadamard(k - 1), H4, Pow4(k), 4);
      KronSymmetric(Hadamard(k - 1), H4, Pow4(k), 4);
    }
  }

  /** In how many of the lowest base-4 digit positions the digits of i and j add up to 3. */
  function Opposed(i: nat, j: nat, positions: nat): nat {
    if positions == 0 then 0 else
      (if i % 4 + j % 4 == 3 then 1 else 0) + Opposed(i / 4, j / 4, positions - 1)
  }

  function Halves(k: nat): real { if k == 0 then 1.0 else Halves(k - 1) / 2.0 }

  function Signed(r: real, negations: nat): real { if negations % 2 == 0 then r else -r }

  lemma H4Entry(a: nat, b: nat)
    requires a < 4 && b < 4
    ensures H4[a][b] == Signed(0.5, if a + b == 3 then 1 else 0)
  {}

  lemma HalveSigned(r: real, m: nat, n: nat)
    requires n <= 1
    ensures Mul(Signed(r, m), Signed(0.5, n)) == Signed(r / 2.0, n + m)
  {}

  /** All entries have the same magnitude; the sign is the parity of the opposed digits. */
  lemma {:induction false} HadamardEntry(k: nat, i: nat, j: nat)
    requires i < Pow4(k + 1) && j < Pow4(k + 1)
    ensures IsSquare(Hadamard(k), Pow4(k + 1))
    ensures Hadamard(k)[i][j] == Signed(Halves(k + 1), Opposed(i, j, k + 1))
  {
    hide Mul, Kron, Dot, Signed, Symmetric, Orthogonal;
    HadamardIsRotation(k);
    var opposed := if i % 4 + j % 4 == 3 then 1 else 0;
    assert Opposed(i, j, k + 1) == opposed + Opposed(i / 4, j / 4, k);
    assert Halves(k + 1) == Halves(k) / 2.0;
    H4Entry(i % 4, j % 4);
    if k == 0 {
      OneFactor(i, j);
    } else {
      HadamardIsRotation(k - 1);
      H4IsRotation();
      KronEntry(Hadamard(k - 1), H4, Pow4(k), 4, i, j);
      HadamardEntry(k - 1, i / 4, j / 4);
      HalveSigned(Halves(k), Opposed(i / 4, j / 4, k), opposed);
    }
  }

  lemma OneFactor(i: nat, j: nat)
    requires i < 4 && j < 4
    ensures Hadamard(0) == H4 && Pow4(1) == 4 && Halves(1) == 0.5
    ensures i % 4 == i && j % 4 == j && Opposed(i, j, 1) == if i + j == 3 then 1 else 0
  {
    assert Opposed(i / 4, j / 4, 0) == 0;
  }

  /** The entry of the 256-wide rotation at row i and column j. */
  function Sixteenth(i: nat, j: nat): real { if Opposed(i, j, 4) % 2 == 0 then 1.0 / 16.0 else -1.0 / 16.0 }

  lemma Hadamard256Entries()
    ensures Pow4(4) == 256 && IsSquare(Hadamard(3), 256)
    ensures forall i, j :: 0 <= i < 256 && 0 <= j < 256 ==> Hadamard(3)[i][j] == Sixteenth(i, j)
  {
    hide Hadamard, Opposed, Symmetric, Orthogonal;
    FourFactors();
    HadamardIsRotation(3);
    forall i, j | 0 <= i < 256 && 0 <= j < 256 ensures Hadamard(3)[i][j] == Sixteenth(i, j) {
      HadamardEntry(3, i, j);
    }
  }

  lemma FourFactors()
    ensures Pow4(4) == 256 && Halves(4) == 1.0 / 16.0
  {
    assert Pow4(2) == 16 && Pow4(3) == 64;
    assert Halves(2) == 0.25 && Halves(3) == 0.125;
  }

  /** hadamard_256: the loop over np.kron. */
  method Hadamard256() returns (rot: Matrix)
    ensures rot == Hadamard(3)
    ensures IsRotation(rot, 256)
    ensures forall i, j :: 0 <= i < 256 && 0 <= j < 256 ==> rot[i][j] == Sixteenth(i, j)
  {
    rot := H4;
    for i := 0 to 3
      invariant rot == Hadamard(i)
    {
      rot := Kron(rot, H4);
    }
    HadamardIsRotation(3);
    Hadamard256Entries();
  }

  // ---- rotating a row group by group

  /** The row reshaped to groups of width n, each group multiplied by rot. */
  function RotateRow(w: Vector, rot: Matrix, n: nat): (r: Vector)
    requires 0 < n && |w| % n == 0 && IsSquare(rot, n)
    ensures |r| == |w|
    decreases |w|
  {
    if w == [] then [] else
      assert n <= |w| && (|w| - n) % n == 0 by { IndexStep(|w|, n); }
      Times(w[..n], rot, n) + RotateRow(w[n..], rot, n)
  }

  /** Rotating a weight row and an activation vector leaves their dot product unchanged. */
  lemma {:induction false} RotationKeepsDot(w: Vector, x: Vector, rot: Matrix, n: nat)
    requires 0 < n && |w| == |x| && |w| % n == 0 && IsRotation(rot, n)
    ensures Dot(RotateRow(w, rot, n), RotateRow(x, rot, n)) == Dot(w, x)
    decreases |w|
  {
    hide RotateRow, Times, Dot;
    if w != [] {
      RotateStep(w, rot, n);
      RotateStep(x, rot, n);
      RotationKeepsDot(w[n..], x[n..], rot, n);
      TimesKeepsDot(w[..n], x[..n], rot, n);
      hide IsRotation;
      DotAppend(Times(w[..n], rot, n), RotateRow(w[n..], rot, n), Times(x[..n], rot, n), RotateRow(x[n..], rot, n));
      DotAppend(w[..n], w[n..], x[..n], x[n..]);
      assert w == w[..n] + w[n..] && x == x[..n] + x[n..];
    } else {
      EmptyRow(w, rot, n);
      EmptyRow(x, rot, n);
    }
  }

  lemma EmptyRow(w: Vector, rot: Matrix, n: nat)
    requires 0 < n && w == [] && IsSquare(rot, n)
    ensures RotateRow(w, rot, n) == w
  {}

  /** The rotation is its own inverse, so no weight information is lost by it. */
  lemma {:induction false} RotateRowTwice(w: Vector, rot: Matrix, n: nat)
    requires 0 < n && |w| % n == 0 && IsRotation(rot, n)
    ensures RotateRow(RotateRow(w, rot, n), rot, n) == w
    decreases |w|
  {
    hide RotateRow, Times;
    if w == [] {
      EmptyRow(w, rot, n);
    } else {
      RotateStep(w, rot, n);
      RotateRowTwice(w[n..], rot, n);
      TimesTwice(w[..n], rot, n);
      var first, rest := Times(w[..n], rot, n), RotateRow(w[n..], rot, n);
      var r := RotateRow(w, rot, n);
      RotateStep(r, rot, n);
      hide IsRotation;
      assert (first + rest)[..n] == first && (first + rest)[n..] == rest;
      assert w == w[..n] + w[n..];
    }
  }

  lemma RotateStep(w: Vector, rot: Matrix, n: nat)
    requires 0 < n && w != [] && |w| % n == 0 && IsSquare(rot, n)
    ensures n <= |w| && (|w| - n) % n == 0
    ensures RotateRow(w, rot, n) == Times(w[..n], rot, n) + RotateRow(w[n..], rot, n)
  {
    hide Times;
    IndexStep(|w|, n);
  }

  /** Entry j of a rotated row: its own group against column j % n. */
  lemma {:induction false} RotateRowEntry(w: Vector, rot: Matrix, n: nat, j: nat)
    requires 0 < n && |w| % n == 0 && IsSquare(rot, n) && j < |w|
    ensures 0 <= j / n && j / n * n + n <= |w| && 0 <= j % n < n
    ensures RotateRow(w, rot, n)[j] == Dot(w[j / n * n..j / n * n + n], Column(rot, j % n))
    decreases |w|
  {
    hide RotateRow, Times, Dot;
    RotateStep(w, rot, n);
    IndexStep(j, n);
    if j < n {
      TimesEntry(w[..n], rot, n, j);
    } else {
      RotateRowEntry(w[n..], rot, n, j - n);
      var a := (j / n - 1) * n;
      assert a + n == j / n * n;
      assert w[n..][a..a + n] == w[a + n..a + n + n];
    }
  }

  /** A single weight x at column c is spread evenly over its group and reaches no other group. */
  lemma SpreadsEvenly(w: Vector, rot: Matrix, c: nat, x: real, j: nat)
    requires IsSquare(rot, 256) && forall k, l :: 0 <= k < 256 && 0 <= l < 256 ==> rot[k][l] == Sixteenth(k, l)
    requires |w| % 256 == 0 && c < |w| && j < |w|
    requires forall k :: 0 <= k < |w| ==> w[k] == if k == c then x else 0.0
    ensures Abs(RotateRow(w, rot, 256)[j]) == if j / 256 == c / 256 then Abs(x) / 16.0 else 0.0
  {
    hide RotateRow, Times, Dot, Opposed;
    RotateRowEntry(w, rot, 256, j);
    var a := j / 256 * 256;
    var column, unit := Column(rot, j % 256), Unit(256, c - a);
    assert w[a..a + 256] == Scale(x, unit);
    DotScale(x, unit, column);
    DotSymmetric(unit, column);
    DotUnit(column, c - a);
    if j / 256 == c / 256 { assert column[c - a] == Sixteenth(c - a, j % 256); }
  }

  // ---- rounding, scale and clip

  /** np.rint: nearest integer, ties to the even one. */
  function Rint(x: real): int {
    var f := x.Floor;
    var d := x - f as real;
    if d < 0.5 then f else if d > 0.5 then f + 1 else if f % 2 == 0 then f else f + 1
  }

  lemma RintNearest(x: real, k: int)
    ensures Abs(x - Rint(x) as real) <= 0.5
    ensures Abs(x - Rint(x) as real) <= Abs(x - k as real)
    ensures Abs(x - Rint(x) as real) == Abs(x - k as real) && k != Rint(x) ==> Rint(x) % 2 == 0
  {
    var f := x.Floor;
    assert k <= f || f + 1 <= k;
    assert k <= f ==> k as real <= f as real;
    assert f + 1 <= k ==> (f + 1) as real <= k as real;
  }

  function Clip(k: int, lo: int, hi: int): int { if k < lo then lo else if k > hi then hi else k }

  function MaxAbs(w: Vector): (m: real)
    requires w != []
    ensures forall i :: 0 <= i < |w| ==> Abs(w[i]) <= m
    ensures exists i :: 0 <= i < |w| && Abs(w[i]) == m
  {
    if |w| == 1 then Abs(w[0]) else
      var rest := MaxAbs(w[1..]);
      assert forall i :: 1 <= i < |w| ==> w[i] == w[1..][i - 1];
      if Abs(w[0]) < rest then
        assert exists i :: 0 <= i < |w| && Abs(w[i]) == rest by {
          var j :| 0 <= j < |w[1..]| && Abs(w[1..][j]) == rest;
          assert w[j + 1] == w[1..][j];
        }
        rest
      else Abs(w[0])
  }

  datatype QuantizedRow = QuantizedRow(q: seq<int>, scale: real)

  function Safe(scale: real): (r: real)
    ensures r != 0.0
  { if scale == 0.0 then 1.0 else scale }

  function QuantizeEntry(x: real, scale: real): (q: int)
    requires 0.0 <= scale
    ensures -127 <= q <= 127
  {
    Clip(Rint(x / Safe(scale)), -127, 127)
  }

  /** One row of quantize_convrot after the rotation. */
  function QuantizeRow(w: Vector): (r: QuantizedRow)
    requires w != []
    ensures |r.q| == |w| && 0.0 <= r.scale
  {
    var scale := MaxAbs(w) / 127.0;
    QuantizedRow(seq(|w|, i requires 0 <= i < |w| => QuantizeEntry(w[i], scale)), scale)
  }

  lemma PositiveProduct(a: real, b: real)
    requires 0.0 < a && 0.0 < b
    ensures 0.0 < a * b
  {}

  lemma DivideBound(x: real, s: real)
    requires 0.0 < s && Abs(x) <= 127.0 * s
    ensures -127.0 <= x / s <= 127.0
  {
    var y := x / s;
    assert y * s == x;
    if y > 127.0 {
      PositiveProduct(y - 127.0, s);
    } else if y < -127.0 {
      PositiveProduct(-127.0 - y, s);
    }
  }

  lemma ScaleError(x: real, s: real, k: int)
    requires 0.0 < s && Abs(x / s - k as real) <= 0.5
    ensures Abs(x - Mul(s, k as real)) <= Mul(s, 0.5)
  {
    var d := x / s - k as real;
    assert x == (x / s) * s;
    HalfStep(d, s);
  }

  lemma HalfStep(d: real, s: real)
    requires 0.0 < s && Abs(d) <= 0.5
    ensures -Mul(s, 0.5) <= d * s <= Mul(s, 0.5)
  {}

  /** The clip never changes a value and the rounding error is at most half a step. */
  lemma EntryError(x: real, scale: real)
    requires 0.0 <= scale && Abs(x) <= 127.0 * scale
    ensures Rint(x / Safe(scale)) == QuantizeEntry(x, scale) && -127 <= QuantizeEntry(x, scale) <= 127
    ensures Abs(x - Mul(scale, QuantizeEntry(x, scale) as real)) <= Mul(scale, 0.5)
  {
    if scale != 0.0 {
      DivideBound(x, scale);
      RintNearest(x / scale, 0);
      RintInRange(x / scale);
      ScaleError(x, scale, Rint(x / scale));
    }
  }

  lemma RintInRange(y: real)
    requires -127.0 <= y <= 127.0
    ensures -127 <= Rint(y) <= 127
    ensures y == 127.0 ==> Rint(y) == 127
    ensures y == -127.0 ==> Rint(y) == -127
  {}

  lemma ExtremeEntry(x: real, scale: real)
    requires 0.0 < scale && Abs(x) == 127.0 * scale
    ensures QuantizeEntry(x, scale) == 127 || QuantizeEntry(x, scale) == -127
  {
    DivideBound(x, scale);
    var y := x / scale;
    assert y * scale == x;
    if x >= 0.0 {
      assert y == 127.0 by { if y < 127.0 { PositiveProduct(127.0 - y, scale); } }
    } else {
      assert y == -127.0 by { if y > -127.0 { PositiveProduct(y + 127.0, scale); } }
    }
    RintInRange(y);
  }

  /** The stored row: every entry is the unclipped rounding and within half a step of the weight. */
  ghost predicate FaithfulRow(w: Vector, r: QuantizedRow) {
    && |r.q| == |w| && 0.0 <= r.scale
    && forall i :: 0 <= i < |w| ==>
         && -127 <= r.q[i] <= 127
         && r.q[i] == Rint(w[i] / Safe(r.scale))
         && Abs(w[i] - Mul(r.scale, r.q[i] as real)) <= Mul(r.scale, 0.5)
  }

  lemma RowError(w: Vector)
    requires w != []
    ensures FaithfulRow(w, QuantizeRow(w))
  {
    hide Rint, Abs, Mul, QuantizeEntry, Safe;
    var r := QuantizeRow(w);
    forall i | 0 <= i < |w|
      ensures -127 <= r.q[i] <= 127
      ensures r.q[i] == Rint(w[i] / Safe(r.scale))
      ensures Abs(w[i] - Mul(r.scale, r.q[i] as real)) <= Mul(r.scale, 0.5)
    {
      EntryError(w[i], r.scale);
    }
  }

  /** The scale is as small as int8 allows: zero exactly for an all-zero row, and otherwise some entry
      of the row uses the full range. */
  lemma RowUsesFullRange(w: Vector)
    requires w != []
    ensures var r := QuantizeRow(w);
      && (r.scale == 0.0 <==> forall i :: 0 <= i < |w| ==> w[i] == 0.0)
      && (r.scale != 0.0 ==> exists i :: 0 <= i < |w| && (r.q[i] == 127 || r.q[i] == -127))
  {
    hide QuantizeEntry;
    var r := QuantizeRow(w);
    var k :| 0 <= k < |w| && Abs(w[k]) == MaxAbs(w);
    if r.scale != 0.0 {
      ExtremeEntry(w[k], r.scale);
      assert r.q[k] == QuantizeEntry(w[k], r.scale);
    }
  }

  function AsReal(q: seq<int>): (r: Vector)
    ensures |r| == |q|
  {
    seq(|q|, i requires 0 <= i < |q| => q[i] as real)
  }

  /** Entrywise error e turns into at most e times the 1-norm of the other factor. */
  lemma {:induction false} DotError(w: Vector, q: seq<int>, scale: real, e: real, x: Vector)
    requires |w| == |q| == |x|
    requires forall i :: 0 <= i < |w| ==> Abs(w[i] - Mul(scale, q[i] as real)) <= e
    ensures Abs(Dot(w, x) - Mul(scale, Dot(AsReal(q), x))) <= Mul(e, Norm1(x))
  {
    hide Mul;
    if w == [] {
      MulZero(scale);
      MulZero(e);
    } else {
      DotError(w[1..], q[1..], scale, e, x[1..]);
      assert AsReal(q)[1..] == AsReal(q[1..]);
      TermError(w[0], q[0] as real, scale, e, x[0]);
      SplitProduct(scale, q[0] as real, x[0], Dot(AsReal(q[1..]), x[1..]));
      SplitSum(e, Abs(x[0]), Norm1(x[1..]));
    }
  }

  lemma TermError(w: real, q: real, scale: real, e: real, x: real)
    requires Abs(w - Mul(scale, q)) <= e
    ensures Abs(Mul(w, x) - Mul(scale, Mul(q, x))) <= Mul(e, Abs(x))
  {
    var d := w - scale * q;
    assert Mul(w, x) - Mul(scale, Mul(q, x)) == d * x;
    if x >= 0.0 {
      assert -e * x <= d * x <= e * x;
    } else {
      assert -e * (-x) <= d * (-x) <= e * (-x);
    }
  }

  lemma SplitProduct(scale: real, q: real, x: real, d: real)
    ensures Mul(scale, Mul(q, x) + d) == Mul(scale, Mul(q, x)) + Mul(scale, d)
  {}

  lemma SplitSum(e: real, a: real, b: real)
    ensures Mul(e, a + b) == Mul(e, a) + Mul(e, b)
  {}

  // ---- the whole conversion

  datatype Result<T> = Ok(value: T) | ReshapeError | EmptyReductionError

  /** quantize_convrot on a [rows][cols] weight. numpy refuses the reshape when 256 does not divide
      a non-empty matrix's width, and refuses max over an empty row; no rows is always fine. */
  function QuantizeConvrot(w: seq<Vector>, cols: nat, rot: Matrix): (r: Result<seq<QuantizedRow>>)
    requires IsSquare(rot, GROUP) && forall i :: 0 <= i < |w| ==> |w[i]| == cols
    ensures r.ReshapeError? <==> w != [] && cols % GROUP != 0
    ensures r.EmptyReductionError? <==> w != [] && cols == 0
    ensures r.Ok? ==> |r.value| == |w| && forall i :: 0 <= i < |w| ==> |r.value[i].q| == cols
  {
    if w == [] then Ok([])
    else if cols % GROUP != 0 then ReshapeError
    else if cols == 0 then EmptyReductionError
    else Ok(seq(|w|, i requires 0 <= i < |w| => QuantizeRow(RotateRow(w[i], rot, GROUP))))
  }

  /** For every row and activation, the int8 layer output is within scale/2 * |x_rot|_1 of the exact one. */
  lemma LayerOutputError(w: seq<Vector>, cols: nat, rot: Matrix, i: nat, x: Vector)
    requires IsRotation(rot, GROUP) && (forall k :: 0 <= k < |w| ==> |w[k]| == cols)
    requires QuantizeConvrot(w, cols, rot).Ok? && i < |w| && |x| == cols
    ensures cols % GROUP == 0
    ensures var row := QuantizeConvrot(w, cols, rot).value[i];
      var xRot := RotateRow(x, rot, GROUP);
      && |row.q| == cols
      && Abs(Dot(w[i], x) - Mul(row.scale, Dot(AsReal(row.q), xRot))) <= Mul(Mul(row.scale, 0.5), Norm1(xRot))
  {
    hide Mul, Abs, Dot, Norm1, QuantizeRow, RotateRow, Rint, Safe;
    var row := QuantizeConvrot(w, cols, rot).value[i];
    var wRot, xRot := RotateRow(w[i], rot, GROUP), RotateRow(x, rot, GROUP);
    RotationKeepsDot(w[i], x, rot, GROUP);
    RowError(wRot);
    DotError(wRot, row.q, row.scale, Mul(row.scale, 0.5), xRot);
  }

  // ---- what is left of the weights

  lemma SubAppend(a: Vector, b: Vector, c: Vector, d: Vector)
    requires |a| == |c| && |b| == |d|
    ensures Sub(a + b, c + d) == Sub(a, c) + Sub(b, d)
  {}

  lemma {:induction false} RotateRowSub(x: Vector, y: Vector, rot: Matrix, n: nat)
    requires 0 < n && |x| == |y| && |x| % n == 0 && IsSquare(rot, n)
    ensures RotateRow(Sub(x, y), rot, n) == Sub(RotateRow(x, rot, n), RotateRow(y, rot, n))
    decreases |x|
  {
    hide Times;
    if x != [] {
      IndexStep(|x|, n);
      RotateRowSub(x[n..], y[n..], rot, n);
      TimesSub(x[..n], y[..n], rot, n);
      assert Sub(x, y)[..n] == Sub(x[..n], y[..n]) && Sub(x, y)[n..] == Sub(x[n..], y[n..]);
      SubAppend(Times(x[..n], rot, n), RotateRow(x[n..], rot, n), Times(y[..n], rot, n), RotateRow(y[n..], rot, n));
    }
  }

  lemma {:induction false} SquaredNormBound(e: Vector, b: real)
    requires forall i :: 0 <= i < |e| ==> Abs(e[i]) <= b
    ensures Dot(e, e) <= Mul(|e| as real, Mul(b, b))
  {
    if e != [] {
      SquaredNormBound(e[1..], b);
      SquareBound(e[0], b);
      assert Mul(|e| as real, Mul(b, b)) == Mul((|e| - 1) as real, Mul(b, b)) + Mul(b, b);
    }
  }

  lemma SquareBound(x: real, b: real)
    requires Abs(x) <= b
    ensures Mul(x, x) <= Mul(b, b)
  {
    assert Mul(b, b) - Mul(x, x) == (b - x) * (b + x);
  }

  /** Dequantizing a stored row and rotating it back gives weights whose squared distance from the originals
      is at most cols * (scale / 2)^2: the rotation neither adds to nor hides the rounding error. */
  lemma RecoveredWeights(w: Vector, rot: Matrix)
    requires IsRotation(rot, GROUP) && w != [] && |w| % GROUP == 0
    ensures var r := QuantizeRow(RotateRow(w, rot, GROUP));
      var e := Sub(w, RotateRow(Scale(r.scale, AsReal(r.q)), rot, GROUP));
      var half := Mul(r.scale, 0.5);
      Dot(e, e) <= Mul(|w| as real, Mul(half, half))
  {
    hide Mul, Dot, QuantizeRow, RotateRow, Rint, Safe;
    var wRot := RotateRow(w, rot, GROUP);
    var r := QuantizeRow(wRot);
    RowError(wRot);
    var d := Scale(r.scale, AsReal(r.q));
    var eRot := Sub(wRot, d);
    SquaredNormBound(eRot, Mul(r.scale, 0.5));
    RotateRowSub(wRot, d, rot, GROUP);
    RotateRowTwice(w, rot, GROUP);
    RotationKeepsDot(eRot, eRot, rot, GROUP);
  }
}
