/** Cubic and bicubic Hermite patches. A cubic is the coefficient vector
    a of a0 + a1 λ + a2 λ² + a3 λ³; a bicubic is a 4×4 matrix A of
    Σ A[α][β] λ^α μ^β over one grid cell. */
module Hermite {

  type Vec4 = a: seq<real> | |a| == 4 witness [0.0, 0.0, 0.0, 0.0]
  type Mat4 = M: seq<Vec4> | |M| == 4
    witness var z: Vec4 := [0.0, 0.0, 0.0, 0.0]; [z, z, z, z]

  /** `cubic_f`: the cubic evaluated by Horner's rule equals its power form. */
  function CubicF(a: Vec4, lam: real): (r: real)
    ensures r == a[0] + a[1] * lam + a[2] * lam * lam + a[3] * lam * lam * lam
  {
    a[0] + lam * (a[1] + lam * (a[2] + lam * a[3]))
  }

  /** `cubic_df`: the derivative a1 + 2 a2 λ + 3 a3 λ² of the cubic. */
  function CubicDf(a: Vec4, lam: real): (r: real)
    ensures r == a[1] + 2.0 * a[2] * lam + 3.0 * a[3] * lam * lam
  {
    a[1] + lam * (2.0 * a[2] + 3.0 * lam * a[3])
  }

  /** `cubic_df` is the derivative of `cubic_f`: the change of the cubic over
      a step h is h times the derivative plus terms of order h² and h³. */
  lemma CubicTaylor(a: Vec4, lam: real, h: real)
    ensures CubicF(a, lam + h) - CubicF(a, lam)
         == h * CubicDf(a, lam) + h * h * (a[2] + 3.0 * a[3] * lam) + h * h * h * a[3]
  {
    var l := lam + h;
    assert l * l == lam * lam + 2.0 * lam * h + h * h;
    assert l * l * l == lam * lam * lam + 3.0 * lam * lam * h + 3.0 * lam * h * h + h * h * h;
  }

  /** The sum x[0]*y[0] + ... + x[k-1]*y[k-1], accumulated in index order. */
  function Dot(x: Vec4, y: Vec4, k: nat): real
    requires k <= 4
  {
    if k == 0 then 0.0 else Dot(x, y, k - 1) + x[k - 1] * y[k - 1]
  }

  /** The sum x[0] + ... + x[k-1], accumulated in index order. */
  function Sum(x: Vec4, k: nat): real
    requires k <= 4
  {
    if k == 0 then 0.0 else Sum(x, k - 1) + x[k - 1]
  }

  lemma Dot4(x: Vec4, y: Vec4)
    ensures Dot(x, y, 4) == x[0] * y[0] + x[1] * y[1] + x[2] * y[2] + x[3] * y[3]
  {
    assert Dot(x, y, 1) == x[0] * y[0];
    assert Dot(x, y, 2) == x[0] * y[0] + x[1] * y[1];
  }

  lemma Sum4(x: Vec4)
    ensures Sum(x, 4) == x[0] + x[1] + x[2] + x[3]
  {
    assert Sum(x, 1) == x[0];
    assert Sum(x, 2) == x[0] + x[1];
  }

  /** Column `j` of `M`. */
  function Col(M: Mat4, j: int): Vec4
    requires 0 <= j < 4
  {
    [M[0][j], M[1][j], M[2][j], M[3][j]]
  }

  /** The product X·Y. */
  function MatMul(X: Mat4, Y: Mat4): Mat4 {
    seq(4, i requires 0 <= i < 4 => seq(4, j requires 0 <= j < 4 => Dot(X[i], Col(Y, j), 4)))
  }

  /** The product X·Yᵀ. */
  function MulTranspose(X: Mat4, Y: Mat4): Mat4 {
    seq(4, i requires 0 <= i < 4 => seq(4, j requires 0 <= j < 4 => Dot(X[i], Y[j], 4)))
  }

  /** The product M·a. */
  function MatVec(M: Mat4, a: Vec4): Vec4 {
    seq(4, i requires 0 <= i < 4 => Dot(M[i], a, 4))
  }

  /** Matrices with the same entries are equal. */
  lemma MatEq(X: Mat4, Y: Mat4)
    requires forall i, j :: 0 <= i < 4 && 0 <= j < 4 ==> X[i][j] == Y[i][j]
    ensures X == Y
  {
    forall i | 0 <= i < 4
      ensures X[i] == Y[i]
    {
      assert X[i][0] == Y[i][0] && X[i][1] == Y[i][1] && X[i][2] == Y[i][2] && X[i][3] == Y[i][3];
    }
  }

  const Identity: Mat4 := [[1.0, 0.0, 0.0, 0.0], [0.0, 1.0, 0.0, 0.0], [0.0, 0.0, 1.0, 0.0], [0.0, 0.0, 0.0, 1.0]]

  /** The Hermite conditions of a cubic: its value at 0 and 1, then its
      derivative at 0 and 1, as rows acting on the coefficients. */
  const V: Mat4 := [[1.0, 0.0, 0.0, 0.0], [1.0, 1.0, 1.0, 1.0], [0.0, 1.0, 0.0, 0.0], [0.0, 1.0, 2.0, 3.0]]

  /** `V_inv`. */
  const VInv: Mat4 := [[1.0, 0.0, 0.0, 0.0], [0.0, 0.0, 1.0, 0.0], [-3.0, 3.0, -2.0, -1.0], [2.0, -2.0, 1.0, 1.0]]

  /** The rows of `V` are exactly the Hermite conditions on `cubic_f` and
      `cubic_df`. */
  lemma HermiteConditions(a: Vec4)
    ensures MatVec(V, a) == [CubicF(a, 0.0), CubicF(a, 1.0), CubicDf(a, 0.0), CubicDf(a, 1.0)]
  {
    forall r | 0 <= r < 4 {
      Dot4(V[r], a);
    }
  }

  /** `V_inv` is the inverse of `V` on both sides. */
  lemma VInvIsInverse()
    ensures MatMul(V, VInv) == Identity
    ensures MatMul(VInv, V) == Identity
  {
    forall i, j | 0 <= i < 4 && 0 <= j < 4
      ensures MatMul(V, VInv)[i][j] == Identity[i][j]
    {
      Dot4(V[i], Col(VInv, j));
    }
    forall i, j | 0 <= i < 4 && 0 <= j < 4
      ensures MatMul(VInv, V)[i][j] == Identity[i][j]
    {
      Dot4(VInv[i], Col(V, j));
    }
    MatEq(MatMul(V, VInv), Identity);
    MatEq(MatMul(VInv, V), Identity);
  }

  /** The 1-D Hermite cubic: the coefficients `V_inv`·(f0, f1, d0, d1) give a
      cubic with values f0, f1 and derivatives d0, d1 at 0 and 1. */
  lemma HermiteCubic(f0: real, f1: real, d0: real, d1: real)
    ensures var a := MatVec(VInv, [f0, f1, d0, d1]);
      && CubicF(a, 0.0) == f0 && CubicF(a, 1.0) == f1
      && CubicDf(a, 0.0) == d0 && CubicDf(a, 1.0) == d1
  {
    var a := MatVec(VInv, [f0, f1, d0, d1]);
    forall r | 0 <= r < 4 {
      Dot4(VInv[r], [f0, f1, d0, d1]);
    }
  }

  /** The value of the bicubic `M` at (λ, μ): a cubic in λ whose coefficients
      are cubics in μ. */
  function BicubicValue(M: Mat4, lam: real, mu: real): real {
    CubicF([CubicF(M[0], mu), CubicF(M[1], mu), CubicF(M[2], mu), CubicF(M[3], mu)], lam)
  }

  /** `bicubic_variable`. */
  datatype Variable = Lambda | Mu

  /** What `bicubic_restrict` returns for `A`: for LAMBDA, column 0 on edge 0
      and the row sums on any other edge; for MU, row 0 on edge 0 and the
      column sums on any other edge. */
  function Restriction(M: Mat4, v: Variable, edge: int): Vec4 {
    match v
    case Lambda =>
      if edge == 0 then Col(M, 0) else [Sum(M[0], 4), Sum(M[1], 4), Sum(M[2], 4), Sum(M[3], 4)]
    case Mu =>
      if edge == 0 then M[0] else [Sum(Col(M, 0), 4), Sum(Col(M, 1), 4), Sum(Col(M, 2), 4), Sum(Col(M, 3), 4)]
  }

  /** The restriction is the bicubic traced along an edge of the cell: for
      LAMBDA along μ = 0 (edge 0) or μ = 1 (any other edge), for MU along
      λ = 0 or λ = 1. */
  lemma {:induction false} RestrictionIsEdgeTrace(M: Mat4, v: Variable, edge: int, t: real)
    ensures var e := if edge == 0 then 0.0 else 1.0;
      CubicF(Restriction(M, v, edge), t) == (if v == Lambda then BicubicValue(M, t, e) else BicubicValue(M, e, t))
  {
    forall r | 0 <= r < 4 {
      Sum4(M[r]);
    }
    forall r | 0 <= r < 4 {
      Sum4(Col(M, r));
    }
    if v == Mu && edge != 0 {
      var s := [CubicF(M[0], t), CubicF(M[1], t), CubicF(M[2], t), CubicF(M[3], t)];
      assert BicubicValue(M, 1.0, t) == s[0] + s[1] + s[2] + s[3];
      assert CubicF(Restriction(M, v, edge), t) == s[0] + s[1] + s[2] + s[3] by {
        CubicFAdd4(M[0], M[1], M[2], M[3], t);
      }
    }
  }

  /** `cubic_f` is linear in the coefficients. */
  lemma CubicFAdd4(a: Vec4, b: Vec4, c: Vec4, d: Vec4, t: real)
    ensures CubicF([a[0] + b[0] + c[0] + d[0], a[1] + b[1] + c[1] + d[1],
                    a[2] + b[2] + c[2] + d[2], a[3] + b[3] + c[3] + d[3]], t)
         == CubicF(a, t) + CubicF(b, t) + CubicF(c, t) + CubicF(d, t)
  {
  }

  /** The coefficients a bicubic with Hermite data `D` should have:
      `V_inv`·D·`V_inv`ᵀ. */
  function HermiteCoefficients(D: Mat4): Mat4 {
    MulTranspose(MatMul(VInv, D), VInv)
  }

  /** The data that coefficients `A` reproduce: V·A·Vᵀ, that is, entry
      (r, s) applies the r-th Hermite condition in λ and the s-th in μ. */
  function HermiteData(A: Mat4): Mat4 {
    MulTranspose(MatMul(V, A), V)
  }

  /** The second stage of `bicubic_set_A` as written: entry (i, j) is
      Σk tmp[i][k]·`V_inv`[i][k], the row index where the column index
      belongs. */
  function SetAAsWritten(D: Mat4): Mat4 {
    var T := MatMul(VInv, D);
    seq(4, i requires 0 <= i < 4 => seq(4, j requires 0 <= j < 4 => Dot(T[i], VInv[i], 4)))
  }

  /** As written, every row of the result is constant: it ignores j. */
  lemma AsWrittenRowsConstant(D: Mat4, i: int, j: int)
    requires 0 <= i < 4 && 0 <= j < 4
    ensures SetAAsWritten(D)[i][j] == SetAAsWritten(D)[i][0]
  {
  }

  /** Data whose only non-zero entry is the μ-derivative at the first corner. */
  const SlopeOnly: Mat4 := [[0.0, 0.0, 1.0, 0.0], [0.0, 0.0, 0.0, 0.0], [0.0, 0.0, 0.0, 0.0], [0.0, 0.0, 0.0, 0.0]]

  /** On `SlopeOnly`, the as-written coefficients lose the slope: they give
      the μ-derivative 0 at the first corner instead of 1, which the
      intended coefficients reproduce. */
  lemma SetAAsWrittenCounterexample()
    ensures SetAAsWritten(SlopeOnly)[0][1] == 0.0
    ensures HermiteData(SetAAsWritten(SlopeOnly))[0][2] == 0.0
    ensures HermiteCoefficients(SlopeOnly)[0][1] == 1.0
    ensures HermiteData(HermiteCoefficients(SlopeOnly))[0][2] == SlopeOnly[0][2] == 1.0
  {
    var T := MatMul(VInv, SlopeOnly);
    forall i, j | 0 <= i < 4 && 0 <= j < 4 {
      Dot4(VInv[i], Col(SlopeOnly, j));
    }
    assert T[0] == [0.0, 0.0, 1.0, 0.0];
    Dot4(T[0], VInv[0]);
    Dot4(T[0], VInv[1]);
    var Aw := SetAAsWritten(SlopeOnly);
    var A := HermiteCoefficients(SlopeOnly);
    forall i | 0 <= i < 4 {
      Dot4(V[0], Col(Aw, i));
    }
    forall i | 0 <= i < 4 {
      Dot4(V[0], Col(A, i));
    }
    Dot4(MatMul(V, Aw)[0], V[2]);
    Dot4(MatMul(V, A)[0], V[2]);
  }

  /** The row vector x·Y. */
  function VecMat(x: Vec4, Y: Mat4): Vec4 {
    [Dot(x, Col(Y, 0), 4), Dot(x, Col(Y, 1), 4), Dot(x, Col(Y, 2), 4), Dot(x, Col(Y, 3), 4)]
  }

  lemma DotSymmetric(x: Vec4, y: Vec4)
    ensures Dot(x, y, 4) == Dot(y, x, 4)
  {
    Dot4(x, y);
    Dot4(y, x);
  }

  /** (x·Y)·z == x·(Y·z). */
  lemma DotExchange(x: Vec4, Y: Mat4, z: Vec4)
    ensures Dot(VecMat(x, Y), z, 4) == Dot(x, MatVec(Y, z), 4)
  {
    var u, w := VecMat(x, Y), MatVec(Y, z);
    Dot4(u, z);
    Dot4(x, w);
    Dot4(x, Col(Y, 0));
    Dot4(x, Col(Y, 1));
    Dot4(x, Col(Y, 2));
    Dot4(x, Col(Y, 3));
    Dot4(Y[0], z);
    Dot4(Y[1], z);
    Dot4(Y[2], z);
    Dot4(Y[3], z);
    SumExchange(x[0], x[1], x[2], x[3], Y[0], Y[1], Y[2], Y[3], z[0], z[1], z[2], z[3]);
  }

  /** The scalar identity behind `DotExchange`. */
  lemma SumExchange(x0: real, x1: real, x2: real, x3: real, y0: Vec4, y1: Vec4, y2: Vec4, y3: Vec4,
                    z0: real, z1: real, z2: real, z3: real)
    ensures (x0 * y0[0] + x1 * y1[0] + x2 * y2[0] + x3 * y3[0]) * z0
          + (x0 * y0[1] + x1 * y1[1] + x2 * y2[1] + x3 * y3[1]) * z1
          + (x0 * y0[2] + x1 * y1[2] + x2 * y2[2] + x3 * y3[2]) * z2
          + (x0 * y0[3] + x1 * y1[3] + x2 * y2[3] + x3 * y3[3]) * z3
         == x0 * (y0[0] * z0 + y0[1] * z1 + y0[2] * z2 + y0[3] * z3)
          + x1 * (y1[0] * z0 + y1[1] * z1 + y1[2] * z2 + y1[3] * z3)
          + x2 * (y2[0] * z0 + y2[1] * z1 + y2[2] * z2 + y2[3] * z3)
          + x3 * (y3[0] * z0 + y3[1] * z1 + y3[2] * z2 + y3[3] * z3)
  {
  }

  /** Products of 4×4 matrices associate. */
  lemma MatMulAssociative(X: Mat4, Y: Mat4, Z: Mat4)
    ensures MatMul(MatMul(X, Y), Z) == MatMul(X, MatMul(Y, Z))
  {
    forall i, j | 0 <= i < 4 && 0 <= j < 4
      ensures MatMul(MatMul(X, Y), Z)[i][j] == MatMul(X, MatMul(Y, Z))[i][j]
    {
      assert MatMul(X, Y)[i] == VecMat(X[i], Y);
      assert Col(MatMul(Y, Z), j) == MatVec(Y, Col(Z, j));
      DotExchange(X[i], Y, Col(Z, j));
    }
    MatEq(MatMul(MatMul(X, Y), Z), MatMul(X, MatMul(Y, Z)));
  }

  /** X·(Y·Zᵀ) == (X·Y)·Zᵀ. */
  lemma MulTransposeLeft(X: Mat4, Y: Mat4, Z: Mat4)
    ensures MatMul(X, MulTranspose(Y, Z)) == MulTranspose(MatMul(X, Y), Z)
  {
    forall i, j | 0 <= i < 4 && 0 <= j < 4
      ensures MatMul(X, MulTranspose(Y, Z))[i][j] == MulTranspose(MatMul(X, Y), Z)[i][j]
    {
      assert MatMul(X, Y)[i] == VecMat(X[i], Y);
      assert Col(MulTranspose(Y, Z), j) == MatVec(Y, Z[j]);
      DotExchange(X[i], Y, Z[j]);
    }
    MatEq(MatMul(X, MulTranspose(Y, Z)), MulTranspose(MatMul(X, Y), Z));
  }

  /** (X·Yᵀ)·Zᵀ == X·(Z·Y)ᵀ. */
  lemma MulTransposeRight(X: Mat4, Y: Mat4, Z: Mat4)
    ensures MulTranspose(MulTranspose(X, Y), Z) == MulTranspose(X, MatMul(Z, Y))
  {
    forall i, j | 0 <= i < 4 && 0 <= j < 4
      ensures MulTranspose(MulTranspose(X, Y), Z)[i][j] == MulTranspose(X, MatMul(Z, Y))[i][j]
    {
      forall l | 0 <= l < 4
        ensures MulTranspose(X, Y)[i][l] == MatVec(Y, X[i])[l]
      {
        DotSymmetric(X[i], Y[l]);
      }
      assert MulTranspose(X, Y)[i] == MatVec(Y, X[i]);
      assert MatMul(Z, Y)[j] == VecMat(Z[j], Y);
      DotExchange(Z[j], Y, X[i]);
      DotSymmetric(MatVec(Y, X[i]), Z[j]);
      DotSymmetric(VecMat(Z[j], Y), X[i]);
    }
    MatEq(MulTranspose(MulTranspose(X, Y), Z), MulTranspose(X, MatMul(Z, Y)));
  }

  lemma IdentityNeutral(D: Mat4)
    ensures MulTranspose(MatMul(Identity, D), Identity) == D
  {
    forall i, j | 0 <= i < 4 && 0 <= j < 4
      ensures MatMul(Identity, D)[i][j] == D[i][j]
    {
      Dot4(Identity[i], Col(D, j));
    }
    var ID := MatMul(Identity, D);
    MatEq(ID, D);
    forall i, j | 0 <= i < 4 && 0 <= j < 4
      ensures MulTranspose(D, Identity)[i][j] == D[i][j]
    {
      Dot4(D[i], Identity[j]);
    }
    MatEq(MulTranspose(D, Identity), D);
  }

  /** The intended coefficients interpolate the data: the bicubic with
      coefficients `HermiteCoefficients(D)` satisfies every Hermite
      condition in `D`. */
  lemma HermiteInterpolates(D: Mat4)
    ensures HermiteData(HermiteCoefficients(D)) == D
  {
    var T := MatMul(VInv, D);
    calc {
      HermiteData(HermiteCoefficients(D));
      MulTranspose(MatMul(V, MulTranspose(T, VInv)), V);
      { MulTransposeLeft(V, T, VInv); }
      MulTranspose(MulTranspose(MatMul(V, T), VInv), V);
      { MulTransposeRight(MatMul(V, T), VInv, V); }
      MulTranspose(MatMul(V, T), MatMul(V, VInv));
      { MatMulAssociative(V, VInv, D); VInvIsInverse(); }
      MulTranspose(MatMul(Identity, D), Identity);
      { IdentityNeutral(D); }
      D;
    }
  }

  /** `bicubic`: the coefficient matrix `A[4][4]` of one cell. */
  class Bicubic {
    const A: array2<real>

    ghost predicate Valid() {
      A.Length0 == 4 && A.Length1 == 4
    }

    /** The coefficients held in `A`. */
    ghost function Coefficients(): Mat4
      requires Valid()
      reads A
    {
      seq(4, i requires 0 <= i < 4 reads A => seq(4, j requires 0 <= j < 4 reads A => A[i, j]))
    }

    constructor Init()
      ensures Valid() && fresh(A)
    {
      A := new real[4, 4];
    }

    /** The first stage of `bicubic_set_A`: tmp = `V_inv`·data, each entry
        accumulated over k (in a local, then stored). */
    static method FirstStage(data: Mat4) returns (tmp: array2<real>)
      ensures fresh(tmp) && tmp.Length0 == 4 && tmp.Length1 == 4
      ensures forall i, j :: 0 <= i < 4 && 0 <= j < 4 ==> tmp[i, j] == MatMul(VInv, data)[i][j]
    {
      ghost var T := MatMul(VInv, data);
      tmp := new real[4, 4];
      for i := 0 to 4
        modifies tmp
        invariant forall i', j' :: 0 <= i' < i && 0 <= j' < 4 ==> tmp[i', j'] == T[i'][j']
      {
        for j := 0 to 4
          modifies tmp
          invariant forall i', j' :: 0 <= i' < i && 0 <= j' < 4 ==> tmp[i', j'] == T[i'][j']
          invariant forall j' :: 0 <= j' < j ==> tmp[i, j'] == T[i][j']
        {
          var sum := 0.0;
          for k := 0 to 4
            invariant sum == Dot(VInv[i], Col(data, j), k)
          {
            sum := sum + VInv[i][k] * data[k][j];
          }
          tmp[i, j] := sum;
        }
      }
    }

    /** `bicubic_set_A`, with the second stage taking `V_inv[j][k]`: first
        tmp = `V_inv`·data, then A = tmp·`V_inv`ᵀ, each entry accumulated
        over k (in a local, then stored). */
    method SetA(data: Mat4)
      requires Valid()
      modifies A
      ensures Valid()
      ensures Coefficients() == HermiteCoefficients(data)
    {
      var tmp := FirstStage(data);
      ghost var T := MatMul(VInv, data);
      ghost var R := HermiteCoefficients(data);
      for i := 0 to 4
        modifies A
        invariant forall i', j' :: 0 <= i' < i && 0 <= j' < 4 ==> A[i', j'] == R[i'][j']
      {
        for j := 0 to 4
          modifies A
          invariant forall i', j' :: 0 <= i' < i && 0 <= j' < 4 ==> A[i', j'] == R[i'][j']
          invariant forall j' :: 0 <= j' < j ==> A[i, j'] == R[i][j']
        {
          var sum := 0.0;
          for k := 0 to 4
            invariant sum == Dot(T[i], VInv[j], k)
          {
            sum := sum + tmp[i, k] * VInv[j][k];
          }
          A[i, j] := sum;
        }
      }
      MatEq(Coefficients(), R);
    }

    /** `bicubic_restrict`: the cubic along one edge of the cell. It only
        reads `A`. */
    method Restrict(v: Variable, edge: int) returns (c: Vec4)
      requires Valid()
      ensures c == Restriction(Coefficients(), v, edge)
      ensures forall t :: CubicF(c, t) == (if v == Lambda then BicubicValue(Coefficients(), t, if edge == 0 then 0.0 else 1.0)
                                           else BicubicValue(Coefficients(), if edge == 0 then 0.0 else 1.0, t))
    {
      ghost var M := Coefficients();
      var a: Vec4 := [0.0, 0.0, 0.0, 0.0];
      if v == Lambda {
        if edge == 0 {
          for alpha := 0 to 4
            invariant forall r :: 0 <= r < alpha ==> a[r] == M[r][0]
          {
            a := a[alpha := A[alpha, 0]];
          }
        } else {
          for alpha := 0 to 4
            invariant forall r :: 0 <= r < alpha ==> a[r] == Sum(M[r], 4)
          {
            a := a[alpha := 0.0];
            for beta := 0 to 4
              invariant forall r :: 0 <= r < alpha ==> a[r] == Sum(M[r], 4)
              invariant a[alpha] == Sum(M[alpha], beta)
            {
              a := a[alpha := a[alpha] + A[alpha, beta]];
            }
          }
        }
      } else {
        if edge == 0 {
          for beta := 0 to 4
            invariant forall r :: 0 <= r < beta ==> a[r] == M[0][r]
          {
            a := a[beta := A[0, beta]];
          }
        } else {
          for beta := 0 to 4
            invariant forall r :: 0 <= r < beta ==> a[r] == Sum(Col(M, r), 4)
          {
            a := a[beta := 0.0];
            for alpha := 0 to 4
              invariant forall r :: 0 <= r < beta ==> a[r] == Sum(Col(M, r), 4)
              invariant a[beta] == Sum(Col(M, beta), alpha)
            {
              a := a[beta := a[beta] + A[alpha, beta]];
            }
          }
        }
      }
      assert a == Restriction(M, v, edge);
      c := a;
      forall t {
        RestrictionIsEdgeTrace(M, v, edge, t);
      }
    }
  }
}
