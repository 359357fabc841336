/**
 Polynomials in the primary halo property: evaluation of Σ c[n]·x^n as the
 models accumulate it, the Vandermonde layout built before the linear solve,
 and the interpolation property that the solve is meant to deliver.
 */
module Polynomial {
  import opened Numerics

  /** Σ_{k < n} c[k]·x^k: the first n terms, accumulated in order of
      degree. */
  function PolySum(c: seq<real>, x: real, n: nat): real
    requires n <= |c|
  {
    if n == 0 then 0.0 else PolySum(c, x, n - 1) + c[n - 1] * Pow(x, n - 1)
  }

  /** Σ_{n < |c|} c[n]·x^n, the value of the polynomial with coefficients c. */
  function PolyEval(c: seq<real>, x: real): real
  {
    PolySum(c, x, |c|)
  }

  /** Horner's scheme, an independent reference definition of the same sum. */
  function Horner(c: seq<real>, x: real): real
  {
    if |c| == 0 then 0.0 else c[0] + x * Horner(c[1..], x)
  }

  /** Splitting off the constant term of a partial sum of powers. */
  lemma {:induction false} SumHead(c: seq<real>, x: real, n: nat)
    requires 1 <= n <= |c|
    ensures PolySum(c, x, n) == c[0] + x * PolySum(c[1..], x, n - 1)
  {
    if n > 1 {
      SumHead(c, x, n - 1);
      assert c[1..][n - 2] == c[n - 1];
      PowSucc(x, n - 2);
      HeadStep(PolySum(c, x, n), PolySum(c, x, n - 1), PolySum(c[1..], x, n - 1), c[0], x,
               PolySum(c[1..], x, n - 2), c[n - 1], Pow(x, n - 2));
    }
  }

  /** One step of a power. */
  lemma {:induction false} PowSucc(x: real, n: nat)
    ensures Pow(x, n + 1) == x * Pow(x, n)
  {
  }

  /** The algebra of one step of SumHead: peeling the top term off the whole
      sum, the head off the sum without it, and recombining. */
  lemma HeadStep(whole: real, init: real, tail: real, c0: real, x: real, a: real, last: real, p: real)
    requires whole == init + last * (x * p)
    requires init == c0 + x * a
    requires tail == a + last * p
    ensures whole == c0 + x * tail
  {
    assert x * tail == x * a + x * (last * p);
  }

  /** The value of a polynomial is its constant term plus x times the value
      of the polynomial of the remaining coefficients. */
  lemma PolyEvalHead(c: seq<real>, x: real)
    requires |c| > 0
    ensures PolyEval(c, x) == c[0] + x * PolyEval(c[1..], x)
  {
    SumHead(c, x, |c|);
  }

  /** The term-by-term sum and Horner's scheme agree on every input. */
  lemma {:induction false} PolyEvalIsHorner(c: seq<real>, x: real)
    ensures PolyEval(c, x) == Horner(c, x)
    decreases |c|
  {
    if |c| > 0 {
      PolyEvalHead(c, x);
      PolyEvalIsHorner(c[1..], x);
    }
  }

  /** The polynomial model of the assembly-bias and quenching classes: for
      every halo, add `coeff * p**n` for each coefficient in turn. */
  method PolynomialModel(c: seq<real>, ps: seq<real>) returns (out: seq<real>)
    ensures |out| == |ps|
    ensures forall i :: 0 <= i < |ps| ==> out[i] == Horner(c, ps[i])
  {
    out := seq(|ps|, i => 0.0);
    var n := 0;
    while n < |c|
      invariant 0 <= n <= |c|
      invariant |out| == |ps|
      invariant forall i :: 0 <= i < |ps| ==> out[i] == PolySum(c, ps[i], n)
    {
      out := seq(|ps|, i requires 0 <= i < |out| => out[i] + c[n] * Pow(ps[i], n));
      n := n + 1;
    }
    forall i | 0 <= i < |ps|
      ensures out[i] == Horner(c, ps[i])
    {
      PolyEvalIsHorner(c, ps[i]);
    }
  }

  /** The quenched-fraction model: the polynomial clamped into [0,1]. */
  function ClampedPolynomial(c: seq<real>, ps: seq<real>): (r: seq<real>)
    ensures |r| == |ps|
    ensures forall i :: 0 <= i < |ps| ==> 0.0 <= r[i] <= 1.0
    ensures forall i :: 0 <= i < |ps| && 0.0 <= PolyEval(c, ps[i]) <= 1.0 ==> r[i] == PolyEval(c, ps[i])
    ensures forall i :: 0 <= i < |ps| && PolyEval(c, ps[i]) < 0.0 ==> r[i] == 0.0
    ensures forall i :: 0 <= i < |ps| && PolyEval(c, ps[i]) > 1.0 ==> r[i] == 1.0
  {
    seq(|ps|, i requires 0 <= i < |ps| => Clamp01(PolyEval(c, ps[i])))
  }

  /** Clamping the clamped fractions again changes nothing. */
  lemma ClampedPolynomialIdempotent(c: seq<real>, ps: seq<real>)
    ensures forall i :: 0 <= i < |ps| ==> Clamp01(ClampedPolynomial(c, ps)[i]) == ClampedPolynomial(c, ps)[i]
  {
  }

  // ----- The linear system solved for the coefficients -----

  /** The powers x^0, x^1, ..., x^(n-1). */
  function Powers(x: real, n: nat): (row: seq<real>)
    ensures |row| == n
  {
    seq(n, i requires 0 <= i < n => Pow(x, i))
  }

  /** `abcissa**i`, elementwise. */
  function ElementwisePow(a: seq<real>, i: nat): (r: seq<real>)
    ensures |r| == |a|
    ensures forall j :: 0 <= j < |a| ==> r[j] == Pow(a[j], i)
  {
    seq(|a|, j requires 0 <= j < |a| => Pow(a[j], i))
  }

  /** The position of entry (i, j) in a flat row-major buffer whose rows have
      length n. */
  function Cell(i: nat, j: nat, n: nat): nat
  {
    i * n + j
  }

  /** Entries of the first k rows come before position k·n. */
  lemma {:induction false} CellBelow(i: nat, j: nat, k: nat, n: nat)
    requires i < k && j < n
    ensures Cell(i, j, n) < k * n
    decreases k
  {
    MulSucc(k - 1, n);
    if i < k - 1 {
      CellBelow(i, j, k - 1, n);
    }
  }

  /** One more row of length n adds n positions. */
  lemma MulSucc(k: nat, n: nat)
    ensures (k + 1) * n == k * n + n
  {
  }

  /** The flat buffer `columns` after the column of ones and k appended
      blocks `abcissa**1` .. `abcissa**k`: block i holds abcissa**i. */
  function AppendedColumns(a: seq<real>, k: nat): (r: seq<real>)
    ensures |r| == k * |a| + |a|
    ensures forall i, j :: 0 <= i <= k && 0 <= j < |a| ==>
              Cell(i, j, |a|) < |r| && r[Cell(i, j, |a|)] == Pow(a[j], i)
  {
    if k == 0 then seq(|a|, j => 1.0)
    else
      var prev := AppendedColumns(a, k - 1);
      AppendLayout(a, k, prev);
      prev + ElementwisePow(a, k)
  }

  /** Appending block k after blocks 0 .. k-1 puts abcissa**k in block k and
      leaves the earlier blocks where they were. */
  lemma AppendLayout(a: seq<real>, k: nat, prev: seq<real>)
    requires k >= 1
    requires |prev| == (k - 1) * |a| + |a|
    requires forall i, j :: 0 <= i <= k - 1 && 0 <= j < |a| ==>
               Cell(i, j, |a|) < |prev| && prev[Cell(i, j, |a|)] == Pow(a[j], i)
    ensures |prev + ElementwisePow(a, k)| == k * |a| + |a|
    ensures forall i, j :: 0 <= i <= k && 0 <= j < |a| ==>
              Cell(i, j, |a|) < |prev + ElementwisePow(a, k)|
              && (prev + ElementwisePow(a, k))[Cell(i, j, |a|)] == Pow(a[j], i)
  {
    var n := |a|;
    assert |prev| == k * n by {
      assert (k - 1) * n + n == k * n;
    }
    var r := prev + ElementwisePow(a, k);
    forall i, j | 0 <= i <= k && 0 <= j < n
      ensures Cell(i, j, n) < |r| && r[Cell(i, j, n)] == Pow(a[j], i)
    {
      if i < k {
        CellBelow(i, j, k, n);
      } else {
        assert Cell(i, j, n) == |prev| + j;
      }
    }
  }

  /** `columns` as the source leaves it: the ones, then `abcissa**(i+1)`
      appended for i in `arange(len(abcissa)-1)`. Block i holds the i-th
      powers, so entry (i, j) of the flat buffer is abcissa[j]^i. */
  function Columns(a: seq<real>): (r: seq<real>)
    ensures |r| == |a| * |a|
    ensures forall i, j :: 0 <= i < |a| && 0 <= j < |a| ==>
              Cell(i, j, |a|) < |r| && r[Cell(i, j, |a|)] == Pow(a[j], i)
  {
    if |a| == 0 then AppendedColumns(a, 0)
    else
      var n := |a|;
      assert (n - 1) * n + n == n * n;
      AppendedColumns(a, n - 1)
  }

  /** Row r of `flat.reshape(n, n)`: flat[r·n .. r·n + n). */
  function ReshapeRow(flat: seq<real>, n: nat, r: nat): (row: seq<real>)
    requires |flat| == n * n && r < n
    ensures |row| == n
    ensures forall c :: 0 <= c < n ==> Cell(r, c, n) < |flat| && row[c] == flat[Cell(r, c, n)]
  {
    CellBelow(r, n - 1, n, n);
    flat[Cell(r, 0, n)..Cell(r, 0, n) + n]
  }

  /** `flat.reshape(n, n)`, row-major. */
  function Reshape(flat: seq<real>, n: nat): (m: seq<seq<real>>)
    requires |flat| == n * n
    ensures |m| == n
    ensures forall r :: 0 <= r < n ==> |m[r]| == n
    ensures forall r, c :: 0 <= r < n && 0 <= c < n ==> Cell(r, c, n) < |flat| && m[r][c] == flat[Cell(r, c, n)]
  {
    var m := seq(n, r requires 0 <= r < n => ReshapeRow(flat, n, r));
    ReshapeLayout(flat, n, m);
    m
  }

  /** The rows of a reshaped buffer read the buffer row-major. */
  lemma ReshapeLayout(flat: seq<real>, n: nat, m: seq<seq<real>>)
    requires |flat| == n * n
    requires |m| == n && forall r :: 0 <= r < n ==> m[r] == ReshapeRow(flat, n, r)
    ensures forall r, c :: 0 <= r < n && 0 <= c < n ==>
              |m[r]| == n && Cell(r, c, n) < |flat| && m[r][c] == flat[Cell(r, c, n)]
  {
    forall r, c | 0 <= r < n && 0 <= c < n
      ensures |m[r]| == n && Cell(r, c, n) < |flat| && m[r][c] == flat[Cell(r, c, n)]
    {
      assert m[r] == ReshapeRow(flat, n, r);
    }
  }

  /** `m.transpose()` of a square matrix. */
  function Transpose(m: seq<seq<real>>): (t: seq<seq<real>>)
    requires forall r :: 0 <= r < |m| ==> |m[r]| == |m|
    ensures |t| == |m|
    ensures forall i :: 0 <= i < |m| ==> |t[i]| == |m|
    ensures forall i, j :: 0 <= i < |m| && 0 <= j < |m| ==> t[i][j] == m[j][i]
  {
    seq(|m|, i requires 0 <= i < |m| => seq(|m|, j requires 0 <= j < |m| => m[j][i]))
  }

  /** The matrix handed to the solver, built as the source builds it: the
      flat columns reshaped to N×N and transposed. Row j holds the powers of
      abcissa[j], so entry (j, i) is abcissa[j]^i. */
  function Vandermonde(a: seq<real>): (m: seq<seq<real>>)
    ensures |m| == |a|
    ensures forall j :: 0 <= j < |a| ==> m[j] == Powers(a[j], |a|)
    ensures forall j, i :: 0 <= j < |a| && 0 <= i < |a| ==> |m[j]| == |a| && m[j][i] == Pow(a[j], i)
  {
    var m := Transpose(Reshape(Columns(a), |a|));
    VandermondeRows(a, m);
    m
  }

  /** Reshaping the flat columns and transposing puts the powers of each
      abcissa in its own row. */
  lemma VandermondeRows(a: seq<real>, m: seq<seq<real>>)
    requires m == Transpose(Reshape(Columns(a), |a|))
    ensures forall j :: 0 <= j < |a| ==> m[j] == Powers(a[j], |a|)
  {
    forall j | 0 <= j < |a|
      ensures m[j] == Powers(a[j], |a|)
    {
      assert forall i :: 0 <= i < |a| ==> m[j][i] == Pow(a[j], i);
    }
  }

  /** Row-by-coefficient products of a matrix. */
  function MatVec(m: seq<seq<real>>, c: seq<real>): (y: seq<real>)
    requires forall r :: 0 <= r < |m| ==> |m[r]| == |c|
    ensures |y| == |m|
  {
    seq(|m|, r requires 0 <= r < |m| => Dot(m[r], c))
  }

  /** Σ_{i < n} u[i]·w[i], accumulated in order of i. */
  function DotSum(u: seq<real>, w: seq<real>, n: nat): real
    requires n <= |u| == |w|
  {
    if n == 0 then 0.0 else DotSum(u, w, n - 1) + w[n - 1] * u[n - 1]
  }

  /** Σ u[i]·w[i] over the whole of two equally long vectors. */
  function Dot(u: seq<real>, w: seq<real>): real
    requires |u| == |w|
  {
    DotSum(u, w, |u|)
  }

  /** The polynomial with coefficients c passes through every control point. */
  ghost predicate Interpolates(c: seq<real>, a: seq<real>, y: seq<real>)
    requires |a| == |y|
  {
    forall j :: 0 <= j < |a| ==> PolyEval(c, a[j]) == y[j]
  }

  /** The dot product of a row of powers with the coefficients is the
      polynomial evaluated at that row's abcissa. */
  lemma DotPowers(x: real, c: seq<real>)
    ensures Dot(Powers(x, |c|), c) == PolyEval(c, x)
  {
    DotPowersUpTo(x, c, |c|);
  }

  /** The first n products of the row of powers with the coefficients are the
      first n terms of the polynomial. */
  lemma {:induction false} DotPowersUpTo(x: real, c: seq<real>, n: nat)
    requires n <= |c|
    ensures DotSum(Powers(x, |c|), c, n) == PolySum(c, x, n)
  {
    if n > 0 {
      DotPowersUpTo(x, c, n - 1);
    }
  }

  /** Solving the Vandermonde system and interpolating the control points are
      the same thing: a coefficient vector satisfies one iff the other. */
  lemma SolveMeansInterpolate(a: seq<real>, y: seq<real>, c: seq<real>)
    requires |a| == |y| == |c|
    ensures MatVec(Vandermonde(a), c) == y <==> Interpolates(c, a, y)
  {
    var v := Vandermonde(a);
    forall j | 0 <= j < |a|
      ensures MatVec(v, c)[j] == PolyEval(c, a[j])
    {
      DotPowers(a[j], c);
    }
    if Interpolates(c, a, y) {
      assert forall j :: 0 <= j < |a| ==> MatVec(v, c)[j] == y[j];
    }
  }

  /** A repeated abcissa makes the Vandermonde matrix singular; with
      different ordinates at the repeated abcissa no coefficients exist at
      all. */
  lemma DuplicateAbcissaUnsolvable(a: seq<real>, y: seq<real>, j: nat, k: nat)
    requires |a| == |y| && j < |a| && k < |a|
    requires a[j] == a[k] && y[j] != y[k]
    ensures forall c :: |c| == |a| ==> MatVec(Vandermonde(a), c) != y
  {
    forall c | |c| == |a|
      ensures MatVec(Vandermonde(a), c) != y
    {
      SolveMeansInterpolate(a, y, c);
    }
  }
}
