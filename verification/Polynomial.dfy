/** Polynomials as coefficient sequences (constant first), their roots, and interpolation modulo a prime. */
module Polynomial {
  import opened Wrappers
  import opened ModArith

  type Poly = seq<int>

  function Eval(c: Poly, x: int): int {
    if c == [] then 0 else c[0] + x * Eval(c[1..], x)
  }

  function Add(c: Poly, d: Poly): (r: Poly)
    requires |c| == |d|
    ensures |r| == |c|
  {
    if c == [] then [] else [c[0] + d[0]] + Add(c[1..], d[1..])
  }

  function Scale(k: int, c: Poly): (r: Poly)
    ensures |r| == |c|
  {
    if c == [] then [] else [k * c[0]] + Scale(k, c[1..])
  }

  lemma {:induction false} EvalAdd(c: Poly, d: Poly, x: int)
    requires |c| == |d|
    ensures Eval(Add(c, d), x) == Eval(c, x) + Eval(d, x)
  {
    if c != [] {
      EvalAdd(c[1..], d[1..], x);
      assert Add(c, d)[1..] == Add(c[1..], d[1..]);
      assert x * (Eval(c[1..], x) + Eval(d[1..], x)) == x * Eval(c[1..], x) + x * Eval(d[1..], x);
    }
  }

  lemma {:induction false} EvalScale(k: int, c: Poly, x: int)
    ensures Eval(Scale(k, c), x) == k * Eval(c, x)
  {
    if c != [] {
      EvalScale(k, c[1..], x);
      assert Scale(k, c)[1..] == Scale(k, c[1..]);
      var e := Eval(c[1..], x);
      assert k * (c[0] + x * e) == k * c[0] + x * (k * e);
    }
  }

  lemma {:induction false} EvalPad(c: Poly, m: nat, x: int)
    ensures Eval(c + Zeros(m), x) == Eval(c, x)
  {
    if c != [] {
      EvalPad(c[1..], m, x);
      assert (c + Zeros(m))[1..] == c[1..] + Zeros(m);
    } else if m > 0 {
      EvalPad([], m - 1, x);
      assert (c + Zeros(m))[1..] == [] + Zeros(m - 1);
    }
  }

  function Zeros(m: nat): (r: Poly)
    ensures |r| == m && forall i :: 0 <= i < m ==> r[i] == 0
  {
    seq(m, _ => 0)
  }

  // ---------------------------------------------------------------- roots

  ghost predicate DistinctMod(n: pos, xs: seq<int>) {
    forall i, j :: 0 <= i < j < |xs| ==> !Cong(n, xs[i], xs[j])
  }

  ghost predicate Vanishes(n: pos, c: Poly) {
    forall i :: 0 <= i < |c| ==> Div(n, c[i])
  }

  /** c(x) - c(r) divided by x - r. */
  function Quot(c: Poly, r: int): (q: Poly)
    ensures |q| == if c == [] then 0 else |c| - 1
  {
    if |c| <= 1 then [] else [Eval(c[1..], r)] + Quot(c[1..], r)
  }

  lemma QuotStep(e: int, f: int, q: int, r: int, x: int)
    requires e - f == (x - r) * q
    ensures x * e - r * f == (x - r) * (f + x * q)
  {
    calc {
      x * e - r * f;
      x * (f + (x - r) * q) - r * f;
      x * f - r * f + x * ((x - r) * q);
      x * f - r * f + (x - r) * (x * q);
      (x - r) * (f + x * q);
    }
  }

  lemma {:induction false} QuotEval(c: Poly, r: int, x: int)
    ensures Eval(c, x) - Eval(c, r) == (x - r) * Eval(Quot(c, r), x)
  {
    if |c| > 1 {
      QuotEval(c[1..], r, x);
      var e, f, q := Eval(c[1..], x), Eval(c[1..], r), Eval(Quot(c[1..], r), x);
      assert Quot(c, r)[1..] == Quot(c[1..], r);
      assert e - f == (x - r) * q;
      QuotStep(e, f, q, r, x);
    } else if |c| == 1 {
      assert c[1..] == [];
    }
  }

  /** A polynomial whose quotient by x - r and whose value at r vanish, vanishes. */
  lemma {:induction false} VanishFromQuot(n: pos, c: Poly, r: int)
    requires Div(n, Eval(c, r)) && Vanishes(n, Quot(c, r))
    ensures Vanishes(n, c)
  {
    if |c| > 1 {
      var q := Quot(c, r);
      assert q[0] == Eval(c[1..], r);
      assert q[1..] == Quot(c[1..], r);
      VanishFromQuot(n, c[1..], r);
      DivMul(n, q[0], r);
      DivAdd(n, Eval(c, r), r * q[0]);
      assert forall i :: 1 <= i < |c| ==> c[i] == c[1..][i - 1];
    } else if |c| == 1 {
      assert c[1..] == [];
      assert Eval(c, r) == c[0];
    }
  }

  /** Modulo a prime, a polynomial with as many distinct roots as coefficients vanishes. */
  lemma {:induction false} RootCount(n: pos, c: Poly, xs: seq<int>)
    requires Prime(n) && |c| <= |xs| && DistinctMod(n, xs)
    requires forall i :: 0 <= i < |xs| ==> Div(n, Eval(c, xs[i]))
    ensures Vanishes(n, c)
    decreases |c|
  {
    hide Div, Eval, Quot, Prime, Vanishes;
    if c == [] {
      NoCoefficients(n);
    } else {
      var m := |xs| - 1;
      var r, q := xs[m], Quot(c, xs[m]);
      forall i | 0 <= i < m ensures Div(n, Eval(q, xs[i])) {
        QuotEval(c, r, xs[i]);
        DivAdd(n, Eval(c, xs[i]), Eval(c, r));
        assert !Cong(n, xs[i], xs[m]);
        PrimeDividesProduct(n, xs[i] - r, Eval(q, xs[i]));
      }
      var ys := xs[..m];
      assert forall i :: 0 <= i < m ==> ys[i] == xs[i];
      RootCount(n, q, ys);
      VanishFromQuot(n, c, r);
    }
  }

  lemma NoCoefficients(n: pos)
    ensures Vanishes(n, [])
  {
  }

  // ---------------------------------------------------------------- interpolation

  /** The product of x - xs[j]. */
  function Prod(x: int, xs: seq<int>): int {
    if xs == [] then 1 else Prod(x, xs[..|xs| - 1]) * (x - xs[|xs| - 1])
  }

  /** (x - r) * c(x). */
  function MulLinear(c: Poly, r: int): (p: Poly)
    ensures |p| == |c| + 1
  {
    Add([0] + c, Scale(-r, c) + Zeros(1))
  }

  lemma EvalMulLinear(c: Poly, r: int, x: int)
    ensures Eval(MulLinear(c, r), x) == (x - r) * Eval(c, x)
  {
    EvalAdd([0] + c, Scale(-r, c) + Zeros(1), x);
    assert ([0] + c)[1..] == c;
    EvalPad(Scale(-r, c), 1, x);
    EvalScale(-r, c, x);
    assert (x - r) * Eval(c, x) == x * Eval(c, x) + (-r) * Eval(c, x);
  }

  function FromRoots(xs: seq<int>): (p: Poly)
    ensures |p| == |xs| + 1
  {
    if xs == [] then [1] else MulLinear(FromRoots(xs[..|xs| - 1]), xs[|xs| - 1])
  }

  lemma {:induction false} EvalFromRoots(xs: seq<int>, x: int)
    ensures Eval(FromRoots(xs), x) == Prod(x, xs)
  {
    if xs != [] {
      var m := |xs| - 1;
      EvalFromRoots(xs[..m], x);
      EvalMulLinear(FromRoots(xs[..m]), xs[m], x);
    } else {
      assert [1][1..] == [];
    }
  }

  lemma {:induction false} ProdZero(x: int, xs: seq<int>, j: nat)
    requires j < |xs| && xs[j] == x
    ensures Prod(x, xs) == 0
  {
    var m := |xs| - 1;
    if j < m {
      ProdZero(x, xs[..m], j);
    }
  }

  lemma {:induction false} ProdNonZero(n: pos, x: int, xs: seq<int>)
    requires Prime(n)
    ensures Div(n, Prod(x, xs)) <==> exists j :: 0 <= j < |xs| && Cong(n, x, xs[j])
  {
    if xs == [] {
      assert !Div(n, 1);
    } else {
      var m := |xs| - 1;
      var rest := xs[..m];
      ProdNonZero(n, x, rest);
      if Div(n, Prod(x, xs)) {
        PrimeDividesProduct(n, Prod(x, rest), x - xs[m]);
        if Div(n, Prod(x, rest)) {
          var j :| 0 <= j < |rest| && Cong(n, x, rest[j]);
          assert Cong(n, x, xs[j]);
        }
      }
      if j :| 0 <= j < |xs| && Cong(n, x, xs[j]) {
        if j < m {
          assert rest[j] == xs[j];
          DivMul(n, Prod(x, rest), x - xs[m]);
        } else {
          DivMul(n, x - xs[m], Prod(x, rest));
        }
      }
    }
  }

  /** xs without its i-th element. */
  function Without(xs: seq<int>, i: nat): seq<int>
    requires i < |xs|
  {
    xs[..i] + xs[i + 1..]
  }

  /** The inverse of the product of x_i - x_j over the other points. */
  function Weight(n: pos, xs: seq<int>, i: nat): Option<int>
    requires i < |xs|
  {
    ModInverse(Prod(xs[i], Without(xs, i)), n)
  }

  lemma WeightExists(n: pos, xs: seq<int>, i: nat)
    requires Prime(n) && i < |xs|
    ensures Weight(n, xs, i).Some? <==> forall j :: 0 <= j < |xs| && j != i ==> !Cong(n, xs[i], xs[j])
  {
    var others := Without(xs, i);
    ModInverseExists(Prod(xs[i], others), n);
    ProdNonZero(n, xs[i], others);
    if Weight(n, xs, i).Some? {
      forall j | 0 <= j < |xs| && j != i ensures !Cong(n, xs[i], xs[j]) {
        assert others[if j < i then j else j - 1] == xs[j];
      }
    } else {
      var k :| 0 <= k < |others| && Cong(n, xs[i], others[k]);
      assert xs[if k < i then k else k + 1] == others[k];
    }
  }

  lemma DistinctWeights(n: pos, xs: seq<int>, i: nat)
    requires Prime(n) && DistinctMod(n, xs) && i < |xs|
    ensures Weight(n, xs, i).Some?
  {
    forall j | 0 <= j < |xs| && j != i ensures !Cong(n, xs[i], xs[j]) {
      if j < i {
        CongEq(n, xs[i], xs[j]);
        CongEq(n, xs[j], xs[i]);
      }
    }
    WeightExists(n, xs, i);
  }

  ghost predicate Weighted(n: pos, xs: seq<int>) {
    forall i :: 0 <= i < |xs| ==> Weight(n, xs, i).Some?
  }

  /** The first k Lagrange terms, as a polynomial with |xs| coefficients. */
  function Lagrange(n: pos, xs: seq<int>, ys: seq<int>, k: nat): (p: Poly)
    requires k <= |xs| == |ys| && Weighted(n, xs)
    ensures |p| == |xs|
  {
    if k == 0 then Zeros(|xs|)
    else
      var i := k - 1;
      Add(Lagrange(n, xs, ys, i), Scale(ys[i] * Weight(n, xs, i).value, FromRoots(Without(xs, i))))
  }

  /** The value of the i-th Lagrange term at x. */
  function Term(n: pos, xs: seq<int>, ys: seq<int>, i: nat, x: int): int
    requires i < |xs| == |ys| && Weighted(n, xs)
  {
    ys[i] * Weight(n, xs, i).value * Prod(x, Without(xs, i))
  }

  lemma LagrangeStep(n: pos, xs: seq<int>, ys: seq<int>, i: nat, x: int)
    requires i < |xs| == |ys| && Weighted(n, xs)
    ensures Eval(Lagrange(n, xs, ys, i + 1), x) == Eval(Lagrange(n, xs, ys, i), x) + Term(n, xs, ys, i, x)
  {
    var f := FromRoots(Without(xs, i));
    var k := ys[i] * Weight(n, xs, i).value;
    EvalAdd(Lagrange(n, xs, ys, i), Scale(k, f), x);
    EvalScale(k, f, x);
    EvalFromRoots(Without(xs, i), x);
  }

  /** At its own point a Lagrange term is the wanted value, at the others it vanishes. */
  lemma TermAtPoint(n: pos, xs: seq<int>, ys: seq<int>, i: nat, j: nat)
    requires i < |xs| == |ys| && j < |xs| && Weighted(n, xs)
    ensures Cong(n, Term(n, xs, ys, i, xs[j]), if i == j then ys[i] else 0)
  {
    hide Div, Prod, ModInverse;
    var w := Weight(n, xs, i).value;
    var others := Without(xs, i);
    if i == j {
      var den := Prod(xs[i], others);
      WeighedBack(ys[i], w, den);
      DivMul(n, den * w - 1, ys[i]);
    } else {
      ProdZero(xs[j], others, if j < i then j else j - 1);
      WeighedOut(ys[i], w);
      DivZero(n);
    }
  }

  lemma WeighedBack(y: int, w: int, den: int)
    ensures y * w * den - y == y * (den * w - 1)
  {
    assert y * w * den == y * (den * w);
  }

  lemma WeighedOut(y: int, w: int)
    ensures y * w * 0 == 0
  {
  }

  lemma LagrangeNone(n: pos, xs: seq<int>, ys: seq<int>, x: int)
    requires |xs| == |ys| && Weighted(n, xs)
    ensures Eval(Lagrange(n, xs, ys, 0), x) == 0
  {
    EvalPad([], |xs|, x);
    assert [] + Zeros(|xs|) == Zeros(|xs|);
  }

  lemma {:induction false} LagrangeAtPoint(n: pos, xs: seq<int>, ys: seq<int>, k: nat, j: nat)
    requires k <= |xs| == |ys| && j < |xs| && Weighted(n, xs)
    ensures Cong(n, Eval(Lagrange(n, xs, ys, k), xs[j]), if j < k then ys[j] else 0)
  {
    hide Div, Eval, Lagrange, Term, Weighted;
    if k == 0 {
      LagrangeNone(n, xs, ys, xs[j]);
      DivZero(n);
    } else {
      LagrangeAtPoint(n, xs, ys, k - 1, j);
      LagrangeStep(n, xs, ys, k - 1, xs[j]);
      TermAtPoint(n, xs, ys, k - 1, j);
      DivAdd(n, Eval(Lagrange(n, xs, ys, k - 1), xs[j]) - (if j < k - 1 then ys[j] else 0),
             Term(n, xs, ys, k - 1, xs[j]) - (if j == k - 1 then ys[j] else 0));
    }
  }

  /** c takes the given values at the given points, modulo n. */
  ghost predicate Through(n: pos, c: Poly, xs: seq<int>, ys: seq<int>) {
    |xs| == |ys| && forall i :: 0 <= i < |xs| ==> Cong(n, Eval(c, xs[i]), ys[i])
  }

  lemma Interpolates(n: pos, xs: seq<int>, ys: seq<int>)
    requires Prime(n) && DistinctMod(n, xs) && |xs| == |ys|
    ensures Weighted(n, xs) && Through(n, Lagrange(n, xs, ys, |xs|), xs, ys)
  {
    forall i | 0 <= i < |xs| ensures Weight(n, xs, i).Some? {
      DistinctWeights(n, xs, i);
    }
    forall i | 0 <= i < |xs| ensures Cong(n, Eval(Lagrange(n, xs, ys, |xs|), xs[i]), ys[i]) {
      LagrangeAtPoint(n, xs, ys, |xs|, i);
    }
  }

  /** Two polynomials with no more coefficients than common points agree everywhere. */
  lemma Unique(n: pos, c: Poly, d: Poly, xs: seq<int>, ys: seq<int>)
    requires Prime(n) && DistinctMod(n, xs) && |c| == |d| <= |xs|
    requires Through(n, c, xs, ys) && Through(n, d, xs, ys)
    ensures forall i :: 0 <= i < |c| ==> Cong(n, c[i], d[i])
    ensures forall x :: Cong(n, Eval(c, x), Eval(d, x))
  {
    hide Div, Eval, Minus, Prime, DistinctMod;
    var diff := Minus(c, d);
    forall i | 0 <= i < |xs| ensures Div(n, Eval(diff, xs[i])) {
      EvalMinus(c, d, xs[i]);
      DivAdd(n, Eval(c, xs[i]) - ys[i], Eval(d, xs[i]) - ys[i]);
    }
    RootCount(n, diff, xs);
    forall i | 0 <= i < |c| ensures Cong(n, c[i], d[i]) {
      MinusAt(c, d, i);
    }
    forall x ensures Cong(n, Eval(c, x), Eval(d, x)) {
      EvalMinus(c, d, x);
      VanishingEval(n, diff, x);
    }
  }

  function Minus(c: Poly, d: Poly): (r: Poly)
    requires |c| == |d|
    ensures |r| == |c|
  {
    Add(c, Scale(-1, d))
  }

  lemma EvalMinus(c: Poly, d: Poly, x: int)
    requires |c| == |d|
    ensures Eval(Minus(c, d), x) == Eval(c, x) - Eval(d, x)
  {
    EvalAdd(c, Scale(-1, d), x);
    EvalScale(-1, d, x);
  }

  lemma {:induction false} MinusAt(c: Poly, d: Poly, i: nat)
    requires |c| == |d| && i < |c|
    ensures Minus(c, d)[i] == c[i] - d[i]
  {
    if i > 0 {
      MinusAt(c[1..], d[1..], i - 1);
      assert Scale(-1, d)[1..] == Scale(-1, d[1..]);
    }
  }

  lemma {:induction false} VanishingEval(n: pos, c: Poly, x: int)
    requires Vanishes(n, c)
    ensures Div(n, Eval(c, x))
  {
    if c == [] {
      Multiple(n, 0);
    } else {
      assert forall i :: 0 <= i < |c[1..]| ==> c[1..][i] == c[i + 1];
      VanishingEval(n, c[1..], x);
      DivMul(n, Eval(c[1..], x), x);
      DivAdd(n, c[0], x * Eval(c[1..], x));
    }
  }
}
