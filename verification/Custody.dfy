/** Threshold custody: Shamir shares of a scalar modulo the prime group order n. */
module Custody {
  import opened Wrappers
  import opened ModArith
  import opened Polynomial

  datatype Share = Share(x: int, y: int)

  datatype Error = BadThreshold | RandomSource

  /** The coefficients Split draws: the secret, then one coin below n for each further power. */
  ghost predicate Sharing(n: pos, secret: int, need: nat, c: Poly) {
    && |c| == need >= 1
    && c[0] == secret % n
    && forall i :: 0 <= i < need ==> 0 <= c[i] < n
  }

  function Xs(shares: seq<Share>): (r: seq<int>)
    ensures |r| == |shares|
  {
    seq(|shares|, i requires 0 <= i < |shares| => shares[i].x)
  }

  function Ys(shares: seq<Share>): (r: seq<int>)
    ensures |r| == |shares|
  {
    seq(|shares|, i requires 0 <= i < |shares| => shares[i].y)
  }

  function CoinsToPoly(n: pos, secret: int, coins: seq<Option<int>>, need: nat): (c: Poly)
    requires 1 <= need <= |coins| + 1
    requires forall i :: 0 <= i < need - 1 ==> coins[i].Some?
    ensures |c| == need
  {
    seq(need, i requires 0 <= i < need => if i == 0 then secret % n else coins[i - 1].value)
  }

  /** The i-th share is the polynomial's value at i + 1, reduced. */
  function SharesOf(n: pos, c: Poly, total: nat): (r: seq<Share>)
    ensures |r| == total
  {
    seq(total, i requires 0 <= i < total => Share(i + 1, Eval(c, i + 1) % n))
  }

  ghost predicate AllDrawn(coins: seq<Option<int>>, need: int) {
    need - 1 <= |coins| && forall i :: 0 <= i < need - 1 ==> coins[i].Some?
  }

  method DrawCoefficients(n: pos, secret: int, need: nat, coins: seq<Option<int>>) returns (r: Result<Poly, Error>)
    requires 1 <= need <= |coins| + 1
    ensures r == if AllDrawn(coins, need) then Ok(CoinsToPoly(n, secret, coins, need)) else Err(RandomSource)
  {
    var coeffs: Poly := [secret % n];
    for i := 1 to need
      invariant |coeffs| == i && coeffs[0] == secret % n
      invariant forall k :: 0 <= k < i - 1 ==> coins[k] == Some(coeffs[k + 1])
    {
      if coins[i - 1] == None {
        return Err(RandomSource);
      }
      coeffs := coeffs + [coins[i - 1].value];
    }
    assert coeffs == CoinsToPoly(n, secret, coins, need);
    return Ok(coeffs);
  }

  /** Horner's rule from the highest coefficient down, reducing at every step. */
  method Horner(n: pos, coeffs: Poly, x: int) returns (y: int)
    requires coeffs != [] && 0 <= coeffs[|coeffs| - 1] < n
    ensures y == Eval(coeffs, x) % n
  {
    hide Eval;
    var need := |coeffs|;
    y := coeffs[need - 1];
    HornerStart(n, coeffs, x);
    var j := need - 2;
    while j >= 0
      invariant -1 <= j <= need - 2
      invariant y == Eval(coeffs[j + 1..], x) % n
    {
      HornerStep(n, coeffs, j, x, y);
      y := y * x;
      y := y + coeffs[j];
      y := y % n;
      j := j - 1;
    }
    assert coeffs[0..] == coeffs;
  }

  lemma HornerStart(n: pos, coeffs: Poly, x: int)
    requires coeffs != [] && 0 <= coeffs[|coeffs| - 1] < n
    ensures coeffs[|coeffs| - 1] == Eval(coeffs[|coeffs| - 1..], x) % n
  {
    var top := coeffs[|coeffs| - 1];
    assert coeffs[|coeffs| - 1..] == [top] && [top][1..] == [];
    assert Eval([top], x) == top;
    SmallMod(n, top);
  }

  lemma HornerStep(n: pos, coeffs: Poly, j: nat, x: int, y: int)
    requires j < |coeffs| && y == Eval(coeffs[j + 1..], x) % n
    ensures (y * x + coeffs[j]) % n == Eval(coeffs[j..], x) % n
  {
    var e, c := Eval(coeffs[j + 1..], x), coeffs[j];
    assert coeffs[j..][1..] == coeffs[j + 1..];
    assert Eval(coeffs[j..], x) == c + x * e;
    HornerResidue(n, e, x, c);
  }

  lemma HornerResidue(n: pos, e: int, x: int, c: int)
    ensures ((e % n) * x + c) % n == (c + x * e) % n
  {
    var p, q := (e % n) * x, e * x;
    assert p % n == q % n by {
      MulMod(n, e, x);
    }
    assert q == x * e;
    AddMod(n, p, c);
    AddMod(n, q, c);
  }

  function Power(x: int, k: nat): int {
    if k == 0 then 1 else x * Power(x, k - 1)
  }

  /** secret + draws[0] x + draws[1] x^2 + ..., up to the k-th power of x. */
  function PowerSum(secret: int, draws: seq<int>, x: int, k: nat): int
    requires k <= |draws|
  {
    if k == 0 then secret else PowerSum(secret, draws, x, k - 1) + draws[k - 1] * Power(x, k)
  }

  /** The i-th of the shares dealt for a secret with the given draws. */
  function Dealt(n: pos, secret: int, draws: seq<int>, i: nat): Share {
    Share(i + 1, PowerSum(secret, draws, i + 1, |draws|) % n)
  }

  /** What rand.Int drew for the k powers of x above the secret. */
  function Draws(coins: seq<Option<int>>, k: nat): (draws: seq<int>)
    requires k <= |coins| && forall i :: 0 <= i < k ==> coins[i].Some?
    ensures |draws| == k && forall i :: 0 <= i < k ==> Some(draws[i]) == coins[i]
  {
    seq(k, i requires 0 <= i < k => coins[i].value)
  }

  lemma {:induction false} EvalAppend(c: Poly, a: int, x: int)
    ensures Eval(c + [a], x) == Eval(c, x) + a * Power(x, |c|)
  {
    if c == [] {
      assert (c + [a])[1..] == [];
    } else {
      EvalAppend(c[1..], a, x);
      assert (c + [a])[1..] == c[1..] + [a];
      var p := Power(x, |c| - 1);
      assert x * (Eval(c[1..], x) + a * p) == x * Eval(c[1..], x) + a * (x * p);
    }
  }

  /** Horner's form and the sum of powers are one number. */
  lemma {:induction false} EvalIsPowerSum(secret: int, draws: seq<int>, x: int, k: nat)
    requires k <= |draws|
    ensures Eval([secret] + draws[..k], x) == PowerSum(secret, draws, x, k)
  {
    if k == 0 {
      assert [secret] + draws[..0] == [secret] && [secret][1..] == [];
    } else {
      EvalIsPowerSum(secret, draws, x, k - 1);
      EvalAppend([secret] + draws[..k - 1], draws[k - 1], x);
      assert ([secret] + draws[..k - 1]) + [draws[k - 1]] == [secret] + draws[..k];
    }
  }

  /** The polynomial whose values are dealt. */
  lemma DealtIsEval(n: pos, secret: int, draws: seq<int>, i: nat)
    ensures Dealt(n, secret, draws, i) == Share(i + 1, Eval([secret % n] + draws, i + 1) % n)
  {
    var x, k := i + 1, |draws|;
    EvalIsPowerSum(secret, draws, x, k);
    EvalIsPowerSum(secret % n, draws, x, k);
    assert draws[..k] == draws;
    SecretResidue(n, secret, draws, x, k);
  }

  lemma {:induction false} SecretResidue(n: pos, secret: int, draws: seq<int>, x: int, k: nat)
    requires k <= |draws|
    ensures PowerSum(secret % n, draws, x, k) % n == PowerSum(secret, draws, x, k) % n
  {
    if k == 0 {
      CongMod(n, secret);
      CongEq(n, secret % n, secret);
    } else {
      SecretResidue(n, secret, draws, x, k - 1);
      var a, b, c := PowerSum(secret % n, draws, x, k - 1), PowerSum(secret, draws, x, k - 1), draws[k - 1] * Power(x, k);
      CongEq(n, a, b);
      assert (a + c) - (b + c) == a - b;
      CongEq(n, a + c, b + c);
    }
  }

  /**
   coins are the draws of rand.Int, None where the source fails.  Share i is the point i + 1 of the polynomial with
   the secret and the draws, in order, as coefficients.
   */
  method Split(n: pos, secret: int, need: int, total: int, coins: seq<Option<int>>)
    returns (r: Result<seq<Share>, Error>)
    requires need - 1 <= |coins|
    requires forall c <- coins :: c.Some? ==> 0 <= c.value < n
    ensures r.Ok? <==> 2 <= need <= total && AllDrawn(coins, need)
    ensures r.Ok? ==>
      var c := CoinsToPoly(n, secret, coins, need);
      Sharing(n, secret, need, c) && r.value == SharesOf(n, c, total)
    ensures r.Ok? ==>
      |r.value| == total && forall i :: 0 <= i < total ==> r.value[i] == Dealt(n, secret, Draws(coins, need - 1), i)
  {
    if need < 2 || need > total {
      return Err(BadThreshold);
    }
    var coeffs :- DrawCoefficients(n, secret, need, coins);
    assert Sharing(n, secret, need, coeffs);
    var shares: seq<Share> := [];
    for i := 0 to total
      invariant |shares| == i
      invariant forall k :: 0 <= k < i ==> shares[k] == Share(k + 1, Eval(coeffs, k + 1) % n)
    {
      var y := Horner(n, coeffs, i + 1);
      shares := shares + [Share(i + 1, y)];
    }
    assert coeffs == [secret % n] + Draws(coins, need - 1);
    forall i | 0 <= i < total ensures shares[i] == Dealt(n, secret, Draws(coins, need - 1), i) {
      DealtIsEval(n, secret, Draws(coins, need - 1), i);
    }
    return Ok(shares);
  }

  lemma SmallMod(n: pos, y: int)
    ensures 0 <= y < n ==> y % n == y
  {
  }

  /** The points before position j, without the i-th. */
  ghost function Skip(xs: seq<int>, i: nat, j: nat): seq<int>
    requires i < |xs| && j <= |xs|
  {
    if j <= i then xs[..j] else xs[..i] + xs[i + 1..j]
  }

  lemma SkipStep(xs: seq<int>, i: nat, j: nat)
    requires i < |xs| && j < |xs|
    ensures Skip(xs, i, j + 1) == if i == j then Skip(xs, i, j) else Skip(xs, i, j) + [xs[j]]
  {
  }

  lemma ProdAppend(x: int, xs: seq<int>, r: int)
    ensures Prod(x, xs + [r]) == Prod(x, xs) * (x - r)
  {
    assert (xs + [r])[..|xs|] == xs;
  }

  lemma {:induction false} InverseOfResidue(a: int, n: pos, from: nat)
    requires from <= n
    ensures FindInverse(a % n, n, from) == FindInverse(a, n, from)
    decreases n - from
  {
    if from < n {
      MulMod(n, a, from);
      CongEq(n, (a % n) * from, 1);
      CongEq(n, a * from, 1);
      InverseOfResidue(a, n, from + 1);
    }
  }

  /** The numerator and denominator of the i-th Lagrange weight at 0. */
  method Fraction(n: pos, shares: seq<Share>, i: nat) returns (num: int, den: int)
    requires n >= 2 && i < |shares|
    ensures num == Prod(0, Without(Xs(shares), i)) % n
    ensures den == Prod(shares[i].x, Without(Xs(shares), i)) % n
  {
    ghost var xs := Xs(shares);
    num, den := 1, 1;
    SmallMod(n, 1);
    for j := 0 to |shares|
      invariant num == Prod(0, Skip(xs, i, j)) % n
      invariant den == Prod(xs[i], Skip(xs, i, j)) % n
    {
      SkipStep(xs, i, j);
      if i == j {
        continue;
      }
      ghost var before := Skip(xs, i, j);
      ProdAppend(0, before, xs[j]);
      ProdAppend(xs[i], before, xs[j]);
      num := num * -shares[j].x;
      num := num % n;
      MulMod(n, Prod(0, before), -xs[j]);
      var d := shares[i].x - shares[j].x;
      den := den * d;
      den := den % n;
      MulMod(n, Prod(xs[i], before), d);
    }
    assert Skip(xs, i, |shares|) == Without(xs, i);
  }

  /** The i-th Lagrange term at zero, None when its denominator has no inverse. */
  method TermAtZero(n: pos, shares: seq<Share>, i: nat) returns (term: Option<int>)
    requires n >= 2 && i < |shares|
    ensures term.Some? <==> Weight(n, Xs(shares), i).Some?
    ensures term.Some? ==>
      term.value == shares[i].y * Weight(n, Xs(shares), i).value * Prod(0, Without(Xs(shares), i)) % n
  {
    ghost var xs := Xs(shares);
    ghost var others := Without(xs, i);
    var num, den := Fraction(n, shares, i);
    var inv := ModInverse(den, n);
    InverseOfResidue(Prod(xs[i], others), n, 0);
    assert inv == Weight(n, xs, i);
    if inv == None {
      return None;
    }
    var t := shares[i].y * num;
    t := t * inv.value;
    t := t % n;
    TermResidue(n, shares[i].y, inv.value, Prod(0, others));
    return Some(t);
  }

  /**
   Lagrange interpolation at zero; None stands for the panic on the nil that ModInverse returns.  The
   result is the value at zero of every polynomial with at most |shares| coefficients through the shares.
   */
  method Recover(n: pos, shares: seq<Share>) returns (r: Option<int>)
    requires Prime(n)
    ensures r.Some? <==> DistinctMod(n, Xs(shares))
    ensures r.Some? ==> forall c: Poly ::
      |c| <= |shares| && Through(n, c, Xs(shares), Ys(shares)) ==> r.value == Eval(c, 0) % n
  {
    hide Prime, DistinctMod, Weight, Eval, Lagrange, Term, Through, Weighted;
    PrimeIsBig(n);
    ghost var xs, ys := Xs(shares), Ys(shares);
    var secret := 0;
    LagrangeStart(n, xs, ys);
    for i := 0 to |shares|
      invariant forall k :: 0 <= k < i ==> Weight(n, xs, k).Some?
      invariant Weighted(n, xs) ==> secret == Eval(Lagrange(n, xs, ys, i), 0) % n
    {
      var term := TermAtZero(n, shares, i);
      if term == None {
        NotDistinct(n, xs, i);
        return None;
      }
      if Weighted(n, xs) {
        NextTerm(n, shares, i, term.value);
        AccumulateMod(n, Eval(Lagrange(n, xs, ys, i), 0), Term(n, xs, ys, i, 0));
      }
      secret := secret + term.value;
      secret := secret % n;
    }
    AllWeighted(n, xs);
    forall c: Poly | |c| <= |shares| && Through(n, c, xs, ys) ensures secret == Eval(c, 0) % n {
      ValueAtZero(n, c, xs, ys);
    }
    return Some(secret);
  }

  lemma PrimeIsBig(n: pos)
    requires Prime(n)
    ensures n >= 2
  {
  }

  lemma NextTerm(n: pos, shares: seq<Share>, i: nat, term: int)
    requires i < |shares| && Weighted(n, Xs(shares))
    requires term == shares[i].y * Weight(n, Xs(shares), i).value * Prod(0, Without(Xs(shares), i)) % n
    ensures var xs, ys := Xs(shares), Ys(shares);
      && term == Term(n, xs, ys, i, 0) % n
      && Eval(Lagrange(n, xs, ys, i + 1), 0) == Eval(Lagrange(n, xs, ys, i), 0) + Term(n, xs, ys, i, 0)
  {
    hide Eval, Lagrange, Weight, Prod;
    LagrangeStep(n, Xs(shares), Ys(shares), i, 0);
  }

  lemma LagrangeStart(n: pos, xs: seq<int>, ys: seq<int>)
    requires |xs| == |ys|
    ensures Weighted(n, xs) ==> Eval(Lagrange(n, xs, ys, 0), 0) % n == 0
  {
    EvalPad([], |xs|, 0);
    assert [] + Zeros(|xs|) == Zeros(|xs|);
    SmallMod(n, 0);
  }

  lemma NotDistinct(n: pos, xs: seq<int>, i: nat)
    requires Prime(n) && i < |xs| && Weight(n, xs, i) == None
    ensures !DistinctMod(n, xs)
  {
    if DistinctMod(n, xs) {
      DistinctWeights(n, xs, i);
    }
  }

  lemma AllWeighted(n: pos, xs: seq<int>)
    requires Prime(n) && Weighted(n, xs)
    ensures DistinctMod(n, xs)
  {
    forall i, j | 0 <= i < j < |xs| ensures !Cong(n, xs[i], xs[j]) {
      WeightExists(n, xs, i);
    }
  }

  lemma TermResidue(n: pos, y: int, w: int, p: int)
    ensures y * (p % n) * w % n == y * w * p % n
  {
    assert y * (p % n) * w == (y * w) * (p % n);
    MulMod(n, y * w, p);
  }

  lemma AccumulateMod(n: pos, a: int, b: int)
    ensures (a % n + b % n) % n == (a + b) % n
  {
    AddMod(n, a % n, b);
    AddMod(n, a, b);
  }

  lemma ValueAtZero(n: pos, c: Poly, xs: seq<int>, ys: seq<int>)
    requires Prime(n) && DistinctMod(n, xs) && |c| <= |xs| && Through(n, c, xs, ys)
    ensures Weighted(n, xs) && Eval(Lagrange(n, xs, ys, |xs|), 0) % n == Eval(c, 0) % n
  {
    Interpolates(n, xs, ys);
    var l := Lagrange(n, xs, ys, |xs|);
    var padded := c + Zeros(|xs| - |c|);
    forall x ensures Eval(padded, x) == Eval(c, x) {
      EvalPad(c, |xs| - |c|, x);
    }
    Unique(n, l, padded, xs, ys);
    CongEq(n, Eval(l, 0), Eval(padded, 0));
  }

  // ---------------------------------------------------------------- custody laws

  /** A selection of the dealt shares: distinct positions, in any order. */
  ghost predicate Selection(picks: seq<nat>, total: nat) {
    && (forall i :: 0 <= i < |picks| ==> picks[i] < total)
    && forall i, j :: 0 <= i < j < |picks| ==> picks[i] != picks[j]
  }

  function Pick(shares: seq<Share>, picks: seq<nat>): (r: seq<Share>)
    requires forall i :: 0 <= i < |picks| ==> picks[i] < |shares|
    ensures |r| == |picks|
  {
    seq(|picks|, i requires 0 <= i < |picks| => shares[picks[i]])
  }

  lemma PointsDiffer(n: pos, a: int, b: int)
    requires 1 <= a <= n && 1 <= b <= n && a != b
    ensures !Cong(n, a, b)
  {
    if Cong(n, a, b) {
      var k := Quotient(n, a - b);
      MultipleBounds(n, k);
    }
  }

  lemma SelectedPoints(n: pos, c: Poly, total: nat, picks: seq<nat>)
    requires total <= n && Selection(picks, total)
    ensures var s := Pick(SharesOf(n, c, total), picks);
      DistinctMod(n, Xs(s)) && Through(n, c, Xs(s), Ys(s))
  {
    var s := Pick(SharesOf(n, c, total), picks);
    var xs, ys := Xs(s), Ys(s);
    forall i | 0 <= i < |s| ensures xs[i] == picks[i] + 1 && ys[i] == Eval(c, xs[i]) % n {
      assert s[i] == Share(picks[i] + 1, Eval(c, picks[i] + 1) % n);
    }
    forall i, j | 0 <= i < j < |s| ensures !Cong(n, xs[i], xs[j]) {
      PointsDiffer(n, xs[i], xs[j]);
    }
    forall i | 0 <= i < |s| ensures Cong(n, Eval(c, xs[i]), ys[i]) {
      CongMod(n, Eval(c, xs[i]));
    }
  }

  /**
   Any need or more distinct shares, in any order, give back the secret reduced modulo n, whatever coins
   were drawn; no inverse is missing.
   */
  method Reconstruction(n: pos, secret: int, need: int, total: int, coins: seq<Option<int>>, picks: seq<nat>)
    returns (r: Option<int>)
    requires Prime(n) && 2 <= need <= total <= n && need - 1 <= |coins|
    requires forall c <- coins :: c.Some? && 0 <= c.value < n
    requires Selection(picks, total) && need <= |picks|
    ensures r == Some(secret % n)
  {
    assert AllDrawn(coins, need);
    var shares := Split(n, secret, need, total, coins);
    ghost var c := CoinsToPoly(n, secret, coins, need);
    SelectedPoints(n, c, total, picks);
    r := Recover(n, Pick(shares.value, picks));
    AtZero(n, c);
    SmallMod(n, c[0]);
  }

  lemma AtZero(n: pos, c: Poly)
    requires c != []
    ensures Eval(c, 0) == c[0]
  {
  }

  /** The dealt shares at the points xs are ys. */
  ghost predicate Deals(n: pos, c: Poly, xs: seq<int>, ys: seq<int>) {
    |xs| == |ys| && forall i :: 0 <= i < |xs| ==> Eval(c, xs[i]) % n == ys[i]
  }

  /**
   One share short, Recover returns the secret exactly when the last coin drawn is zero; so need - 1
   shares miss the secret for every other value of that coin.
   */
  method OneShareShort(n: pos, secret: int, need: int, total: int, coins: seq<Option<int>>, picks: seq<nat>)
    returns (r: Option<int>)
    requires Prime(n) && 2 <= need <= total < n && need - 1 <= |coins|
    requires forall c <- coins :: c.Some? && 0 <= c.value < n
    requires Selection(picks, total) && |picks| == need - 1
    ensures r.Some?
    ensures r.value == secret % n <==> coins[need - 2].value == 0
  {
    assert AllDrawn(coins, need);
    var shares := Split(n, secret, need, total, coins);
    var picked := Pick(shares.value, picks);
    ghost var c := CoinsToPoly(n, secret, coins, need);
    SelectedPoints(n, c, total, picks);
    NonZeroPoints(n, c, total, picks);
    r := Recover(n, picked);
    ghost var short := ShortValueIsSecret(n, c, Xs(picked), Ys(picked));
    SmallMod(n, c[0]);
  }

  lemma ShortValueIsSecret(n: pos, c: Poly, xs: seq<int>, ys: seq<int>) returns (short: Poly)
    requires Prime(n) && |c| == |xs| + 1 && Through(n, c, xs, ys) && 0 <= c[|xs|] < n
    requires forall i :: 0 <= i < |xs| ==> !Div(n, xs[i])
    ensures |short| == |xs| && Through(n, short, xs, ys)
    ensures Eval(short, 0) % n == c[0] % n <==> c[|xs|] == 0
  {
    short := WithoutTop(n, c, xs, ys);
    GapVanishes(n, c[|xs|], xs);
    AtZero(n, c);
    ShiftedResidue(n, c[0], c[|xs|] * Prod(0, xs));
  }

  lemma NonZeroPoints(n: pos, c: Poly, total: nat, picks: seq<nat>)
    requires total < n && Selection(picks, total)
    ensures var xs := Xs(Pick(SharesOf(n, c, total), picks));
      forall i :: 0 <= i < |xs| ==> !Div(n, xs[i])
  {
    var xs := Xs(Pick(SharesOf(n, c, total), picks));
    forall i | 0 <= i < |xs| ensures !Div(n, xs[i]) {
      assert xs[i] == picks[i] + 1;
      SmallMod(n, xs[i]);
    }
  }

  /** The polynomial of one coefficient less through the same shares. */
  lemma WithoutTop(n: pos, c: Poly, xs: seq<int>, ys: seq<int>) returns (short: Poly)
    requires |c| == |xs| + 1 && Through(n, c, xs, ys)
    ensures |short| == |xs| && Through(n, short, xs, ys)
    ensures Eval(short, 0) == Eval(c, 0) - c[|xs|] * Prod(0, xs)
  {
    var m := |xs|;
    short := Minus(c, Scale(c[m], FromRoots(xs)))[..m];
    forall i | 0 <= i < m ensures Eval(short, xs[i]) == Eval(c, xs[i]) {
      ShortValue(c, xs, xs[i]);
      ProdZero(xs[i], xs, i);
    }
    ShortValue(c, xs, 0);
  }

  lemma ShortValue(c: Poly, xs: seq<int>, x: int)
    requires |c| == |xs| + 1
    ensures var e := Minus(c, Scale(c[|xs|], FromRoots(xs)));
      Eval(e[..|xs|], x) == Eval(c, x) - c[|xs|] * Prod(x, xs)
  {
    var m := |xs|;
    var f := FromRoots(xs);
    var e := Minus(c, Scale(c[m], f));
    EliminateTop(c, xs);
    assert e == e[..m] + Zeros(1);
    EvalPad(e[..m], 1, x);
    EvalMinus(c, Scale(c[m], f), x);
    EvalScale(c[m], f, x);
    EvalFromRoots(xs, x);
  }

  lemma ShiftedResidue(n: pos, s: int, gap: int)
    ensures (s - gap) % n == s % n <==> Div(n, gap)
  {
    CongEq(n, s, s - gap);
  }

  lemma GapVanishes(n: pos, top: int, xs: seq<int>)
    requires Prime(n) && 0 <= top < n && forall i :: 0 <= i < |xs| ==> !Div(n, xs[i])
    ensures Div(n, top * Prod(0, xs)) <==> top == 0
  {
    if top == 0 {
      Multiple(n, 0);
    } else if Div(n, top * Prod(0, xs)) {
      PrimeDividesProduct(n, top, Prod(0, xs));
      SmallMod(n, top);
      ProdNonZero(n, 0, xs);
      var j :| 0 <= j < |xs| && Cong(n, 0, xs[j]);
      CongEq(n, 0, xs[j]);
      CongEq(n, xs[j], 0);
      assert false;
    }
  }

  /** The monic polynomial with the given roots cancels the highest coefficient. */
  lemma EliminateTop(c: Poly, xs: seq<int>)
    requires |c| == |xs| + 1
    ensures Minus(c, Scale(c[|xs|], FromRoots(xs)))[|xs|] == 0
  {
    var m := |xs|;
    Monic(xs);
    ScaleAt(c[m], FromRoots(xs), m);
    MinusAt(c, Scale(c[m], FromRoots(xs)), m);
  }

  lemma {:induction false} ScaleAt(k: int, c: Poly, i: nat)
    requires i < |c|
    ensures Scale(k, c)[i] == k * c[i]
  {
    if i > 0 {
      ScaleAt(k, c[1..], i - 1);
    }
  }

  lemma {:induction false} AddAt(c: Poly, d: Poly, i: nat)
    requires |c| == |d| && i < |c|
    ensures Add(c, d)[i] == c[i] + d[i]
  {
    if i > 0 {
      AddAt(c[1..], d[1..], i - 1);
    }
  }

  lemma {:induction false} Monic(xs: seq<int>)
    ensures FromRoots(xs)[|xs|] == 1
  {
    if xs != [] {
      var m := |xs| - 1;
      var f := FromRoots(xs[..m]);
      Monic(xs[..m]);
      AddAt([0] + f, Scale(-xs[m], f) + Zeros(1), |xs|);
    }
  }

  /**
   Fewer than need shares fix nothing about the secret: for any shares at distinct non-zero points and
   any candidate secret there are coefficients that deal exactly those shares, and with need - 1 shares
   there is exactly one such choice.
   */
  lemma Secrecy(n: pos, secret: int, need: nat, xs: seq<int>, ys: seq<int>) returns (c: Poly)
    requires Prime(n) && |xs| == |ys| < need && DistinctMod(n, xs)
    requires forall i :: 0 <= i < |xs| ==> !Div(n, xs[i]) && 0 <= ys[i] < n
    ensures Sharing(n, secret, need, c) && Deals(n, c, xs, ys)
    ensures |xs| == need - 1 ==>
      forall d :: Sharing(n, secret, need, d) && Deals(n, d, xs, ys) ==> d == c
  {
    var xs0, ys0 := [0] + xs, [secret % n] + ys;
    ZeroIsDistinct(n, xs);
    c := DealAt(n, need, xs0, ys0);
    assert Eval(c, xs0[0]) % n == ys0[0];
    forall i | 0 <= i < |xs| ensures Eval(c, xs[i]) % n == ys[i] {
      assert xs0[i + 1] == xs[i] && ys0[i + 1] == ys[i];
    }
    AtZero(n, c);
    SmallMod(n, c[0]);
    if |xs| == need - 1 {
      forall d | Sharing(n, secret, need, d) && Deals(n, d, xs, ys) ensures d == c {
        OnlyChoice(n, secret, c, d, xs, ys);
      }
    }
  }

  /** All sequences of k coefficients below n. */
  function Polys(n: pos, k: nat): set<Poly> {
    if k == 0 then {[]} else set a, c | 0 <= a < n && c in Polys(n, k - 1) :: [a] + c
  }

  ghost predicate Small(n: pos, c: Poly) {
    forall i :: 0 <= i < |c| ==> 0 <= c[i] < n
  }

  lemma {:induction false} InPolys(n: pos, k: nat, c: Poly)
    ensures c in Polys(n, k) <==> |c| == k && Small(n, c)
  {
    if k > 0 && c != [] {
      InPolys(n, k - 1, c[1..]);
      assert c == [c[0]] + c[1..];
    }
  }

  /** The draws of coefficients with which a secret is dealt as the given shares. */
  ghost function Choices(n: pos, secret: int, need: nat, xs: seq<int>, ys: seq<int>): set<Poly> {
    set c | c in Polys(n, need) && Sharing(n, secret, need, c) && Deals(n, c, xs, ys)
  }

  lemma InChoices(n: pos, secret: int, need: nat, xs: seq<int>, ys: seq<int>, c: Poly)
    ensures c in Choices(n, secret, need, xs, ys) <==> Sharing(n, secret, need, c) && Deals(n, c, xs, ys)
  {
    hide Polys, Deals;
    InPolys(n, need, c);
  }

  /**
   Perfect secrecy: fewer than need shares are dealt by equally many draws for any two secrets, so seeing them
   changes nothing about how likely each secret is.
   */
  lemma PerfectSecrecy(n: pos, s: int, t: int, need: nat, xs: seq<int>, ys: seq<int>)
    requires Prime(n) && |xs| == |ys| < need && DistinctMod(n, xs)
    requires forall i :: 0 <= i < |xs| ==> !Div(n, xs[i]) && 0 <= ys[i] < n
    ensures |Choices(n, s, need, xs, ys)| == |Choices(n, t, need, xs, ys)| > 0
    ensures |xs| == need - 1 ==> |Choices(n, s, need, xs, ys)| == 1
  {
    hide Choices, Sharing, Deals, DistinctMod, Prime;
    var c := Secrecy(n, s, need, xs, ys);
    var d := Secrecy(n, t, need, xs, ys);
    NoMoreChoices(n, s, t, need, xs, ys, c, d);
    NoMoreChoices(n, t, s, need, xs, ys, d, c);
    InChoices(n, s, need, xs, ys, c);
    if |xs| == need - 1 {
      forall e ensures e in Choices(n, s, need, xs, ys) <==> e == c {
        InChoices(n, s, need, xs, ys, e);
      }
      assert Choices(n, s, need, xs, ys) == {c};
    }
  }

  /** The draws with which Split deals the given shares. */
  ghost function DrawsFor(n: pos, secret: int, need: nat, shares: seq<Share>): set<seq<int>>
    requires need >= 1 && forall s <- shares :: s.x >= 1
  {
    set d | d in Polys(n, need - 1) && DealsAll(n, secret, d, shares)
  }

  ghost predicate DealsAll(n: pos, secret: int, draws: seq<int>, shares: seq<Share>)
    requires forall s <- shares :: s.x >= 1
  {
    forall s <- shares :: Dealt(n, secret, draws, s.x - 1) == s
  }

  /**
   The same of the draws themselves: of all ways the random source can answer, equally many make Split deal given
   shares for any two secrets, and exactly one when one share is missing.
   */
  lemma EquallyManyDraws(n: pos, s: int, t: int, need: nat, shares: seq<Share>)
    requires Prime(n) && |shares| < need && DistinctMod(n, Xs(shares))
    requires forall h <- shares :: 1 <= h.x < n && 0 <= h.y < n
    ensures |DrawsFor(n, s, need, shares)| == |DrawsFor(n, t, need, shares)| > 0
    ensures |shares| == need - 1 ==> |DrawsFor(n, s, need, shares)| == 1
  {
    hide DistinctMod, DrawsFor, Choices, Prime;
    var xs, ys := Xs(shares), Ys(shares);
    forall i | 0 <= i < |xs| ensures !Div(n, xs[i]) && 0 <= ys[i] < n {
      assert shares[i] in shares;
      SmallMod(n, xs[i]);
    }
    PerfectSecrecy(n, s, t, need, xs, ys);
    DrawsAreChoices(n, s, need, shares);
    DrawsAreChoices(n, t, need, shares);
  }

  lemma DrawsAreChoices(n: pos, secret: int, need: nat, shares: seq<Share>)
    requires need >= 1 && forall h <- shares :: h.x >= 1
    ensures |DrawsFor(n, secret, need, shares)| == |Choices(n, secret, need, Xs(shares), Ys(shares))|
  {
    hide Polys, Choices, Deals, DealsAll;
    var from, to := DrawsFor(n, secret, need, shares), Choices(n, secret, need, Xs(shares), Ys(shares));
    forall c ensures c in to <==> c != [] && c[0] == secret % n && c[1..] in from {
      InChoices(n, secret, need, Xs(shares), Ys(shares), c);
      if c != [] && c[0] == secret % n {
        assert c == [secret % n] + c[1..];
        InPolys(n, need - 1, c[1..]);
        TailSmall(n, c);
        DealsIff(n, secret, c[1..], shares);
      }
    }
    SameCount(secret % n, from, to);
  }

  lemma TailSmall(n: pos, c: Poly)
    requires c != [] && 0 <= c[0] < n
    ensures Small(n, c) <==> Small(n, c[1..])
  {
    assert forall i :: 0 < i < |c| ==> c[i] == c[1..][i - 1];
  }

  lemma DealsIff(n: pos, secret: int, d: seq<int>, shares: seq<Share>)
    requires forall h <- shares :: h.x >= 1
    ensures DealsAll(n, secret, d, shares) <==> Deals(n, [secret % n] + d, Xs(shares), Ys(shares))
  {
    hide Eval, Dealt;
    forall i | 0 <= i < |shares|
      ensures Dealt(n, secret, d, shares[i].x - 1) == shares[i] <==> Eval([secret % n] + d, Xs(shares)[i]) % n == Ys(shares)[i]
    {
      XsYs(shares, i);
      DealtIsEval(n, secret, d, shares[i].x - 1);
    }
    assert DealsAll(n, secret, d, shares) <==> forall i :: 0 <= i < |shares| ==> Dealt(n, secret, d, shares[i].x - 1) == shares[i];
  }

  lemma XsYs(shares: seq<Share>, i: nat)
    requires i < |shares|
    ensures Xs(shares)[i] == shares[i].x && Ys(shares)[i] == shares[i].y
  {
  }

  /** Putting one coefficient in front changes no count. */
  lemma {:induction false} SameCount(a: int, from: set<seq<int>>, to: set<seq<int>>)
    requires forall c :: c in to <==> c != [] && c[0] == a && c[1..] in from
    ensures |from| == |to|
    decreases |from|
  {
    if from == {} {
      assert to == {};
    } else {
      var d :| d in from;
      assert ([a] + d)[1..] == d;
      forall c ensures c in to - {[a] + d} <==> c != [] && c[0] == a && c[1..] in from - {d} {
        if c != [] && c[0] == a && c[1..] == d {
          assert c == [a] + d;
        }
      }
      SameCount(a, from - {d}, to - {[a] + d});
    }
  }

  /** Adding d - c turns the choices for s into choices for t, different ones into different ones. */
  lemma NoMoreChoices(n: pos, s: int, t: int, need: nat, xs: seq<int>, ys: seq<int>, c: Poly, d: Poly)
    requires Sharing(n, s, need, c) && Deals(n, c, xs, ys) && Sharing(n, t, need, d) && Deals(n, d, xs, ys)
    ensures |Choices(n, s, need, xs, ys)| <= |Choices(n, t, need, xs, ys)|
  {
    hide Choices, Deals;
    var w, from, to := Minus(d, c), Choices(n, s, need, xs, ys), Choices(n, t, need, xs, ys);
    forall e | e in from ensures |e| == |w| && Small(n, e) && Shift(n, e, w) in to {
      InChoices(n, s, need, xs, ys, e);
      ShiftedChoice(n, s, t, need, xs, ys, c, d, e);
      InChoices(n, t, need, xs, ys, Shift(n, e, w));
    }
    ShiftedSize(n, w, from, to);
  }

  function Shift(n: pos, c: Poly, w: Poly): (r: Poly)
    requires |c| == |w|
    ensures |r| == |c| && Small(n, r)
  {
    Reduce(n, Add(c, w))
  }

  lemma {:induction false} ReduceAt(n: pos, c: Poly, i: nat)
    requires i < |c|
    ensures Reduce(n, c)[i] == c[i] % n
  {
    if i > 0 {
      ReduceAt(n, c[1..], i - 1);
    }
  }

  lemma ShiftAt(n: pos, c: Poly, w: Poly, i: nat)
    requires |c| == |w| && i < |c|
    ensures Shift(n, c, w)[i] == (c[i] + w[i]) % n
  {
    ReduceAt(n, Add(c, w), i);
    AddAt(c, w, i);
  }

  lemma ShiftedChoice(n: pos, s: int, t: int, need: nat, xs: seq<int>, ys: seq<int>, c: Poly, d: Poly, e: Poly)
    requires Sharing(n, s, need, c) && Deals(n, c, xs, ys) && Sharing(n, t, need, d) && Deals(n, d, xs, ys)
    requires Sharing(n, s, need, e) && Deals(n, e, xs, ys)
    ensures Sharing(n, t, need, Shift(n, e, Minus(d, c))) && Deals(n, Shift(n, e, Minus(d, c)), xs, ys)
  {
    var w := Minus(d, c);
    var f := Shift(n, e, w);
    ShiftAt(n, e, w, 0);
    MinusAt(d, c, 0);
    SmallMod(n, d[0]);
    forall i | 0 <= i < |xs| ensures Eval(f, xs[i]) % n == ys[i] {
      ShiftedValue(n, c, d, e, xs[i]);
    }
  }

  /** Where c, d and e agree modulo n, so does e + d - c. */
  lemma ShiftedValue(n: pos, c: Poly, d: Poly, e: Poly, x: int)
    requires |c| == |d| == |e| && Eval(c, x) % n == Eval(d, x) % n == Eval(e, x) % n
    ensures Eval(Shift(n, e, Minus(d, c)), x) % n == Eval(e, x) % n
  {
    var w := Minus(d, c);
    EvalReduce(n, Add(e, w), x);
    EvalAdd(e, w, x);
    EvalMinus(d, c, x);
    var v, gap := Eval(e, x), Eval(d, x) - Eval(c, x);
    CongEq(n, Eval(Shift(n, e, w), x), v + gap);
    CongEq(n, Eval(d, x), Eval(c, x));
    CongEq(n, v + gap, v);
  }

  lemma ShiftInjective(n: pos, w: Poly, c: Poly, d: Poly)
    requires |c| == |d| == |w| && Small(n, c) && Small(n, d) && Shift(n, c, w) == Shift(n, d, w)
    ensures c == d
  {
    forall i | 0 <= i < |c| ensures c[i] == d[i] {
      ShiftAt(n, c, w, i);
      ShiftAt(n, d, w, i);
      CongEq(n, c[i] + w[i], d[i] + w[i]);
      CongEq(n, c[i], d[i]);
      SmallMod(n, c[i]);
      SmallMod(n, d[i]);
    }
  }

  lemma {:induction false} ShiftedSize(n: pos, w: Poly, a: set<Poly>, b: set<Poly>)
    requires forall c <- a :: |c| == |w| && Small(n, c) && Shift(n, c, w) in b
    ensures |a| <= |b|
    decreases |a|
  {
    hide Shift, Small;
    if a != {} {
      var c :| c in a;
      var rest, image := a - {c}, Shift(n, c, w);
      forall d | d in rest ensures Shift(n, d, w) != image {
        if Shift(n, d, w) == image {
          ShiftInjective(n, w, c, d);
        }
      }
      ShiftedSize(n, w, rest, b - {image});
    }
  }

  lemma ZeroIsDistinct(n: pos, xs: seq<int>)
    requires DistinctMod(n, xs) && forall i :: 0 <= i < |xs| ==> !Div(n, xs[i])
    ensures DistinctMod(n, [0] + xs)
  {
    var xs0 := [0] + xs;
    forall i, j | 0 <= i < j < |xs0| ensures !Cong(n, xs0[i], xs0[j]) {
      assert xs0[j] == xs[j - 1];
      if i == 0 {
        CongEq(n, 0, xs0[j]);
        CongEq(n, xs0[j], 0);
      } else {
        assert xs0[i] == xs[i - 1];
      }
    }
  }

  /** Coefficients below n that take given residues at distinct points. */
  lemma DealAt(n: pos, need: nat, xs: seq<int>, ys: seq<int>) returns (c: Poly)
    requires Prime(n) && DistinctMod(n, xs) && |xs| == |ys| <= need
    requires forall i :: 0 <= i < |xs| ==> 0 <= ys[i] < n
    ensures |c| == need && (forall i :: 0 <= i < need ==> 0 <= c[i] < n)
    ensures Deals(n, c, xs, ys)
  {
    Interpolates(n, xs, ys);
    var l := Lagrange(n, xs, ys, |xs|);
    var pad := need - |xs|;
    c := Reduce(n, l) + Zeros(pad);
    forall i | 0 <= i < |xs| ensures Eval(c, xs[i]) % n == ys[i] {
      EvalPad(Reduce(n, l), pad, xs[i]);
      EvalReduce(n, l, xs[i]);
      CongEq(n, Eval(Reduce(n, l), xs[i]), Eval(l, xs[i]));
      CongEq(n, Eval(l, xs[i]), ys[i]);
      SmallMod(n, ys[i]);
    }
  }

  lemma OnlyChoice(n: pos, secret: int, c: Poly, d: Poly, xs: seq<int>, ys: seq<int>)
    requires Prime(n) && |xs| == |ys| && DistinctMod(n, xs) && DistinctMod(n, [0] + xs)
    requires Sharing(n, secret, |xs| + 1, c) && Deals(n, c, xs, ys)
    requires Sharing(n, secret, |xs| + 1, d) && Deals(n, d, xs, ys)
    ensures d == c
  {
    var xs0 := [0] + xs;
    var ys0 := [secret % n] + ys;
    ThroughFromDeals(n, secret, c, xs, ys);
    ThroughFromDeals(n, secret, d, xs, ys);
    Unique(n, c, d, xs0, ys0);
    forall i | 0 <= i < |c| ensures c[i] == d[i] {
      CongEq(n, c[i], d[i]);
      SmallMod(n, c[i]);
      SmallMod(n, d[i]);
    }
  }

  lemma ThroughFromDeals(n: pos, secret: int, c: Poly, xs: seq<int>, ys: seq<int>)
    requires Sharing(n, secret, |xs| + 1, c) && Deals(n, c, xs, ys)
    ensures Through(n, c, [0] + xs, [secret % n] + ys)
  {
    var xs0, ys0 := [0] + xs, [secret % n] + ys;
    forall i | 0 <= i < |xs0| ensures Cong(n, Eval(c, xs0[i]), ys0[i]) {
      if i == 0 {
        AtZero(n, c);
        Multiple(n, 0);
      } else {
        assert xs0[i] == xs[i - 1] && ys0[i] == ys[i - 1];
        CongMod(n, Eval(c, xs0[i]));
      }
    }
  }

  function Reduce(n: pos, c: Poly): (r: Poly)
    ensures |r| == |c| && forall i :: 0 <= i < |c| ==> 0 <= r[i] < n
  {
    if c == [] then [] else [c[0] % n] + Reduce(n, c[1..])
  }

  lemma {:induction false} EvalReduce(n: pos, c: Poly, x: int)
    ensures Cong(n, Eval(Reduce(n, c), x), Eval(c, x))
  {
    if c == [] {
      Multiple(n, 0);
    } else {
      EvalReduce(n, c[1..], x);
      var e, f := Eval(Reduce(n, c[1..]), x), Eval(c[1..], x);
      assert Reduce(n, c)[1..] == Reduce(n, c[1..]);
      CongMod(n, c[0]);
      DivMul(n, e - f, x);
      DivAdd(n, c[0] % n - c[0], x * (e - f));
      assert x * (e - f) == x * e - x * f;
    }
  }
}
