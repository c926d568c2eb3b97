/** Divisibility and inverses modulo a prime. */
module ModArith {
  import opened Wrappers

  type pos = n: int | n > 0 witness 1

  /** n divides a. */
  ghost predicate Div(n: pos, a: int) {
    a % n == 0
  }

  ghost predicate Cong(n: pos, a: int, b: int) {
    Div(n, a - b)
  }

  ghost predicate Prime(n: pos) {
    n >= 2 && forall d: int :: 1 < d < n ==> !Div(d, n)
  }

  lemma Multiple(n: pos, k: int)
    ensures Div(n, k * n)
  {
    var q, r := (k * n) / n, (k * n) % n;
    assert (k - q) * n == r;
    MultipleBounds(n, k - q);
  }

  lemma DivZero(n: pos)
    ensures Div(n, 0)
  {
  }

  lemma MultipleBounds(n: pos, k: int)
    ensures k >= 1 ==> k * n >= n
    ensures k <= -1 ==> k * n <= -(n as int)
  {
  }

  lemma Quotient(n: pos, a: int) returns (k: int)
    requires Div(n, a)
    ensures a == k * n
  {
    k := a / n;
  }

  lemma DivAdd(n: pos, a: int, b: int)
    requires Div(n, a) && Div(n, b)
    ensures Div(n, a + b) && Div(n, a - b)
  {
    var j := Quotient(n, a);
    var k := Quotient(n, b);
    assert a + b == (j + k) * n && a - b == (j - k) * n;
    Multiple(n, j + k);
    Multiple(n, j - k);
  }

  lemma DivMul(n: pos, a: int, b: int)
    requires Div(n, a)
    ensures Div(n, a * b) && Div(n, b * a)
  {
    var j := Quotient(n, a);
    assert a * b == (j * b) * n;
    Multiple(n, j * b);
  }

  lemma CongMod(n: pos, a: int)
    ensures Cong(n, a % n, a) && Cong(n, a, a % n)
  {
    assert a % n - a == -(a / n) * n;
    Multiple(n, -(a / n));
    Multiple(n, a / n);
  }

  lemma CongEq(n: pos, a: int, b: int)
    ensures Cong(n, a, b) <==> a % n == b % n
  {
    CongMod(n, a);
    CongMod(n, b);
    if Cong(n, a, b) {
      DivAdd(n, a % n - a, a - b);
      DivAdd(n, a % n - b, b - b % n);
      var k := Quotient(n, a % n - b % n);
      MultipleBounds(n, k);
    }
    if a % n == b % n {
      DivAdd(n, a - a % n, b % n - b);
    }
  }

  /** Reducing the factors of a product does not change its residue. */
  lemma MulMod(n: pos, a: int, b: int)
    ensures (a % n) * b % n == a * b % n
    ensures a * (b % n) % n == a * b % n
  {
    CongMod(n, a);
    CongMod(n, b);
    DivMul(n, a % n - a, b);
    DivMul(n, b % n - b, a);
    assert (a % n) * b - a * b == (a % n - a) * b;
    assert a * (b % n) - a * b == a * (b % n - b);
    CongEq(n, (a % n) * b, a * b);
    CongEq(n, a * (b % n), a * b);
  }

  lemma AddMod(n: pos, a: int, b: int)
    ensures (a % n + b) % n == (a + b) % n
    ensures (a + b % n) % n == (a + b) % n
  {
    CongMod(n, a);
    CongMod(n, b);
    CongEq(n, a % n + b, a + b);
    CongEq(n, a + b % n, a + b);
  }

  /** Modulo a prime every number that is not divisible has an inverse. */
  lemma {:induction false} InverseExists(n: pos, a: int) returns (x: int)
    requires Prime(n) && 0 < a < n
    ensures Cong(n, a * x, 1)
    decreases a
  {
    if a == 1 {
      x := 1;
      Multiple(n, 0);
    } else {
      var q, r := n / a, n % a;
      assert !Div(a, n);
      var y := InverseExists(n, r);
      x := -q * y;
      // r == n - q * a, so a * x == r * y - n * y
      assert a * x - 1 == (r * y - 1) - y * n by {
        assert r == n - q * a;
        assert r * y == n * y - q * a * y;
      }
      Multiple(n, y);
      DivAdd(n, r * y - 1, y * n);
    }
  }

  /** Euclid's lemma. */
  lemma PrimeDividesProduct(n: pos, a: int, b: int)
    requires Prime(n) && Div(n, a * b)
    ensures Div(n, a) || Div(n, b)
  {
    if !Div(n, a) {
      var x := InverseExists(n, a % n);
      MulMod(n, a, x);
      CongEq(n, (a % n) * x, 1);
      CongEq(n, a * x, 1);
      // b == (a * b) * x - (a * x - 1) * b
      DivMul(n, a * b, x);
      DivMul(n, a * x - 1, b);
      DivAdd(n, (a * b) * x, (a * x - 1) * b);
      assert (a * b) * x - (a * x - 1) * b == b;
    }
  }

  /** math/big's ModInverse: None stands for the nil it returns when there is no inverse. */
  function ModInverse(a: int, n: pos): (r: Option<int>)
    ensures r.Some? ==> 0 <= r.value < n && Cong(n, a * r.value, 1)
    ensures r == None ==> forall x :: 0 <= x < n ==> !Cong(n, a * x, 1)
  {
    FindInverse(a, n, 0)
  }

  function FindInverse(a: int, n: pos, from: nat): (r: Option<int>)
    requires from <= n
    ensures r.Some? ==> 0 <= r.value < n && Cong(n, a * r.value, 1)
    ensures r == None ==> forall x :: from <= x < n ==> !Cong(n, a * x, 1)
    decreases n - from
  {
    if from == n then None
    else if (a * from - 1) % n == 0 then Some(from)
    else FindInverse(a, n, from + 1)
  }

  lemma ModInverseExists(a: int, n: pos)
    requires Prime(n)
    ensures ModInverse(a, n).Some? <==> !Div(n, a)
  {
    if !Div(n, a) {
      var x := InverseExists(n, a % n);
      MulMod(n, a, x);
      MulMod(n, a, x % n);
      MulMod(n, a % n, x);
      CongEq(n, (a % n) * x, 1);
      CongEq(n, a * (x % n), 1);
    } else if ModInverse(a, n).Some? {
      var x := ModInverse(a, n).value;
      DivMul(n, a, x);
      DivAdd(n, a * x, a * x - 1);
    }
  }
}
