/** Maximum and powers of natural numbers. */
module Numbers {
  function Max(a: nat, b: nat): nat {
    if a < b then b else a
  }

  function Power(base: nat, exponent: nat): nat {
    if exponent == 0 then 1 else base * Power(base, exponent - 1)
  }

  lemma {:induction false} PowerIsPositive(base: nat, n: nat)
    requires base > 0
    ensures Power(base, n) > 0
  {
    if n > 0 {
      PowerIsPositive(base, n - 1);
      ProductGrows(1, base, 1, Power(base, n - 1));
    }
  }

  lemma ProductGrows(a: nat, b: nat, x: nat, y: nat)
    requires a <= b && x <= y
    ensures a * x <= b * y
  {
    assert b * y == a * x + a * (y - x) + (b - a) * y;
  }

  lemma {:induction false} PowerGrows(a: nat, b: nat, n: nat)
    requires a <= b
    ensures Power(a, n) <= Power(b, n)
  {
    if n > 0 {
      PowerGrows(a, b, n - 1);
      ProductGrows(a, b, Power(a, n - 1), Power(b, n - 1));
    }
  }

  lemma {:induction false} PowerOfSum(base: nat, m: nat, n: nat)
    ensures Power(base, m + n) == Power(base, m) * Power(base, n)
  {
    if m > 0 {
      PowerOfSum(base, m - 1, n);
      Associate(base, Power(base, m - 1), Power(base, n));
    }
  }

  lemma Associate(a: nat, b: nat, c: nat)
    ensures a * (b * c) == (a * b) * c
  {
  }

  lemma {:induction false} PowerOfPower(base: nat, m: nat, n: nat)
    ensures Power(Power(base, m), n) == Power(base, m * n)
  {
    if n > 0 {
      PowerOfPower(base, m, n - 1);
      PowerOfSum(base, m, m * (n - 1));
      assert m + m * (n - 1) == m * n;
    }
  }

  lemma {:induction false} PowerIsMonotone(base: nat, m: nat, n: nat)
    requires base > 0 && m <= n
    ensures Power(base, m) <= Power(base, n)
  {
    PowerOfSum(base, m, n - m);
    PowerIsPositive(base, n - m);
    ProductGrows(Power(base, m), Power(base, m), 1, Power(base, n - m));
  }

  lemma {:induction false} PowersPassSquares(n: nat)
    ensures (n + 4) * (n + 4) <= Power(2, n + 4)
  {
    if n == 0 {
      assert Power(2, 2) == 4 && Power(2, 4) == 16;
    } else {
      PowersPassSquares(n - 1);
      assert (n + 4) * (n + 4) == (n + 3) * (n + 3) + 2 * n + 7;
      assert (n + 3) * (n + 3) == n * n + 6 * n + 9;
    }
  }

  /** Powers of two pass every polynomial: here at 2^(d + 4). */
  lemma PowersPassPolynomials(d: nat)
    ensures Power(4 * Power(2, d + 4) + 4, d) <= Power(2, Power(2, d + 4))
  {
    var n := Power(2, d + 4);
    assert 4 * n + 4 <= Power(2, d + 7) by {
      PowerOfSum(2, 3, d + 4);
      assert Power(2, 3) == 8;
      PowerIsPositive(2, d + 4);
    }
    PowerGrows(4 * n + 4, Power(2, d + 7), d);
    PowerOfPower(2, d + 7, d);
    assert (d + 7) * d <= n by {
      PowersPassSquares(d);
      assert (d + 4) * (d + 4) == d * d + 8 * d + 16 && (d + 7) * d == d * d + 7 * d;
    }
    PowerIsMonotone(2, (d + 7) * d, n);
  }
}
