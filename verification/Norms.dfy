/** The dot product of a list of values with itself, which is the square of its norm. */
module Norms {
  import Sorting

  function Product(x: real, y: real): real {
    x * y
  }

  function Dot(xs: seq<real>, ys: seq<real>): real
    requires |xs| == |ys|
  {
    if xs == [] then 0.0 else Product(xs[0], ys[0]) + Dot(xs[1..], ys[1..])
  }

  function Scaled(k: real, xs: seq<real>): (r: seq<real>)
    ensures |r| == |xs| && forall i :: 0 <= i < |r| ==> r[i] == Product(k, xs[i])
  {
    seq(|xs|, i requires 0 <= i < |xs| => Product(k, xs[i]))
  }

  lemma {:induction false} DotConcat(a: seq<real>, b: seq<real>)
    ensures Dot(a + b, a + b) == Dot(a, a) + Dot(b, b)
  {
    if a == [] {
      assert a + b == b;
    } else {
      assert (a + b)[1..] == a[1..] + b;
      DotConcat(a[1..], b);
    }
  }

  lemma DotOfOne(x: real)
    ensures Dot([x], [x]) == x * x
  {
    assert [x][1..] == [];
  }

  lemma Distributes(k: real, a: real, b: real)
    ensures k * (a + b) == k * a + k * b
  {
  }

  lemma SquareOfProduct(k: real, x: real)
    ensures Product(Product(k, x), Product(k, x)) == (k * k) * Product(x, x)
  {
    assert (k * x) * (k * x) == ((k * x) * k) * x == ((k * k) * x) * x == (k * k) * (x * x);
  }

  /** All values k times as large: the square is k * k times as large. */
  lemma {:induction false} DotOfScaled(k: real, xs: seq<real>)
    ensures Dot(Scaled(k, xs), Scaled(k, xs)) == (k * k) * Dot(xs, xs)
  {
    if xs != [] {
      DotOfScaled(k, xs[1..]);
      assert Scaled(k, xs)[1..] == Scaled(k, xs[1..]);
      SquareOfProduct(k, xs[0]);
      Distributes(k * k, Product(xs[0], xs[0]), Dot(xs[1..], xs[1..]));
    }
  }

  lemma DotAround(a: seq<real>, x: real, b: seq<real>)
    ensures Dot(a + [x] + b, a + [x] + b) == Product(x, x) + Dot(a + b, a + b)
  {
    DotConcat(a, [x]);
    DotConcat(a + [x], b);
    DotConcat(a, b);
    DotOfOne(x);
  }

  /** It does not matter in which order the values stand. */
  lemma {:induction false} DotIgnoresOrder(a: seq<real>, b: seq<real>)
    requires multiset(a) == multiset(b)
    ensures Dot(a, a) == Dot(b, b)
  {
    if a == [] {
      assert |multiset(b)| == |b|;
    } else {
      assert a[0] in multiset(b);
      var k :| 0 <= k < |b| && b[k] == a[0];
      Sorting.WithoutFirst(a);
      Sorting.WithoutOne(b, k);
      DotIgnoresOrder(a[1..], b[..k] + b[k + 1..]);
      DotAround(b[..k], b[k], b[k + 1..]);
    }
  }

  lemma PositiveProduct(x: real, y: real)
    requires x > 0.0 && y > 0.0
    ensures Product(x, y) > 0.0
  {
  }

  lemma Negated(x: real, y: real)
    requires x == -y
    ensures Product(x, x) == Product(y, y)
  {
    assert x * x == x * -y == -(x * y) == -(-y * y) == y * y;
  }

  lemma SquareIsPositive(x: real)
    ensures Product(x, x) >= 0.0 && (Product(x, x) == 0.0 <==> x == 0.0)
  {
    if x > 0.0 {
      PositiveProduct(x, x);
    } else if x < 0.0 {
      var y := -x;
      Negated(x, y);
      PositiveProduct(y, y);
    } else {
      assert Product(0.0, 0.0) == 0.0;
    }
  }

  /** No square is negative, and only values that are all zero have norm zero. */
  lemma {:induction false} DotIsPositive(xs: seq<real>)
    ensures Dot(xs, xs) >= 0.0
    ensures Dot(xs, xs) == 0.0 <==> forall i :: 0 <= i < |xs| ==> xs[i] == 0.0
  {
    if xs != [] {
      DotIsPositive(xs[1..]);
      SquareIsPositive(xs[0]);
      assert forall i :: 1 <= i < |xs| ==> xs[i] == xs[1..][i - 1];
    }
  }
}
