/** Vector geometry of embeddings, over exact reals. */
module EmbeddingGeometry {

  type Vector = seq<real>

  // The epsilon below which a norm counts as zero: two to the power of minus 23.
  const EPSILON: real := 1.0 / 8388608.0

  // A square root on the non-negative reals.
  ghost predicate IsSqrt(sqrt: real -> real) {
    forall x: real :: x >= 0.0 ==> sqrt(x) >= 0.0 && sqrt(x) * sqrt(x) == x
  }

  function Sum(x: seq<real>): real {
    if x == [] then 0.0 else Sum(x[..|x| - 1]) + x[|x| - 1]
  }

  function Products(a: Vector, b: Vector): (p: seq<real>)
    requires |a| == |b|
    ensures |p| == |a|
  {
    seq(|a|, i requires 0 <= i < |a| => a[i] * b[i])
  }

  function Difference(a: Vector, b: Vector): (d: Vector)
    requires |a| == |b|
    ensures |d| == |a|
  {
    seq(|a|, i requires 0 <= i < |a| => a[i] - b[i])
  }

  function Dot(a: Vector, b: Vector): real
    requires |a| == |b|
  {
    Sum(Products(a, b))
  }

  function SquaredDistance(a: Vector, b: Vector): real
    requires |a| == |b|
  {
    Dot(Difference(a, b), Difference(a, b))
  }

  function Scaled(a: Vector, k: real): (s: Vector)
    requires k != 0.0
    ensures |s| == |a|
  {
    seq(|a|, i requires 0 <= i < |a| => a[i] / k)
  }

  // ---------------------------------------------------------------- the operations

  method DotProduct(a: Vector, b: Vector) returns (sum: real)
    requires |a| == |b|
    ensures sum == Dot(a, b)
  {
    ghost var products := Products(a, b);
    sum := 0.0;
    for i := 0 to |a|
      invariant sum == Sum(products[..i])
    {
      sum := sum + a[i] * b[i];
      assert products[..i + 1][..i] == products[..i];
    }
    assert products[..|a|] == products;
  }

  method EuclideanDistance(sqrt: real -> real, a: Vector, b: Vector) returns (d: real)
    requires |a| == |b|
    ensures d == sqrt(SquaredDistance(a, b))
  {
    ghost var squares := Products(Difference(a, b), Difference(a, b));
    var sum := 0.0;
    for i := 0 to |a|
      invariant sum == Sum(squares[..i])
    {
      sum := sum + (a[i] - b[i]) * (a[i] - b[i]);
      assert squares[..i + 1][..i] == squares[..i];
    }
    assert squares[..|a|] == squares;
    d := sqrt(sum);
  }

  function Norm(sqrt: real -> real, a: Vector): real {
    sqrt(Dot(a, a))
  }

  function Normalized(sqrt: real -> real, a: Vector): Vector {
    if Norm(sqrt, a) > EPSILON then Scaled(a, Norm(sqrt, a)) else a
  }

  // Divides every element in place when the norm is above the guard.
  method Normalize(sqrt: real -> real, values: array<real>)
    modifies values
    ensures values[..] == Normalized(sqrt, old(values[..]))
  {
    ghost var before := values[..];
    var sum := DotProduct(values[..], values[..]);
    var norm := sqrt(sum);
    if norm > EPSILON {
      for i := 0 to values.Length
        invariant forall j :: 0 <= j < i ==> values[j] == before[j] / norm
        invariant forall j :: i <= j < values.Length ==> values[j] == before[j]
      {
        values[i] := values[i] / norm;
      }
      assert values[..] == Scaled(before, norm);
    }
  }

  // Every component counts once, with its own counterpart.
  lemma DotAppend(a: Vector, x: real, b: Vector, y: real)
    requires |a| == |b|
    ensures Dot([], []) == 0.0
    ensures Dot(a + [x], b + [y]) == Dot(a, b) + x * y
  {
    var p := Products(a + [x], b + [y]);
    forall i | 0 <= i < |a| ensures p[i] == Products(a, b)[i] {
      assert (a + [x])[i] == a[i] && (b + [y])[i] == b[i];
    }
    assert p[..|a|] == Products(a, b);
    assert p[|a|] == x * y;
  }

  lemma DistanceAppend(a: Vector, x: real, b: Vector, y: real)
    requires |a| == |b|
    ensures SquaredDistance([], []) == 0.0
    ensures SquaredDistance(a + [x], b + [y]) == SquaredDistance(a, b) + (x - y) * (x - y)
  {
    assert Difference([], []) == [] && Difference(a + [x], b + [y]) == Difference(a, b) + [x - y];
    DotAppend(Difference(a, b), x - y, Difference(a, b), x - y);
  }

  // ---------------------------------------------------------------- signs and squares

  lemma ProductSign(f: real, x: real)
    requires f > 0.0
    ensures x < 0.0 ==> f * x < 0.0
    ensures x > 0.0 ==> f * x > 0.0
  {
    if x < 0.0 {
      assert f * (-x) > 0.0;
      assert f * x == -(f * (-x));
    }
  }

  lemma SquareOrder(p: real, q: real)
    requires p >= 0.0 && q >= 0.0
    ensures p < q ==> p * p < q * q
    ensures p * p <= q * q <==> p <= q
  {
    assert q * q - p * p == (q + p) * (q - p);
    if p < q {
      ProductSign(q + p, q - p);
    } else if q < p {
      ProductSign(q + p, q - p);
    }
  }

  // ---------------------------------------------------------------- sums are linear

  function Times(k: real, x: seq<real>): (y: seq<real>)
    ensures |y| == |x|
  {
    seq(|x|, i requires 0 <= i < |x| => k * x[i])
  }

  function Plus(x: seq<real>, y: seq<real>): (z: seq<real>)
    requires |x| == |y|
    ensures |z| == |x|
  {
    seq(|x|, i requires 0 <= i < |x| => x[i] + y[i])
  }

  lemma Distribute(k: real, p: real, q: real)
    ensures k * (p + q) == k * p + k * q
  {
  }

  lemma {:induction false} SumTimes(k: real, x: seq<real>)
    ensures Sum(Times(k, x)) == k * Sum(x)
  {
    if x != [] {
      var n := |x| - 1;
      SumTimes(k, x[..n]);
      forall i | 0 <= i < n ensures Times(k, x)[..n][i] == Times(k, x[..n])[i] {
        assert x[..n][i] == x[i];
      }
      assert Times(k, x)[..n] == Times(k, x[..n]);
      Distribute(k, Sum(x[..n]), x[n]);
    }
  }

  lemma {:induction false} SumPlus(x: seq<real>, y: seq<real>)
    requires |x| == |y|
    ensures Sum(Plus(x, y)) == Sum(x) + Sum(y)
  {
    if x != [] {
      var n := |x| - 1;
      SumPlus(x[..n], y[..n]);
      assert Plus(x, y)[..n] == Plus(x[..n], y[..n]);
    }
  }

  function Weighted(k: real, x: seq<real>, l: real, y: seq<real>, m: real, z: seq<real>): (w: seq<real>)
    requires |x| == |y| == |z|
    ensures |w| == |x|
  {
    Plus(Plus(Times(k, x), Times(l, y)), Times(m, z))
  }

  lemma SumWeighted(k: real, x: seq<real>, l: real, y: seq<real>, m: real, z: seq<real>)
    requires |x| == |y| == |z|
    ensures Sum(Weighted(k, x, l, y, m, z)) == k * Sum(x) + l * Sum(y) + m * Sum(z)
  {
    SumPlus(Plus(Times(k, x), Times(l, y)), Times(m, z));
    SumPlus(Times(k, x), Times(l, y));
    SumTimes(k, x);
    SumTimes(l, y);
    SumTimes(m, z);
  }

  lemma {:induction false} SumNonNegative(x: seq<real>)
    requires forall i :: 0 <= i < |x| ==> x[i] >= 0.0
    ensures Sum(x) >= 0.0
  {
    if x != [] {
      SumNonNegative(x[..|x| - 1]);
    }
  }

  lemma DotSelfNonNegative(a: Vector)
    ensures Dot(a, a) >= 0.0
  {
    forall i | 0 <= i < |a| ensures Products(a, a)[i] >= 0.0 {
      assert a[i] * a[i] >= 0.0;
    }
    SumNonNegative(Products(a, a));
  }

  // ---------------------------------------------------------------- Cauchy-Schwarz

  // The vector t * a - s * b.
  function Combination(t: real, a: Vector, s: real, b: Vector): (c: Vector)
    requires |a| == |b|
    ensures |c| == |a|
  {
    seq(|a|, i requires 0 <= i < |a| => t * a[i] - s * b[i])
  }

  function Quadratic(t: real, aa: real, s: real, ab: real, bb: real): real {
    t * t * aa + (-2.0 * (t * s)) * ab + s * s * bb
  }

  lemma SquareOfCombination(t: real, x: real, s: real, y: real)
    ensures (t * x - s * y) * (t * x - s * y) == Quadratic(t, x * x, s, x * y, y * y)
  {
  }

  function CombinedProducts(t: real, a: Vector, s: real, b: Vector): (p: seq<real>)
    requires |a| == |b|
    ensures |p| == |a|
  {
    Weighted(t * t, Products(a, a), -2.0 * (t * s), Products(a, b), s * s, Products(b, b))
  }

  lemma CombinationAt(t: real, a: Vector, s: real, b: Vector, i: nat)
    requires |a| == |b| && i < |a|
    ensures var c := Combination(t, a, s, b); Products(c, c)[i] == CombinedProducts(t, a, s, b)[i]
  {
    var c := Combination(t, a, s, b);
    assert c[i] == t * a[i] - s * b[i];
    assert Products(c, c)[i] == c[i] * c[i];
    SquareOfCombination(t, a[i], s, b[i]);
  }

  lemma CombinationDot(t: real, a: Vector, s: real, b: Vector)
    requires |a| == |b|
    ensures var c := Combination(t, a, s, b);
      Dot(c, c) == Quadratic(t, Dot(a, a), s, Dot(a, b), Dot(b, b))
  {
    var c := Combination(t, a, s, b);
    forall i | 0 <= i < |a| ensures Products(c, c)[i] == CombinedProducts(t, a, s, b)[i] {
      CombinationAt(t, a, s, b, i);
    }
    assert Products(c, c) == CombinedProducts(t, a, s, b);
    SumWeighted(t * t, Products(a, a), -2.0 * (t * s), Products(a, b), s * s, Products(b, b));
  }

  lemma ScalarStep(aa: real, ab: real, bb: real)
    requires bb > 0.0 && Quadratic(bb, aa, ab, ab, bb) >= 0.0
    ensures ab * ab <= aa * bb
  {
    var d := aa * bb - ab * ab;
    assert Quadratic(bb, aa, ab, ab, bb) == bb * d;
    ProductSign(bb, d);
  }

  lemma ScalarStepOther(aa: real, ab: real, bb: real)
    requires aa > 0.0 && Quadratic(ab, aa, aa, ab, bb) >= 0.0
    ensures ab * ab <= aa * bb
  {
    var d := aa * bb - ab * ab;
    assert Quadratic(ab, aa, aa, ab, bb) == aa * d;
    ProductSign(aa, d);
  }

  // |a.b|^2 <= |a|^2 |b|^2 for embeddings of equal dimension.
  lemma CauchySchwarz(a: Vector, b: Vector)
    requires |a| == |b|
    ensures Dot(a, b) * Dot(a, b) <= Dot(a, a) * Dot(b, b)
  {
    var aa, ab, bb := Dot(a, a), Dot(a, b), Dot(b, b);
    DotSelfNonNegative(a);
    DotSelfNonNegative(b);
    if bb > 0.0 {
      CombinationNonNegative(bb, a, ab, b);
      ScalarStep(aa, ab, bb);
    } else if aa > 0.0 {
      CombinationNonNegative(ab, a, aa, b);
      ScalarStepOther(aa, ab, bb);
    } else {
      CombinationNonNegative(1.0, a, 1.0, b);
      CombinationNonNegative(1.0, a, -1.0, b);
      assert ab == 0.0;
    }
  }

  lemma CombinationNonNegative(t: real, a: Vector, s: real, b: Vector)
    requires |a| == |b|
    ensures Quadratic(t, Dot(a, a), s, Dot(a, b), Dot(b, b)) >= 0.0
  {
    CombinationDot(t, a, s, b);
    DotSelfNonNegative(Combination(t, a, s, b));
  }

  // ---------------------------------------------------------------- unit vectors

  // Unit embeddings have cosine similarity, which is their dot product, between -1 and 1.
  lemma UnitCosineBounded(a: Vector, b: Vector)
    requires |a| == |b| && Dot(a, a) == 1.0 && Dot(b, b) == 1.0
    ensures -1.0 <= Dot(a, b) <= 1.0
  {
    CauchySchwarz(a, b);
    var x := Dot(a, b);
    assert x * x == (-x) * (-x);
    SquareOrder(1.0, if x < 0.0 then -x else x);
  }

  lemma DistanceExpands(a: Vector, b: Vector)
    requires |a| == |b|
    ensures SquaredDistance(a, b) == Quadratic(1.0, Dot(a, a), 1.0, Dot(a, b), Dot(b, b))
  {
    assert Difference(a, b) == Combination(1.0, a, 1.0, b);
    CombinationDot(1.0, a, 1.0, b);
  }

  lemma SqrtMonotone(sqrt: real -> real, x: real, y: real)
    requires IsSqrt(sqrt) && x >= 0.0 && y >= 0.0
    ensures sqrt(x) <= sqrt(y) <==> x <= y
  {
    SquareOrder(sqrt(x), sqrt(y));
  }

  // For unit embeddings the squared distance is 2 - 2 cosine, so ranking by distance is ranking by cosine reversed.
  lemma DistanceReversesCosine(sqrt: real -> real, a: Vector, b: Vector, c: Vector)
    requires IsSqrt(sqrt) && |a| == |b| == |c|
    requires Dot(a, a) == 1.0 && Dot(b, b) == 1.0 && Dot(c, c) == 1.0
    ensures SquaredDistance(a, b) == 2.0 - 2.0 * Dot(a, b)
    ensures sqrt(SquaredDistance(a, b)) <= sqrt(SquaredDistance(a, c)) <==> Dot(a, b) >= Dot(a, c)
  {
    DistanceExpands(a, b);
    DistanceExpands(a, c);
    DotSelfNonNegative(Difference(a, b));
    DotSelfNonNegative(Difference(a, c));
    SqrtMonotone(sqrt, SquaredDistance(a, b), SquaredDistance(a, c));
  }

  // ---------------------------------------------------------------- normalisation

  // Squares of `y` are those of `x` times a factor.
  predicate SquareScaled(x: real, y: real, factor: real) {
    y * y == factor * (x * x)
  }

  lemma SquareOfProduct(x: real, k: real, y: real, factor: real)
    requires x * k == y && factor == k * k
    ensures SquareScaled(x, y, factor)
  {
    assert (x * k) * (x * k) == (k * k) * (x * x);
  }

  lemma ScaledAt(s: Vector, a: Vector, factor: real, i: nat)
    requires |s| == |a| && i < |a| && SquareScaled(s[i], a[i], factor)
    ensures Products(a, a)[i] == Times(factor, Products(s, s))[i]
  {
    assert Products(a, a)[i] == a[i] * a[i];
    assert Products(s, s)[i] == s[i] * s[i];
  }

  lemma ScaledProducts(s: Vector, a: Vector, factor: real)
    requires |s| == |a| && forall i :: 0 <= i < |a| ==> SquareScaled(s[i], a[i], factor)
    ensures Products(a, a) == Times(factor, Products(s, s))
  {
    forall i | 0 <= i < |a| ensures Products(a, a)[i] == Times(factor, Products(s, s))[i] {
      ScaledAt(s, a, factor, i);
    }
  }

  lemma SumQuotient(factor: real, x: seq<real>)
    requires factor > 0.0
    ensures Sum(x) == Sum(Times(factor, x)) / factor
  {
    SumTimes(factor, x);
    Quotient(factor, Sum(x), Sum(Times(factor, x)));
  }

  lemma Quotient(f: real, x: real, product: real)
    requires f > 0.0 && f * x == product
    ensures x == product / f
  {
  }

  lemma SelfQuotient(f: real)
    requires f > 0.0
    ensures f / f == 1.0
  {
  }

  // Dividing a vector by its norm makes it a unit vector.
  lemma UnitDot(u: Vector, a: Vector)
    requires |u| == |a| && forall i :: 0 <= i < |a| ==> SquareScaled(u[i], a[i], Dot(a, a))
    requires Dot(a, a) > 0.0
    ensures Dot(u, u) == 1.0
  {
    ScaledProducts(u, a, Dot(a, a));
    SumQuotient(Dot(a, a), Products(u, u));
    SelfQuotient(Dot(a, a));
  }

  // Above the guard the result is a unit vector of the same direction and normalising again changes nothing; otherwise
  // nothing changes.
  lemma NormalizeUnit(sqrt: real -> real, a: Vector)
    requires IsSqrt(sqrt)
    ensures var u := Normalized(sqrt, a);
      && (Norm(sqrt, a) > EPSILON ==> Dot(u, u) == 1.0 && Norm(sqrt, u) == 1.0)
      && (Norm(sqrt, a) > EPSILON ==> forall i :: 0 <= i < |a| ==> u[i] * Norm(sqrt, a) == a[i])
      && (Norm(sqrt, a) <= EPSILON ==> u == a)
      && Normalized(sqrt, u) == u
  {
    var k := Norm(sqrt, a);
    DotSelfNonNegative(a);
    if k > EPSILON {
      var u := Scaled(a, k);
      assert forall i :: 0 <= i < |a| ==> u[i] * k == a[i];
      forall i | 0 <= i < |a| ensures SquareScaled(u[i], a[i], Dot(a, a)) {
        SquareOfProduct(u[i], k, a[i], Dot(a, a));
      }
      ProductPositive(k, k, Dot(a, a));
      UnitDot(u, a);
      OneRoot(sqrt);
      assert forall i :: 0 <= i < |u| ==> Scaled(u, 1.0)[i] == u[i];
      assert Scaled(u, 1.0) == u;
    }
  }

  lemma ProductPositive(x: real, y: real, product: real)
    requires x > 0.0 && y > 0.0 && product == x * y
    ensures product > 0.0
  {
  }

  lemma OneRoot(sqrt: real -> real)
    requires IsSqrt(sqrt)
    ensures sqrt(1.0) == 1.0
  {
    SquareOrder(sqrt(1.0), 1.0);
    SquareOrder(1.0, sqrt(1.0));
  }
}
