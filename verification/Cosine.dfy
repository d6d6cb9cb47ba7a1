/** `cosineSim` of services/ollama-gateway/server.js over exact reals. */
module Cosine {

  function Dot(a: seq<real>, b: seq<real>): real
    requires |a| == |b|
  {
    if a == [] then 0.0
    else Dot(a[..|a| - 1], b[..|a| - 1]) + a[|a| - 1] * b[|a| - 1]
  }

  function Quotient(dot: real, d: real): real {
    if d == 0.0 then 0.0 else dot / d
  }

  /** The result, given the norms x of a and y of b that `Math.sqrt` computes. */
  function Similarity(a: seq<real>, b: seq<real>, x: real, y: real): real {
    if a == [] || b == [] || |a| != |b| then 0.0 else Quotient(Dot(a, b), x * y)
  }

  /** What `Math.sqrt` gives on exact reals. */
  ghost predicate IsNorm(a: seq<real>, x: real) {
    x >= 0.0 && x * x == Dot(a, a)
  }

  /** The accumulation loop; the square root is a parameter. */
  method CosineSim(a: seq<real>, b: seq<real>, sqrt: real -> real) returns (r: real)
    ensures r == Similarity(a, b, sqrt(Dot(a, a)), sqrt(Dot(b, b)))
  {
    if |a| == 0 || |b| == 0 || |a| != |b| {
      return 0.0;
    }
    var dot, na, nb := 0.0, 0.0, 0.0;
    for i := 0 to |a|
      invariant dot == Dot(a[..i], b[..i]) && na == Dot(a[..i], a[..i]) && nb == Dot(b[..i], b[..i])
    {
      assert a[..i + 1][..i] == a[..i] && b[..i + 1][..i] == b[..i];
      dot := dot + a[i] * b[i];
      na := na + a[i] * a[i];
      nb := nb + b[i] * b[i];
    }
    assert a[..|a|] == a && b[..|b|] == b;
    var d := sqrt(na) * sqrt(nb);
    return if d == 0.0 then 0.0 else dot / d;
  }

  // ----- arithmetic on single numbers; products enter and leave under a name

  lemma Times(x: real, y: real, z: real)
    requires y == z
    ensures x * y == x * z
  {
  }

  lemma Positive(p: real, q: real, w: real)
    requires p > 0.0 && q > 0.0 && w == p * q
    ensures w > 0.0
  {
  }

  lemma Negative(p: real, q: real, w: real)
    requires p < 0.0 && q < 0.0 && w == p * q
    ensures w > 0.0
  {
  }

  lemma ZeroTimes(x: real, y: real, w: real)
    requires x == 0.0 && (w == x * y || w == y * x)
    ensures w == 0.0
  {
  }

  lemma SquareSign(x: real, w: real)
    requires w == x * x
    ensures w >= 0.0 && (w > 0.0 <==> x != 0.0)
  {
    if x > 0.0 {
      Positive(x, x, w);
    } else if x < 0.0 {
      Negative(x, x, w);
    } else {
      ZeroTimes(x, x, w);
    }
  }

  lemma ProductSign(x: real, y: real, w: real)
    requires x >= 0.0 && y >= 0.0 && w == x * y
    ensures w >= 0.0 && (w > 0.0 <==> x > 0.0 && y > 0.0)
  {
    if x == 0.0 {
      ZeroTimes(x, y, w);
    } else if y == 0.0 {
      ZeroTimes(y, x, w);
    } else {
      Positive(x, y, w);
    }
  }

  lemma Strict(x: real, y: real, xx: real, yy: real)
    requires 0.0 <= x < y && xx == x * x && yy == y * y
    ensures xx < yy
  {
    var w := (y - x) * (y + x);
    Positive(y - x, y + x, w);
    assert w == y * y - x * x;
  }

  lemma SqrtUnique(x: real, y: real, w: real)
    requires x >= 0.0 && y >= 0.0 && x * x == w && y * y == w
    ensures x == y
  {
    if x < y {
      Strict(x, y, w, w);
    } else if y < x {
      Strict(y, x, w, w);
    }
  }

  lemma ProductSquare(x: real, y: real, xx: real, yy: real, w: real)
    requires xx == x * x && yy == y * y && w == x * y
    ensures w * w == xx * yy
  {
    assert (x * y) * (x * y) == (x * x) * (y * y);
  }

  lemma SumSign(x: real, w: real, s: real)
    requires x >= 0.0 && w >= 0.0 && s == x + w
    ensures s >= 0.0 && (s > 0.0 <==> x > 0.0 || w > 0.0)
  {
  }

  // ----- dot products

  lemma {:induction false} DotSymmetric(a: seq<real>, b: seq<real>)
    requires |a| == |b|
    ensures Dot(a, b) == Dot(b, a)
  {
    if a != [] {
      DotSymmetric(a[..|a| - 1], b[..|a| - 1]);
    }
  }

  ghost predicate Zero(a: seq<real>) {
    forall i | 0 <= i < |a| :: a[i] == 0.0
  }

  lemma ZeroSplit(a: seq<real>)
    requires a != []
    ensures Zero(a) <==> Zero(a[..|a| - 1]) && a[|a| - 1] == 0.0
  {
    assert forall i | 0 <= i < |a| - 1 :: a[..|a| - 1][i] == a[i];
  }

  lemma {:induction false} DotZero(a: seq<real>, b: seq<real>)
    requires |a| == |b| && Zero(a)
    ensures Dot(a, b) == 0.0
  {
    if a != [] {
      var n := |a| - 1;
      DotZero(a[..n], b[..n]);
      ZeroTimes(a[n], b[n], a[n] * b[n]);
    }
  }

  lemma {:induction false} DotSelf(a: seq<real>)
    ensures Dot(a, a) >= 0.0
    ensures Dot(a, a) > 0.0 <==> !Zero(a)
  {
    if a != [] {
      var n := |a| - 1;
      DotSelf(a[..n]);
      SquareSign(a[n], a[n] * a[n]);
      SumSign(Dot(a[..n], a[..n]), a[n] * a[n], Dot(a, a));
      ZeroSplit(a);
    }
  }

  ghost predicate Multiple(a: seq<real>, b: seq<real>, t: real) {
    |a| == |b| && forall i | 0 <= i < |a| :: b[i] == t * a[i]
  }

  lemma ScaleStep(c: real, x: real, y: real, s: real, w: real, ws: real, d: real, d': real)
    requires s == c * x && w == x * y && ws == s * y && d' == d + w
    ensures c * d + ws == c * d'
  {
    Times(y, s, c * x);
    assert y * (c * x) == c * (x * y);
    Times(c, w, x * y);
    Times(c, d', d + w);
    assert c * (d + w) == c * d + c * w;
  }

  lemma {:induction false} DotScale(a: seq<real>, b: seq<real>, c: real, s: seq<real>, d: real, w: real)
    requires |a| == |b| && Multiple(a, s, c) && d == Dot(a, b) && w == c * d
    ensures Dot(s, b) == w
  {
    if a == [] {
      ZeroTimes(d, c, w);
    } else {
      var n := |a| - 1;
      var d' := Dot(a[..n], b[..n]);
      var w' := c * d';
      DotScale(a[..n], b[..n], c, s[..n], d', w');
      ScaleStep(c, a[n], b[n], s[n], a[n] * b[n], s[n] * b[n], d', d);
    }
  }

  // ----- Cauchy-Schwarz

  /** The squared distance between two vectors. */
  ghost function Distance(u: seq<real>, b: seq<real>): real
    requires |u| == |b|
  {
    if u == [] then 0.0
    else
      var n := |u| - 1;
      Distance(u[..n], b[..n]) + (u[n] - b[n]) * (u[n] - b[n])
  }

  lemma Binomial(x: real, y: real, z: real, xx: real, xy: real, yy: real)
    requires z == x - y && xx == x * x && xy == x * y && yy == y * y
    ensures z * z == xx - 2.0 * xy + yy
  {
    assert (x - y) * (x - y) == x * x - 2.0 * (x * y) + y * y;
  }

  lemma {:induction false} DistanceExpands(u: seq<real>, b: seq<real>)
    requires |u| == |b|
    ensures Distance(u, b) == Dot(u, u) - 2.0 * Dot(u, b) + Dot(b, b)
  {
    if u != [] {
      var n := |u| - 1;
      DistanceExpands(u[..n], b[..n]);
      Binomial(u[n], b[n], u[n] - b[n], u[n] * u[n], u[n] * b[n], b[n] * b[n]);
    }
  }

  lemma {:induction false} DistanceZero(u: seq<real>, b: seq<real>)
    requires |u| == |b|
    ensures Distance(u, b) >= 0.0
    ensures Distance(u, b) > 0.0 || u == b
  {
    if u != [] {
      var n := |u| - 1;
      DistanceZero(u[..n], b[..n]);
      SquareSign(u[n] - b[n], (u[n] - b[n]) * (u[n] - b[n]));
      assert u == u[..n] + [u[n]] && b == b[..n] + [b[n]];
    }
  }

  function Scaled(a: seq<real>, t: real): (u: seq<real>)
    ensures |u| == |a| && forall i | 0 <= i < |a| :: u[i] == t * a[i]
  {
    seq(|a|, i requires 0 <= i < |a| => t * a[i])
  }

  /** At t = q / p, p times the squared distance from b to t a is what separates the two
      sides of Cauchy-Schwarz. */
  lemma LeastDistance(p: real, q: real, r: real, t: real, uu: real, ub: real, s: real)
    requires t * p == q && ub == t * q && uu == t * q && s == uu - 2.0 * ub + r
    ensures p * r - q * q == p * s
  {
    Times(p, s, r - t * q);
    assert p * (r - t * q) == p * r - p * (t * q);
    Times(q, t * p, q);
    assert p * (t * q) == q * (t * p);
  }

  /** The products of a multiple with the vector itself, and with another one. */
  lemma ScaledSquare(a: seq<real>, u: seq<real>, t: real, p: real, q: real, w: real)
    requires Multiple(a, u, t) && p == Dot(a, a) && q == t * p && w == t * q
    ensures Dot(u, u) == w
  {
    DotScale(a, a, t, u, p, q);
    DotSymmetric(a, u);
    DotScale(a, u, t, u, q, w);
  }

  lemma ScaledDots(a: seq<real>, b: seq<real>, p: real, q: real, t: real, w: real) returns (u: seq<real>)
    requires |a| == |b| && p == Dot(a, a) && q == Dot(a, b) && q == t * p && w == t * q
    ensures Multiple(a, u, t) && Dot(u, b) == w && Dot(u, u) == w
  {
    u := Scaled(a, t);
    ScaledSquare(a, u, t, p, q, w);
    DotScale(a, b, t, u, q, w);
  }

  lemma Defect(a: seq<real>, b: seq<real>, p: real, q: real, r: real)
    requires |a| == |b| && p == Dot(a, a) && q == Dot(a, b) && r == Dot(b, b) && p > 0.0
    ensures q * q <= p * r
    ensures q * q < p * r || Multiple(a, b, q / p)
  {
    var t := q / p;
    var w := t * q;
    var u := ScaledDots(a, b, p, q, t, w);
    DistanceExpands(u, b);
    DistanceZero(u, b);
    var s := Distance(u, b);
    LeastDistance(p, q, r, t, w, w, s);
    ProductNonNegative(p, s, p * s);
  }

  lemma ProductNonNegative(p: real, s: real, w: real)
    requires p > 0.0 && s >= 0.0 && w == p * s
    ensures w >= 0.0 && (s > 0.0 ==> w > 0.0)
  {
    ProductSign(p, s, w);
  }

  /** Cauchy-Schwarz. */
  lemma CauchySchwarz(a: seq<real>, b: seq<real>, p: real, q: real, r: real)
    requires |a| == |b| && p == Dot(a, a) && q == Dot(a, b) && r == Dot(b, b)
    ensures q * q <= p * r
  {
    DotSelf(a);
    if Zero(a) {
      DotZero(a, b);
      DotZero(a, a);
      ZeroTimes(q, q, q * q);
      ZeroTimes(p, r, p * r);
    } else {
      Defect(a, b, p, q, r);
    }
  }

  // ----- what the similarity means

  lemma Symmetric(a: seq<real>, b: seq<real>, x: real, y: real)
    ensures Similarity(a, b, x, y) == Similarity(b, a, y, x)
  {
    if |a| == |b| {
      DotSymmetric(a, b);
      Commute(x, y);
    }
  }

  lemma Commute(x: real, y: real)
    ensures x * y == y * x
  {
  }

  lemma NormSign(a: seq<real>, x: real)
    requires IsNorm(a, x)
    ensures x > 0.0 <==> !Zero(a)
  {
    DotSelf(a);
    SquareSign(x, Dot(a, a));
  }

  lemma QuotientRange(dot: real, d: real, w: real, dd: real)
    requires d >= 0.0 && w == dot * dot && dd == d * d && w <= dd
    ensures -1.0 <= Quotient(dot, d) <= 1.0
  {
    if dot > d {
      Strict(d, dot, dd, w);
    } else if -dot > d {
      NegativeSquare(dot, w);
      Strict(d, -dot, dd, w);
    } else if d > 0.0 {
      UnitQuotient(dot, d);
    }
  }

  lemma NegativeSquare(x: real, w: real)
    requires w == x * x
    ensures w == (-x) * (-x)
  {
  }

  lemma UnitQuotient(dot: real, d: real)
    requires d > 0.0 && -d <= dot <= d
    ensures -1.0 <= dot / d <= 1.0
  {
  }

  lemma QuotientOne(dot: real, d: real)
    requires d >= 0.0
    ensures Quotient(dot, d) == 1.0 <==> d > 0.0 && dot == d
  {
  }

  lemma RangeOfNorms(q: real, x: real, y: real, p: real, r: real)
    requires x >= 0.0 && y >= 0.0 && p == x * x && r == y * y && q * q <= p * r
    ensures -1.0 <= Quotient(q, x * y) <= 1.0
  {
    var d := x * y;
    ProductSign(x, y, d);
    ProductSquare(x, y, p, r, d);
    QuotientRange(q, d, q * q, d * d);
  }

  /** The similarity lies between -1 and 1. */
  lemma InRange(a: seq<real>, b: seq<real>, x: real, y: real)
    requires IsNorm(a, x) && IsNorm(b, y)
    ensures -1.0 <= Similarity(a, b, x, y) <= 1.0
  {
    if |a| == |b| {
      CauchySchwarz(a, b, Dot(a, a), Dot(a, b), Dot(b, b));
      RangeOfNorms(Dot(a, b), x, y, Dot(a, a), Dot(b, b));
    }
  }

  lemma NormOfMultiple(c: real, x: real, xs: real, p: real, m: real, ps: real)
    requires c > 0.0 && x >= 0.0 && xs >= 0.0 && x * x == p && xs * xs == ps
    requires m == c * p && ps == c * m
    ensures xs == c * x
  {
    var cx := c * x;
    ProductSign(c, x, cx);
    ProductSquare(c, x, c * c, p, cx);
    Times(c, m, c * p);
    assert c * (c * p) == (c * c) * p;
    SqrtUnique(xs, cx, ps);
  }

  /** The norm of a scaled vector is the scaled norm. */
  lemma NormScale(a: seq<real>, c: real, s: seq<real>, x: real, xs: real)
    requires c > 0.0 && Multiple(a, s, c) && IsNorm(a, x) && IsNorm(s, xs)
    ensures xs == c * x
  {
    var p := Dot(a, a);
    var m := c * p;
    var ps := c * m;
    ScaledSquare(a, s, c, p, m, ps);
    NormOfMultiple(c, x, xs, p, m, ps);
  }

  lemma ScaledQuotient(c: real, q: real, d: real, cq: real, cd: real)
    requires c > 0.0 && d >= 0.0 && cq == c * q && cd == c * d
    ensures Quotient(cq, cd) == Quotient(q, d)
  {
    ProductSign(c, d, cd);
    if d > 0.0 {
      var k := q / d;
      assert k * d == q;
      Times(c, k * d, q);
      assert c * (k * d) == k * (c * d);
      DivideOut(cq, cd, k);
    }
  }

  lemma DivideOut(p: real, q: real, k: real)
    requires q > 0.0 && p == k * q
    ensures p / q == k
  {
  }

  lemma ScaledVectors(c: real, x: real, y: real, xs: real, q: real, qs: real)
    requires c > 0.0 && x >= 0.0 && y >= 0.0 && xs == c * x && qs == c * q
    ensures Quotient(qs, xs * y) == Quotient(q, x * y)
  {
    var d := x * y;
    ProductSign(x, y, d);
    Times(y, xs, c * x);
    assert xs * y == c * d;
    ScaledQuotient(c, q, d, qs, xs * y);
  }

  /** Multiplying a vector by a positive number changes nothing. */
  lemma ScaleInvariant(a: seq<real>, b: seq<real>, c: real, s: seq<real>, x: real, y: real, xs: real)
    requires c > 0.0 && Multiple(a, s, c) && IsNorm(a, x) && IsNorm(b, y) && IsNorm(s, xs)
    ensures Similarity(s, b, xs, y) == Similarity(a, b, x, y)
  {
    if a != [] && |a| == |b| {
      var q := Dot(a, b);
      var qs := c * q;
      DotScale(a, b, c, s, q, qs);
      NormScale(a, c, s, x, xs);
      ScaledVectors(c, x, y, xs, q, qs);
    }
  }

  /** Any non-zero vector has similarity 1 with itself. */
  lemma SelfIsOne(a: seq<real>, x: real)
    requires IsNorm(a, x) && !Zero(a)
    ensures Similarity(a, a, x, x) == 1.0
  {
    DotSelf(a);
    QuotientOne(Dot(a, a), x * x);
  }

  lemma OneImpliesMultiple(a: seq<real>, b: seq<real>, x: real, y: real) returns (t: real)
    requires IsNorm(a, x) && IsNorm(b, y) && Similarity(a, b, x, y) == 1.0
    ensures !Zero(a) && t > 0.0 && Multiple(a, b, t)
  {
    var p, q, r := Dot(a, a), Dot(a, b), Dot(b, b);
    var d := x * y;
    ProductSign(x, y, d);
    QuotientOne(q, d);
    NormSign(a, x);
    DotSelf(a);
    ProductSquare(x, y, p, r, d);
    Defect(a, b, p, q, r);
    t := q / p;
    PositiveQuotient(q, p);
  }

  lemma PositiveQuotient(q: real, p: real)
    requires p > 0.0 && q > 0.0
    ensures q / p > 0.0
  {
  }

  /** The similarity is 1 exactly for a non-zero vector and a positive multiple of it. */
  lemma OneIffMultiple(a: seq<real>, b: seq<real>, x: real, y: real)
    requires IsNorm(a, x) && IsNorm(b, y)
    ensures Similarity(a, b, x, y) == 1.0 <==> !Zero(a) && exists t: real :: t > 0.0 && Multiple(a, b, t)
  {
    if Similarity(a, b, x, y) == 1.0 {
      var t := OneImpliesMultiple(a, b, x, y);
    }
    if !Zero(a) && exists t: real :: t > 0.0 && Multiple(a, b, t) {
      var t: real :| t > 0.0 && Multiple(a, b, t);
      SelfIsOne(a, x);
      ScaleInvariant(a, a, t, b, x, x, y);
      Symmetric(a, b, x, y);
    }
  }

  // ----- what the value means below 1

  lemma QuotientTimes(dot: real, d: real)
    requires d == 0.0 ==> dot == 0.0
    ensures Quotient(dot, d) * d == dot
  {
    if d == 0.0 {
      ZeroTimes(d, Quotient(dot, d), Quotient(dot, d) * d);
    }
  }

  lemma NormsVanish(a: seq<real>, b: seq<real>, x: real, y: real, d: real)
    requires |a| == |b| && IsNorm(a, x) && IsNorm(b, y) && d == x * y
    ensures d == 0.0 ==> Dot(a, b) == 0.0
  {
    ProductSign(x, y, d);
    NormSign(a, x);
    NormSign(b, y);
    if Zero(a) {
      DotZero(a, b);
    } else if Zero(b) {
      DotZero(b, a);
      DotSymmetric(a, b);
    }
  }

  /** Similarity times both norms is the dot product, for vectors of the same length. */
  lemma ProductOfNorms(a: seq<real>, b: seq<real>, x: real, y: real, d: real)
    requires |a| == |b| && a != [] && IsNorm(a, x) && IsNorm(b, y) && d == x * y
    ensures Similarity(a, b, x, y) * d == Dot(a, b)
  {
    NormsVanish(a, b, x, y, d);
    QuotientTimes(Dot(a, b), d);
  }

  function Negated(b: seq<real>): (n: seq<real>)
    ensures |n| == |b| && forall i | 0 <= i < |b| :: n[i] == -b[i]
  {
    seq(|b|, i requires 0 <= i < |b| => -b[i])
  }

  lemma NegateFactor(x: real, y: real, n: real)
    requires n == -x
    ensures n * y == -(x * y)
  {
  }

  lemma {:induction false} DotNegated(a: seq<real>, b: seq<real>)
    requires |a| == |b|
    ensures Dot(Negated(a), b) == -Dot(a, b)
  {
    if a != [] {
      var n := |a| - 1;
      DotNegated(a[..n], b[..n]);
      assert Negated(a)[..n] == Negated(a[..n]);
      NegateFactor(a[n], b[n], Negated(a)[n]);
    }
  }

  lemma NormNegated(a: seq<real>, x: real)
    requires IsNorm(a, x)
    ensures IsNorm(Negated(a), x)
  {
    DotNegated(a, a);
    DotSymmetric(a, Negated(a));
    DotNegated(a, Negated(a));
  }

  lemma QuotientNegated(dot: real, d: real)
    ensures Quotient(-dot, d) == -Quotient(dot, d)
  {
  }

  /** Turning a vector round turns the similarity round. */
  lemma SimilarityNegated(a: seq<real>, b: seq<real>, x: real, y: real)
    ensures Similarity(Negated(a), b, x, y) == -Similarity(a, b, x, y)
  {
    if a != [] && |a| == |b| {
      DotNegated(a, b);
      QuotientNegated(Dot(a, b), x * y);
    }
  }

  lemma NegatedMultiple(a: seq<real>, b: seq<real>, t: real)
    ensures Multiple(Negated(a), b, t) <==> Multiple(a, b, -t)
  {
    forall i | 0 <= i < |a| ensures t * Negated(a)[i] == -t * a[i] {
      NegateBoth(t, a[i]);
    }
  }

  lemma NegateBoth(t: real, x: real)
    ensures t * (-x) == -t * x
  {
  }

  lemma NegatedZero(a: seq<real>)
    ensures Zero(Negated(a)) <==> Zero(a)
  {
    assert forall i | 0 <= i < |a| :: Negated(a)[i] == -a[i];
  }

  /** The similarity is -1 exactly for a non-zero vector and a negative multiple of it. */
  lemma MinusOneIffNegativeMultiple(a: seq<real>, b: seq<real>, x: real, y: real)
    requires IsNorm(a, x) && IsNorm(b, y)
    ensures Similarity(a, b, x, y) == -1.0 <==> !Zero(a) && exists t: real :: t < 0.0 && Multiple(a, b, t)
  {
    SimilarityNegated(a, b, x, y);
    NormNegated(a, x);
    OneIffMultiple(Negated(a), b, x, y);
    NegatedZero(a);
    if t: real :| t > 0.0 && Multiple(Negated(a), b, t) {
      NegatedMultiple(a, b, t);
      assert -t < 0.0 && Multiple(a, b, -t);
    }
    if t: real :| t < 0.0 && Multiple(a, b, t) {
      NegatedMultiple(a, b, -t);
      assert t == -(-t);
      assert -t > 0.0 && Multiple(Negated(a), b, -t);
    }
  }
}
