/** The hand-written P-256 arithmetic of opaque_adapter.py: affine addition, compressed points and
    the double-and-add loop, over any short Weierstrass curve with the parameters' properties. */
module CurveArithmetic {
  import opened Bytes
  import opened PrimeField

  datatype Curve = Curve(p: int, a: int, b: int, n: int)

  datatype Point = Infinity | Affine(x: int, y: int)

  const P256 := Curve(
    0xFFFFFFFF00000001000000000000000000000000FFFFFFFFFFFFFFFFFFFFFFFF,
    0xFFFFFFFF00000001000000000000000000000000FFFFFFFFFFFFFFFFFFFFFFFC,
    0x5AC635D8AA3A93E7B3EBBD55769886BC651D06B0CC53B0F63BCE3C3E27D2604B,
    0xFFFFFFFF00000000FFFFFFFFFFFFFFFFBCE6FAADA7179E84F3B9CAC2FC632551)

  /** 256^32: coordinates are written in 32 bytes. */
  const FIELD_LIMIT := 0x1_0000000000000000_0000000000000000_0000000000000000_0000000000000000

  /** What the code needs of the field size to run without overflow in to_bytes. */
  predicate Params(c: Curve) {
    2 < c.p <= FIELD_LIMIT && 2 < c.n
  }

  /** `_p256_affine_add` */
  function Add(c: Curve, P: Point, Q: Point): Point
    requires Params(c)
  {
    if P.Infinity? then Q
    else if Q.Infinity? then P
    else if P.x == Q.x && P.y != Q.y then Infinity
    else
      var lam := Slope(c, P, Q);
      var x3 := (lam * lam - P.x - Q.x) % c.p;
      Affine(x3, (lam * (P.x - x3) - P.y) % c.p)
  }

  function Slope(c: Curve, P: Point, Q: Point): int
    requires Params(c) && P.Affine? && Q.Affine?
  {
    if P.x == Q.x then (3 * P.x * P.x + c.a) * PowMod(2 * P.y, c.p - 2, c.p) % c.p
    else (Q.y - P.y) * PowMod(Q.x - P.x, c.p - 2, c.p) % c.p
  }

  ghost predicate OnCurve(c: Curve, P: Point)
    requires Params(c)
  {
    P.Affine? ==>
      && 0 <= P.x < c.p && 0 <= P.y < c.p
      && Cong(c.p, P.y * P.y, P.x * P.x * P.x + c.a * P.x + c.b)
  }

  /** A prime field with p = 3 mod 4 and no point of y = 0, which the doubling branch does not handle. */
  ghost predicate Field(c: Curve) {
    && Params(c) && Prime(c.p) && c.p % 4 == 3
    && forall P: Point :: P.Affine? && OnCurve(c, P) ==> P.y != 0
  }

  /** The two facts about the curve group that are taken as given: associativity and the order. */
  ghost predicate Group(c: Curve) {
    && Field(c) && Prime(c.n)
    && (forall P, Q, R {:trigger AssociatesAt(c, P, Q, R)} ::
          OnCurve(c, P) && OnCurve(c, Q) && OnCurve(c, R) ==> AssociatesAt(c, P, Q, R))
    && (forall P {:trigger Mult(c, c.n, P)} :: OnCurve(c, P) ==> Mult(c, c.n, P) == Infinity)
  }

  ghost predicate AssociatesAt(c: Curve, P: Point, Q: Point, R: Point)
    requires Params(c)
  {
    Add(c, Add(c, P, Q), R) == Add(c, P, Add(c, Q, R))
  }

  /** k-fold repeated addition: what scalar multiplication means. */
  function Mult(c: Curve, k: nat, P: Point): Point
    requires Params(c)
  {
    if k == 0 then Infinity else Add(c, Mult(c, k - 1, P), P)
  }

  function Negate(c: Curve, P: Point): Point {
    if P.Infinity? then P else Affine(P.x, c.p - P.y)
  }

  // ---------------------------------------------------------------- the third point of a line

  /** t^3 - s*t^2 + u*t + v */
  function Cubic(s: int, u: int, v: int, t: int): int {
    t * t * t - s * (t * t) + u * t + v
  }

  /** The curve minus the line of slope lam through (x1, y1), as a monic cubic in t. */
  lemma LineMeetsCurve(a: int, b: int, lam: int, x1: int, y1: int, t: int)
    ensures var s, m := lam * lam, lam * (t - x1) + y1;
      Cubic(s, a + 2 * s * x1 - 2 * lam * y1, b - s * x1 * x1 + 2 * lam * x1 * y1 - y1 * y1, t)
      == (t * t * t + a * t + b) - m * m
  {
  }

  /** With the roots' sum in place of s, the cubic term cancels at a root. */
  lemma CubicAtRoot(x: int, x1: int, x2: int, u: int, v: int)
    ensures Cubic(x + x1 + x2, u, v, x) == u * x + v - x1 * (x * x) - x2 * (x * x)
  {
    assert (x + x1 + x2) * (x * x) == x * (x * x) + x1 * (x * x) + x2 * (x * x);
  }

  lemma RootFactor(x: int, x1: int, x2: int, u: int)
    ensures (x - x1) * (u - x * x1 - x * x2 - x1 * x2)
         == u * x - u * x1 - x1 * (x * x) - x2 * (x * x) + x * (x1 * x1) + x2 * (x1 * x1)
  {
  }

  /** If the roots x, x1, x2 sum to s, then Cubic(x) - Cubic(x1) has this factorization. */
  lemma CubicDifference(x: int, x1: int, x2: int, u: int, v: int)
    ensures var s := x + x1 + x2;
      Cubic(s, u, v, x) == Cubic(s, u, v, x1) + (x - x1) * (u - x * x1 - x * x2 - x1 * x2)
  {
    CubicAtRoot(x, x1, x2, u, v);
    CubicAtRoot(x1, x, x2, u, v);
    RootFactor(x, x1, x2, u);
  }

  /** The third intersection of a line with the curve, reflected, is on the curve. */
  lemma ThirdPoint(p: int, a: int, b: int, lam: int, x1: int, y1: int, x2: int)
    requires 0 < p && Cong(p, y1 * y1, x1 * x1 * x1 + a * x1 + b)
    requires var x := lam * lam - x1 - x2;
      Cong(p, a + 2 * (lam * lam) * x1 - 2 * lam * y1 - x * x1 - x * x2 - x1 * x2, 0)
    ensures var x := lam * lam - x1 - x2;
      var y := lam * (x1 - x) - y1;
      Cong(p, y * y, x * x * x + a * x + b)
  {
    var s, x := lam * lam, lam * lam - x1 - x2;
    var u, v := a + 2 * s * x1 - 2 * lam * y1, b - s * x1 * x1 + 2 * lam * x1 * y1 - y1 * y1;
    var y, w := lam * (x1 - x) - y1, u - x * x1 - x * x2 - x1 * x2;
    LineMeetsCurve(a, b, lam, x1, y1, x1);
    CurveDifference(p, x1 * x1 * x1 + a * x1 + b, y1 * y1);
    CubicDifference(x, x1, x2, u, v);
    CongMul(p, x - x1, x - x1, w, 0);
    CongAdd(p, Cubic(s, u, v, x1), 0, (x - x1) * w, 0);
    LineMeetsCurve(a, b, lam, x1, y1, x);
    var m := lam * (x - x1) + y1;
    assert m * m == y * y by {
      assert m == -y;
    }
    var q := CongElim(p, x * x * x + a * x + b - y * y, 0);
    assert p * -q == -(p * q);
    CongIntro(p, y * y, x * x * x + a * x + b, -q);
  }

  lemma CurveDifference(p: int, f: int, g: int)
    requires 0 < p && Cong(p, g, f)
    ensures Cong(p, f - g, 0)
  {
    CongAdd(p, f, g, g, g);
  }

  lemma SlopeTimes(p: int, num: int, den: int)
    requires Prime(p) && !Cong(p, den, 0)
    ensures Cong(p, (num * PowMod(den, p - 2, p) % p) * den, num)
  {
    var inv := PowMod(den, p - 2, p);
    InverseOf(p, den);
    CongMod(p, num * inv);
    CongMul(p, num * inv % p, num * inv, den, den);
    CongMul(p, num, num, den * inv, 1);
    assert num * inv * den == num * (den * inv);
  }

  lemma ChordThird(p: int, a: int, b: int, lam: int, x1: int, y1: int, x2: int, y2: int)
    requires Prime(p) && !Cong(p, x2 - x1, 0)
    requires Cong(p, y1 * y1, x1 * x1 * x1 + a * x1 + b) && Cong(p, y2 * y2, x2 * x2 * x2 + a * x2 + b)
    requires Cong(p, lam * (x2 - x1), y2 - y1)
    ensures var x := lam * lam - x1 - x2;
      Cong(p, a + 2 * (lam * lam) * x1 - 2 * lam * y1 - x * x1 - x * x2 - x1 * x2, 0)
  {
    var s, x := lam * lam, lam * lam - x1 - x2;
    var u, v := a + 2 * s * x1 - 2 * lam * y1, b - s * x1 * x1 + 2 * lam * x1 * y1 - y1 * y1;
    LineMeetsCurve(a, b, lam, x1, y1, x1);
    CurveDifference(p, x1 * x1 * x1 + a * x1 + b, y1 * y1);
    var m := lam * (x2 - x1) + y1;
    CongAdd(p, lam * (x2 - x1), y2 - y1, y1, y1);
    CongMul(p, m, y2, m, y2);
    LineMeetsCurve(a, b, lam, x1, y1, x2);
    CurveDifference(p, x2 * x2 * x2 + a * x2 + b, m * m);
    CubicDifference(x2, x1, x, u, v);
    var w := u - x * x1 - x * x2 - x1 * x2;
    CongAdd(p, Cubic(s, u, v, x2), 0, Cubic(s, u, v, x1), 0);
    assert (x2 - x1) * w == Cubic(s, u, v, x2) - Cubic(s, u, v, x1);
    NoZeroDivisors(p, x2 - x1, w);
  }

  lemma TangentTerm(a: int, s: int, lam: int, x1: int, y1: int)
    ensures var x := s - x1 - x1;
      a + 2 * s * x1 - 2 * lam * y1 - x * x1 - x * x1 - x1 * x1 == (3 * x1 * x1 + a) - lam * (2 * y1)
  {
    assert (s - x1 - x1) * x1 == s * x1 - 2 * (x1 * x1);
  }

  lemma TangentThird(p: int, a: int, lam: int, x1: int, y1: int)
    requires 0 < p && Cong(p, lam * (2 * y1), 3 * x1 * x1 + a)
    ensures var x := lam * lam - x1 - x1;
      Cong(p, a + 2 * (lam * lam) * x1 - 2 * lam * y1 - x * x1 - x * x1 - x1 * x1, 0)
  {
    CurveDifference(p, 3 * x1 * x1 + a, lam * (2 * y1));
    TangentTerm(a, lam * lam, lam, x1, y1);
  }

  lemma Reduced(p: int, x: int, y: int)
    requires 0 <= x < p && 0 <= y < p && x != y
    ensures !Cong(p, x - y, 0)
  {
    if Cong(p, x - y, 0) {
      CongAdd(p, x - y, 0, y, y);
      CongSmall(p, x, y);
      assert false;
    }
  }

  lemma DoubleIsUnit(p: int, y: int)
    requires Prime(p) && 2 < p && 0 < y < p
    ensures !Cong(p, 2 * y, 0)
  {
    if Cong(p, 2 * y, 0) {
      NoZeroDivisors(p, 2, y);
      Reduced(p, 2, 0);
      Reduced(p, y, 0);
      assert false;
    }
  }

  /** The slope the code computes satisfies the line's equation. */
  lemma SlopeSpec(c: Curve, P: Point, Q: Point)
    requires Field(c) && OnCurve(c, P) && OnCurve(c, Q) && P.Affine? && Q.Affine?
    ensures 0 <= Slope(c, P, Q) < c.p
    ensures P.x == Q.x ==> Cong(c.p, Slope(c, P, Q) * (2 * P.y), 3 * P.x * P.x + c.a)
    ensures P.x != Q.x ==> !Cong(c.p, Q.x - P.x, 0) && Cong(c.p, Slope(c, P, Q) * (Q.x - P.x), Q.y - P.y)
  {
    if P.x == Q.x {
      DoubleIsUnit(c.p, P.y);
      SlopeTimes(c.p, 3 * P.x * P.x + c.a, 2 * P.y);
    } else {
      Reduced(c.p, Q.x, P.x);
      SlopeTimes(c.p, Q.y - P.y, Q.x - P.x);
    }
  }

  /** Affine addition never leaves the curve. */
  lemma AddClosed(c: Curve, P: Point, Q: Point)
    requires Field(c) && OnCurve(c, P) && OnCurve(c, Q)
    ensures OnCurve(c, Add(c, P, Q))
  {
    if P.Affine? && Q.Affine? && (P.x == Q.x ==> P.y == Q.y) {
      var lam := Slope(c, P, Q);
      SlopeSpec(c, P, Q);
      if P.x == Q.x {
        TangentThird(c.p, c.a, lam, P.x, P.y);
      } else {
        ChordThird(c.p, c.a, c.b, lam, P.x, P.y, Q.x, Q.y);
      }
      ReducedThird(c, lam, P.x, P.y, Q.x);
    }
  }

  lemma ReducedThird(c: Curve, lam: int, x1: int, y1: int, x2: int)
    requires Params(c) && Cong(c.p, y1 * y1, x1 * x1 * x1 + c.a * x1 + c.b)
    requires var x := lam * lam - x1 - x2;
      Cong(c.p, c.a + 2 * (lam * lam) * x1 - 2 * lam * y1 - x * x1 - x * x2 - x1 * x2, 0)
    ensures var x3 := (lam * lam - x1 - x2) % c.p; OnCurve(c, Affine(x3, (lam * (x1 - x3) - y1) % c.p))
  {
    ThirdPoint(c.p, c.a, c.b, lam, x1, y1, x2);
    ReduceThird(c.p, c.a, c.b, lam, x1, y1, lam * lam - x1 - x2);
  }

  /** Reducing the coordinates in the order the code does keeps the curve equation. */
  lemma ReduceThird(p: int, a: int, b: int, lam: int, x1: int, y1: int, x: int)
    requires 0 < p
    requires var y := lam * (x1 - x) - y1; Cong(p, y * y, x * x * x + a * x + b)
    ensures var x3 := x % p; var y3 := (lam * (x1 - x3) - y1) % p;
      Cong(p, y3 * y3, x3 * x3 * x3 + a * x3 + b)
  {
    var x3 := x % p;
    var y, y', y3 := lam * (x1 - x) - y1, lam * (x1 - x3) - y1, (lam * (x1 - x3) - y1) % p;
    CongMod(p, x);
    CongMod(p, y');
    CongAdd(p, x1, x1, x3, x);
    CongMul(p, lam, lam, x1 - x3, x1 - x);
    CongAdd(p, lam * (x1 - x3), lam * (x1 - x), y1, y1);
    CongMul(p, y3, y, y3, y);
    RightSideCong(p, a, b, x3, x);
  }

  lemma RightSideCong(p: int, a: int, b: int, x: int, x': int)
    requires 0 < p && Cong(p, x, x')
    ensures Cong(p, x * x * x + a * x + b, x' * x' * x' + a * x' + b)
  {
    CongMul(p, x, x', x, x');
    CongMul(p, x * x, x' * x', x, x');
    CongMul(p, a, a, x, x');
    CongAdd(p, x * x * x, x' * x' * x', a * x, a * x');
    CongAdd(p, x * x * x + a * x, x' * x' * x' + a * x', b, b);
  }

  /** The chord has one slope, from whichever end it is computed. */
  lemma SlopeCommutes(c: Curve, P: Point, Q: Point)
    requires Field(c) && OnCurve(c, P) && OnCurve(c, Q) && P.Affine? && Q.Affine? && P.x != Q.x
    ensures Slope(c, P, Q) == Slope(c, Q, P)
  {
    var l, m, d := Slope(c, P, Q), Slope(c, Q, P), Q.x - P.x;
    SlopeSpec(c, P, Q);
    SlopeSpec(c, Q, P);
    CongMul(c.p, -1, -1, m * (P.x - Q.x), P.y - Q.y);
    assert -1 * (m * (P.x - Q.x)) == d * m && l * d == d * l;
    Cancel(c.p, d, l, m);
    CongSmall(c.p, l, m);
  }

  /** Either end of the chord gives the same third ordinate. */
  lemma OrdinateCommutes(p: int, l: int, x1: int, y1: int, x2: int, y2: int, x3: int)
    requires 0 < p && Cong(p, l * (x2 - x1), y2 - y1)
    ensures Cong(p, l * (x2 - x3) - y2, l * (x1 - x3) - y1)
  {
    CongAdd(p, l * (x2 - x1), y2 - y1, l * (x1 - x3) - y2, l * (x1 - x3) - y2);
    assert l * (x2 - x1) + (l * (x1 - x3) - y2) == l * (x2 - x3) - y2;
  }

  /** Affine addition is commutative. */
  lemma AddCommutes(c: Curve, P: Point, Q: Point)
    requires Field(c) && OnCurve(c, P) && OnCurve(c, Q)
    ensures Add(c, P, Q) == Add(c, Q, P)
  {
    if P.Affine? && Q.Affine? && P.x != Q.x {
      var l := Slope(c, P, Q);
      SlopeSpec(c, P, Q);
      SlopeCommutes(c, P, Q);
      OrdinateCommutes(c.p, l, P.x, P.y, Q.x, Q.y, (l * l - P.x - Q.x) % c.p);
    }
  }

  lemma RootsOfResidue(p: int, y: int, y': int)
    requires Prime(p) && 0 < y < p && 0 <= y' < p && Cong(p, y' * y', y * y)
    ensures y' == y || y' == p - y
  {
    RootsOfSquare(p, y', y);
    if Cong(p, y', y) {
      CongSmall(p, y', y);
    } else {
      CongIntro(p, p - y, -y, 1);
      CongSmall(p, y', p - y);
    }
  }

  lemma NegatedSquare(p: int, y: int)
    requires 0 < p
    ensures Cong(p, (p - y) * (p - y), y * y)
  {
    assert (p - y) * (p - y) - y * y == p * (p - 2 * y);
    CongIntro(p, (p - y) * (p - y), y * y, p - 2 * y);
  }

  /** On the curve, equal abscissas leave only P and -P. */
  lemma SameAbscissa(c: Curve, P: Point, Q: Point)
    requires Field(c) && OnCurve(c, P) && OnCurve(c, Q) && P.Affine? && Q.Affine? && P.x == Q.x
    ensures Q == P || Q == Negate(c, P)
  {
    RootsOfResidue(c.p, P.y, Q.y);
  }

  /** -P is on the curve, and P + Q is the point at infinity exactly for Q = -P. */
  lemma AddInverse(c: Curve, P: Point, Q: Point)
    requires Field(c) && OnCurve(c, P) && OnCurve(c, Q)
    ensures OnCurve(c, Negate(c, P))
    ensures Add(c, P, Q) == Infinity <==> Q == Negate(c, P)
  {
    if P.Affine? {
      NegatedSquare(c.p, P.y);
      if Q.Affine? && P.x == Q.x {
        SameAbscissa(c, P, Q);
      }
    }
  }

  // ---------------------------------------------------------------- what the sum is

  /** The run and the rise of the line through two points, or of the tangent. */
  function RunAndRise(c: Curve, P: Point, Q: Point): (int, int)
    requires P.Affine? && Q.Affine?
  {
    if P == Q then (2 * P.y, 3 * P.x * P.x + c.a) else (Q.x - P.x, Q.y - P.y)
  }

  /** S is the sum of P and Q in the sense of section 2.2.1 of SEC 1, without any division: with the run d and the
      rise e of their line, the three abscissas add up to the square of the slope, and -S is on the line. */
  ghost predicate SumOnLine(c: Curve, P: Point, Q: Point, S: Point)
    requires Params(c) && P.Affine? && Q.Affine?
  {
    var (d, e) := RunAndRise(c, P, Q);
    && S.Affine? && 0 <= S.x < c.p && 0 <= S.y < c.p
    && Cong(c.p, (S.x + P.x + Q.x) * (d * d), e * e)
    && Cong(c.p, (-S.y - P.y) * d, e * (S.x - P.x))
  }

  /** Addition is the group law: infinity is neutral, and any two other points that are not opposite have exactly
      one sum on their line, which is the one the code computes. */
  lemma AddIsSum(c: Curve, P: Point, Q: Point, S: Point)
    requires Field(c) && OnCurve(c, P) && OnCurve(c, Q)
    ensures Add(c, Infinity, Q) == Q && Add(c, P, Infinity) == P
    ensures P.Affine? && Q.Affine? && Q != Negate(c, P) ==> (Add(c, P, Q) == S <==> SumOnLine(c, P, Q, S))
  {
    if P.Affine? && Q.Affine? && Q != Negate(c, P) {
      AddOnLine(c, P, Q);
      if SumOnLine(c, P, Q, S) {
        OneSum(c, P, Q, S, Add(c, P, Q));
      }
    }
  }

  lemma AddOnLine(c: Curve, P: Point, Q: Point)
    requires Field(c) && OnCurve(c, P) && OnCurve(c, Q) && P.Affine? && Q.Affine? && Q != Negate(c, P)
    ensures SumOnLine(c, P, Q, Add(c, P, Q))
  {
    SlopeOfLine(c, P, Q);
    var (d, e) := RunAndRise(c, P, Q);
    ThirdOnLine(c.p, Slope(c, P, Q), d, e, P.x, P.y, Q.x);
  }

  lemma SlopeOfLine(c: Curve, P: Point, Q: Point)
    requires Field(c) && OnCurve(c, P) && OnCurve(c, Q) && P.Affine? && Q.Affine? && Q != Negate(c, P)
    ensures P.x == Q.x ==> P.y == Q.y
    ensures Cong(c.p, Slope(c, P, Q) * RunAndRise(c, P, Q).0, RunAndRise(c, P, Q).1)
  {
    AddInverse(c, P, Q);
    SlopeSpec(c, P, Q);
  }

  lemma OneSum(c: Curve, P: Point, Q: Point, S: Point, T: Point)
    requires Field(c) && OnCurve(c, P) && OnCurve(c, Q) && P.Affine? && Q.Affine? && Q != Negate(c, P)
    requires SumOnLine(c, P, Q, S) && SumOnLine(c, P, Q, T)
    ensures S == T
  {
    var (d, e) := RunAndRise(c, P, Q);
    RunIsUnit(c, P, Q);
    SumOfThree(S.x, T.x, P.x, Q.x);
    OneAbscissa(c.p, d, e * e, P.x + Q.x, S.x, T.x);
    OneOrdinate(c.p, d, e * (S.x - P.x), P.y, S.y, T.y);
  }

  lemma SumOfThree(x: int, x': int, a: int, b: int)
    ensures x + a + b == x + (a + b) && x' + a + b == x' + (a + b)
  {
  }

  lemma RunIsUnit(c: Curve, P: Point, Q: Point)
    requires Field(c) && OnCurve(c, P) && OnCurve(c, Q) && P.Affine? && Q.Affine? && Q != Negate(c, P)
    ensures !Cong(c.p, RunAndRise(c, P, Q).0, 0)
  {
    if P == Q {
      DoubleIsUnit(c.p, P.y);
    } else {
      AddInverse(c, P, Q);
      SlopeSpec(c, P, Q);
    }
  }

  lemma ThirdOnLine(p: int, lam: int, d: int, e: int, x1: int, y1: int, x2: int)
    requires 0 < p && Cong(p, lam * d, e)
    ensures var x := (lam * lam - x1 - x2) % p;
      var y := (lam * (x1 - x) - y1) % p;
      Cong(p, (x + x1 + x2) * (d * d), e * e) && Cong(p, (-y - y1) * d, e * (x - x1))
  {
    var x := (lam * lam - x1 - x2) % p;
    var y := (lam * (x1 - x) - y1) % p;
    SquareOfSlope(p, lam, d, e, x1 + x2, x);
    HeightOfThird(p, lam, d, e, x - x1, y1, y);
  }

  lemma SquareOfSlope(p: int, lam: int, d: int, e: int, k: int, x: int)
    requires 0 < p && Cong(p, lam * d, e) && x == (lam * lam - k) % p
    ensures Cong(p, (x + k) * (d * d), e * e)
  {
    CongMod(p, lam * lam - k);
    CongAdd(p, x, lam * lam - k, k, k);
    CongMul(p, x + k, lam * lam, d * d, d * d);
    CongMul(p, lam * d, e, lam * d, e);
    assert (lam * lam) * (d * d) == (lam * d) * (lam * d);
  }

  lemma HeightOfThird(p: int, lam: int, d: int, e: int, h: int, y1: int, y: int)
    requires 0 < p && Cong(p, lam * d, e) && y == (lam * -h - y1) % p
    ensures Cong(p, (-y - y1) * d, e * h)
  {
    CongMod(p, lam * -h - y1);
    CongAdd(p, -y1, -y1, y, lam * -h - y1);
    assert -y1 - (lam * -h - y1) == lam * h;
    CongMul(p, -y - y1, lam * h, d, d);
    CongMul(p, lam * d, e, h, h);
    assert lam * h * d == lam * d * h;
  }

  lemma OneAbscissa(p: int, d: int, w: int, k: int, x: int, x': int)
    requires Prime(p) && !Cong(p, d, 0) && 0 <= x < p && 0 <= x' < p
    requires Cong(p, (x + k) * (d * d), w) && Cong(p, (x' + k) * (d * d), w)
    ensures x == x'
  {
    DivideTwice(d, x + k);
    DivideTwice(d, x' + k);
    Cancel(p, d, d * (x + k), d * (x' + k));
    Cancel(p, d, x + k, x' + k);
    CongAdd(p, x + k, x' + k, k, k);
    CongSmall(p, x, x');
  }

  lemma DivideTwice(d: int, x: int)
    ensures x * (d * d) == d * (d * x)
  {
  }

  lemma OneOrdinate(p: int, d: int, w: int, k: int, y: int, y': int)
    requires Prime(p) && !Cong(p, d, 0) && 0 <= y < p && 0 <= y' < p
    requires Cong(p, (-y - k) * d, w) && Cong(p, (-y' - k) * d, w)
    ensures y == y'
  {
    assert (-y - k) * d == d * (-y - k) && (-y' - k) * d == d * (-y' - k);
    Cancel(p, d, -y - k, -y' - k);
    CongAdd(p, -k, -k, -y - k, -y' - k);
    CongSmall(p, y, y');
  }

  // ---------------------------------------------------------------- multiples of a point

  lemma {:induction false} MultClosed(c: Curve, k: nat, P: Point)
    requires Field(c) && OnCurve(c, P)
    ensures OnCurve(c, Mult(c, k, P))
  {
    if k > 0 {
      MultClosed(c, k - 1, P);
      AddClosed(c, Mult(c, k - 1, P), P);
    }
  }

  lemma Associate(c: Curve, P: Point, Q: Point, R: Point)
    requires Group(c) && OnCurve(c, P) && OnCurve(c, Q) && OnCurve(c, R)
    ensures Add(c, Add(c, P, Q), R) == Add(c, P, Add(c, Q, R))
  {
    assert AssociatesAt(c, P, Q, R);
  }

  lemma {:induction false} MultSum(c: Curve, i: nat, j: nat, P: Point)
    requires Group(c) && OnCurve(c, P)
    ensures Mult(c, i + j, P) == Add(c, Mult(c, i, P), Mult(c, j, P))
  {
    if j > 0 {
      MultSum(c, i, j - 1, P);
      MultClosed(c, i, P);
      MultClosed(c, j - 1, P);
      Associate(c, Mult(c, i, P), Mult(c, j - 1, P), P);
    }
  }

  lemma OneMore(i: nat, j: nat)
    requires 0 < i
    ensures 0 <= (i - 1) * j && (i - 1) * j + j == i * j
  {
  }

  /** i * (j * P) = (i*j) * P */
  lemma {:induction false} MultCompose(c: Curve, i: nat, j: nat, P: Point)
    requires Group(c) && OnCurve(c, P)
    ensures Mult(c, i, Mult(c, j, P)) == Mult(c, i * j, P)
  {
    if i > 0 {
      MultCompose(c, i - 1, j, P);
      OneMore(i, j);
      MultSum(c, (i - 1) * j, j, P);
    }
  }

  lemma {:induction false} MultInfinity(c: Curve, k: nat)
    requires Params(c)
    ensures Mult(c, k, Infinity) == Infinity
  {
    if k > 0 {
      MultInfinity(c, k - 1);
    }
  }

  lemma MultPlusOrder(c: Curve, q: nat, r: nat, P: Point)
    requires Group(c) && OnCurve(c, P) && 0 <= q * c.n
    ensures Mult(c, q * c.n + r, P) == Mult(c, r, P)
  {
    MultSum(c, q * c.n, r, P);
    MultCompose(c, q, c.n, P);
    MultInfinity(c, q);
  }

  /** Scalars matter only modulo the group order. */
  lemma MultModOrder(c: Curve, k: nat, P: Point)
    requires Group(c) && OnCurve(c, P)
    ensures Mult(c, k, P) == Mult(c, k % c.n, P)
  {
    QuotientOfNat(k, c.n);
    MultPlusOrder(c, k / c.n, k % c.n, P);
  }

  /** A finite point has order n: k * P is infinite exactly for multiples of n. */
  lemma MultIsInfinity(c: Curve, k: nat, P: Point)
    requires Group(c) && OnCurve(c, P)
    ensures Mult(c, k, P) == Infinity <==> P == Infinity || k % c.n == 0
  {
    MultModOrder(c, k, P);
    if P == Infinity {
      MultInfinity(c, k);
    } else if k % c.n != 0 && Mult(c, k, P) == Infinity {
      UnblindPoint(c, k, P);
      MultInfinity(c, PowMod(k, c.n - 2, c.n));
    }
  }

  /** r^(n-2) undoes multiplication by r. */
  lemma UnblindPoint(c: Curve, r: nat, P: Point)
    requires Group(c) && OnCurve(c, P) && r % c.n != 0
    ensures Mult(c, PowMod(r, c.n - 2, c.n), Mult(c, r, P)) == P
  {
    var inv := PowMod(r, c.n - 2, c.n);
    InverseRemainder(c.n, r);
    MultCompose(c, inv, r, P);
    MultModOrder(c, inv * r, P);
    assert Mult(c, 1, P) == Add(c, Mult(c, 0, P), P) == P;
  }

  /** Two multiples of a finite point are equal only for scalars equal modulo the order. */
  lemma MultInjective(c: Curve, j: nat, k: nat, P: Point)
    requires Group(c) && OnCurve(c, P) && P != Infinity
    ensures Mult(c, j, P) == Mult(c, k, P) <==> j % c.n == k % c.n
  {
    MultModOrder(c, j, P);
    MultModOrder(c, k, P);
    if Mult(c, j, P) == Mult(c, k, P) {
      var m := c.n - k % c.n;
      MultSum(c, j, m, P);
      MultSum(c, k, m, P);
      ComplementOf(k, c.n);
      MultIsInfinity(c, k + m, P);
      MultIsInfinity(c, j + m, P);
      SameRemainder(j, k, c.n);
    }
  }

  lemma ComplementOf(k: nat, n: int)
    requires 0 < n
    ensures (k + (n - k % n)) % n == 0
  {
    var q := k / n;
    assert k + (n - k % n) == n * (q + 1) by {
      assert k == n * q + k % n;
      assert n * (q + 1) == n * q + n;
    }
    ModIs(n, k + (n - k % n), q + 1, 0);
  }

  lemma SameRemainder(j: nat, k: nat, n: int)
    requires 0 < n && (j + (n - k % n)) % n == 0
    ensures j % n == k % n
  {
    var m := j + (n - k % n);
    assert m == n * (m / n);
    assert n * (m / n - 1) == m - n;
    ModIs(n, j, m / n - 1, k % n);
  }

  // ---------------------------------------------------------------- the double-and-add loop

  /** One run of the loop of `_p256_scalar_mult` from the state (R, Q, k). */
  function Ladder(c: Curve, k: nat, R: Point, Q: Point): Point
    requires Params(c)
  {
    if k == 0 then R
    else Ladder(c, k / 2, if k % 2 == 1 then Add(c, R, Q) else R, Add(c, Q, Q))
  }

  /** Double-and-add is repeated addition: the loop keeps R + k*Q. */
  lemma {:induction false} LadderIsMult(c: Curve, k: nat, R: Point, Q: Point)
    requires Group(c) && OnCurve(c, R) && OnCurve(c, Q)
    ensures Ladder(c, k, R, Q) == Add(c, R, Mult(c, k, Q))
  {
    if k > 0 {
      var h, Q2 := k / 2, Add(c, Q, Q);
      AddClosed(c, Q, Q);
      AddClosed(c, R, Q);
      assert Mult(c, 1, Q) == Add(c, Mult(c, 0, Q), Q) == Q;
      assert Mult(c, 2, Q) == Add(c, Mult(c, 1, Q), Q) == Q2;
      MultCompose(c, h, 2, Q);
      MultClosed(c, h * 2, Q);
      if k % 2 == 1 {
        LadderIsMult(c, h, Add(c, R, Q), Q2);
        MultSum(c, 1, h * 2, Q);
        Associate(c, R, Q, Mult(c, h * 2, Q));
      } else {
        LadderIsMult(c, h, R, Q2);
      }
    }
  }

  // ---------------------------------------------------------------- compressed points

  predicate Fits(P: Point) {
    P.Affine? ==> 0 <= P.x < FIELD_LIMIT
  }

  lemma {:induction false} LadderFits(c: Curve, k: nat, R: Point, Q: Point)
    requires Params(c) && Fits(R) && Fits(Q)
    ensures Fits(Ladder(c, k, R, Q))
  {
    if k > 0 {
      LadderFits(c, k / 2, if k % 2 == 1 then Add(c, R, Q) else R, Add(c, Q, Q));
    }
  }

  /** The compressed form, opaque_adapter.py:128-129. */
  function Compress(P: Point): (z: bytes)
    requires P.Affine? && Fits(P)
    ensures |z| == POINT_LEN
  {
    Pow256Of32();
    [if P.y % 2 == 0 then 2 else 3] + BE(P.x, 32)
  }

  function CompressResult(P: Point): Result<bytes>
    requires Fits(P)
  {
    if P.Infinity? then Err(AtInfinity) else Ok(Compress(P))
  }

  /** x^3 + ax + b, as opaque_adapter.py:117 computes it. */
  function RightSide(c: Curve, x: int): int
    requires Params(c)
  {
    (PowMod(x, 3, c.p) + c.a * x + c.b) % c.p
  }

  /** The point of abscissa x whose ordinate has the parity the flag asks for. */
  function Lift(c: Curve, x: int, flag: int): Point
    requires Params(c)
  {
    var y := PowMod(RightSide(c, x), (c.p + 1) / 4, c.p);
    Affine(x, if y % 2 != flag - 2 then c.p - y else y)
  }

  /** The point the code reads from a compressed string, opaque_adapter.py:115-120. */
  function Decompress(c: Curve, z: bytes): (P: Point)
    requires Params(c) && z != []
    ensures P.Affine? && Fits(P)
  {
    Pow256Monotone(Min(POINT_LEN, |z|) - 1, 32);
    Pow256Of32();
    Lift(c, Value(z[1..Min(POINT_LEN, |z|)]), z[0])
  }

  /** The bytes of a compressed point: a flag for the parity of y, then x. */
  lemma CompressedBytes(P: Point)
    requires P.Affine? && Fits(P)
    ensures var z := Compress(P);
      (z[0] == 2 <==> P.y % 2 == 0) && (z[0] == 3 <==> P.y % 2 == 1) && Value(z[1..]) == P.x
  {
    Pow256Of32();
    assert Compress(P)[1..] == BE(P.x, 32);
  }

  lemma RightSideSpec(c: Curve, x: int)
    requires Params(c)
    ensures Cong(c.p, RightSide(c, x), x * x * x + c.a * x + c.b)
  {
    assert Pow(x, 3) == x * Pow(x, 2) == x * (x * Pow(x, 1)) == x * (x * (x * Pow(x, 0))) == x * x * x;
    CongMod(c.p, x * x * x);
    CongAdd(c.p, PowMod(x, 3, c.p), x * x * x, c.a * x, c.a * x);
    CongAdd(c.p, PowMod(x, 3, c.p) + c.a * x, x * x * x + c.a * x, c.b, c.b);
    CongMod(c.p, PowMod(x, 3, c.p) + c.a * x + c.b);
  }

  /** The square-root formula and the parity flag recover the ordinate of every point. */
  lemma LiftPoint(c: Curve, P: Point)
    requires Field(c) && OnCurve(c, P) && P.Affine?
    ensures Lift(c, P.x, if P.y % 2 == 0 then 2 else 3) == P
  {
    RightSideSpec(c, P.x);
    RootWithParity(c.p, RightSide(c, P.x), P.y);
  }

  lemma RootWithParity(p: int, s: int, y: int)
    requires Prime(p) && p % 4 == 3 && 0 < y < p && Cong(p, s, y * y)
    ensures var r := PowMod(s, (p + 1) / 4, p); (if r % 2 != y % 2 then p - r else r) == y
  {
    NotZero(p, y);
    SquareRoot(p, s, y);
    var r := PowMod(s, (p + 1) / 4, p);
    RootsOfResidue(p, y, r);
    ThreeMod4IsOdd(p);
    ChooseRoot(p, r, y);
  }

  lemma ChooseRoot(p: int, r: int, y: int)
    requires p % 2 == 1 && (r == y || r == p - y)
    ensures (if r % 2 != y % 2 then p - r else r) == y
  {
    if r == p - y {
      OddMinus(p, y);
    }
  }

  lemma OddMinus(p: int, y: int)
    requires p % 2 == 1
    ensures (p - y) % 2 != y % 2
  {
    var g, h := p / 2, y / 2;
    ModIs(2, p - y, g - h, 1 - y % 2);
  }

  lemma NotZero(p: int, y: int)
    requires 0 < y < p
    ensures !Cong(p, y, 0)
  {
    ModIs(p, y, 0, y);
    ModIs(p, 0, 0, 0);
  }

  /** For an abscissa of the field the right side is a unit: otherwise there were a point of y = 0. */
  lemma RightSideIsUnit(c: Curve, x: int)
    requires Field(c) && 0 <= x < c.p
    ensures !Cong(c.p, RightSide(c, x), 0)
  {
    if Cong(c.p, RightSide(c, x), 0) {
      RightSideSpec(c, x);
      assert OnCurve(c, Affine(x, 0));
      assert false;
    }
  }

  lemma LiftSquare(c: Curve, x: int, flag: int)
    requires Field(c) && 0 <= x < c.p
    ensures var P, s := Lift(c, x, flag), RightSide(c, x);
      0 < P.y < c.p && if PowMod(s, (c.p - 1) / 2, c.p) == 1 then Cong(c.p, P.y * P.y, s) else Cong(c.p, P.y * P.y, -s)
  {
    var s := RightSide(c, x);
    var r := PowMod(s, (c.p + 1) / 4, c.p);
    RightSideIsUnit(c, x);
    RootOrNegated(c.p, s);
    if r == 0 {
      UnitRoot(c.p, s);
      assert false;
    }
    NegatedSquare(c.p, r);
  }

  lemma UnitRoot(p: int, s: int)
    requires 0 < p && (Cong(p, 0, s) || Cong(p, 0, -s))
    ensures Cong(p, s, 0)
  {
    if Cong(p, 0, -s) {
      var q := CongElim(p, 0, -s);
      CongIntro(p, s, 0, q);
    }
  }

  /** No check is made that a received abscissa belongs to the curve. The point read from any string is on the
      curve exactly when the abscissa is below the field size and its right side passes Euler's criterion;
      otherwise, for such an abscissa, the ordinate squares to the negated right side. */
  lemma DecompressOnCurve(c: Curve, z: bytes)
    requires Field(c) && z != []
    ensures var P := Decompress(c, z);
      OnCurve(c, P) <==> P.x < c.p && PowMod(RightSide(c, P.x), (c.p - 1) / 2, c.p) == 1
    ensures var P := Decompress(c, z);
      P.x < c.p && !OnCurve(c, P) ==> Cong(c.p, P.y * P.y, -RightSide(c, P.x))
  {
    var P := Decompress(c, z);
    if P.x < c.p {
      LiftSquare(c, P.x, z[0]);
      RightSideSpec(c, P.x);
      if Cong(c.p, P.y * P.y, RightSide(c, P.x)) && Cong(c.p, P.y * P.y, -RightSide(c, P.x)) {
        NotBothSigns(c, P.x);
        assert false;
      }
    }
  }

  lemma NotBothSigns(c: Curve, x: int)
    requires Field(c) && 0 <= x < c.p
    ensures !Cong(c.p, RightSide(c, x), -RightSide(c, x))
  {
    var s := RightSide(c, x);
    RightSideIsUnit(c, x);
    NotZeroOf(c.p, s);
    DoubleIsUnit(c.p, s);
    if Cong(c.p, s, -s) {
      var q := CongElim(c.p, s, -s);
      CongIntro(c.p, 2 * s, 0, q);
    }
  }

  lemma NotZeroOf(p: int, s: int)
    requires 0 < p && 0 <= s < p && !Cong(p, s, 0)
    ensures 0 < s
  {
  }

  /** Decompression undoes compression. */
  lemma DecompressCompress(c: Curve, P: Point)
    requires Field(c) && OnCurve(c, P) && P.Affine?
    ensures Decompress(c, Compress(P)) == P
  {
    Pow256Of32();
    var z := Compress(P);
    assert z[1..Min(POINT_LEN, |z|)] == BE(P.x, 32);
    LiftPoint(c, P);
  }

  /** Compression undoes decompression for every string of the right length and flag. */
  lemma CompressDecompress(c: Curve, z: bytes)
    requires Params(c) && c.p % 2 == 1 && |z| == POINT_LEN && (z[0] == 2 || z[0] == 3)
    ensures Compress(Decompress(c, z)) == z
  {
    Pow256Of32();
    var x := z[1..Min(POINT_LEN, |z|)];
    BEOfValue(x);
    LiftParity(c, Value(x), z[0]);
    assert z == [z[0]] + x;
  }

  lemma LiftParity(c: Curve, x: int, flag: int)
    requires Params(c) && c.p % 2 == 1 && (flag == 2 || flag == 3)
    ensures Lift(c, x, flag).y % 2 == flag - 2
  {
    ParityOfChoice(c.p, PowMod(RightSide(c, x), (c.p + 1) / 4, c.p), flag - 2);
  }

  lemma ParityOfChoice(p: int, y: int, f: int)
    requires p % 2 == 1 && (f == 0 || f == 1)
    ensures (if y % 2 != f then p - y else y) % 2 == f
  {
    OddMinus(p, y);
  }

  // ---------------------------------------------------------------- scalar multiplication

  /** What `_p256_scalar_mult` returns or raises, for any input string. */
  function Times(c: Curve, k: nat, z: bytes): Result<bytes>
    requires Params(c)
  {
    if z == [] then Err(EmptyInput)
    else
      LadderFits(c, k, Infinity, Decompress(c, z));
      CompressResult(Ladder(c, k, Infinity, Decompress(c, z)))
  }

  /** `_p256_scalar_mult` */
  method ScalarMult(c: Curve, scalar: nat, compressed: bytes) returns (r: Result<bytes>)
    requires Params(c)
    ensures r == Times(c, scalar, compressed)
  {
    if |compressed| == 0 {
      return Err(EmptyInput);
    }
    var k := scalar;
    var R, Q := Infinity, Decompress(c, compressed);
    while k != 0
      invariant Ladder(c, k, R, Q) == Ladder(c, scalar, Infinity, Decompress(c, compressed))
      invariant Fits(R) && Fits(Q)
      decreases k
    {
      if k % 2 == 1 {
        R := Add(c, R, Q);
      }
      Q := Add(c, Q, Q);
      k := k / 2;
    }
    if R.Infinity? {
      return Err(AtInfinity);
    }
    return Ok(Compress(R));
  }

  /** Only the first 33 bytes of a string count, and only the empty string is refused as such. */
  lemma TimesReadsPrefix(c: Curve, k: nat, z: bytes)
    requires Params(c)
    ensures Times(c, k, z) == Err(EmptyInput) <==> z == []
    ensures Times(c, k, z) == Times(c, k, z[..Min(POINT_LEN, |z|)])
  {
    if z != [] {
      var head := z[..Min(POINT_LEN, |z|)];
      assert head[1..Min(POINT_LEN, |head|)] == z[1..Min(POINT_LEN, |z|)];
    }
  }

  /** On an encoded point, scalar multiplication is k-fold addition, and raises exactly at infinity. */
  lemma TimesIsMult(c: Curve, k: nat, P: Point)
    requires Group(c) && OnCurve(c, P)
    ensures var Q := Mult(c, k, P);
      OnCurve(c, Q) && (P.Affine? ==>
        && Times(c, k, Compress(P)) == (if Q.Infinity? then Err(AtInfinity) else Ok(Compress(Q)))
        && (Q.Infinity? <==> k % c.n == 0))
  {
    MultClosed(c, k, P);
    if P.Affine? {
      DecompressCompress(c, P);
      LadderIsMult(c, k, Infinity, P);
      MultIsInfinity(c, k, P);
    }
  }

  /** The base point of section 2.4.2 of SEC 2. */
  const P256_BASE := Affine(
    0x6B17D1F2E12C4247F8BCE6E563A440F277037D812DEB33A0F4A13945D898C296,
    0x4FE342E2FE1A7F9B8EE7EB4A7C0F9E162BCE33576B315ECECBB6406837BF51F5)

  /** The published base point lies on the curve of these constants. */
  lemma P256Base()
    ensures OnCurve(P256, P256_BASE)
  {
  }

  /** The P-256 constants meet every condition that is plain arithmetic. */
  lemma P256Constants()
    ensures Params(P256) && P256.p % 4 == 3 && P256.a == P256.p - 3 && P256.n % 2 == 1
    ensures FIELD_LIMIT / 2 < P256.n < P256.p
  {
  }
}
