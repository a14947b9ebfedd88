/** The hypotheses about the curve group can be met: here is a curve on which all of them are proved. */
module TinyCurve {
  import opened PrimeField
  import opened CurveArithmetic

  /** y^2 = x^3 + x + 1 over the field of 7 elements, a group of order 5. */
  const TINY := Curve(7, 1, 1, 5)

  /** The multiples of (0, 1): chords and tangents both occur. */
  const POINTS: seq<Point> := [Infinity, Affine(0, 1), Affine(2, 5), Affine(2, 2), Affine(0, 6)]

  lemma SmallPrimes()
    ensures Prime(7) && Prime(5)
  {
    forall d | 1 < d < 7 ensures !Divides(d, 7) {
      assert 7 % 2 == 1 && 7 % 3 == 1 && 7 % 4 == 3 && 7 % 5 == 2 && 7 % 6 == 1;
    }
    forall d | 1 < d < 5 ensures !Divides(d, 5) {
      assert 5 % 2 == 1 && 5 % 3 == 2 && 5 % 4 == 1;
    }
  }

  lemma SquaresAndCubes(x: int, y: int)
    requires 0 <= x < 7 && 0 <= y < 7 && y * y % 7 == (x * x * x + x + 1) % 7
    ensures Affine(x, y) in POINTS
  {
    assert x == 0 || x == 1 || x == 2 || x == 3 || x == 4 || x == 5 || x == 6;
    assert y == 0 || y == 1 || y == 2 || y == 3 || y == 4 || y == 5 || y == 6;
  }

  /** The curve has these five points. */
  lemma AllPoints(P: Point) returns (i: nat)
    requires OnCurve(TINY, P)
    ensures i < 5 && POINTS[i] == P
  {
    if P.Infinity? {
      i := 0;
    } else {
      SquaresAndCubes(P.x, P.y);
      i :| 0 <= i < 5 && POINTS[i] == P;
    }
  }

  lemma Listed(i: nat)
    requires i < 5
    ensures OnCurve(TINY, POINTS[i]) && (i > 0 ==> POINTS[i].Affine? && POINTS[i].y != 0)
  {
  }

  lemma FieldHolds()
    ensures Field(TINY)
  {
    SmallPrimes();
    forall P: Point | P.Affine? && OnCurve(TINY, P) ensures P.y != 0 {
      var i := AllPoints(P);
      Listed(i);
    }
  }

  /** Adding two points adds their places. */
  predicate AddsUp(i: nat, j: nat) {
    i < 5 && j < 5 && Add(TINY, POINTS[i], POINTS[j]) == POINTS[(i + j) % 5]
  }

  /** The line through two points that are not opposite, with run d and rise e and the quotients that show both
      congruences. */
  lemma FromLine(i: nat, j: nat, x1: int, y1: int, x2: int, y2: int, x: int, y: int, d: int, e: int, q: int, r: int)
    requires i < 5 && j < 5 && POINTS[i] == Affine(x1, y1) && POINTS[j] == Affine(x2, y2)
    requires POINTS[(i + j) % 5] == Affine(x, y) && 0 <= x < 7 && 0 <= y < 7 && (x1 != x2 || y1 + y2 != 7)
    requires RunAndRise(TINY, Affine(x1, y1), Affine(x2, y2)) == (d, e)
    requires (x + x1 + x2) * (d * d) - e * e == 7 * q && (-y - y1) * d - e * (x - x1) == 7 * r
    ensures AddsUp(i, j)
  {
    FieldHolds();
    Listed(i);
    Listed(j);
    CongIntro(7, (x + x1 + x2) * (d * d), e * e, q);
    CongIntro(7, (-y - y1) * d, e * (x - x1), r);
    AddIsSum(TINY, Affine(x1, y1), Affine(x2, y2), Affine(x, y));
  }

  // The lines through the points, one per pair that is not opposite.

  lemma Line11()
    ensures AddsUp(1, 1)
  {
    FromLine(1, 1, 0, 1, 0, 1, 2, 5, 2, 1, 1, -2);
  }

  lemma Line12()
    ensures AddsUp(1, 2)
  {
    FromLine(1, 2, 0, 1, 2, 5, 2, 2, 2, 4, 0, -2);
  }

  lemma Line13()
    ensures AddsUp(1, 3)
  {
    FromLine(3, 1, 2, 2, 0, 1, 0, 6, -2, -1, 1, 2);
    Turned(3, 1);
  }

  lemma Line22()
    ensures AddsUp(2, 2)
  {
    FromLine(2, 2, 2, 5, 2, 5, 0, 6, 10, 13, 33, -12);
  }

  lemma Line24()
    ensures AddsUp(2, 4)
  {
    FromLine(2, 4, 2, 5, 0, 6, 0, 1, -2, 1, 1, 2);
  }

  lemma Line33()
    ensures AddsUp(3, 3)
  {
    FromLine(3, 3, 2, 2, 2, 2, 0, 1, 4, 13, -15, 2);
  }

  lemma Line34()
    ensures AddsUp(3, 4)
  {
    FromLine(3, 4, 2, 2, 0, 6, 2, 5, -2, 4, 0, 2);
  }

  lemma Line44()
    ensures AddsUp(4, 4)
  {
    FromLine(4, 4, 0, 6, 0, 6, 2, 2, 12, 1, 41, -14);
  }

  lemma Infinite(i: nat)
    requires i < 5
    ensures AddsUp(0, i) && AddsUp(i, 0)
  {
  }

  lemma Opposite(i: nat)
    requires 0 < i < 5
    ensures AddsUp(i, 5 - i)
  {
    FieldHolds();
    Listed(i);
    Listed(5 - i);
    AddInverse(TINY, POINTS[i], POINTS[5 - i]);
  }

  lemma Turned(i: nat, j: nat)
    requires AddsUp(i, j)
    ensures AddsUp(j, i)
  {
    FieldHolds();
    Listed(i);
    Listed(j);
    AddCommutes(TINY, POINTS[i], POINTS[j]);
  }

  /** A relation shown pair by pair holds of every pair of this kind. */
  lemma PairByPair(rel: (nat, nat) -> bool, i: nat, j: nat)
    requires rel(1, 1) && rel(1, 2) && rel(1, 3) && rel(2, 2) && rel(2, 4) && rel(3, 3) && rel(3, 4) && rel(4, 4)
    requires 0 < i <= j < 5 && i + j != 5
    ensures rel(i, j)
  {
    assert i == 1 || i == 2 || i == 3 || i == 4;
    assert j == 1 || j == 2 || j == 3 || j == 4;
  }

  lemma OnLine(i: nat, j: nat)
    requires 0 < i <= j < 5 && i + j != 5
    ensures AddsUp(i, j)
  {
    Line11();
    Line12();
    Line13();
    Line22();
    Line24();
    Line33();
    Line34();
    Line44();
    PairByPair(AddsUp, i, j);
  }

  lemma AllAddUp(i: nat, j: nat)
    requires i < 5 && j < 5
    ensures AddsUp(i, j)
  {
    if i == 0 || j == 0 {
      Infinite(i + j);
    } else if i + j == 5 {
      Opposite(i);
    } else if i <= j {
      OnLine(i, j);
    } else {
      OnLine(j, i);
      Turned(j, i);
    }
  }

  /** The addition table. */
  ghost predicate Table(c: Curve)
    requires Params(c)
  {
    forall i: nat, j: nat :: i < 5 && j < 5 ==> Add(c, POINTS[i], POINTS[j]) == POINTS[(i + j) % 5]
  }

  lemma SumTable()
    ensures Table(TINY)
  {
    forall i: nat, j: nat | i < 5 && j < 5 ensures Add(TINY, POINTS[i], POINTS[j]) == POINTS[(i + j) % 5] {
      AllAddUp(i, j);
    }
  }

  lemma Regrouped(i: nat, j: nat, k: nat)
    ensures ((i + j) % 5 + k) % 5 == (i + (j + k) % 5) % 5
  {
  }

  lemma Associative(c: Curve, i: nat, j: nat, k: nat)
    requires Params(c) && Table(c) && i < 5 && j < 5 && k < 5
    ensures AssociatesAt(c, POINTS[i], POINTS[j], POINTS[k])
  {
    Regrouped(i, j, k);
  }

  function Plus(place: nat, i: nat): (r: nat)
    ensures r < 5
  {
    (place + i) % 5
  }

  lemma FiveSteps(i: nat)
    requires i < 5
    ensures Plus(0, i) == i && Plus(Plus(Plus(Plus(Plus(0, i), i), i), i), i) == 0
  {
    assert i == 0 || i == 1 || i == 2 || i == 3 || i == 4;
  }

  lemma OrderFive(c: Curve, i: nat)
    requires Params(c) && Table(c) && i < 5
    ensures Mult(c, 5, POINTS[i]) == Infinity
  {
    FiveSteps(i);
    MultOn(c, 0, 0, i);
    MultOn(c, 1, Plus(0, i), i);
    MultOn(c, 2, Plus(Plus(0, i), i), i);
    MultOn(c, 3, Plus(Plus(Plus(0, i), i), i), i);
    MultOn(c, 4, Plus(Plus(Plus(Plus(0, i), i), i), i), i);
  }

  lemma MultOn(c: Curve, k: nat, place: nat, i: nat)
    requires Params(c) && Table(c) && i < 5 && place < 5 && Mult(c, k, POINTS[i]) == POINTS[place]
    ensures Mult(c, k + 1, POINTS[i]) == POINTS[Plus(place, i)]
  {
  }

  lemma HypothesesSatisfiable()
    ensures Group(TINY) && OnCurve(TINY, POINTS[1]) && POINTS[1].Affine?
  {
    SmallPrimes();
    FieldHolds();
    Listed(1);
    forall P, Q, R | OnCurve(TINY, P) && OnCurve(TINY, Q) && OnCurve(TINY, R) ensures AssociatesAt(TINY, P, Q, R) {
      AssociativeAt(P, Q, R);
    }
    forall P | OnCurve(TINY, P) ensures Mult(TINY, TINY.n, P) == Infinity {
      OrderAt(P);
    }
  }

  lemma OrderAt(P: Point)
    requires OnCurve(TINY, P)
    ensures Mult(TINY, TINY.n, P) == Infinity
  {
    var i := AllPoints(P);
    SumTable();
    OrderFive(TINY, i);
  }

  lemma AssociativeAt(P: Point, Q: Point, R: Point)
    requires OnCurve(TINY, P) && OnCurve(TINY, Q) && OnCurve(TINY, R)
    ensures AssociatesAt(TINY, P, Q, R)
  {
    var i := AllPoints(P);
    var j := AllPoints(Q);
    var k := AllPoints(R);
    SumTable();
    Associative(TINY, i, j, k);
  }

  /** Without the hypothesis on y = 0 the formulas are wrong: on y^2 = x^3 + 1 over the same field, doubling
      (3, 0) leaves the curve. */
  lemma DoublingNeedsOrdinate()
    ensures var c, P := Curve(7, 0, 1, 3), Affine(3, 0); OnCurve(c, P) && !OnCurve(c, Add(c, P, P))
  {
    var c, P := Curve(7, 0, 1, 3), Affine(3, 0);
    assert PowMod(0, 5, 7) == 0;
    assert Slope(c, P, P) == 0;
    assert (0 - 3 - 3) % 7 == 1;
    assert Add(c, P, P) == Affine(1, 0);
  }
}
