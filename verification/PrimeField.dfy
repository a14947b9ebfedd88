/** Arithmetic modulo a prime, as far as the curve code of opaque_adapter.py relies on it:
    congruences, absence of zero divisors, Fermat's little theorem, the inverse x^(p-2) and the
    square root c^((p+1)/4). */
module PrimeField {

  /** b^e */
  function Pow(b: int, e: nat): int {
    if e == 0 then 1 else b * Pow(b, e - 1)
  }

  /** Python's pow(b, e, m) for a positive modulus; b may be negative. */
  function PowMod(b: int, e: nat, m: int): (r: int)
    requires 0 < m
    ensures 0 <= r < m
  {
    Pow(b, e) % m
  }

  ghost predicate Divides(d: int, x: int)
    requires 0 < d
  {
    x % d == 0
  }

  ghost predicate Prime(p: int) {
    1 < p && forall d :: 1 < d < p ==> !Divides(d, p)
  }

  ghost predicate Cong(p: int, x: int, y: int)
    requires 0 < p
  {
    x % p == y % p
  }

  lemma ModIs(p: int, x: int, q: int, r: int)
    requires 0 <= r < p && x == p * q + r
    ensures x % p == r && x / p == q
  {
    assert x == p * (x / p) + x % p;
    assert p * (q - x / p) == x % p - r;
    MultipleBelow(p, q - x / p);
  }

  /** The only multiple of p strictly between -p and p is zero. */
  lemma MultipleBelow(p: int, k: int)
    requires 0 < p
    ensures -p < p * k < p ==> k == 0
  {
  }

  lemma CongIntro(p: int, x: int, y: int, q: int)
    requires 0 < p && x - y == p * q
    ensures Cong(p, x, y)
  {
    assert y == p * (y / p) + y % p;
    assert p * (q + y / p) == p * q + p * (y / p);
    ModIs(p, x, q + y / p, y % p);
  }

  lemma CongElim(p: int, x: int, y: int) returns (q: int)
    requires 0 < p && Cong(p, x, y)
    ensures x - y == p * q
  {
    q := x / p - y / p;
    assert x == p * (x / p) + x % p && y == p * (y / p) + y % p;
    assert p * q == p * (x / p) - p * (y / p);
  }

  lemma CongAdd(p: int, x: int, x': int, y: int, y': int)
    requires 0 < p && Cong(p, x, x') && Cong(p, y, y')
    ensures Cong(p, x + y, x' + y') && Cong(p, x - y, x' - y')
  {
    var q := CongElim(p, x, x');
    var s := CongElim(p, y, y');
    assert p * (q + s) == p * q + p * s && p * (q - s) == p * q - p * s;
    CongIntro(p, x + y, x' + y', q + s);
    CongIntro(p, x - y, x' - y', q - s);
  }

  lemma CongMul(p: int, x: int, x': int, y: int, y': int)
    requires 0 < p && Cong(p, x, x') && Cong(p, y, y')
    ensures Cong(p, x * y, x' * y')
  {
    var q := CongElim(p, x, x');
    var s := CongElim(p, y, y');
    ExpandProduct(p, x', q, y', s);
    CongIntro(p, x * y, x' * y', x' * s + q * y' + p * (q * s));
  }

  lemma ExpandProduct(p: int, x: int, q: int, y: int, s: int)
    ensures (x + p * q) * (y + p * s) - x * y == p * (x * s + q * y + p * (q * s))
  {
  }

  lemma CongMod(p: int, x: int)
    requires 0 < p
    ensures Cong(p, x % p, x) && 0 <= x % p < p
  {
    assert x == p * (x / p) + x % p;
    CongIntro(p, x, x % p, x / p);
  }

  /** Two residues in [0, p) that are congruent are equal. */
  lemma CongSmall(p: int, x: int, y: int)
    requires 0 <= x < p && 0 <= y < p && Cong(p, x, y)
    ensures x == y
  {
    ModIs(p, x, 0, x);
    ModIs(p, y, 0, y);
  }

  // ---------------------------------------------------------------- no zero divisors

  /** Euclid's lemma for residues: by descent, p mod a takes the place of a. */
  lemma {:induction false} NoZeroDivisorsSmall(p: int, a: int, b: int)
    requires Prime(p) && 0 < a < p && 0 < b < p
    ensures (a * b) % p != 0
    decreases a
  {
    if a == 1 {
      ModIs(p, b, 0, b);
    } else if (a * b) % p == 0 {
      var r := p % a;
      assert !Divides(a, p);
      assert p == a * (p / a) + r;
      NoZeroDivisorsSmall(p, r, b);
      var t := (a * b) / p;
      RemainderTimes(p, a, p / a, r, b, t);
      ModIs(p, r * b, b - (p / a) * t, 0);
    }
  }

  lemma RemainderTimes(p: int, a: int, q: int, r: int, b: int, t: int)
    requires p == a * q + r && a * b == p * t
    ensures r * b == p * (b - q * t)
  {
    assert r * b == p * b - q * (a * b);
    assert q * (p * t) == p * (q * t);
  }

  lemma NoZeroDivisors(p: int, a: int, b: int)
    requires Prime(p) && Cong(p, a * b, 0)
    ensures Cong(p, a, 0) || Cong(p, b, 0)
  {
    CongMod(p, a);
    CongMod(p, b);
    ModIs(p, 0, 0, 0);
    if a % p != 0 && b % p != 0 {
      CongMul(p, a % p, a, b % p, b);
      NoZeroDivisorsSmall(p, a % p, b % p);
    }
  }

  lemma Cancel(p: int, c: int, x: int, y: int)
    requires Prime(p) && !Cong(p, c, 0) && Cong(p, c * x, c * y)
    ensures Cong(p, x, y)
  {
    var q := CongElim(p, c * x, c * y);
    assert c * (x - y) == p * q;
    CongIntro(p, c * (x - y), 0, q);
    NoZeroDivisors(p, c, x - y);
    var s := CongElim(p, x - y, 0);
    CongIntro(p, x, y, s);
  }

  // ---------------------------------------------------------------- Fermat's little theorem

  lemma Inhabited(s: set<int>)
    requires s != {}
    ensures exists x :: x in s
  {
    assert (forall x :: x !in s) ==> s == {};
  }

  ghost function Prod(s: set<int>): int {
    if s == {} then 1 else
      Inhabited(s);
      var x :| x in s; x * Prod(s - {x})
  }

  lemma {:induction false} ProdRemove(s: set<int>, x: int)
    requires x in s
    ensures Prod(s) == x * Prod(s - {x})
    decreases |s|
  {
    var y :| y in s && Prod(s) == y * Prod(s - {y});
    if y != x {
      ProdRemove(s - {y}, x);
      ProdRemove(s - {x}, y);
      assert s - {y} - {x} == s - {x} - {y};
      SwapFactors(x, y, Prod(s - {x} - {y}));
    }
  }

  lemma SwapFactors(x: int, y: int, r: int)
    ensures y * (x * r) == x * (y * r)
  {
  }

  ghost function Scale(p: int, a: int, s: set<int>): set<int>
    requires 0 < p
  {
    set x | x in s :: (a * x) % p
  }

  ghost predicate Units(p: int, s: set<int>) {
    forall x :: x in s ==> 0 < x < p
  }

  /** Scaling by a unit is injective, so it takes one element of s to one new element. */
  lemma ScaleSplit(p: int, a: int, s: set<int>, x: int)
    requires Prime(p) && !Cong(p, a, 0) && Units(p, s) && x in s
    ensures var y := (a * x) % p;
      0 < y < p && y !in Scale(p, a, s - {x}) && Scale(p, a, s) == Scale(p, a, s - {x}) + {y}
  {
    var y := (a * x) % p;
    ModIs(p, 0, 0, 0);
    ModIs(p, x, 0, x);
    if y == 0 {
      NoZeroDivisors(p, a, x);
    }
    if y in Scale(p, a, s - {x}) {
      var z :| z in s - {x} && (a * z) % p == y;
      Cancel(p, a, x, z);
      CongSmall(p, x, z);
    }
    assert s == (s - {x}) + {x};
    forall v | v in Scale(p, a, s)
      ensures v in Scale(p, a, s - {x}) + {y}
    {
      var z :| z in s && (a * z) % p == v;
      assert z == x || z in s - {x};
    }
    forall v | v in Scale(p, a, s - {x}) + {y}
      ensures v in Scale(p, a, s)
    {
      if v != y {
        var z :| z in s - {x} && (a * z) % p == v;
        assert z in s;
      }
    }
  }

  /** Multiplying by a unit permutes residues: sizes agree and the product gains a^|s|. */
  lemma {:induction false} ScaleFacts(p: int, a: int, s: set<int>)
    requires Prime(p) && !Cong(p, a, 0) && Units(p, s)
    ensures Units(p, Scale(p, a, s)) && |Scale(p, a, s)| == |s|
    ensures Cong(p, Prod(Scale(p, a, s)), Pow(a, |s|) * Prod(s))
    decreases |s|
  {
    if s == {} {
      assert Scale(p, a, s) == {};
    } else {
      Inhabited(s);
      var x :| x in s;
      var s' := s - {x};
      var y := (a * x) % p;
      var image, image' := Scale(p, a, s), Scale(p, a, s');
      ScaleFacts(p, a, s');
      ScaleSplit(p, a, s, x);
      assert image - {y} == image' && |image| == |s|;
      ProdRemove(image, y);
      ProdRemove(s, x);
      ScaleProduct(p, a, x, Prod(image'), Pow(a, |s'|), Prod(s'));
    }
  }

  lemma ScaleProduct(p: int, a: int, x: int, u: int, w: int, v: int)
    requires 0 < p && Cong(p, u, w * v)
    ensures Cong(p, ((a * x) % p) * u, (a * w) * (x * v))
  {
    CongMod(p, a * x);
    CongMul(p, (a * x) % p, a * x, u, w * v);
    RegroupProduct(a, x, w, v);
  }

  lemma RegroupProduct(a: int, x: int, w: int, v: int)
    ensures (a * x) * (w * v) == (a * w) * (x * v)
  {
  }

  lemma {:induction false} ProdIsUnit(p: int, s: set<int>)
    requires Prime(p) && Units(p, s)
    ensures !Cong(p, Prod(s), 0)
    decreases |s|
  {
    ModIs(p, 0, 0, 0);
    if s == {} {
      ModIs(p, 1, 0, 1);
    } else {
      Inhabited(s);
      var x :| x in s && Prod(s) == x * Prod(s - {x});
      ProdIsUnit(p, s - {x});
      ModIs(p, x, 0, x);
      if Cong(p, Prod(s), 0) {
        NoZeroDivisors(p, x, Prod(s - {x}));
      }
    }
  }

  lemma SubsetOfSameSize(s: set<int>, t: set<int>)
    requires s <= t && |s| == |t|
    ensures s == t
  {
    assert t == s + (t - s);
    assert |t| == |s| + |t - s|;
  }

  /** The set {1, ..., n} */
  ghost function UpTo(n: nat): (s: set<int>)
    ensures |s| == n && forall x :: x in s <==> 0 < x <= n
  {
    if n == 0 then {} else UpTo(n - 1) + {n}
  }

  /** Fermat: a^(p-1) is 1 modulo a prime p that does not divide a. */
  lemma Fermat(p: int, a: int)
    requires Prime(p) && !Cong(p, a, 0)
    ensures Cong(p, Pow(a, p - 1), 1)
  {
    var full := UpTo(p - 1);
    ScaleFacts(p, a, full);
    SubsetOfSameSize(Scale(p, a, full), full);
    ProdIsUnit(p, full);
    var f := Prod(full);
    assert Pow(a, p - 1) * f == f * Pow(a, p - 1) && f == f * 1;
    Cancel(p, f, Pow(a, p - 1), 1);
  }

  // ---------------------------------------------------------------- inverses and square roots

  /** x^(p-2) is the inverse of x: the form `_p256_affine_add` and `_oprf_finalize` use. */
  lemma InverseOf(p: int, x: int)
    requires Prime(p) && !Cong(p, x, 0)
    ensures Cong(p, x * PowMod(x, p - 2, p), 1)
  {
    Fermat(p, x);
    CongMod(p, Pow(x, p - 2));
    CongMul(p, x, x, PowMod(x, p - 2, p), Pow(x, p - 2));
  }

  lemma QuotientOfNat(k: nat, n: int)
    requires 0 < n
    ensures 0 <= k / n && 0 <= k % n && 0 <= (k / n) * n && (k / n) * n + k % n == k
  {
  }

  lemma InverseRemainder(n: int, r: nat)
    requires Prime(n) && r % n != 0
    ensures var inv := PowMod(r, n - 2, n); 0 <= inv * r && (inv * r) % n == 1
  {
    ModIs(n, 0, 0, 0);
    ModIs(n, 1, 0, 1);
    InverseOf(n, r);
    assert PowMod(r, n - 2, n) * r == r * PowMod(r, n - 2, n);
  }

  lemma {:induction false} PowSum(b: int, e: nat, f: nat)
    ensures Pow(b, e + f) == Pow(b, e) * Pow(b, f)
  {
    if e > 0 {
      PowSum(b, e - 1, f);
      assert b * (Pow(b, e - 1) * Pow(b, f)) == (b * Pow(b, e - 1)) * Pow(b, f);
    }
  }

  lemma {:induction false} PowOfSquare(b: int, e: nat)
    ensures Pow(b * b, e) == Pow(b, 2 * e)
  {
    if e > 0 {
      PowOfSquare(b, e - 1);
      assert Pow(b, 2 * e) == b * (b * Pow(b, 2 * e - 2));
      assert (b * b) * Pow(b, 2 * e - 2) == b * (b * Pow(b, 2 * e - 2));
    }
  }

  lemma {:induction false} PowCong(p: int, b: int, b': int, e: nat)
    requires 0 < p && Cong(p, b, b')
    ensures Cong(p, Pow(b, e), Pow(b', e))
  {
    if e > 0 {
      PowCong(p, b, b', e - 1);
      CongMul(p, b, b', Pow(b, e - 1), Pow(b', e - 1));
    }
  }

  /** For p = 3 mod 4 and a square c = y^2 with y a unit, c^((p+1)/4) squares to c. */
  lemma SquareRoot(p: int, c: int, y: int)
    requires Prime(p) && p % 4 == 3 && !Cong(p, y, 0) && Cong(p, c, y * y)
    ensures var r := PowMod(c, (p + 1) / 4, p); Cong(p, r * r, y * y)
  {
    var e := (p + 1) / 4;
    var r := PowMod(c, e, p);
    PowCong(p, c, y * y, e);
    PowOfSquare(y, e);
    CongMod(p, Pow(c, e));
    var w := Pow(y, 2 * e);
    CongMul(p, r, w, r, w);
    PowSum(y, 2 * e, 2 * e);
    assert 2 * e + 2 * e == 2 + (p - 1);
    PowSum(y, 2, p - 1);
    assert Pow(y, 2) == y * Pow(y, 1) == y * (y * Pow(y, 0)) == y * y;
    Fermat(p, y);
    CongMul(p, y * y, y * y, Pow(y, p - 1), 1);
  }

  /** Euler's criterion: c^((p-1)/2) is 1 or -1. */
  lemma EulerSign(p: int, c: int)
    requires Prime(p) && p % 2 == 1 && !Cong(p, c, 0)
    ensures Cong(p, Pow(c, (p - 1) / 2), 1) || Cong(p, Pow(c, (p - 1) / 2), -1)
  {
    var h := (p - 1) / 2;
    assert h + h == p - 1;
    PowSum(c, h, h);
    Fermat(p, c);
    RootsOfSquare(p, Pow(c, h), 1);
  }

  /** c^((p+1)/4) squares to c times c^((p-1)/2). */
  lemma QuarterPower(p: int, c: int)
    requires 2 < p && p % 4 == 3
    ensures var r := PowMod(c, (p + 1) / 4, p); Cong(p, r * r, c * Pow(c, (p - 1) / 2))
  {
    var k := (p + 1) / 4;
    var r := PowMod(c, k, p);
    CongMod(p, Pow(c, k));
    CongMul(p, r, Pow(c, k), r, Pow(c, k));
    PowSum(c, k, k);
    ThreeMod4IsOdd(p);
    PowSum(c, 1, (p - 1) / 2);
    assert Pow(c, 1) == c * Pow(c, 0) == c;
  }

  /** For p = 3 mod 4 and any unit c, c^((p+1)/4) squares to c or to -c, and c^((p-1)/2) tells which. */
  lemma RootOrNegated(p: int, c: int)
    requires Prime(p) && p % 4 == 3 && !Cong(p, c, 0)
    ensures var r, e := PowMod(c, (p + 1) / 4, p), PowMod(c, (p - 1) / 2, p);
      if e == 1 then Cong(p, r * r, c) else Cong(p, r * r, -c)
  {
    ThreeMod4IsOdd(p);
    EulerSign(p, c);
    QuarterPower(p, c);
    var e := Pow(c, (p - 1) / 2);
    if Cong(p, e, 1) {
      CongMul(p, c, c, e, 1);
      ModIs(p, 1, 0, 1);
    } else {
      CongMul(p, c, c, e, -1);
      NotOne(p, e);
    }
  }

  lemma ThreeMod4IsOdd(p: int)
    requires p % 4 == 3
    ensures p % 2 == 1 && (p + 1) / 4 == p / 4 + 1 && (p - 1) / 2 == 2 * (p / 4) + 1
  {
    var q := p / 4;
    ModIs(2, p, 2 * q + 1, 1);
    ModIs(4, p + 1, q + 1, 0);
    ModIs(2, p - 1, 2 * q + 1, 0);
  }

  lemma NotOne(p: int, e: int)
    requires 2 < p && Cong(p, e, -1)
    ensures e % p != 1
  {
    ModIs(p, -1, -1, p - 1);
  }

  /** A square has no roots besides y and -y. */
  lemma RootsOfSquare(p: int, r: int, y: int)
    requires Prime(p) && Cong(p, r * r, y * y)
    ensures Cong(p, r, y) || Cong(p, r, -y)
  {
    var q := CongElim(p, r * r, y * y);
    assert (r - y) * (r + y) == r * r - y * y;
    CongIntro(p, (r - y) * (r + y), 0, q);
    NoZeroDivisors(p, r - y, r + y);
    if Cong(p, r - y, 0) {
      var s := CongElim(p, r - y, 0);
      CongIntro(p, r, y, s);
    } else {
      var s := CongElim(p, r + y, 0);
      CongIntro(p, r, -y, s);
    }
  }
}
