/** The oblivious PRF of opaque_adapter.py:151-181 on compressed points. The hash to the curve and the
    final HKDF are calls into code outside this model: the theorems hold for every point the former
    may return, and speak about the point N that enters the latter. */
module Oprf {
  import opened Bytes
  import opened PrimeField
  import opened CurveArithmetic

  /** `_oprf_blind` after the hash to the curve: M = r * H. */
  function Blind(c: Curve, r: nat, H: bytes): Result<bytes>
    requires Params(c)
  {
    Times(c, r, H)
  }

  /** `_oprf_evaluate`: Z = k * M. */
  function Evaluate(c: Curve, k: nat, M: bytes): Result<bytes>
    requires Params(c)
  {
    Times(c, k, M)
  }

  /** The point N = r^-1 * Z of `_oprf_finalize`. */
  function Unblind(c: Curve, r: nat, Z: bytes): Result<bytes>
    requires Params(c)
  {
    Times(c, PowMod(r, c.n - 2, c.n), Z)
  }

  /** The three messages of one OPRF evaluation, in order. */
  function Protocol(c: Curve, r: nat, k: nat, H: bytes): Result<bytes>
    requires Params(c)
  {
    var M :- Blind(c, r, H);
    var Z :- Evaluate(c, k, M);
    Unblind(c, r, Z)
  }

  /** The result does not depend on the blind, and the protocol raises exactly when the key or the
      blind is a multiple of the group order. */
  lemma BlindIndependence(c: Curve, r: nat, k: nat, H: Point)
    requires Group(c) && OnCurve(c, H) && H.Affine?
    ensures Protocol(c, r, k, Compress(H)).Ok? <==> r % c.n != 0 && k % c.n != 0
    ensures r % c.n != 0 && k % c.n != 0 ==> Protocol(c, r, k, Compress(H)) == Times(c, k, Compress(H))
  {
    TimesIsMult(c, r, H);
    if r % c.n != 0 {
      var M := Mult(c, r, H);
      TimesIsMult(c, k, M);
      if k % c.n != 0 {
        TimesIsMult(c, PowMod(r, c.n - 2, c.n), Mult(c, k, M));
        UnblindProduct(c, r, k, H);
        TimesIsMult(c, k, H);
      }
    }
  }

  /** r^-1 * (k * (r * H)) = k * H on points. */
  lemma UnblindProduct(c: Curve, r: nat, k: nat, H: Point)
    requires Group(c) && OnCurve(c, H) && r % c.n != 0
    ensures Mult(c, PowMod(r, c.n - 2, c.n), Mult(c, k, Mult(c, r, H))) == Mult(c, k, H)
  {
    MultCompose(c, k, r, H);
    MultCompose(c, r, k, H);
    assert k * r == r * k;
    MultClosed(c, k, H);
    UnblindPoint(c, r, Mult(c, k, H));
  }

  /** Two evaluations under one key agree, whatever the blinds: registration and login obtain the
      same point. */
  lemma SameOutput(c: Curve, r: nat, r': nat, k: nat, H: Point)
    requires Group(c) && OnCurve(c, H) && H.Affine?
    requires r % c.n != 0 && r' % c.n != 0 && k % c.n != 0
    ensures Protocol(c, r, k, Compress(H)).Ok?
    ensures Protocol(c, r, k, Compress(H)) == Protocol(c, r', k, Compress(H))
  {
    BlindIndependence(c, r, k, H);
    BlindIndependence(c, r', k, H);
  }

  /** Blinding is by the scalar modulo the order: no two of the n - 1 blinds send the same message. */
  lemma BlindsDiffer(c: Curve, r: nat, r': nat, H: Point)
    requires Group(c) && OnCurve(c, H) && H.Affine? && r % c.n != 0 && r' % c.n != 0
    ensures Blind(c, r, Compress(H)).Ok?
    ensures Blind(c, r, Compress(H)) == Blind(c, r', Compress(H)) <==> r % c.n == r' % c.n
  {
    TimesIsMult(c, r, H);
    TimesIsMult(c, r', H);
    MultInjective(c, r, r', H);
    DecompressCompress(c, Mult(c, r, H));
    DecompressCompress(c, Mult(c, r', H));
  }

  /** The message tells nothing about the password: whatever it is, it is also the message for every multiple of
      that point, under exactly one other blind modulo the order. */
  lemma BlindHides(c: Curve, r: nat, H: Point, t: nat) returns (r': nat)
    requires Group(c) && OnCurve(c, H) && H.Affine? && r % c.n != 0 && t % c.n != 0
    ensures OnCurve(c, Mult(c, t, H)) && Mult(c, t, H).Affine? && r' % c.n != 0
    ensures Blind(c, r', Compress(Mult(c, t, H))) == Blind(c, r, Compress(H))
    ensures forall q: nat :: q % c.n != 0 && Blind(c, q, Compress(Mult(c, t, H))) == Blind(c, r, Compress(H)) ==>
      q % c.n == r' % c.n
  {
    TimesIsMult(c, t, H);
    var G := Mult(c, t, H);
    r' := OtherBlind(c, r, H, t);
    SameMessage(c, r, H, r', G);
    forall q: nat | q % c.n != 0 && Blind(c, q, Compress(G)) == Blind(c, r, Compress(H))
      ensures q % c.n == r' % c.n
    {
      BlindsDiffer(c, q, r', G);
    }
  }

  lemma OtherBlind(c: Curve, r: nat, H: Point, t: nat) returns (r': nat)
    requires Group(c) && OnCurve(c, H) && t % c.n != 0
    ensures Mult(c, r', Mult(c, t, H)) == Mult(c, r, H)
  {
    var inv := PowMod(t, c.n - 2, c.n);
    MultClosed(c, t, H);
    UnblindPoint(c, t, H);
    MultCompose(c, r, inv, Mult(c, t, H));
    r' := r * inv;
  }

  lemma SameMessage(c: Curve, r: nat, H: Point, r': nat, G: Point)
    requires Group(c) && OnCurve(c, H) && H.Affine? && OnCurve(c, G) && G.Affine? && r % c.n != 0
    requires Mult(c, r', G) == Mult(c, r, H)
    ensures r' % c.n != 0 && Blind(c, r', Compress(G)) == Blind(c, r, Compress(H))
  {
    TimesIsMult(c, r, H);
    TimesIsMult(c, r', G);
  }

  /** Different keys give different results. */
  lemma KeysDiffer(c: Curve, r: nat, k: nat, k': nat, H: Point)
    requires Group(c) && OnCurve(c, H) && H.Affine? && r % c.n != 0
    requires k % c.n != k' % c.n && k' % c.n != 0
    ensures Protocol(c, r, k, Compress(H)) != Times(c, k', Compress(H))
  {
    BlindIndependence(c, r, k, H);
    TimesIsMult(c, k', H);
    if k % c.n != 0 {
      BlindsDiffer(c, k, k', H);
    }
  }
}
