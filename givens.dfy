/**
 * The rotation primitive givens_rotation of tinyqr.h. The scalar type is
 * modelled by exact reals; the one operation reals lack, 1/sqrt(x), is a
 * parameter `invSqrt` that the whole model leaves uninterpreted.
 */
module Givens {

  function Abs(x: real): (m: real)
    ensures 0.0 <= m && (m == x || m == -x)
  {
    if x < 0.0 then -x else x
  }

  /**
   * a*x + b*y: every entry a rotation writes is such a blend of the two
   * entries it reads.
   */
  function Blend(a: real, x: real, b: real, y: real): real
  {
    a * x + b * y
  }

  /**
   * The pair (c, s) of givens_rotation(a, b). It divides by the entry of
   * larger magnitude, so it is defined whenever a or b is non-zero (the
   * sweeps only call it when |b| exceeds the smallest positive scalar).
   * Whatever invSqrt returns, the rotated lower entry -s*a + c*b vanishes.
   */
  function GivensRotation(a: real, b: real, invSqrt: real -> real): (cs: (real, real))
    requires a != 0.0 || b != 0.0
    ensures Blend(-cs.1, a, cs.0, b) == 0.0
  {
    if Abs(b) > Abs(a) then
      var r := a / b;
      var s := invSqrt(1.0 + r * r);
      (s * r, s)
    else
      var r := b / a;
      var c := invSqrt(1.0 + r * r);
      (c, c * r)
  }

  /** invSqrt is the exact reciprocal square root on [1, oo). */
  ghost predicate ExactInvSqrt(invSqrt: real -> real)
  {
    forall x: real :: 1.0 <= x ==> invSqrt(x) * invSqrt(x) * x == 1.0
  }

  /**
   * (c, s) rotates the pair (a, b) without changing its length:
   * c^2 + s^2 = 1, and the upper entry c*a + s*b has (c*a + s*b)^2 = a^2 + b^2.
   */
  ghost predicate IsRotationOf(cs: (real, real), a: real, b: real)
  {
    cs.0 * cs.0 + cs.1 * cs.1 == 1.0 &&
    Blend(cs.0, a, cs.1, b) * Blend(cs.0, a, cs.1, b) == a * a + b * b
  }

  /** With an exact reciprocal square root the pair is a rotation of (a, b). */
  lemma GivensIsRotation(a: real, b: real, invSqrt: real -> real)
    requires a != 0.0 || b != 0.0
    requires ExactInvSqrt(invSqrt)
    ensures IsRotationOf(GivensRotation(a, b, invSqrt), a, b)
  {
    if Abs(b) > Abs(a) {
      LowerBranchIsRotation(a, b, invSqrt);
    } else {
      UpperBranchIsRotation(a, b, invSqrt);
    }
  }

  /** The case |b| > |a|: (c, s) = (t*a/b, t) with t = invSqrt(1 + (a/b)^2). */
  lemma LowerBranchIsRotation(a: real, b: real, invSqrt: real -> real)
    requires Abs(b) > Abs(a)
    requires ExactInvSqrt(invSqrt)
    ensures IsRotationOf(GivensRotation(a, b, invSqrt), a, b)
  {
    GivensByLower(a, b, invSqrt);
    InvSqrtOfRatio(invSqrt, a / b);
    RotationByLarger(invSqrt(1.0 + (a / b) * (a / b)), a / b, b, a);
  }

  /** The case |b| <= |a|: (c, s) = (t, t*b/a) with t = invSqrt(1 + (b/a)^2). */
  lemma UpperBranchIsRotation(a: real, b: real, invSqrt: real -> real)
    requires a != 0.0 && Abs(b) <= Abs(a)
    requires ExactInvSqrt(invSqrt)
    ensures IsRotationOf(GivensRotation(a, b, invSqrt), a, b)
  {
    GivensByUpper(a, b, invSqrt);
    InvSqrtOfRatio(invSqrt, b / a);
    RotationByLarger(invSqrt(1.0 + (b / a) * (b / a)), b / a, a, b);
    SwappedRotation(invSqrt(1.0 + (b / a) * (b / a)) * (b / a), invSqrt(1.0 + (b / a) * (b / a)), b, a);
  }

  /** The branch of givens_rotation that divides by the lower entry b. */
  lemma GivensByLower(a: real, b: real, invSqrt: real -> real)
    requires Abs(b) > Abs(a)
    ensures GivensRotation(a, b, invSqrt) == (invSqrt(1.0 + (a / b) * (a / b)) * (a / b), invSqrt(1.0 + (a / b) * (a / b)))
  {
  }

  /** The branch of givens_rotation that divides by the upper entry a. */
  lemma GivensByUpper(a: real, b: real, invSqrt: real -> real)
    requires a != 0.0 && Abs(b) <= Abs(a)
    ensures GivensRotation(a, b, invSqrt) == (invSqrt(1.0 + (b / a) * (b / a)), invSqrt(1.0 + (b / a) * (b / a)) * (b / a))
  {
  }

  /** 1 + r^2 is in the range where invSqrt is exact. */
  lemma InvSqrtOfRatio(invSqrt: real -> real, r: real)
    requires ExactInvSqrt(invSqrt)
    ensures invSqrt(1.0 + r * r) * invSqrt(1.0 + r * r) * (1.0 + r * r) == 1.0
  {
    assert 0.0 <= r * r;
  }

  /** Swapping both the entries and the coefficients keeps a rotation. */
  lemma SwappedRotation(c: real, s: real, a: real, b: real)
    requires IsRotationOf((c, s), a, b)
    ensures IsRotationOf((s, c), b, a)
  {
    assert Blend(s, b, c, a) == Blend(c, a, s, b);
  }

  /**
   * Dividing by the larger entry u, with ratio r = w / u and
   * t = 1/sqrt(1 + r^2): the pair (t*r, t) is a rotation of (w, u).
   */
  lemma RotationByLarger(t: real, r: real, u: real, w: real)
    requires u != 0.0 && r == w / u
    requires t * t * (1.0 + r * r) == 1.0
    ensures IsRotationOf((t * r, t), w, u)
  {
    assert w == r * u;
    RotationAlgebra(t, r, u);
    assert Blend(t * r, w, t, u) == t * r * (r * u) + t * u;
  }

  /** The algebra behind GivensIsRotation: u is the entry divided by, r the ratio. */
  lemma RotationAlgebra(t: real, r: real, u: real)
    requires t * t * (1.0 + r * r) == 1.0
    ensures (t * r) * (t * r) + t * t == 1.0
    ensures (t * r * (r * u) + t * u) * (t * r * (r * u) + t * u) == (r * u) * (r * u) + u * u
  {
    var k := 1.0 + r * r;
    assert (t * r) * (t * r) + t * t == t * t * k;
    assert t * r * (r * u) + t * u == (t * u) * k;
    assert ((t * u) * k) * ((t * u) * k) == (t * t * k) * (u * u * k);
    assert (r * u) * (r * u) + u * u == u * u * k;
  }
}
