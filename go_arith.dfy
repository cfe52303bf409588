/**
  Integer arithmetic as Go defines it, where it differs from Dafny's.

  Go's `/` on signed integers truncates the quotient toward zero, so the
  remainder `a - q*b` takes the sign of the dividend; Dafny's `/` on `int`
  is Euclidean (the remainder is never negative). The two agree whenever the
  dividend is non-negative. Integers are unbounded here: the fixed width of
  the Go operand type is not modelled.
 */
module GoArith {

  function Abs(x: int): nat {
    if x < 0 then -x else x
  }

  /** The remainder `a - q*b` left by a candidate quotient `q`. */
  function Rem(a: int, b: int, q: int): int {
    a - q * b
  }

  /** What Go promises of `q := a / b`: the remainder is smaller than the
      divisor in magnitude and never has the opposite sign of the dividend. */
  predicate IsTruncatedQuotient(a: int, b: int, q: int) {
    && Abs(Rem(a, b, q)) < Abs(b)
    && (a >= 0 ==> Rem(a, b, q) >= 0)
    && (a <= 0 ==> Rem(a, b, q) <= 0)
  }

  /** Go's `a / b` for `b != 0`, truncating toward zero. */
  function Quot(a: int, b: int): (q: int)
    requires b != 0
    ensures IsTruncatedQuotient(a, b, q)
    ensures Abs(q) <= Abs(a)
  {
    if a >= 0 then
      EuclidNonNegative(a, b);
      a / b
    else
      EuclidNonNegative(-a, b);
      assert Rem(a, b, -((-a) / b)) == -Rem(-a, b, (-a) / b);
      -((-a) / b)
  }

  /** Dafny's Euclidean quotient of a non-negative dividend leaves a
      non-negative remainder smaller than the divisor and never exceeds the
      dividend in magnitude. */
  lemma EuclidNonNegative(a: int, b: int)
    requires a >= 0 && b != 0
    ensures 0 <= Rem(a, b, a / b) < Abs(b)
    ensures Abs(a / b) <= a
  {
    var q := a / b;
    assert Rem(a, b, q) == a % b;
    if b > 0 {
      MultipleBounds(q, b, a);
    } else {
      assert q * b == (-q) * (-b);
      assert Rem(a, -b, -q) == Rem(a, b, q);
      MultipleBounds(-q, -b, a);
    }
  }

  /** A multiple `k*b` of a positive `b` that lies within `a - b < k*b <= a`
      of a non-negative `a` has `0 <= k <= a`. */
  lemma MultipleBounds(k: int, b: int, a: int)
    requires b > 0 && a >= 0
    requires 0 <= a - k * b < b
    ensures 0 <= k <= a
  {
    if k < 0 {
      MultipleMagnitude(k, b);
    }
    if k > 0 {
      MultipleMagnitude(k, b);
      assert k <= k * b by { MultipleAtLeast(k, b); }
    }
  }

  /** Multiplying a positive `k` by a positive `b` does not make it smaller. */
  lemma {:induction false} MultipleAtLeast(k: int, b: int)
    requires k > 0 && b > 0
    ensures k <= k * b
  {
    if k > 1 {
      MultipleAtLeast(k - 1, b);
      assert k * b == (k - 1) * b + b;
    }
  }

  /** A non-zero multiple of `b` is at least as large as `b` in magnitude. */
  lemma {:induction false} MultipleMagnitude(k: int, b: int)
    requires k != 0
    ensures Abs(k * b) >= Abs(b)
    decreases Abs(k), if k < 0 then 1 else 0
  {
    if k > 0 {
      assert k * b == (k - 1) * b + b;
      if k > 1 { MultipleMagnitude(k - 1, b); }
    } else {
      assert k * b == -((-k) * b);
      MultipleMagnitude(-k, b);
    }
  }

  /** The truncated quotient is the only quotient with Go's remainder
      properties, so `Quot` is fully determined by its contract. */
  lemma QuotUnique(a: int, b: int, q: int)
    requires b != 0
    requires IsTruncatedQuotient(a, b, q)
    ensures q == Quot(a, b)
  {
    TruncatedQuotientsAgree(a, b, q, Quot(a, b));
  }

  /** Two quotients with Go's remainder properties are equal: their
      remainders differ by a multiple of `b` smaller than `b`. */
  lemma TruncatedQuotientsAgree(a: int, b: int, q: int, p: int)
    requires b != 0
    requires IsTruncatedQuotient(a, b, q) && IsTruncatedQuotient(a, b, p)
    ensures q == p
  {
    if q != p {
      var rq, rp := Rem(a, b, q), Rem(a, b, p);
      assert Abs(rq - rp) < Abs(b);
      assert rq - rp == (p - q) * b by {
        assert (p - q) * b == p * b - q * b;
      }
      MultipleMagnitude(p - q, b);
    }
  }

  /** For a positive divisor and a non-negative dividend Go's quotient is the
      floor quotient: the number of whole periods `b` contained in `a`. */
  lemma QuotOfNonNegative(a: int, b: int)
    requires a >= 0 && b > 0
    ensures Quot(a, b) == a / b
    ensures 0 <= Quot(a, b) * b <= a < Quot(a, b) * b + b
  {
  }
}
