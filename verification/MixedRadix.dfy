/** Positional arithmetic: facts about numbers written as `a * n + b` with a digit `b < n`. */
module MixedRadix {

  /** The number whose last digit in base `n` is `b` and whose leading part is `a`. */
  function Mix(a: nat, b: nat, n: nat): nat {
    a * n + b
  }

  /** The leading part and the last digit of `x` in base `n`. */
  function Divided(x: nat, n: nat): (nat, nat)
    requires n > 0
  {
    (x / n, x % n)
  }

  lemma MixBound(a: nat, top: nat, b: nat, n: nat)
    requires a < top && b < n
    ensures Mix(a, b, n) < top * n
  {
    assert (a + 1) * n <= top * n by {
      MulMono(a + 1, top, n);
    }
    assert (a + 1) * n == a * n + n;
  }

  lemma MulMono(a: nat, b: nat, n: nat)
    requires a <= b
    ensures a * n <= b * n
  {
    assert b * n == a * n + (b - a) * n;
  }

  lemma MixInjective(a: nat, b: nat, a': nat, b': nat, n: nat)
    requires b < n && b' < n
    requires Mix(a, b, n) == Mix(a', b', n)
    ensures a == a' && b == b'
  {
    if a < a' {
      MixBound(a, a', b, n);
      assert false;
    }
    if a' < a {
      MixBound(a', a, b', n);
      assert false;
    }
  }

  lemma MixDigits(a: nat, b: nat, n: nat)
    requires b < n
    ensures Mix(a, b, n) / n == a && Mix(a, b, n) % n == b
  {
    var x := Mix(a, b, n);
    assert x == Mix(x / n, x % n, n);
    MixInjective(a, b, x / n, x % n, n);
  }

  lemma MixCarry(a: nat, n: nat)
    ensures Mix(a, n, n) == Mix(a + 1, 0, n)
  {
    assert (a + 1) * n == a * n + n;
  }

  lemma DigitBound(x: nat, top: nat, n: nat)
    requires n > 0 && x < top * n
    ensures x / n < top && x == Mix(x / n, x % n, n)
  {
    if top <= x / n {
      MulMono(top, x / n, n);
    }
  }

  lemma Split(x: nat, top: nat, n: nat) returns (a: nat, b: nat)
    requires n > 0 && x < top * n
    ensures a < top && b < n && x == Mix(a, b, n) && a == x / n && b == x % n
  {
    DigitBound(x, top, n);
    a, b := x / n, x % n;
  }

  /** What it means to be the quotient, or to bound it. */
  lemma QuotientIs(x: nat, d: nat, q: nat)
    requires d > 0
    ensures x / d == q <==> q * d <= x < (q + 1) * d
    ensures x / d < q <==> x < q * d
    ensures q <= x / d <==> q * d <= x
  {
    var k, r := x / d, x % d;
    assert x == k * d + r;
    assert (k + 1) * d == k * d + d;
    if q <= k {
      MulMono(q, k, d);
    } else {
      MulMono(k + 1, q, d);
    }
    if q + 1 <= k {
      MulMono(q + 1, k, d);
    }
  }
}
