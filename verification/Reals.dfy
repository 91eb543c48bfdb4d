/**
 Products and quotients of reals under names that a proof can hide: with `hide Times`
 the solver sees only the laws it is given, never a nonlinear term.
 */
module Reals {
  function Times(a: real, b: real): real { a * b }

  function Over(a: real, b: real): real
    requires b != 0.0
  {
    a / b
  }

  /** The least integer that is not below r. */
  function Ceil(r: real): int { -((-r).Floor) }

  /** n steps of one size. */
  function Steps(n: int, size: real): real { n as real * size }

  /** The names stand for what they say. */
  lemma Named(a: real, b: real, n: int)
    ensures Times(a, b) == a * b && Steps(n, b) == n as real * b
    ensures b != 0.0 ==> Over(a, b) == a / b
  {}

  lemma TimesUnits(a: real)
    ensures Times(0.0, a) == 0.0 == Times(a, 0.0)
    ensures Times(1.0, a) == a == Times(a, 1.0)
    ensures Times(-1.0, a) == -a
  {}

  lemma TimesComm(a: real, b: real)
    ensures Times(a, b) == Times(b, a)
  {}

  lemma TimesAssoc(a: real, b: real, c: real)
    ensures Times(Times(a, b), c) == Times(a, Times(b, c))
  {}

  lemma TimesAdd(a: real, b: real, c: real)
    ensures Times(a, b + c) == Times(a, b) + Times(a, c)
    ensures Times(b + c, a) == Times(b, a) + Times(c, a)
  {}

  lemma TimesMinus(a: real, b: real)
    ensures Times(-a, b) == -Times(a, b)
  {}

  lemma ProductIsZero(a: real, b: real, product: real)
    requires product == a * b
    ensures product == 0.0 <==> a == 0.0 || b == 0.0
  {}

  lemma TimesZero(a: real, b: real)
    ensures Times(a, b) == 0.0 <==> a == 0.0 || b == 0.0
  {
    ProductIsZero(a, b, Times(a, b));
  }

  lemma OverLaws(a: real, b: real, c: real)
    requires c != 0.0
    ensures Over(a + b, c) == Over(a, c) + Over(b, c)
    ensures Over(0.0, c) == 0.0 && Over(c, c) == 1.0
  {
    var p, q := a / c, b / c;
    QuotientTimes(a, c);
    QuotientTimes(b, c);
    assert (p + q) * c == p * c + q * c;
    QuotientIs(a + b, c, p + q);
    QuotientIs(0.0, c, 0.0);
    QuotientIs(c, c, 1.0);
  }

  lemma QuotientTimes(a: real, c: real)
    requires c != 0.0
    ensures a / c * c == a
  {}

  lemma QuotientIs(a: real, c: real, q: real)
    requires c != 0.0 && q * c == a
    ensures a / c == q
  {
    QuotientTimes(a, c);
    ProductIsZero(a / c - q, c, (a / c - q) * c);
    assert (a / c - q) * c == a / c * c - q * c;
  }

  lemma OverTimes(y: real, d: real, c: real)
    requires d != 0.0
    ensures Times(Over(y, d), c) == Times(Over(c, d), y)
  {}

  lemma StepsAdd(m: int, n: int, size: real)
    ensures Steps(m + n, size) == Steps(m, size) + Steps(n, size)
    ensures Steps(0, size) == 0.0 && Steps(1, size) == size
  {
    assert (m + n) as real == m as real + n as real;
  }

  lemma DivideExactly(a: real, t: real, q: real)
    requires t > 0.0 && a == q * t
    ensures a / t == q
  {}

  lemma DivideTimes(a: real, t: real)
    requires t > 0.0
    ensures a / t * t == a
    ensures a >= 0.0 ==> a / t >= 0.0
  {}

  lemma DivideMonotone(a: real, b: real, t: real)
    requires t > 0.0 && a <= b
    ensures a / t <= b / t
  {}

  /** What is left to go counts down by at least one whenever it shrinks by a step. */
  lemma StepsLeft(gap: real, rest: real, step: real)
    requires step > 0.0 && rest <= gap - step
    ensures (rest / step).Floor < (gap / step).Floor
    ensures gap > 0.0 ==> (gap / step).Floor >= 0
  {
    var q := gap / step;
    DivideTimes(gap, step);
    assert (q - 1.0) * step == q * step - step;
    DivideExactly(gap - step, step, q - 1.0);
    DivideMonotone(rest, gap - step, step);
  }

  lemma DivideShrinks(a: real, t: real)
    requires t >= 1.0 && a >= 0.0
    ensures 0.0 <= a / t <= a
  {
    var q := a / t;
    DivideTimes(a, t);
    assert q * t - q == q * (t - 1.0);
    assert q * (t - 1.0) >= 0.0;
  }

  lemma CeilBounds(r: real, n: int)
    ensures Ceil(r) as real - 1.0 < r <= Ceil(r) as real
    ensures Ceil(r + n as real) == Ceil(r) + n
  {
    var f := (-r).Floor;
    assert -(r + n as real) == -r - n as real;
  }

  lemma CeilMonotone(a: real, b: real)
    requires a <= b
    ensures Ceil(a) <= Ceil(b)
  {}
}
