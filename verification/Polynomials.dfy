/**
 Real polynomials as coefficient lists (constant term first), and Lagrange
 interpolation at consecutive integers. The claim is uniqueness: a polynomial with
 fewer coefficients than there are nodes is what its own samples interpolate to.
 */
module Polynomials {
  import opened Reals

  function Eval(p: seq<real>, t: real): real {
    if |p| == 0 then 0.0 else p[0] + Times(t, Eval(p[1..], t))
  }

  /** Coefficient i belongs to t^i. */
  lemma EvalGrows(c: real, p: seq<real>, t: real)
    ensures Eval([], t) == 0.0 && Eval([c] + p, t) == c + t * Eval(p, t)
  {
    hide Times;
    assert ([c] + p)[1..] == p;
    Named(t, Eval(p, t), 0);
  }

  function PolyAdd(p: seq<real>, q: seq<real>): (r: seq<real>)
    requires |p| == |q|
    ensures |r| == |p|
  {
    seq(|p|, i requires 0 <= i < |p| => p[i] + q[i])
  }

  function PolyScale(c: real, p: seq<real>): (r: seq<real>)
    ensures |r| == |p|
  {
    seq(|p|, i requires 0 <= i < |p| => Times(c, p[i]))
  }

  /** (t - a) p(t) */
  function MulLinear(p: seq<real>, a: real): (r: seq<real>)
    ensures |r| == |p| + 1
  {
    PolyAdd([0.0] + p, PolyScale(-a, p + [0.0]))
  }

  /** (p(t) - p(a)) / (t - a), by synthetic division. */
  function DivLinear(p: seq<real>, a: real): (q: seq<real>)
    ensures |q| == if |p| == 0 then 0 else |p| - 1
  {
    if |p| <= 1 then [] else PolyAdd(p[1..], PolyScale(a, DivLinear(p[1..], a) + [0.0]))
  }

  lemma {:induction false} EvalAdd(p: seq<real>, q: seq<real>, t: real)
    requires |p| == |q|
    ensures Eval(PolyAdd(p, q), t) == Eval(p, t) + Eval(q, t)
  {
    hide Times;
    if |p| > 0 {
      EvalAdd(p[1..], q[1..], t);
      assert PolyAdd(p, q)[1..] == PolyAdd(p[1..], q[1..]);
      TimesAdd(t, Eval(p[1..], t), Eval(q[1..], t));
    }
  }

  lemma {:induction false} EvalScale(c: real, p: seq<real>, t: real)
    ensures Eval(PolyScale(c, p), t) == Times(c, Eval(p, t))
  {
    hide Times;
    if |p| > 0 {
      var rest := Eval(p[1..], t);
      EvalScale(c, p[1..], t);
      assert PolyScale(c, p)[1..] == PolyScale(c, p[1..]);
      TimesAdd(c, p[0], Times(t, rest));
      TimesAssoc(t, c, rest);
      TimesAssoc(c, t, rest);
      TimesComm(t, c);
    } else {
      TimesUnits(c);
    }
  }

  lemma {:induction false} EvalPadded(p: seq<real>, t: real)
    ensures Eval(p + [0.0], t) == Eval(p, t)
    ensures Eval([0.0] + p, t) == Times(t, Eval(p, t))
  {
    hide Times;
    assert ([0.0] + p)[1..] == p;
    if |p| > 0 {
      EvalPadded(p[1..], t);
      assert (p + [0.0])[1..] == p[1..] + [0.0];
    } else {
      assert [0.0][1..] == p && p + [0.0] == [0.0];
      TimesUnits(t);
    }
  }

  lemma EvalMulLinear(p: seq<real>, a: real, t: real)
    ensures Eval(MulLinear(p, a), t) == Times(t - a, Eval(p, t))
  {
    hide Times;
    EvalAdd([0.0] + p, PolyScale(-a, p + [0.0]), t);
    EvalScale(-a, p + [0.0], t);
    EvalPadded(p, t);
    TimesAdd(Eval(p, t), t, -a);
    assert t + -a == t - a;
  }

  /** The remainder theorem. */
  lemma {:induction false} EvalDivLinear(p: seq<real>, a: real, t: real)
    ensures Eval(p, t) == Eval(p, a) + Times(t - a, Eval(DivLinear(p, a), t))
  {
    hide Times, PolyAdd, PolyScale;
    if |p| > 0 {
      var rest := p[1..];
      EvalDivLinear(rest, a, t);
      if |p| == 1 {
        TimesUnits(t);
        TimesUnits(a);
        TimesUnits(t - a);
      } else {
        var q := DivLinear(rest, a);
        EvalAdd(rest, PolyScale(a, q + [0.0]), t);
        EvalScale(a, q + [0.0], t);
        EvalPadded(q, t);
        RemainderStep(t, a, Eval(rest, t), Eval(rest, a), Eval(q, t));
      }
    } else {
      TimesUnits(t - a);
    }
  }

  lemma RemainderStep(t: real, a: real, pt: real, pa: real, q: real)
    requires pt == pa + Times(t - a, q)
    ensures Times(t, pt) == Times(a, pa) + Times(t - a, pt + Times(a, q))
  {
    hide *;
    TimesAdd(a, pa, Times(t - a, q));
    TimesAssoc(a, t - a, q);
    TimesAssoc(t - a, a, q);
    TimesComm(a, t - a);
    TimesAdd(t - a, pt, Times(a, q));
    TimesAdd(pt, t - a, a);
    assert t - a + a == t;
  }

  // ----- vanishing at many nodes ------------------------------------------------------

  function Node(first: int, i: int): real { (first + i) as real }

  /** No more coefficients than roots: the polynomial vanishes everywhere. */
  lemma {:induction false} TooManyRoots(p: seq<real>, first: int, n: nat, t: real)
    requires |p| <= n
    requires forall i :: 0 <= i < n ==> Eval(p, Node(first, i)) == 0.0
    ensures Eval(p, t) == 0.0
    decreases n
  {
    hide Times, DivLinear;
    if |p| > 0 {
      var a := Node(first, n - 1);
      var q := DivLinear(p, a);
      forall i | 0 <= i < n - 1 ensures Eval(q, Node(first, i)) == 0.0 {
        EvalDivLinear(p, a, Node(first, i));
        TimesZero(Node(first, i) - a, Eval(q, Node(first, i)));
      }
      TooManyRoots(q, first, n - 1, t);
      EvalDivLinear(p, a, t);
      TimesUnits(t - a);
    }
  }

  // ----- Lagrange interpolation ---------------------------------------------------------

  /** The product of t - node over the first n nodes, leaving out the node `skip`. */
  function SkipProduct(first: int, n: nat, skip: int, t: real): real {
    if n == 0 then 1.0
    else if first + n - 1 == skip then SkipProduct(first, n - 1, skip, t)
    else Times(SkipProduct(first, n - 1, skip, t), t - Node(first, n - 1))
  }

  function SkipPoly(first: int, n: nat, skip: int): (p: seq<real>)
    ensures |p| == if first <= skip < first + n then n else n + 1
  {
    if n == 0 then [1.0]
    else if first + n - 1 == skip then SkipPoly(first, n - 1, skip)
    else MulLinear(SkipPoly(first, n - 1, skip), Node(first, n - 1))
  }

  lemma {:induction false} EvalSkipPoly(first: int, n: nat, skip: int, t: real)
    ensures Eval(SkipPoly(first, n, skip), t) == SkipProduct(first, n, skip, t)
  {
    hide Times, Node, MulLinear;
    if n == 0 {
      TimesUnits(t);
    } else {
      EvalSkipPoly(first, n - 1, skip, t);
      if first + n - 1 != skip {
        EvalMulLinear(SkipPoly(first, n - 1, skip), Node(first, n - 1), t);
        TimesComm(t - Node(first, n - 1), SkipProduct(first, n - 1, skip, t));
      }
    }
  }

  /** Every denominator of the interpolation is nonzero. */
  lemma {:induction false} DenominatorNonzero(first: int, n: nat, skip: int)
    ensures SkipProduct(first, n, skip, skip as real) != 0.0
    decreases n
  {
    hide Times;
    if n > 0 {
      DenominatorNonzero(first, n - 1, skip);
      TimesZero(SkipProduct(first, n - 1, skip, skip as real), skip as real - Node(first, n - 1));
    }
  }

  lemma {:induction false} VanishesAtOtherNodes(first: int, n: nat, skip: int, k: nat)
    requires k < n && first + k != skip
    ensures SkipProduct(first, n, skip, Node(first, k)) == 0.0
    decreases n
  {
    hide Times;
    if k < n - 1 {
      VanishesAtOtherNodes(first, n - 1, skip, k);
    }
    TimesZero(SkipProduct(first, n - 1, skip, Node(first, k)), Node(first, k) - Node(first, n - 1));
  }

  /** The weight of sample i when interpolating at t. */
  function Weight(first: int, n: nat, i: nat, t: real): real {
    DenominatorNonzero(first, n, first + i);
    Over(SkipProduct(first, n, first + i, t), SkipProduct(first, n, first + i, Node(first, i)))
  }

  /** The weighted sum of the first m of the samples. */
  function Interpolate(first: int, n: nat, ys: seq<real>, m: nat, t: real): real
    requires m <= |ys|
  {
    if m == 0 then 0.0 else Interpolate(first, n, ys, m - 1, t) + Times(Weight(first, n, m - 1, t), ys[m - 1])
  }

  function InterpolantPoly(first: int, n: nat, ys: seq<real>, m: nat): (p: seq<real>)
    requires m <= |ys| && m <= n
    ensures |p| == n
  {
    if m == 0 then seq(n, _ => 0.0)
    else
      DenominatorNonzero(first, n, first + m - 1);
      PolyAdd(InterpolantPoly(first, n, ys, m - 1),
              PolyScale(Over(ys[m - 1], SkipProduct(first, n, first + m - 1, Node(first, m - 1))),
                        SkipPoly(first, n, first + m - 1)))
  }

  lemma {:induction false} EvalZeros(n: nat, t: real)
    ensures Eval(seq(n, _ => 0.0), t) == 0.0
  {
    hide Times;
    var z := seq(n, _ => 0.0);
    if n > 0 {
      EvalZeros(n - 1, t);
      assert z[1..] == seq(n - 1, _ => 0.0);
      TimesUnits(t);
    }
  }

  lemma {:induction false} EvalInterpolant(first: int, n: nat, ys: seq<real>, m: nat, t: real)
    requires m <= |ys| && m <= n
    ensures Eval(InterpolantPoly(first, n, ys, m), t) == Interpolate(first, n, ys, m, t)
  {
    hide Times, Over, PolyAdd, PolyScale, SkipPoly, SkipProduct;
    if m == 0 {
      EvalZeros(n, t);
    } else {
      EvalInterpolant(first, n, ys, m - 1, t);
      DenominatorNonzero(first, n, first + m - 1);
      var d := SkipProduct(first, n, first + m - 1, Node(first, m - 1));
      var p := SkipPoly(first, n, first + m - 1);
      EvalAdd(InterpolantPoly(first, n, ys, m - 1), PolyScale(Over(ys[m - 1], d), p), t);
      EvalScale(Over(ys[m - 1], d), p, t);
      EvalSkipPoly(first, n, first + m - 1, t);
      OverTimes(ys[m - 1], d, SkipProduct(first, n, first + m - 1, t));
    }
  }

  lemma {:induction false} InterpolateAtNode(first: int, n: nat, ys: seq<real>, m: nat, k: nat)
    requires m <= |ys| && m <= n && k < n
    ensures Interpolate(first, n, ys, m, Node(first, k)) == if k < m then ys[k] else 0.0
  {
    hide Times, Over, SkipProduct;
    if m > 0 {
      InterpolateAtNode(first, n, ys, m - 1, k);
      DenominatorNonzero(first, n, first + m - 1);
      OverLaws(0.0, 0.0, SkipProduct(first, n, first + m - 1, Node(first, m - 1)));
      TimesUnits(ys[m - 1]);
      if k != m - 1 {
        VanishesAtOtherNodes(first, n, first + m - 1, k);
      }
    }
  }

  /** Interpolating n samples of a polynomial with at most n coefficients returns the polynomial. */
  lemma LagrangeExact(p: seq<real>, first: int, n: nat, ys: seq<real>, t: real)
    requires |p| <= n == |ys|
    requires forall i :: 0 <= i < n ==> ys[i] == Eval(p, Node(first, i))
    ensures Interpolate(first, n, ys, n, t) == Eval(p, t)
  {
    hide *;
    var padded := Padded(p, n);
    var difference := PolyAdd(InterpolantPoly(first, n, ys, n), PolyScale(-1.0, padded));
    forall s: real ensures Eval(difference, s) == Interpolate(first, n, ys, n, s) - Eval(p, s) {
      EvalAdd(InterpolantPoly(first, n, ys, n), PolyScale(-1.0, padded), s);
      EvalScale(-1.0, padded, s);
      EvalInterpolant(first, n, ys, n, s);
      EvalPaddedTo(p, n, s);
      TimesUnits(Eval(padded, s));
    }
    forall i | 0 <= i < n ensures Eval(difference, Node(first, i)) == 0.0 {
      InterpolateAtNode(first, n, ys, n, i);
    }
    TooManyRoots(difference, first, n, t);
  }

  function Padded(p: seq<real>, n: nat): (r: seq<real>)
    requires |p| <= n
    ensures |r| == n
    decreases n
  {
    if |p| == n then p else Padded(p, n - 1) + [0.0]
  }

  lemma {:induction false} EvalPaddedTo(p: seq<real>, n: nat, t: real)
    requires |p| <= n
    ensures Eval(Padded(p, n), t) == Eval(p, t)
    decreases n
  {
    if |p| < n {
      EvalPaddedTo(p, n - 1, t);
      EvalPadded(Padded(p, n - 1), t);
    }
  }

  /** The weights sum to one wherever the interpolation is evaluated. */
  lemma WeightsSumToOne(first: int, n: nat, t: real)
    requires n > 0
    ensures Interpolate(first, n, seq(n, _ => 1.0), n, t) == 1.0
  {
    hide Times, Interpolate;
    forall s: real ensures Eval([1.0], s) == 1.0 {
      TimesUnits(s);
    }
    LagrangeExact([1.0], first, n, seq(n, _ => 1.0), t);
  }
}
