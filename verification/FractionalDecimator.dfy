/**
 src/lib/fractionaldecimator.cpp: resampling by a real rate through Lagrange
 interpolation around a moving position. `where` is re-based after every call; the
 claim is that reader position plus `where` only ever depends on how many outputs
 were produced, so that the chunks of a run leave no trace in its output.
 */
module FractionalDecimators {
  import opened Integers
  import opened Polynomials
  import opened Reals
  import opened Schedules

  datatype Prefilter = NoFilter | Taps(taps: seq<real>) {
    function Overhead(): nat {
      if NoFilter? then 0 else |taps|
    }
  }

  /** The samples before the stream began read as `stale`: the reader may step back once. */
  function Signal(x: seq<real>, stale: real): int -> real {
    n => if 0 <= n < |x| then x[n] else stale
  }

  /** The first m terms of the prefilter laid over the signal from n on. */
  function Dot(signal: int -> real, taps: seq<real>, n: int, m: nat): real
    requires m <= |taps|
  {
    if m == 0 then 0.0 else Dot(signal, taps, n, m - 1) + Times(signal(n + m - 1), taps[m - 1])
  }

  function Filtered(signal: int -> real, filter: Prefilter, n: int): real {
    if filter.NoFilter? then signal(n) else Dot(signal, filter.taps, n, |filter.taps|)
  }

  function Neighbours(signal: int -> real, filter: Prefilter, index: int, points: nat): (ys: seq<real>)
    ensures |ys| == points
  {
    seq(points, i => Filtered(signal, filter, index + i))
  }

  /** The interpolated value for a position of the decimator: `points / 2 - 1` samples further on. */
  function Resample(signal: int -> real, filter: Prefilter, points: nat, position: real): real {
    var index := Ceil(position) - 1;
    Interpolate(1 - points / 2, points, Neighbours(signal, filter, index, points), points,
                position - index as real)
  }

  /** Where output k of every run is taken. */
  function Position(points: nat, rate: real, k: int): real {
    (points / 2 - 1) as real + Steps(k, rate)
  }

  /** The run can produce output k from `arrived` samples. */
  predicate Reachable(points: nat, rate: real, overhead: nat, arrived: int, k: int) {
    Ceil(Position(points, rate, k)) + points + overhead < arrived
  }

  /** The samples an output is made of: `points` of them, the middle ones around the output. */
  lemma Stencil(signal: int -> real, points: nat, position: real, index: int, ys: seq<real>)
    requires index as real < position <= index as real + 1.0
    requires |ys| == points && forall i :: 0 <= i < points ==> ys[i] == signal(index + i)
    ensures Resample(signal, NoFilter, points, position)
         == Interpolate(1 - points / 2, points, ys, points, position - index as real)
  {
    hide Interpolate, Ceil, Neighbours;
    CeilBounds(position, 0);
    assert Ceil(position) - 1 == index;
    Unfiltered(signal, index, points, ys);
  }

  lemma Unfiltered(signal: int -> real, index: int, points: nat, ys: seq<real>)
    requires |ys| == points && forall i :: 0 <= i < points ==> ys[i] == signal(index + i)
    ensures Neighbours(signal, NoFilter, index, points) == ys
  {
    var zs := Neighbours(signal, NoFilter, index, points);
    forall i | 0 <= i < points ensures zs[i] == ys[i] {
      assert zs[i] == Filtered(signal, NoFilter, index + i);
    }
  }

  /** The condition of the source without rounding: output k leaves `points` samples and the taps in the window. */
  lemma ReachableExactly(points: nat, rate: real, overhead: nat, arrived: int, k: int)
    ensures Reachable(points, rate, overhead, arrived, k)
       <==> (points / 2 - 1) as real + k as real * rate <= (arrived - 1 - points - overhead) as real
  {
    var p := (points / 2 - 1) as real + k as real * rate;
    assert Position(points, rate, k) == p;
    CeilBounds(p, 0);
  }

  lemma PositionStep(points: nat, rate: real, k: int)
    ensures Position(points, rate, k + 1) == Position(points, rate, k) + rate
    ensures Position(points, rate, 0) == (points / 2 - 1) as real
  {
    hide Steps;
    StepsAdd(k, 1, rate);
  }

  /** The samples a call may use: what is available, or what the writer has room for. */
  function Size(rate: real, available: nat, writeable: nat): int
    requires rate > 0.0
  {
    Min(available, Ceil(writeable as real / rate))
  }

  /** A sample is usable if it is available and the outputs up to it, at one for each, leave room. */
  lemma UsableExactly(rate: real, available: nat, writeable: nat, s: int)
    requires rate > 0.0
    ensures s < Size(rate, available, writeable) <==> s < available && s as real * rate < writeable as real
  {
    var q, product := writeable as real / rate, s as real * rate;
    CeilBounds(q, 0);
    DivideTimes(writeable as real, rate);
    OrderOfProducts(s as real, q, rate, product, writeable as real);
  }

  lemma OrderOfProducts(a: real, b: real, c: real, ac: real, bc: real)
    requires c > 0.0 && ac == a * c && bc == b * c
    ensures a < b <==> ac < bc
  {
    if a < b {
      StrictProduct(a, b, c);
    } else if b < a {
      StrictProduct(b, a, c);
    }
  }

  lemma SizeBounds(rate: real, available: nat, writeable: nat)
    requires rate > 0.0
    ensures Size(rate, available, writeable) <= available
    ensures rate >= 1.0 ==> 0 <= Size(rate, available, writeable) <= writeable
  {
    if rate >= 1.0 {
      DivideShrinks(writeable as real, rate);
    }
  }

  /** How many outputs a call produces that starts at `where` and may use `size` samples. */
  function CallOutputs(points: nat, rate: real, overhead: nat, where: real, size: int): nat
    requires rate > 0.0
    decreases ((size as real - where) / rate).Floor
  {
    if Ceil(where) + points + overhead < size then
      CallStep(points, rate, overhead, where, size);
      1 + CallOutputs(points, rate, overhead, where + rate, size)
    else 0
  }

  lemma CallStep(points: nat, rate: real, overhead: nat, where: real, size: int)
    requires rate > 0.0 && Ceil(where) + points + overhead < size
    ensures where <= (size - 1 - points - overhead) as real
    ensures ((size as real - (where + rate)) / rate).Floor < ((size as real - where) / rate).Floor
    ensures ((size as real - where) / rate).Floor >= 0
  {
    CeilBounds(where, 0);
    StepsLeft(size as real - where, size as real - (where + rate), rate);
  }

  lemma CallContinues(points: nat, rate: real, overhead: nat, where: real, size: int)
    requires rate > 0.0 && Ceil(where) + points + overhead < size
    ensures CallOutputs(points, rate, overhead, where, size)
         == 1 + CallOutputs(points, rate, overhead, where + rate, size)
  {}

  lemma CallEnds(points: nat, rate: real, overhead: nat, where: real, size: int)
    requires rate > 0.0 && Ceil(where) + points + overhead >= size
    ensures CallOutputs(points, rate, overhead, where, size) == 0
  {}

  /**
   The first output of all reads from `index` on, which is inside the window for 4 points
   and more only. Two points read the sample in front of it. No points read nothing, but
   the unsigned sum that guards the loop wraps around.
   */
  lemma FirstIndex(points: nat, index: int)
    requires points % 2 == 0 && index == Ceil((points / 2 - 1) as real) - 1
    ensures index >= 0 <==> points >= 4
    ensures points == 2 ==> index == -1
    ensures points == 0 ==> (index + 1 + points) % 0x1_0000_0000 == 0xFFFF_FFFF
  {
    assert -((points / 2 - 1) as real) == (1 - points / 2) as real;
  }

  /** Re-basing after the last of `count` outputs, taken at `last`. */
  lemma Rebase(first: bool, start: real, last: real, count: nat, half: int, rate: real)
    requires half >= 2 && rate > 0.0 && count >= 1
    requires if count == 1 then last == start else last >= start + rate
    requires if first then start == (half - 1) as real else start > (half - 1) as real + rate
    ensures var advanced := Ceil(last) - half;
            && advanced >= -1
            && (advanced == -1 <==> first && count == 1)
            && (!first && rate >= 1.0 ==> advanced > 0)
            && (half - 1) as real + rate < last + rate - advanced as real <= half as real + rate
            && Ceil(last + rate - advanced as real) + advanced == Ceil(last + rate)
  {
    var advanced := Ceil(last) - half;
    CeilBounds(last, 0);
    CeilBounds(last + rate - advanced as real, advanced);
  }

  /** The loop over xj: all differences to the nodes but the one to `skip`. */
  method ProductOfDifferences(first: int, n: nat, skip: int, t: real) returns (product: real)
    ensures product == SkipProduct(first, n, skip, t)
  {
    hide Times;
    product := 1.0;
    for j := 0 to n
      invariant product == SkipProduct(first, j, skip, t)
    {
      if first + j != skip {
        product := Times(product, t - Node(first, j));
      }
    }
  }

  /** One input value, through the prefilter if there is one. */
  method Sample(filter: Prefilter, input: seq<real>, index: nat, ghost signal: int -> real, ghost from: int)
    returns (sample: real)
    requires index < |input| && index + filter.Overhead() <= |input|
    requires forall i :: 0 <= i < |input| ==> input[i] == signal(from + i)
    ensures sample == Filtered(signal, filter, from + index)
  {
    hide Times;
    if filter.NoFilter? {
      return input[index];
    }
    sample := 0.0;
    for t := 0 to |filter.taps|
      invariant sample == Dot(signal, filter.taps, from + index, t)
    {
      assert input[index + t] == signal(from + index + t);
      sample := sample + Times(input[index + t], filter.taps[t]);
    }
  }

  class FractionalDecimator {
    const points: nat
    const rate: real
    const filter: Prefilter
    const denominators: array<real>
    const coefficients: array<real>
    var where: real
    /** Reader position in the stream and number of outputs so far. */
    ghost var position: int
    ghost var produced: nat

    ghost predicate Tables()
      reads denominators
    {
      && points >= 4 && points % 2 == 0 && rate > 0.0
      && denominators.Length == coefficients.Length == points && denominators != coefficients
      && (forall i :: 0 <= i < points ==>
            denominators[i] == SkipProduct(1 - points / 2, points, 1 - points / 2 + i, Node(1 - points / 2, i)))
    }

    lemma TablesBounds()
      requires Tables()
      ensures points >= 4 && points % 2 == 0 && rate > 0.0
    {}

    ghost predicate Valid()
      reads this, denominators
    {
      && Tables()
      && position as real + where == Position(points, rate, produced)
      && (if produced == 0 then where == (points / 2 - 1) as real && position == 0
          else where > (points / 2 - 1) as real + rate && position >= -1)
      && where <= (points / 2) as real + rate
    }

    /** Odd numbers of points are rounded down; the source masks the lowest bit. */
    constructor (rate: real, polyPoints: nat, filter: Prefilter)
      ensures fresh(denominators) && fresh(coefficients)
      ensures points == polyPoints - polyPoints % 2 && this.rate == rate && this.filter == filter
      ensures produced == 0 && position == 0 && where == (points / 2 - 1) as real
      ensures denominators.Length == coefficients.Length == points
      ensures forall i :: 0 <= i < points ==>
                denominators[i] == SkipProduct(1 - points / 2, points, 1 - points / 2 + i, Node(1 - points / 2, i))
      ensures polyPoints >= 4 && rate > 0.0 ==> Valid()
    {
      hide Steps, Times, SkipProduct;
      var n := polyPoints - polyPoints % 2;
      points := n;
      this.rate := rate;
      this.filter := filter;
      denominators := new real[n];
      coefficients := new real[n];
      where := (n / 2 - 1) as real;
      position, produced := 0, 0;
      new;
      PositionStep(n, rate, 0);
      for id := 0 to n
        invariant position == 0 && produced == 0 && where == (n / 2 - 1) as real
        invariant forall i :: 0 <= i < id ==>
                    denominators[i] == SkipProduct(1 - n / 2, n, 1 - n / 2 + i, Node(1 - n / 2, i))
      {
        denominators[id] := ProductOfDifferences(1 - n / 2, n, 1 - n / 2 + id, (1 - n / 2 + id) as real);
      }
    }

    predicate CanProcess(available: nat, writeable: nat)
      reads this
      requires rate > 0.0
    {
      Ceil(where) + points + filter.Overhead() < Size(rate, available, writeable)
    }

    /** The interpolation coefficients of one output, not yet divided. */
    method ComputeCoefficients(xwhere: real)
      requires Tables()
      modifies coefficients
      ensures Tables()
      ensures forall i :: 0 <= i < points ==>
                coefficients[i] == SkipProduct(1 - points / 2, points, 1 - points / 2 + i, xwhere)
    {
      hide Times, SkipProduct, Steps, Position;
      for id := 0 to points
        invariant Tables()
        invariant forall i :: 0 <= i < id ==>
                    coefficients[i] == SkipProduct(1 - points / 2, points, 1 - points / 2 + i, xwhere)
      {
        coefficients[id] := ProductOfDifferences(1 - points / 2, points, 1 - points / 2 + id, xwhere);
      }
    }

    /** Every sample this reads, prefilter taps included, lies inside the window. */
    method Accumulate(input: seq<real>, index: nat, xwhere: real, ghost signal: int -> real, ghost from: int)
      returns (acc: real)
      requires Tables() && index + points + filter.Overhead() <= |input|
      requires forall i :: 0 <= i < |input| ==> input[i] == signal(from + i)
      requires forall i :: 0 <= i < points ==>
                 coefficients[i] == SkipProduct(1 - points / 2, points, 1 - points / 2 + i, xwhere)
      ensures acc == Interpolate(1 - points / 2, points, Neighbours(signal, filter, from + index, points),
                                 points, xwhere)
    {
      hide Times, Over, SkipProduct, Steps, Position, Filtered;
      ghost var first := 1 - points / 2;
      ghost var ys := Neighbours(signal, filter, from + index, points);
      acc := 0.0;
      for i := 0 to points
        invariant acc == Interpolate(first, points, ys, i, xwhere)
      {
        DenominatorNonzero(first, points, first + i);
        var sample := Sample(filter, input, index + i, signal, from);
        assert ys[i] == sample;
        acc := acc + Times(Over(coefficients[i], denominators[i]), sample);
      }
    }

    /** One output: the signal resampled at `where`, which is relative to the window. */
    method Next(input: seq<real>, ghost signal: int -> real, ghost from: int) returns (acc: real, index: nat)
      requires Tables() && where >= 1.0 && Ceil(where) + points + filter.Overhead() < |input|
      requires forall i :: 0 <= i < |input| ==> input[i] == signal(from + i)
      modifies coefficients
      ensures Tables() && index == Ceil(where) - 1
      ensures acc == Resample(signal, filter, points, from as real + where)
    {
      hide Times, Over, Interpolate, SkipProduct, Neighbours, Ceil;
      CeilBounds(where, from);
      index := Ceil(where) - 1;
      var xwhere := where - index as real;
      assert from as real + where == where + from as real;
      assert from as real + where - (from + index) as real == xwhere;
      ComputeCoefficients(xwhere);
      acc := Accumulate(input, index, xwhere, signal, from);
    }

    /** The output loop, for `size` usable samples. Moves `where` on, but does not re-base it. */
    method Produce(input: seq<real>, size: int, ghost signal: int -> real)
      returns (output: seq<real>, index: nat, ghost last: real)
      requires Tables() && where >= 1.0 && Ceil(where) + points + filter.Overhead() < size <= |input|
      requires position as real + where == Position(points, rate, produced)
      requires forall i :: 0 <= i < |input| ==> input[i] == signal(position + i)
      modifies this`where, coefficients
      ensures Tables() && |output| >= 1 && (rate >= 1.0 ==> |output| <= size)
      ensures position as real + where == Position(points, rate, produced + |output|)
      ensures where == last + rate && index == Ceil(last) - 1 < size - points
      ensures if |output| == 1 then last == old(where) else last >= old(where) + rate
      ensures forall i :: 0 <= i < |output| ==>
                output[i] == Resample(signal, filter, points, Position(points, rate, produced + i))
      ensures Ceil(where) + points + filter.Overhead() >= size
      ensures Ceil(last) + points + filter.Overhead() < size
      ensures |output| == CallOutputs(points, rate, filter.Overhead(), old(where), size)
    {
      hide *;
      TablesBounds();
      CeilBounds(where, 0);
      ghost var overhead := filter.Overhead();
      output, index, last := [], 0, where;
      while Ceil(where) + points + filter.Overhead() < size
        invariant Tables()
        invariant position as real + where == Position(points, rate, produced + |output|)
        invariant where >= old(where) && (rate >= 1.0 ==> where >= old(where) + |output| as real && |output| <= size)
        invariant if |output| == 0 then where == old(where)
                  else where == last + rate && index == Ceil(last) - 1 < size - points
        invariant if |output| <= 1 then last == old(where) else last >= old(where) + rate
        invariant Ceil(last) + points + filter.Overhead() < size
        invariant |output| + CallOutputs(points, rate, overhead, where, size)
               == CallOutputs(points, rate, overhead, old(where), size)
        invariant forall i :: 0 <= i < |output| ==>
                    output[i] == Resample(signal, filter, points, Position(points, rate, produced + i))
        decreases ((size as real - where) / rate).Floor
      {
        CeilBounds(where, 0);
        CallStep(points, rate, overhead, where, size);
        CallContinues(points, rate, overhead, where, size);
        var acc;
        acc, index := Next(input, signal, position);
        PositionStep(points, rate, produced + |output|);
        output := output + [acc];
        last := where;
        where := where + rate;
      }
      CallEnds(points, rate, overhead, where, size);
    }

    /**
     All outputs the samples allow; at least one, because canProcess held. From rate 1 on
     they fit the writer and, after the first call, consume at least one sample.
     */
    method Process(input: seq<real>, writeable: nat, ghost signal: int -> real)
      returns (output: seq<real>, advanced: int)
      requires Valid() && CanProcess(|input|, writeable)
      requires forall i :: 0 <= i < |input| ==> input[i] == signal(position + i)
      modifies this, coefficients
      ensures Valid()
      ensures |output| >= 1 && (rate >= 1.0 ==> |output| <= writeable)
      ensures |output| == CallOutputs(points, rate, filter.Overhead(), old(where), Size(rate, |input|, writeable))
      ensures produced == old(produced) + |output| && position == old(position) + advanced
      ensures forall i :: 0 <= i < |output| ==>
                output[i] == Resample(signal, filter, points, Position(points, rate, old(produced) + i))
      ensures -1 <= advanced < |input|
      ensures advanced == -1 <==> old(produced) == 0 && |output| == 1
      ensures old(produced) > 0 && rate >= 1.0 ==> advanced > 0
      ensures Ceil(where) + advanced + points + filter.Overhead() >= Size(rate, |input|, writeable)
      ensures Reachable(points, rate, filter.Overhead(), old(position) + |input|, produced - 1)
    {
      hide Times, Over, Interpolate, Steps, Position, SkipProduct, Resample, Tables, Ceil, Size, CallOutputs;
      TablesBounds();
      SizeBounds(rate, |input|, writeable);
      var index;
      ghost var last;
      output, index, last := Produce(input, Size(rate, |input|, writeable), signal);
      advanced := index + 1 - points / 2;
      Rebase(old(produced) == 0, old(where), last, |output|, points / 2, rate);
      ghost var k := produced + |output| - 1;
      PositionStep(points, rate, k);
      CeilBounds(last, position);
      assert last + position as real == Position(points, rate, k);
      where := where - advanced as real;
      position := position + advanced;
      produced := produced + |output|;
    }
  }

  lemma {:induction false} DotCongruence(f: int -> real, g: int -> real, taps: seq<real>, n: int, m: nat)
    requires m <= |taps| && forall i :: n <= i < n + m ==> f(i) == g(i)
    ensures Dot(f, taps, n, m) == Dot(g, taps, n, m)
  {
    hide Times;
    if m > 0 {
      DotCongruence(f, g, taps, n, m - 1);
    }
  }

  lemma FilteredCongruence(f: int -> real, g: int -> real, filter: Prefilter, n: int)
    requires forall i :: n <= i < n + 1 + filter.Overhead() ==> f(i) == g(i)
    ensures Filtered(f, filter, n) == Filtered(g, filter, n)
  {
    if filter.Taps? {
      DotCongruence(f, g, filter.taps, n, |filter.taps|);
    }
  }

  lemma ResampleCongruence(f: int -> real, g: int -> real, filter: Prefilter, points: nat, position: real)
    requires forall i :: Ceil(position) - 1 <= i < Ceil(position) + points + filter.Overhead() ==> f(i) == g(i)
    ensures Resample(f, filter, points, position) == Resample(g, filter, points, position)
  {
    hide Times, Ceil, Interpolate, Filtered;
    var index := Ceil(position) - 1;
    forall i | 0 <= i < points
      ensures Neighbours(f, filter, index, points)[i] == Neighbours(g, filter, index, points)[i]
    {
      FilteredCongruence(f, g, filter, index + i);
    }
    assert Neighbours(f, filter, index, points) == Neighbours(g, filter, index, points);
  }

  /** No output depends on what the reader finds in front of the stream. */
  lemma StaleUnread(x: seq<real>, a: real, b: real, rate: real, points: nat, filter: Prefilter, arrived: nat, k: nat)
    requires points >= 4 && rate > 0.0 && arrived <= |x| && Reachable(points, rate, filter.Overhead(), arrived, k)
    ensures Resample(Signal(x, a), filter, points, Position(points, rate, k))
         == Resample(Signal(x, b), filter, points, Position(points, rate, k))
  {
    hide Resample, Position, Ceil;
    PositionMonotone(points, rate, 0, k);
    PositionStep(points, rate, 0);
    CeilBounds(Position(points, rate, k), 0);
    ResampleCongruence(Signal(x, a), Signal(x, b), filter, points, Position(points, rate, k));
  }

  // ----- whole runs -------------------------------------------------------------------------

  /** The writer holds more than one call's worth of positions. */
  predicate Roomy(points: nat, rate: real, overhead: nat, writeable: nat)
    requires rate > 0.0
  {
    Ceil(writeable as real / rate) > Ceil((points / 2) as real + rate) + points + overhead
  }

  predicate EndsRoomy(offers: seq<Offer>, points: nat, rate: real, overhead: nat)
    requires rate > 0.0
  {
    |offers| > 0 ==> Roomy(points, rate, overhead, offers[|offers| - 1].writeable)
  }

  lemma {:induction false} PositionMonotone(points: nat, rate: real, j: int, k: int)
    requires rate > 0.0 && j <= k
    ensures Position(points, rate, j) <= Position(points, rate, k)
    decreases k - j
  {
    hide Position;
    if j < k {
      PositionStep(points, rate, j);
      PositionMonotone(points, rate, j + 1, k);
    }
  }

  lemma ReachableEarlier(points: nat, rate: real, overhead: nat, arrived: int, j: int, k: int)
    requires rate > 0.0 && j <= k && Reachable(points, rate, overhead, arrived, k)
    ensures Reachable(points, rate, overhead, arrived, j)
  {
    hide Position;
    PositionMonotone(points, rate, j, k);
    CeilMonotone(Position(points, rate, j), Position(points, rate, k));
  }

  /** When nothing more can be processed, the next output is out of reach. */
  lemma StarvedMeansUnreachable(points: nat, rate: real, overhead: nat, where: real, position: int,
                                k: nat, arrived: nat, writeable: nat)
    requires rate > 0.0 && where <= (points / 2) as real + rate && position <= arrived
    requires position as real + where == Position(points, rate, k)
    requires Roomy(points, rate, overhead, writeable)
    requires Ceil(where) + points + overhead >= Size(rate, arrived - position, writeable)
    ensures !Reachable(points, rate, overhead, arrived, k)
  {
    hide Position, Ceil;
    CeilMonotone(where, (points / 2) as real + rate);
    CeilBounds(where, position);
    assert where + position as real == position as real + where;
  }

  /**
   A whole run: for every way the stream arrives, the outputs are the stream resampled
   at Position(0), Position(1), ..., and there are exactly as many as the samples allow.
   */
  method RunDecimator(x: seq<real>, stale: real, rate: real, polyPoints: nat, filter: Prefilter, offers: seq<Offer>)
    returns (out: seq<real>)
    requires polyPoints >= 4 && rate > 0.0
    ensures var points := polyPoints - polyPoints % 2;
            && (forall k :: 0 <= k < |out| ==>
                  out[k] == Resample(Signal(x, stale), filter, points, Position(points, rate, k)))
            && (forall k :: 0 <= k < |out| ==>
                  Reachable(points, rate, filter.Overhead(), Arrived(offers, |x|), k))
            && (EndsRoomy(offers, points, rate, filter.Overhead()) ==>
                  !Reachable(points, rate, filter.Overhead(), Arrived(offers, |x|), |out|))
  {
    hide Resample, Position, Reachable, Roomy, Size, Ceil, Arrived, Signal;
    var decimator := new FractionalDecimator(rate, polyPoints, filter);
    var points := decimator.points;
    var overhead := filter.Overhead();
    var pos, arrived := 0, 0;
    out := [];
    NothingReachable(points, rate, overhead);
    assert Arrived(offers[..0], |x|) == 0 by { NothingArrived(|x|); }
    for k := 0 to |offers|
      invariant fresh(decimator) && fresh(decimator.denominators) && fresh(decimator.coefficients)
      invariant decimator.Valid() && decimator.points == points && decimator.rate == rate
      invariant decimator.filter == filter && decimator.produced == |out| && decimator.position == pos <= arrived
      invariant arrived == Arrived(offers[..k], |x|)
      invariant EndsRoomy(offers[..k], points, rate, overhead) ==> !Reachable(points, rate, overhead, arrived, |out|)
      invariant |out| > 0 ==> Reachable(points, rate, overhead, arrived, |out| - 1)
      invariant forall k :: 0 <= k < |out| ==>
                  out[k] == Resample(Signal(x, stale), filter, points, Position(points, rate, k))
    {
      ArrivedNext(offers, |x|, k);
      if |out| > 0 {
        ReachableLater(points, rate, overhead, arrived, Min(|x|, arrived + offers[k].arriving), |out| - 1);
      }
      arrived := Min(|x|, arrived + offers[k].arriving);
      while decimator.CanProcess(arrived - pos, offers[k].writeable)
        invariant fresh(decimator) && fresh(decimator.denominators) && fresh(decimator.coefficients)
        invariant decimator.Valid() && decimator.points == points && decimator.rate == rate
        invariant decimator.filter == filter && decimator.produced == |out| && decimator.position == pos <= arrived
        invariant |out| > 0 ==> Reachable(points, rate, overhead, arrived, |out| - 1)
        invariant forall k :: 0 <= k < |out| ==>
                    out[k] == Resample(Signal(x, stale), filter, points, Position(points, rate, k))
        decreases ((arrived as real - Position(points, rate, |out|)) / rate).Floor
      {
        var from := pos;
        OutputsLeft(points, rate, overhead, arrived, |out|, pos, decimator.where, offers[k].writeable);
        var window := seq(arrived - pos, i => Signal(x, stale)(from + i));
        var output, advanced := decimator.Process(window, offers[k].writeable, Signal(x, stale));
        FewerLeft(points, rate, arrived, |out|, |output|);
        out := out + output;
        pos := pos + advanced;
      }
      if Roomy(points, rate, overhead, offers[k].writeable) {
        StarvedMeansUnreachable(points, rate, overhead, decimator.where, pos, |out|, arrived, offers[k].writeable);
      }
    }
    assert offers[..|offers|] == offers;
    forall k | 0 <= k < |out| ensures Reachable(points, rate, overhead, arrived, k) {
      ReachableEarlier(points, rate, overhead, arrived, k, |out| - 1);
    }
  }

  lemma OutputsLeft(points: nat, rate: real, overhead: nat, arrived: nat, k: nat,
                    position: int, where: real, writeable: nat)
    requires rate > 0.0 && position <= arrived
    requires position as real + where == Position(points, rate, k)
    requires Ceil(where) + points + overhead < Size(rate, arrived - position, writeable)
    ensures ((arrived as real - Position(points, rate, k)) / rate).Floor >= 0
  {
    hide Position, Ceil, Size;
    CeilBounds(where, 0);
    SizeBounds(rate, arrived - position, writeable);
    var gap := arrived as real - Position(points, rate, k);
    StepsLeft(gap, gap - rate, rate);
  }

  lemma FewerLeft(points: nat, rate: real, arrived: nat, k: nat, n: nat)
    requires rate > 0.0 && n >= 1
    ensures ((arrived as real - Position(points, rate, k + n)) / rate).Floor
          < ((arrived as real - Position(points, rate, k)) / rate).Floor
  {
    hide Position;
    PositionStep(points, rate, k);
    PositionMonotone(points, rate, k + 1, k + n);
    StepsLeft(arrived as real - Position(points, rate, k), arrived as real - Position(points, rate, k + n), rate);
  }

  lemma NothingReachable(points: nat, rate: real, overhead: nat)
    requires points >= 4
    ensures !Reachable(points, rate, overhead, 0, 0)
  {
    hide Position;
    PositionStep(points, rate, 0);
    CeilBounds((points / 2 - 1) as real, 0);
  }

  lemma ReachableLater(points: nat, rate: real, overhead: nat, before: nat, arrived: nat, k: int)
    requires before <= arrived && Reachable(points, rate, overhead, before, k)
    ensures Reachable(points, rate, overhead, arrived, k)
  {}

  // ----- below rate 1 -----------------------------------------------------------------------

  /** A room for which 1 / rate and rate times as many samples lie far enough apart. */
  lemma WideRoom(rate: real, margin: nat) returns (room: nat)
    requires 0.0 < rate < 1.0
    ensures room as real / rate > Steps(room, rate) + margin as real
  {
    var inverse := 1.0 / rate;
    DivideTimes(1.0, rate);
    InverseAboveOne(rate, inverse);
    var e := inverse - rate;
    room := RoomAbove(margin, e);
    RoomTimes(room as real, rate, inverse, margin as real);
    DivideExactly(room as real, rate, room as real * inverse);
    assert Steps(room, rate) == room as real * rate;
  }

  lemma RoomAbove(margin: nat, e: real) returns (room: nat)
    requires e > 0.0
    ensures margin as real < room as real * e
  {
    DivideTimes(margin as real, e);
    room := (margin as real / e).Floor + 1;
    StrictProduct(margin as real / e, room as real, e);
  }

  lemma RoomTimes(r: real, rate: real, inverse: real, margin: real)
    requires inverse * rate == 1.0 && margin < r * (inverse - rate)
    ensures r == r * inverse * rate
    ensures r * inverse > r * rate + margin
  {
    assert r * inverse * rate == r * (inverse * rate);
    assert r * (inverse - rate) == r * inverse - r * rate;
  }

  lemma InverseAboveOne(rate: real, inverse: real)
    requires 0.0 < rate < 1.0 && inverse * rate == 1.0
    ensures inverse > 1.0
  {
    if inverse < 1.0 {
      StrictProduct(inverse, 1.0, rate);
    }
  }

  lemma StrictProduct(a: real, b: real, c: real)
    requires a < b && c > 0.0
    ensures a * c < b * c
  {}

  lemma StepsMonotone(k: nat, n: nat, rate: real)
    requires k <= n && rate > 0.0
    ensures Steps(k, rate) <= Steps(n, rate)
  {
    StepsAdd(k, n - k, rate);
  }

  /** A call stops only at a position that the samples do not reach. */
  lemma {:induction false} CallRunsOut(points: nat, rate: real, overhead: nat, where: real, size: int)
    requires rate > 0.0
    ensures Ceil(where + Steps(CallOutputs(points, rate, overhead, where, size), rate)) + points + overhead >= size
    decreases ((size as real - where) / rate).Floor
  {
    hide Steps, Ceil;
    var n := CallOutputs(points, rate, overhead, where, size);
    StepsAdd(0, 0, rate);
    if Ceil(where) + points + overhead < size {
      CallStep(points, rate, overhead, where, size);
      CallRunsOut(points, rate, overhead, where + rate, size);
      StepsAdd(1, n - 1, rate);
      assert where + rate + Steps(n - 1, rate) == where + Steps(n, rate);
    } else {
      assert where + Steps(0, rate) == where;
    }
  }

  /** It makes every output that they reach before. */
  lemma {:induction false} CallReaches(points: nat, rate: real, overhead: nat, where: real, size: int, k: nat)
    requires rate > 0.0 && k < CallOutputs(points, rate, overhead, where, size)
    ensures Ceil(where + Steps(k, rate)) + points + overhead < size
    decreases k
  {
    hide Steps, Ceil;
    StepsAdd(0, 0, rate);
    if k > 0 {
      CallStep(points, rate, overhead, where, size);
      CallReaches(points, rate, overhead, where + rate, size, k - 1);
      StepsAdd(1, k - 1, rate);
      assert where + rate + Steps(k - 1, rate) == where + Steps(k, rate);
    } else {
      assert where + Steps(0, rate) == where;
    }
  }

  /** From rate 1 on every output takes a sample of its own. */
  lemma {:induction false} CallTakesSamples(points: nat, rate: real, overhead: nat, where: real, size: nat)
    requires rate >= 1.0 && where >= 0.0
    ensures CallOutputs(points, rate, overhead, where, size) <= size
    ensures where <= size as real ==> CallOutputs(points, rate, overhead, where, size) as real <= size as real - where
    decreases ((size as real - where) / rate).Floor
  {
    hide Ceil;
    if Ceil(where) + points + overhead < size {
      CallStep(points, rate, overhead, where, size);
      CallTakesSamples(points, rate, overhead, where + rate, size);
      if where + rate > size as real {
        CeilBounds(where + rate, 0);
        CallEnds(points, rate, overhead, where + rate, size);
      }
    }
  }

  /** With a room as in `WideRoom` a first call has more outputs than the writer has room for. */
  lemma CallOverruns(points: nat, rate: real, overhead: nat, start: real, room: nat)
    requires rate > 0.0 && start <= (points - 1) as real
    requires room as real / rate > Steps(room, rate) + (2 * points + overhead) as real
    ensures CallOutputs(points, rate, overhead, start, Ceil(room as real / rate)) > room
  {
    hide Steps, Ceil, CallOutputs;
    var size := Ceil(room as real / rate);
    var n := CallOutputs(points, rate, overhead, start, size);
    CallRunsOut(points, rate, overhead, start, size);
    CeilBounds(start + Steps(n, rate), 0);
    CeilBounds(room as real / rate, 0);
    ExactRoom(points, overhead, Steps(room, rate), room as real / rate);
    if n <= room {
      StepsMonotone(n, room, rate);
      CeilMonotone(start + Steps(n, rate), (points - 1) as real + Steps(room, rate));
    }
  }

  lemma ExactRoom(points: nat, overhead: nat, steps: real, room: real)
    requires room > steps + (2 * points + overhead) as real
    ensures Ceil((points - 1) as real + steps) + points + overhead < Ceil(room)
  {
    hide *;
    CeilBounds(steps, points - 1);
    CeilBounds(steps, 2 * points + overhead);
    assert steps + (points - 1) as real == (points - 1) as real + steps;
    CeilMonotone(steps + (2 * points + overhead) as real, room);
  }

  /** No call that starts at a position the decimator can have writes more than its room. */
  ghost predicate FitsWriter(points: nat, rate: real, overhead: nat)
    requires rate > 0.0
  {
    forall where: real, available: nat, writeable: nat :: where >= (points / 2 - 1) as real ==>
      CallOutputs(points, rate, overhead, where, Size(rate, available, writeable)) <= writeable
  }

  /**
   The outputs of every call fit the writer exactly from rate 1 on. Below, the room is
   divided by the rate where it would have to be multiplied.
   */
  lemma FitsExactly(points: nat, rate: real, overhead: nat)
    requires points >= 4 && rate > 0.0
    ensures FitsWriter(points, rate, overhead) <==> rate >= 1.0
  {
    hide Steps, Ceil, Size, CallOutputs;
    if rate >= 1.0 {
      forall where: real, available: nat, writeable: nat | where >= (points / 2 - 1) as real
        ensures CallOutputs(points, rate, overhead, where, Size(rate, available, writeable)) <= writeable
      {
        SizeBounds(rate, available, writeable);
        CallTakesSamples(points, rate, overhead, where, Size(rate, available, writeable));
      }
    } else {
      var room := WideRoom(rate, 2 * points + overhead);
      CallOverruns(points, rate, overhead, (points / 2 - 1) as real, room);
      RoomUsed(rate, room);
      assert !(CallOutputs(points, rate, overhead, (points / 2 - 1) as real,
                           Size(rate, Ceil(room as real / rate), room)) <= room);
    }
  }

  lemma RoomUsed(rate: real, room: nat)
    requires rate > 0.0
    ensures Ceil(room as real / rate) >= 0
    ensures Size(rate, Ceil(room as real / rate), room) == Ceil(room as real / rate)
  {
    DivideTimes(room as real, rate);
  }

  /** The decimator itself, with or without prefilter, then writes too much in its first call. */
  method OverrunBelowOne(rate: real, polyPoints: nat, filter: Prefilter, writeable: nat) returns (written: nat)
    requires polyPoints >= 4 && rate > 0.0
    requires writeable as real / rate > Steps(writeable, rate) + (2 * polyPoints + filter.Overhead()) as real
    ensures written > writeable
  {
    hide Resample, Position, Ceil, Reachable, Steps, Size, CallOutputs;
    var decimator := new FractionalDecimator(rate, polyPoints, filter);
    var points := decimator.points;
    var available := Ceil(writeable as real / rate);
    RoomUsed(rate, writeable);
    CallOverruns(points, rate, filter.Overhead(), decimator.where, writeable);
    if Ceil(decimator.where) + points + filter.Overhead() >= Size(rate, available, writeable) {
      CallEnds(points, rate, filter.Overhead(), decimator.where, available);
      assert false;
    }
    var output, advanced := decimator.Process(seq(available, _ => 0.0), writeable, _ => 0.0);
    written := |output|;
  }

  lemma PositionIs(points: nat, rate: real, k: int)
    ensures Position(points, rate, k) == (points / 2 - 1) as real + Steps(k, rate)
  {}

  // ----- exactness on polynomials ---------------------------------------------------------------

  lemma {:induction false} SkipProductShift(first: int, n: nat, skip: int, t: real, shift: int)
    ensures SkipProduct(first, n, skip, t) == SkipProduct(first + shift, n, skip + shift, t + shift as real)
  {
    hide Times;
    if n > 0 {
      SkipProductShift(first, n - 1, skip, t, shift);
      assert t - Node(first, n - 1) == t + shift as real - Node(first + shift, n - 1);
    }
  }

  lemma {:induction false} InterpolateShift(first: int, n: nat, ys: seq<real>, m: nat, t: real, shift: int)
    requires m <= |ys|
    ensures Interpolate(first, n, ys, m, t) == Interpolate(first + shift, n, ys, m, t + shift as real)
  {
    hide Times, Over, SkipProduct;
    if m > 0 {
      InterpolateShift(first, n, ys, m - 1, t, shift);
      var i := m - 1;
      SkipProductShift(first, n, first + i, t, shift);
      SkipProductShift(first, n, first + i, Node(first, i), shift);
      assert Node(first, i) + shift as real == Node(first + shift, i);
      assert first + i + shift == first + shift + i;
      DenominatorNonzero(first, n, first + i);
      DenominatorNonzero(first + shift, n, first + shift + i);
    }
  }

  /** Samples of a polynomial with at most `points` coefficients resample to the polynomial. */
  lemma ResamplePolynomial(signal: int -> real, p: seq<real>, points: nat, position: real)
    requires points >= 2 && points % 2 == 0 && |p| <= points
    requires forall i :: Ceil(position) - 1 <= i < Ceil(position) - 1 + points ==> signal(i) == Eval(p, i as real)
    ensures Resample(signal, NoFilter, points, position) == Eval(p, position + (points / 2 - 1) as real)
  {
    hide Times, Eval, Interpolate, Ceil;
    var index := Ceil(position) - 1;
    var first := 1 - points / 2;
    var shift := index - first;
    var ys := Neighbours(signal, NoFilter, index, points);
    var t := position - index as real;
    InterpolateShift(first, points, ys, points, t, shift);
    assert first + shift == index;
    assert t + shift as real == position + (points / 2 - 1) as real;
    forall i | 0 <= i < points ensures ys[i] == Eval(p, Node(index, i)) {
      assert ys[i] == signal(index + i);
    }
    LagrangeExact(p, index, points, ys, position + (points / 2 - 1) as real);
  }

  /** A run without prefilter over the samples p(0), p(1), ... yields p(points - 2 + k * rate). */
  method RunOnPolynomial(p: seq<real>, length: nat, rate: real, polyPoints: nat, offers: seq<Offer>)
    returns (out: seq<real>)
    requires polyPoints >= 4 && rate > 0.0 && |p| <= polyPoints - polyPoints % 2
    ensures var points := polyPoints - polyPoints % 2;
            && (forall k :: 0 <= k < |out| ==> out[k] == Eval(p, (points - 2) as real + Steps(k, rate)))
            && (forall k :: 0 <= k < |out| ==> Reachable(points, rate, 0, Arrived(offers, length), k))
            && (EndsRoomy(offers, points, rate, 0) ==> !Reachable(points, rate, 0, Arrived(offers, length), |out|))
  {
    hide Times, Eval, Interpolate, Ceil, Resample, Steps, Roomy, Position, Reachable, Signal, Arrived;
    var points := polyPoints - polyPoints % 2;
    var x := seq(length, i => Eval(p, i as real));
    out := RunDecimator(x, 0.0, rate, polyPoints, NoFilter, offers);
    assert |x| == length && NoFilter.Overhead() == 0;
    forall k | 0 <= k < |out| ensures out[k] == Eval(p, (points - 2) as real + Steps(k, rate)) {
      OutputOnPolynomial(p, length, points, rate, Arrived(offers, length), k);
    }
  }

  lemma OutputOnPolynomial(p: seq<real>, length: nat, points: nat, rate: real, arrived: nat, k: nat)
    requires points >= 4 && points % 2 == 0 && rate > 0.0 && |p| <= points && arrived <= length
    requires Reachable(points, rate, 0, arrived, k)
    ensures Resample(Signal(seq(length, i => Eval(p, i as real)), 0.0), NoFilter, points, Position(points, rate, k))
         == Eval(p, (points - 2) as real + Steps(k, rate))
  {
    hide Times, Eval, Interpolate, Ceil, Resample, Steps, Position;
    var position := Position(points, rate, k);
    PositionMonotone(points, rate, 0, k);
    PositionStep(points, rate, 0);
    PositionIs(points, rate, k);
    CeilBounds(position, 0);
    ResamplePolynomial(Signal(seq(length, i => Eval(p, i as real)), 0.0), p, points, position);
    assert position + (points / 2 - 1) as real == (points - 2) as real + Steps(k, rate);
  }
}
