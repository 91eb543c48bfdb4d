/**
 src/lib/fractionaldecimator.cpp on a reader of src/lib/ringbuffer.cpp: the window of a call
 is what the reader has available, and the consumption is what it is advanced by, so that a
 consumption of -1 is an unsigned step back.
 */
module DecimatorsOnRing {
  import opened FractionalDecimators
  import opened Integers
  import opened Reals
  import opened RingBuffers
  import opened Schedules

  /** What can be left in the ring when the decimator waits for more samples. */
  function Left(points: nat, rate: real, overhead: nat): int {
    Ceil((points / 2) as real + rate) + points + overhead
  }

  /** Every chunk fits the ring beside what can be left there, and the writer never stops the decimator. */
  predicate FitsRing(offers: seq<Offer>, points: nat, rate: real, overhead: nat, size: nat)
    requires rate > 0.0
  {
    forall k :: 0 <= k < |offers| ==>
      && Roomy(points, rate, overhead, offers[k].writeable)
      && offers[k].arriving + Left(points, rate, overhead) + 1 < size
  }

  /** The number of outputs of the first call that has any. */
  function FirstOutputs(offers: seq<Offer>, total: nat, points: nat, rate: real, overhead: nat): nat
    requires rate > 0.0
  {
    if |offers| == 0 then 0
    else
      var before := FirstOutputs(offers[..|offers| - 1], total, points, rate, overhead);
      if before > 0 then before
      else CallOutputs(points, rate, overhead, (points / 2 - 1) as real,
                       Size(rate, Arrived(offers, total), offers[|offers| - 1].writeable))
  }

  lemma NextFirst(offers: seq<Offer>, total: nat, points: nat, rate: real, overhead: nat, k: nat)
    requires rate > 0.0 && k < |offers|
    ensures var before := FirstOutputs(offers[..k], total, points, rate, overhead);
            FirstOutputs(offers[..k + 1], total, points, rate, overhead) ==
              if before > 0 then before
              else CallOutputs(points, rate, overhead, (points / 2 - 1) as real,
                               Size(rate, Arrived(offers[..k + 1], total), offers[k].writeable))
  {
    hide CallOutputs, Size;
    assert offers[..k + 1][..k] == offers[..k];
  }

  /** Stream and decimator are where the reader is: `prefix` was written before the reader was opened. */
  ghost predicate Linked(decimator: FractionalDecimator, reader: RingbufferReader<real>, prefix: seq<real>,
                         x: seq<real>, arrived: nat)
    reads decimator, decimator.denominators, reader, reader.buffer, reader.buffer.data
  {
    && decimator.Valid() && reader.Valid() && reader.buffer.Valid() && arrived <= |x|
    && decimator.coefficients != reader.buffer.data && decimator.denominators != reader.buffer.data
    && reader.buffer.stream == prefix + x[..arrived] && reader.buffer.pending == 0
    && reader.taken == |prefix| + decimator.position
    && 0 <= arrived - decimator.position < reader.buffer.size
    && (decimator.produced == 0 ==> arrived - decimator.position + 1 < reader.buffer.size)
  }

  /** The window of a linked reader is the stream, but for a sample in front of it. */
  lemma WindowIsSignal(view: seq<real>, prefix: seq<real>, x: seq<real>, arrived: nat, position: int, stale: real)
    requires arrived <= |x| && -1 <= position <= arrived
    requires Shows(view, prefix + x[..arrived], |prefix| + position)
    requires position == -1 ==> stale == view[0]
    ensures |view| == arrived - position
    ensures forall j :: 0 <= j < |view| ==> view[j] == Signal(x, stale)(position + j)
  {
    forall j | 0 <= j < |view| ensures view[j] == Signal(x, stale)(position + j) {
      if position + j >= 0 {
        assert view[j] == (prefix + x[..arrived])[|prefix| + position + j];
      }
    }
  }

  /** Outputs that are the stream resampled, whatever lies in front of it. */
  ghost predicate Resampled(out: seq<real>, first: nat, x: seq<real>, filter: Prefilter, points: nat, rate: real) {
    forall k, stale :: 0 <= k < |out| ==>
      out[k] == Resample(Signal(x, stale), filter, points, Position(points, rate, first + k))
  }

  /** A call on a window that may begin in front of the stream. */
  method Call(decimator: FractionalDecimator, window: seq<real>, writeable: nat, ghost x: seq<real>,
              ghost arrived: nat, ghost stale: real)
    returns (output: seq<real>, advanced: int)
    requires decimator.Valid() && decimator.CanProcess(|window|, writeable)
    requires |window| == arrived - decimator.position && arrived <= |x|
    requires forall j :: 0 <= j < |window| ==> window[j] == Signal(x, stale)(decimator.position + j)
    modifies decimator, decimator.coefficients
    ensures decimator.Valid() && decimator.produced == old(decimator.produced) + |output| && |output| > 0
    ensures |output| == CallOutputs(decimator.points, decimator.rate, decimator.filter.Overhead(), old(decimator.where),
                                    Size(decimator.rate, |window|, writeable))
    ensures decimator.position == old(decimator.position) + advanced && -1 <= advanced < |window|
    ensures advanced == -1 <==> old(decimator.produced) == 0 && |output| == 1
    ensures Reachable(decimator.points, decimator.rate, decimator.filter.Overhead(), arrived, decimator.produced - 1)
    ensures Resampled(output, old(decimator.produced), x, decimator.filter, decimator.points, decimator.rate)
  {
    hide Resample, Position, Ceil, Reachable, Size, CallOutputs, Signal;
    ghost var first := decimator.produced;
    ghost var points, rate, filter := decimator.points, decimator.rate, decimator.filter;
    assert points >= 4 && rate > 0.0;
    output, advanced := decimator.Process(window, writeable, Signal(x, stale));
    forall k, other | 0 <= k < |output|
      ensures output[k] == Resample(Signal(x, other), filter, points, Position(points, rate, first + k))
    {
      ReachableEarlier(points, rate, filter.Overhead(), arrived, first + k, first + |output| - 1);
      StaleUnread(x, stale, other, rate, points, filter, arrived, first + k);
    }
  }

  /** A step back from this cell reaches another one than the one before. */
  predicate Astray(prefix: nat, size: nat)
    requires size > 0
  {
    prefix == 0 && WORD % size != 0
  }

  lemma LinkedFacts(decimator: FractionalDecimator, reader: RingbufferReader<real>, prefix: seq<real>,
                    x: seq<real>, arrived: nat)
    requires Linked(decimator, reader, prefix, x, arrived)
    ensures decimator.Valid() && reader.Valid() && reader.buffer.Valid() && arrived <= |x|
    ensures |reader.buffer.stream| - reader.taken == arrived - decimator.position
    ensures 0 <= arrived - decimator.position < reader.buffer.size
    ensures decimator.points >= 4 && decimator.rate > 0.0
    ensures decimator.position as real + decimator.where
         == Position(decimator.points, decimator.rate, decimator.produced)
    ensures decimator.produced == 0 ==> decimator.position == 0 && decimator.where == (decimator.points / 2 - 1) as real
    ensures decimator.where <= (decimator.points / 2) as real + decimator.rate
  {}

  /** One call of the decimator on the ring; a step back may send the reader to another cell. */
  method Step(decimator: FractionalDecimator, reader: RingbufferReader<real>, ghost prefix: seq<real>,
              ghost x: seq<real>, ghost arrived: nat, writeable: nat)
    returns (output: seq<real>, advanced: int)
    requires Linked(decimator, reader, prefix, x, arrived)
    requires decimator.CanProcess(arrived - decimator.position, writeable) && |prefix| < reader.buffer.size
    modifies decimator, decimator.coefficients, reader
    ensures decimator.Valid() && decimator.produced == old(decimator.produced) + |output| && |output| > 0
    ensures |output| == CallOutputs(decimator.points, decimator.rate, decimator.filter.Overhead(), old(decimator.where),
                                    Size(decimator.rate, arrived - old(decimator.position), writeable))
    ensures decimator.position == old(decimator.position) + advanced && advanced >= -1
    ensures advanced == -1 <==> old(decimator.produced) == 0 && |output| == 1
    ensures Reachable(decimator.points, decimator.rate, decimator.filter.Overhead(), arrived, decimator.produced - 1)
    ensures Resampled(output, old(decimator.produced), x, decimator.filter, decimator.points, decimator.rate)
    ensures advanced >= 0 || !Astray(|prefix|, reader.buffer.size)
            <==> Linked(decimator, reader, prefix, x, arrived)
  {
    hide Resample, Position, Ceil, Reachable, Size, CallOutputs, Signal, Resampled, Shows, Cell, Mirrors;
    CellOfPrefix(|prefix|, reader.buffer.size);
    var window := reader.Slice();
    ghost var stale := if decimator.position == -1 then window[0] else 0.0;
    WindowIsSignal(window, prefix, x, arrived, decimator.position, stale);
    output, advanced := Call(decimator, window, writeable, x, arrived, stale);
    reader.Advance(if advanced < 0 then WORD - 1 else advanced);
  }

  /**
   `while (canProcess()) process();`, unless a step back goes astray. Only the very first
   call can step back; `first` is the number of outputs of the first call of this drain.
   */
  method Drain(decimator: FractionalDecimator, reader: RingbufferReader<real>, prefix: seq<real>, ghost x: seq<real>,
               ghost arrived: nat, soFar: seq<real>, writeable: nat)
    returns (out: seq<real>, lost: bool, ghost first: nat)
    requires Linked(decimator, reader, prefix, x, arrived) && decimator.produced == |soFar|
    requires |prefix| < reader.buffer.size
    requires Resampled(soFar, 0, x, decimator.filter, decimator.points, decimator.rate)
    requires |soFar| > 0 ==>
               Reachable(decimator.points, decimator.rate, decimator.filter.Overhead(), arrived, |soFar| - 1)
    modifies decimator, decimator.coefficients, reader
    ensures decimator.Valid() && decimator.produced == |out| >= |soFar| + first
    ensures Resampled(out, 0, x, decimator.filter, decimator.points, decimator.rate)
    ensures |out| > 0 ==> Reachable(decimator.points, decimator.rate, decimator.filter.Overhead(), arrived, |out| - 1)
    ensures first == CallOutputs(decimator.points, decimator.rate, decimator.filter.Overhead(), old(decimator.where),
                                 Size(decimator.rate, arrived - old(decimator.position), writeable))
    ensures first == 0 ==> |out| == |soFar|
    ensures lost <==> |soFar| == 0 && first == 1 && Astray(|prefix|, reader.buffer.size)
    ensures lost ==> |out| == 1
    ensures !lost ==> Linked(decimator, reader, prefix, x, arrived)
                      && !decimator.CanProcess(arrived - decimator.position, writeable)
  {
    hide *;
    LinkedFacts(decimator, reader, prefix, x, arrived);
    ghost var points, rate, overhead := decimator.points, decimator.rate, decimator.filter.Overhead();
    out, lost, first := soFar, false, 0;
    var available := reader.Available();
    if !decimator.CanProcess(available, writeable) {
      CannotProcess(decimator, available, writeable);
      return;
    }
    var output, advanced := Step(decimator, reader, prefix, x, arrived, writeable);
    ResampledAppend(out, output, x, decimator.filter, points, rate);
    out, first := out + output, |output|;
    if advanced < 0 && Astray(|prefix|, reader.buffer.size) {
      lost := true;
      return;
    }
    out := DrainRest(decimator, reader, prefix, x, arrived, out, writeable);
  }

  /** The calls after the first, none of which steps back. */
  method DrainRest(decimator: FractionalDecimator, reader: RingbufferReader<real>, ghost prefix: seq<real>,
                   ghost x: seq<real>, ghost arrived: nat, soFar: seq<real>, writeable: nat)
    returns (out: seq<real>)
    requires Linked(decimator, reader, prefix, x, arrived) && decimator.produced == |soFar| > 0
    requires |prefix| < reader.buffer.size
    requires Resampled(soFar, 0, x, decimator.filter, decimator.points, decimator.rate)
    requires Reachable(decimator.points, decimator.rate, decimator.filter.Overhead(), arrived, |soFar| - 1)
    modifies decimator, decimator.coefficients, reader
    ensures decimator.Valid() && decimator.produced == |out| >= |soFar|
    ensures Resampled(out, 0, x, decimator.filter, decimator.points, decimator.rate)
    ensures Reachable(decimator.points, decimator.rate, decimator.filter.Overhead(), arrived, |out| - 1)
    ensures Linked(decimator, reader, prefix, x, arrived)
    ensures !decimator.CanProcess(arrived - decimator.position, writeable)
  {
    hide *;
    ghost var points, rate, overhead := decimator.points, decimator.rate, decimator.filter.Overhead();
    LinkedFacts(decimator, reader, prefix, x, arrived);
    out := soFar;
    var available := reader.Available();
    while decimator.CanProcess(available, writeable)
      invariant Linked(decimator, reader, prefix, x, arrived) && available == arrived - decimator.position
      invariant decimator.produced == |out| >= |soFar|
      invariant Resampled(out, 0, x, decimator.filter, points, rate)
      invariant Reachable(points, rate, overhead, arrived, |out| - 1)
      decreases ((arrived as real - Position(points, rate, |out|)) / rate).Floor
    {
      LinkedFacts(decimator, reader, prefix, x, arrived);
      StillToCome(decimator, arrived, available, writeable);
      var output, _ := Step(decimator, reader, prefix, x, arrived, writeable);
      ResampledAppend(out, output, x, decimator.filter, points, rate);
      FewerLeft(points, rate, arrived, |out|, |output|);
      out := out + output;
      LinkedFacts(decimator, reader, prefix, x, arrived);
      available := reader.Available();
    }
    LinkedFacts(decimator, reader, prefix, x, arrived);
  }

  lemma CannotProcess(decimator: FractionalDecimator, available: nat, writeable: nat)
    requires decimator.rate > 0.0 && !decimator.CanProcess(available, writeable)
    ensures CallOutputs(decimator.points, decimator.rate, decimator.filter.Overhead(), decimator.where,
                        Size(decimator.rate, available, writeable)) == 0
  {
    hide Size, Ceil;
  }

  lemma StillToCome(decimator: FractionalDecimator, arrived: nat, available: nat, writeable: nat)
    requires decimator.rate > 0.0 && decimator.CanProcess(available, writeable)
    requires available == arrived - decimator.position
    requires decimator.position as real + decimator.where
          == Position(decimator.points, decimator.rate, decimator.produced)
    ensures ((arrived as real - Position(decimator.points, decimator.rate, decimator.produced))
             / decimator.rate).Floor >= 0
  {
    hide Position, Size, Ceil;
    OutputsLeft(decimator.points, decimator.rate, decimator.filter.Overhead(), arrived, decimator.produced,
                decimator.position, decimator.where, writeable);
  }

  lemma CellOfPrefix(prefix: nat, size: nat)
    requires prefix < size
    ensures Cell(prefix, size) == prefix
  {
    SmallMod(prefix, size);
  }

  lemma ResampledAppend(out: seq<real>, more: seq<real>, x: seq<real>, filter: Prefilter, points: nat, rate: real)
    requires Resampled(out, 0, x, filter, points, rate) && Resampled(more, |out|, x, filter, points, rate)
    ensures Resampled(out + more, 0, x, filter, points, rate)
  {
    hide Resample, Position, Signal;
    forall k, stale | 0 <= k < |out + more|
      ensures (out + more)[k] == Resample(Signal(x, stale), filter, points, Position(points, rate, 0 + k))
    {
      if k >= |out| {
        assert more[k - |out|]
            == Resample(Signal(x, stale), filter, points, Position(points, rate, |out| + (k - |out|)));
      }
    }
  }

  /** The source writes the next chunk to the ring. */
  method Fill(decimator: FractionalDecimator, reader: RingbufferReader<real>, buffer: Ringbuffer<real>,
              ghost prefix: seq<real>, x: seq<real>, before: nat, next: nat)
    requires Linked(decimator, reader, prefix, x, before) && buffer == reader.buffer && before <= next <= |x|
    requires next - decimator.position + 1 < buffer.size && next - before < buffer.size
    modifies buffer, buffer.data
    ensures buffer.readers == old(buffer.readers)
    ensures Linked(decimator, reader, prefix, x, next)
  {
    hide Mirrors, Cell, Position;
    buffer.Put(x[before..next], next - before);
    assert prefix + x[..next] == prefix + x[..before] + x[before..next][..next - before];
  }

  lemma LeftOver(decimator: FractionalDecimator, available: nat, writeable: nat)
    requires decimator.rate > 0.0 && !decimator.CanProcess(available, writeable)
    requires decimator.where <= (decimator.points / 2) as real + decimator.rate
    requires Roomy(decimator.points, decimator.rate, decimator.filter.Overhead(), writeable)
    ensures available <= Left(decimator.points, decimator.rate, decimator.filter.Overhead())
  {
    hide Ceil;
    CeilMonotone(decimator.where, (decimator.points / 2) as real + decimator.rate);
  }

  lemma LeftPositive(points: nat, rate: real, overhead: nat)
    requires rate > 0.0
    ensures Left(points, rate, overhead) >= 0
  {
    CeilBounds((points / 2) as real + rate, 0);
  }

  lemma {:induction false} FirstStays(offers: seq<Offer>, total: nat, points: nat, rate: real, overhead: nat, k: nat)
    requires rate > 0.0 && k <= |offers|
    requires FirstOutputs(offers[..k], total, points, rate, overhead) > 0
    ensures FirstOutputs(offers, total, points, rate, overhead)
         == FirstOutputs(offers[..k], total, points, rate, overhead)
    decreases |offers| - k
  {
    hide FirstOutputs;
    if k < |offers| {
      NextFirst(offers, total, points, rate, overhead, k);
      FirstStays(offers, total, points, rate, overhead, k + 1);
    } else {
      assert offers[..k] == offers;
    }
  }

  /**
   A whole run on a ring that holds the chunks. The reader is lost exactly if it starts at
   cell 0, the first call has one output, and the size does not divide 2^64. Otherwise the
   outputs are the stream resampled, as many as there are samples for, and neither the ring
   nor what was in it before is seen in them.
   */
  method RunOnRing(prefix: seq<real>, x: seq<real>, rate: real, polyPoints: nat, filter: Prefilter, size: nat,
                   offers: seq<Offer>)
    returns (out: seq<real>, lost: bool)
    requires polyPoints >= 4 && rate > 0.0 && |prefix| < size <= WORD / 2 && size >= 2
    requires FitsRing(offers, polyPoints - polyPoints % 2, rate, filter.Overhead(), size)
    ensures Resampled(out, 0, x, filter, polyPoints - polyPoints % 2, rate)
    ensures forall k, stale :: 0 <= k < |out| ==>
              out[k] == Resample(Signal(x, stale), filter, polyPoints - polyPoints % 2,
                                 Position(polyPoints - polyPoints % 2, rate, k))
    ensures lost <==> Astray(|prefix|, size)
                      && FirstOutputs(offers, |x|, polyPoints - polyPoints % 2, rate, filter.Overhead()) == 1
    ensures lost ==> |out| == 1
    ensures !lost ==> !Reachable(polyPoints - polyPoints % 2, rate, filter.Overhead(), Arrived(offers, |x|), |out|)
    ensures |out| > 0 ==>
              Reachable(polyPoints - polyPoints % 2, rate, filter.Overhead(), Arrived(offers, |x|), |out| - 1)
  {
    hide *;
    var decimator, buffer, reader := Open(prefix, x, rate, polyPoints, filter, size);
    ghost var points, overhead := decimator.points, filter.Overhead();
    out, lost := [], false;
    var arrived: nat := 0;
    Beginning(offers, x, filter, points, rate, overhead);
    for k := 0 to |offers|
      invariant fresh(decimator) && fresh(decimator.denominators) && fresh(decimator.coefficients)
      invariant fresh(buffer) && fresh(buffer.data) && fresh(reader) && reader.buffer == buffer && buffer.size == size
      invariant decimator.points == points && decimator.rate == rate && decimator.filter == filter
      invariant Linked(decimator, reader, prefix, x, arrived) && decimator.produced == |out|
      invariant arrived == Arrived(offers[..k], |x|) <= |x|
      invariant arrived - decimator.position <= Left(points, rate, overhead)
      invariant |out| == 0 <==> FirstOutputs(offers[..k], |x|, points, rate, overhead) == 0
      invariant FirstOutputs(offers[..k], |x|, points, rate, overhead) == 1 ==> !Astray(|prefix|, size)
      invariant Resampled(out, 0, x, filter, points, rate)
      invariant |out| > 0 ==> Reachable(points, rate, overhead, arrived, |out| - 1)
      invariant !Reachable(points, rate, overhead, arrived, |out|)
    {
      ArrivedNext(offers, |x|, k);
      NextFirst(offers, |x|, points, rate, overhead, k);
      FitsNext(offers, points, rate, overhead, size, k);
      var next := Min(|x|, arrived + offers[k].arriving);
      MinBounds(|x|, arrived + offers[k].arriving);
      LinkedFacts(decimator, reader, prefix, x, arrived);
      if |out| > 0 {
        ReachableLater(points, rate, overhead, arrived, next, |out| - 1);
      }
      Fill(decimator, reader, buffer, prefix, x, arrived, next);
      arrived := next;
      LinkedFacts(decimator, reader, prefix, x, arrived);
      ghost var before := |out|;
      ghost var first;
      out, lost, first := Drain(decimator, reader, prefix, x, arrived, out, offers[k].writeable);
      if lost {
        FirstStays(offers, |x|, points, rate, overhead, k + 1);
        ArrivedLater(offers, |x|, k + 1);
        ReachableLater(points, rate, overhead, arrived, Arrived(offers, |x|), 0);
        ResampledAre(out, x, filter, points, rate);
        return;
      }
      LinkedFacts(decimator, reader, prefix, x, arrived);
      LeftOver(decimator, arrived - decimator.position, offers[k].writeable);
      NothingLeft(decimator, arrived, offers[k].writeable);
    }
    assert offers[..|offers|] == offers;
    ResampledAre(out, x, filter, points, rate);
  }

  lemma ResampledAre(out: seq<real>, x: seq<real>, filter: Prefilter, points: nat, rate: real)
    requires Resampled(out, 0, x, filter, points, rate)
    ensures forall k, stale :: 0 <= k < |out| ==>
              out[k] == Resample(Signal(x, stale), filter, points, Position(points, rate, k))
  {
    hide Resample, Position, Signal;
    forall k, stale | 0 <= k < |out|
      ensures out[k] == Resample(Signal(x, stale), filter, points, Position(points, rate, k))
    {
      assert out[k] == Resample(Signal(x, stale), filter, points, Position(points, rate, 0 + k));
    }
  }

  method Open(prefix: seq<real>, x: seq<real>, rate: real, polyPoints: nat, filter: Prefilter, size: nat)
    returns (decimator: FractionalDecimator, buffer: Ringbuffer<real>, reader: RingbufferReader<real>)
    requires polyPoints >= 4 && rate > 0.0 && |prefix| < size <= WORD / 2 && size >= 2
    ensures fresh(decimator) && fresh(decimator.denominators) && fresh(decimator.coefficients)
    ensures fresh(buffer) && fresh(buffer.data) && fresh(reader) && reader.buffer == buffer && buffer.size == size
    ensures decimator.points == polyPoints - polyPoints % 2 && decimator.rate == rate && decimator.filter == filter
    ensures Linked(decimator, reader, prefix, x, 0) && decimator.produced == 0 && decimator.position == 0
  {
    hide Mirrors, Cell, Position;
    buffer := new Ringbuffer<real>(size);
    buffer.Put(prefix, |prefix|);
    reader := new RingbufferReader(buffer);
    decimator := new FractionalDecimator(rate, polyPoints, filter);
    assert prefix + x[..0] == prefix;
  }

  lemma Beginning(offers: seq<Offer>, x: seq<real>, filter: Prefilter, points: nat, rate: real, overhead: nat)
    requires points >= 4 && rate > 0.0
    ensures Arrived(offers[..0], |x|) == 0 && FirstOutputs(offers[..0], |x|, points, rate, overhead) == 0
    ensures Resampled([], 0, x, filter, points, rate) && !Reachable(points, rate, overhead, 0, 0)
    ensures Left(points, rate, overhead) >= 0
  {
    hide Position, Ceil;
    NothingArrived(|x|);
    NothingReachable(points, rate, overhead);
    LeftPositive(points, rate, overhead);
  }

  lemma FitsNext(offers: seq<Offer>, points: nat, rate: real, overhead: nat, size: nat, k: nat)
    requires rate > 0.0 && k < |offers| && FitsRing(offers, points, rate, overhead, size)
    ensures Roomy(points, rate, overhead, offers[k].writeable)
    ensures offers[k].arriving + Left(points, rate, overhead) + 1 < size && Left(points, rate, overhead) >= 0
  {
    hide Roomy;
    LeftPositive(points, rate, overhead);
  }

  lemma MinBounds(a: nat, b: nat)
    ensures 0 <= Min(a, b) <= a && Min(a, b) <= b && (Min(a, b) == a || Min(a, b) == b)
  {}

  lemma NothingLeft(decimator: FractionalDecimator, arrived: nat, writeable: nat)
    requires decimator.Valid() && decimator.position <= arrived
    requires !decimator.CanProcess(arrived - decimator.position, writeable)
    requires Roomy(decimator.points, decimator.rate, decimator.filter.Overhead(), writeable)
    ensures !Reachable(decimator.points, decimator.rate, decimator.filter.Overhead(), arrived, decimator.produced)
  {
    hide Position, Ceil, Roomy, Reachable;
    StarvedMeansUnreachable(decimator.points, decimator.rate, decimator.filter.Overhead(), decimator.where,
                            decimator.position, decimator.produced, arrived, writeable);
  }

  lemma {:induction false} ArrivedLater(offers: seq<Offer>, total: nat, k: nat)
    requires k <= |offers|
    ensures Arrived(offers[..k], total) <= Arrived(offers, total)
    decreases |offers| - k
  {
    if k < |offers| {
      ArrivedNext(offers, total, k);
      ArrivedLater(offers, total, k + 1);
    } else {
      assert offers[..k] == offers;
    }
  }
}
