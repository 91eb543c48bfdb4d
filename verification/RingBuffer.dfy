/**
 src/lib/ringbuffer.cpp: one writer, many readers, positions modulo the size over a
 mapping that repeats itself, so that a pointer access at i in [0, 2 * size) is cell
 i % size. The ghost `stream` holds everything ever committed; `writeable` ignores
 the readers, so whether the writer has overtaken a reader is the environment's doing.
 */
module RingBuffers {
  import opened Integers

  // ----- positions and cells ------------------------------------------------------------

  lemma DistinctCells(a: int, b: int, size: nat)
    requires 0 < a - b < size
    ensures Cell(a, size) != Cell(b, size)
  {
    SameRemainder(a, b, size);
    SmallMod(a - b, size);
  }

  /** Moving on from a cell is moving on in the stream. */
  lemma CellOfSum(a: int, b: int, size: nat)
    requires size > 0
    ensures Cell(Cell(a, size) + b, size) == Cell(a + b, size)
  {
    DivBounds(a, size);
    DivModShift(a % size + b, size, a / size);
  }

  /** (size + write_pos - read_pos) % size is the lag modulo the size, whatever the positions count. */
  lemma AvailableIsLag(written: int, read: int, size: nat)
    requires size > 0
    ensures (size + Cell(written, size) - Cell(read, size)) % size == (written - read) % size
  {
    DivBounds(written, size);
    DivBounds(read, size);
    var n := written / size - read / size - 1;
    assert (size + written % size - read % size) + n * size == written - read by {
      assert n * size == written / size * size - read / size * size - size;
    }
    DivModShift(size + written % size - read % size, size, n);
  }

  /** A size_t argument as the step it stands for: a caller may convert a negative int. */
  function Signed(howMuch: nat): int { if howMuch < WORD / 2 then howMuch else howMuch - WORD }

  /** The position arithmetic: the sum wraps at 64 bits before the remainder is taken. */
  function Advanced(position: nat, howMuch: nat, size: nat): nat
    requires size > 0
  {
    (position + howMuch) % WORD % size
  }

  /**
   When the arithmetic is a step of that many elements: forward always, back exactly if
   the position stays above zero or the size divides 2^64.
   */
  lemma AdvancedExactly(position: nat, howMuch: nat, size: nat)
    requires position < size <= WORD / 2 && howMuch < WORD
    ensures Advanced(position, howMuch, size) == Cell(position + Signed(howMuch), size)
       <==> position + Signed(howMuch) >= 0 || WORD % size == 0
  {
    var sum := position + howMuch;
    if sum >= WORD {
      DivModUnique(sum, WORD, 1, sum - WORD);
    } else {
      SmallMod(sum, WORD);
      SameRemainder(sum, sum - WORD, size);
    }
  }

  /** The step of -1 that the fractional decimator may take on its first call. */
  lemma StepBack(position: nat, size: nat)
    requires position < size <= WORD / 2
    ensures Advanced(position, WORD - 1, size) == Cell(position - 1, size) <==> position > 0 || WORD % size == 0
  {
    AdvancedExactly(position, WORD - 1, size);
  }

  /** The n cells from a position on. */
  function Span<T>(cells: seq<T>, position: int, n: nat): (s: seq<T>)
    requires |cells| > 0
    ensures |s| == n
  {
    seq(n, j requires 0 <= j < n => cells[Cell(position + j, |cells|)])
  }

  /** The newest cells hold the newest elements; `pending` cells past them may be half-written. */
  ghost predicate Mirrors<T>(cells: seq<T>, stream: seq<T>, pending: nat) {
    && |cells| > 0
    && forall k {:trigger stream[k]} :: 0 <= k < |stream| && |stream| + pending - |cells| <= k ==>
         cells[Cell(k, |cells|)] == stream[k]
  }

  lemma StoreKeepsMirror<T>(cells: seq<T>, stream: seq<T>, pending: nat, offset: nat, value: T)
    requires Mirrors(cells, stream, pending) && offset < |cells|
    ensures Mirrors(cells[Cell(|stream| + offset, |cells|) := value], stream, Max(pending, offset + 1))
  {
    hide Cell;
    forall k | 0 <= k < |stream| && |stream| + Max(pending, offset + 1) - |cells| <= k
      ensures Cell(k, |cells|) != Cell(|stream| + offset, |cells|)
    {
      DistinctCells(|stream| + offset, k, |cells|);
    }
  }

  lemma CommitKeepsMirror<T>(cells: seq<T>, stream: seq<T>, pending: nat, n: nat)
    requires Mirrors(cells, stream, pending)
    ensures Mirrors(cells, stream + Span(cells, |stream|, n), Max(pending - n, 0))
  {
    hide Cell;
    var longer := stream + Span(cells, |stream|, n);
    forall k | |stream| <= k < |longer| ensures cells[Cell(k, |cells|)] == longer[k] {
      assert longer[k] == Span(cells, |stream|, n)[k - |stream|];
      assert |stream| + (k - |stream|) == k;
    }
  }

  /** A view is the stream from an element on; cells stepped back over before the start may hold anything. */
  ghost predicate Shows<T>(view: seq<T>, stream: seq<T>, from: int) {
    && |view| == |stream| - from
    && (forall j :: 0 <= j < |view| && from + j >= 0 ==> view[j] == stream[from + j])
    && (from >= 0 ==> view == stream[from..])
  }

  /** A reader that has not been overtaken finds its part of the stream in one piece. */
  lemma SliceIsStream<T>(cells: seq<T>, stream: seq<T>, pending: nat, read: int)
    requires Mirrors(cells, stream, pending)
    requires read <= |stream| && |stream| - read + pending <= |cells|
    ensures Shows(Span(cells, Cell(read, |cells|), |stream| - read), stream, read)
  {
    hide Cell;
    var view := Span(cells, Cell(read, |cells|), |stream| - read);
    forall j | 0 <= j < |view| && read + j >= 0 ensures view[j] == stream[read + j] {
      CellOfSum(read, j, |cells|);
    }
    if read >= 0 {
      forall j | 0 <= j < |view| ensures view[j] == stream[read..][j] {}
    }
  }

  lemma SpanStore<T>(cells: seq<T>, position: int, n: nat, value: T)
    requires n < |cells|
    ensures Span(cells[Cell(position + n, |cells|) := value], position, n + 1) == Span(cells, position, n) + [value]
  {
    hide Cell;
    var after := Span(cells[Cell(position + n, |cells|) := value], position, n + 1);
    forall j | 0 <= j < n ensures after[j] == Span(cells, position, n)[j] {
      DistinctCells(position + n, position + j, |cells|);
    }
  }

  // ----- the buffer ------------------------------------------------------------------------

  class Ringbuffer<T(0)> {
    const data: array<T>
    const size: nat
    var writePos: nat
    var readers: set<RingbufferReader<T>>
    ghost var stream: seq<T>
    ghost var pending: nat

    ghost predicate Valid()
      reads this, data
    {
      && data.Length == size && 0 < size <= WORD / 2
      && writePos == Cell(|stream|, size)
      && Mirrors(data[..], stream, pending)
    }

    constructor (size: nat)
      requires 0 < size <= WORD / 2
      ensures Valid() && fresh(data) && this.size == size
      ensures stream == [] && pending == 0 && readers == {}
    {
      this.size := size;
      data := new T[size];
      writePos := 0;
      readers := {};
      stream := [];
      pending := 0;
    }

    function Writeable(): (n: int)
      ensures n < size
    {
      size - 1
    }

    /** A store through the write pointer, at most `Writeable` elements ahead of it. */
    method Store(offset: nat, value: T)
      requires Valid() && offset < Writeable()
      modifies data, `pending
      ensures Valid() && pending == Max(old(pending), offset + 1)
      ensures data[..] == old(data[..])[Cell(|stream| + offset, size) := value]
    {
      hide Cell;
      CellOfSum(|stream|, offset, size);
      StoreKeepsMirror(data[..], stream, pending, offset, value);
      data[Cell(writePos + offset, size)] := value;
      pending := Max(pending, offset + 1);
    }

    /** Commits whatever the next n cells hold. */
    method Advance(n: nat)
      requires Valid() && n < WORD / 2
      modifies `writePos, `stream, `pending
      ensures Valid()
      ensures stream == old(stream) + Span(data[..], |old(stream)|, n)
      ensures pending == Max(old(pending) - n, 0)
    {
      hide Cell;
      CellOfSum(|stream|, n, size);
      AdvancedExactly(writePos, n, size);
      CommitKeepsMirror(data[..], stream, pending, n);
      writePos := Advanced(writePos, n, size);
      stream := stream + Span(data[..], |stream|, n);
      pending := Max(pending - n, 0);
    }

    function Available(readPos: nat): int
      requires size > 0
      reads this
    {
      (size + writePos - readPos) % size
    }

    method AddReader(reader: RingbufferReader<T>)
      modifies `readers
      ensures readers == old(readers) + {reader}
    {
      readers := readers + {reader};
    }

    /** Writes a block through the write pointer and commits its first n elements. */
    method Put(block: seq<T>, n: nat)
      requires Valid() && n <= |block| <= Writeable()
      modifies data, `writePos, `stream, `pending
      ensures Valid() && stream == old(stream) + block[..n]
      ensures pending == Max(old(pending), |block|) - n
    {
      hide Cell, Mirrors;
      for i := 0 to |block|
        invariant Valid() && stream == old(stream) && pending == Max(old(pending), i)
        invariant Span(data[..], |stream|, i) == block[..i]
      {
        SpanStore(data[..], |stream|, i, block[i]);
        Store(i, block[i]);
      }
      assert Span(data[..], |stream|, n) == block[..n] by {
        assert Span(data[..], |stream|, n) == Span(data[..], |stream|, |block|)[..n];
      }
      Advance(n);
    }
  }

  class RingbufferReader<T(0)> {
    const buffer: Ringbuffer<T>
    var readPos: nat
    /** Where in the stream this reader is. */
    ghost var taken: int

    ghost predicate Valid()
      reads this
    {
      0 < buffer.size <= WORD / 2 && readPos == Cell(taken, buffer.size)
    }

    /** A new reader starts at the write position and is entered in the buffer's set. */
    constructor (buffer: Ringbuffer<T>)
      requires buffer.Valid()
      modifies buffer`readers
      ensures Valid() && this.buffer == buffer && taken == |buffer.stream|
      ensures buffer.readers == old(buffer.readers) + {this}
    {
      this.buffer := buffer;
      readPos := buffer.writePos;
      taken := |buffer.stream|;
      new;
      buffer.AddReader(this);
    }

    /** The lag modulo the size: exact until the writer gets a whole buffer ahead. */
    method Available() returns (n: nat)
      requires Valid() && buffer.Valid()
      ensures n == (|buffer.stream| - taken) % buffer.size
      ensures 0 <= |buffer.stream| - taken < buffer.size ==> n == |buffer.stream| - taken
    {
      AvailableIsLag(|buffer.stream|, taken, buffer.size);
      n := buffer.Available(readPos);
      if 0 <= |buffer.stream| - taken < buffer.size {
        SmallMod(|buffer.stream| - taken, buffer.size);
      }
    }

    /** Everything available, read through the read pointer without wrapping. */
    method Slice() returns (slice: seq<T>)
      requires Valid() && buffer.Valid()
      ensures Seen(slice, buffer.stream, buffer.pending, taken, buffer.size)
    {
      hide Cell, Mirrors, Shows;
      var n := Available();
      slice := [];
      for i := 0 to n
        invariant slice == Span(buffer.data[..], readPos, i)
      {
        slice := slice + [buffer.data[Cell(readPos + i, buffer.size)]];
      }
      var lag := |buffer.stream| - taken;
      if 0 <= lag < buffer.size && lag + buffer.pending <= buffer.size {
        SliceIsStream(buffer.data[..], buffer.stream, buffer.pending, taken);
      }
    }

    /** The step that the unsigned argument stands for, where the arithmetic makes it that step. */
    method Advance(howMuch: nat)
      requires Valid() && howMuch < WORD
      modifies this
      ensures taken == old(taken) + Signed(howMuch)
      ensures Valid() <==> old(readPos) + Signed(howMuch) >= 0 || WORD % buffer.size == 0
    {
      hide Cell;
      CellOfSum(taken, Signed(howMuch), buffer.size);
      AdvancedExactly(readPos, howMuch, buffer.size);
      readPos := Advanced(readPos, howMuch, buffer.size);
      taken := taken + Signed(howMuch);
    }
  }

  /** What a reader gets to see: its lag modulo the size, and its own part of the stream unless overtaken. */
  ghost predicate Seen<T>(view: seq<T>, stream: seq<T>, pending: nat, taken: int, size: nat)
    requires size > 0
  {
    var lag := |stream| - taken;
    && |view| == lag % size
    && (0 <= lag < size ==> |view| == lag)
    && (0 <= lag < size && lag + pending <= size ==> Shows(view, stream, taken))
  }

  // ----- runs ------------------------------------------------------------------------------

  /** Open adds a reader; Take advances reader i, if there is one, by an unsigned argument. */
  datatype Event<T> = Put(block: seq<T>, commit: nat) | Open | Take(reader: nat, howMuch: nat)

  /** The writer stays inside what it may write, and a step back does not wrap to another cell. */
  ghost predicate Possible<T>(before: seq<Event<T>>, event: Event<T>, size: nat)
    requires size > 0
  {
    match event
    case Put(block, commit) => commit <= |block| < size
    case Open => true
    case Take(i, n) =>
      n < WORD
      && (i < |TakenOf(before)| ==> Cell(TakenOf(before)[i], size) + Signed(n) >= 0 || WORD % size == 0)
  }

  /** The unbounded stream a run writes. */
  function StreamOf<T>(events: seq<Event<T>>): seq<T> {
    if |events| == 0 then []
    else
      var before, last := events[..|events| - 1], events[|events| - 1];
      if last.Put? then StreamOf(before) + last.block[..Min(last.commit, |last.block|)] else StreamOf(before)
  }

  /** Cells past the end of the stream that the writer has already touched. */
  function PendingOf<T>(events: seq<Event<T>>): nat {
    if |events| == 0 then 0
    else
      var before, last := events[..|events| - 1], events[|events| - 1];
      if last.Put? then Max(Max(PendingOf(before), |last.block|) - last.commit, 0) else PendingOf(before)
  }

  /** How far into the stream each reader has got. */
  function TakenOf<T>(events: seq<Event<T>>): seq<int> {
    if |events| == 0 then []
    else
      var before, last := events[..|events| - 1], events[|events| - 1];
      var taken := TakenOf(before);
      match last
      case Put(_, _) => taken
      case Open => taken + [|StreamOf(before)|]
      case Take(i, n) => if i < |taken| then taken[i := taken[i] + Signed(n)] else taken
  }

  lemma NothingPlayed<T>()
    ensures StreamOf<T>([]) == [] && PendingOf<T>([]) == 0 && TakenOf<T>([]) == []
  {}

  lemma PlayedNext<T>(events: seq<Event<T>>, k: nat)
    requires k < |events|
    ensures var before, after := events[..k], events[..k + 1];
            match events[k]
            case Put(block, commit) =>
              && StreamOf(after) == StreamOf(before) + block[..Min(commit, |block|)]
              && PendingOf(after) == Max(Max(PendingOf(before), |block|) - commit, 0)
              && TakenOf(after) == TakenOf(before)
            case Open =>
              && StreamOf(after) == StreamOf(before) && PendingOf(after) == PendingOf(before)
              && TakenOf(after) == TakenOf(before) + [|StreamOf(before)|]
            case Take(i, n) =>
              && StreamOf(after) == StreamOf(before) && PendingOf(after) == PendingOf(before)
              && TakenOf(after) == if i < |TakenOf(before)| then
                                     TakenOf(before)[i := TakenOf(before)[i] + Signed(n)]
                                   else TakenOf(before)
  {
    assert events[..k + 1][..k] == events[..k];
  }

  /** Plays the events on a buffer and its readers. */
  method Play<T(0)>(size: nat, events: seq<Event<T>>)
    returns (buffer: Ringbuffer<T>, readers: seq<RingbufferReader<T>>)
    requires 0 < size <= WORD / 2
    requires forall k :: 0 <= k < |events| ==> Possible(events[..k], events[k], size)
    ensures buffer.Valid() && buffer.size == size
    ensures buffer.stream == StreamOf(events) && buffer.pending == PendingOf(events)
    ensures |readers| == |TakenOf(events)|
    ensures forall i :: 0 <= i < |readers| ==>
              readers[i].buffer == buffer && readers[i].Valid() && readers[i].taken == TakenOf(events)[i]
  {
    hide Cell, Mirrors, StreamOf, PendingOf, TakenOf;
    NothingPlayed<T>();
    buffer := new Ringbuffer<T>(size);
    readers := [];
    for k := 0 to |events|
      invariant fresh(buffer) && fresh(buffer.data) && buffer.Valid() && buffer.size == size
      invariant buffer.stream == StreamOf(events[..k]) && buffer.pending == PendingOf(events[..k])
      invariant |readers| == |TakenOf(events[..k])|
      invariant forall i :: 0 <= i < |readers| ==>
                  fresh(readers[i]) && readers[i].buffer == buffer && readers[i].Valid()
                  && readers[i].taken == TakenOf(events[..k])[i]
      invariant forall i, j :: 0 <= i < j < |readers| ==> readers[i] != readers[j]
    {
      PlayedNext(events, k);
      assert Possible(events[..k], events[k], size);
      match events[k] {
        case Put(block, commit) =>
          buffer.Put(block, commit);
        case Open =>
          var reader := new RingbufferReader(buffer);
          readers := readers + [reader];
        case Take(i, n) =>
          if i < |readers| {
            readers[i].Advance(n);
          }
      }
    }
    assert events[..|events|] == events;
  }

  /**
   Every run, with any number of readers: each reader that is not overtaken sees exactly
   the part of the stream it has not taken yet, in one contiguous piece, whatever the
   other readers did and however many cells the writer has filled but not committed.
   */
  method RunRing<T(0)>(size: nat, events: seq<Event<T>>) returns (views: seq<seq<T>>)
    requires 0 < size <= WORD / 2
    requires forall k :: 0 <= k < |events| ==> Possible(events[..k], events[k], size)
    ensures |views| == |TakenOf(events)|
    ensures forall i :: 0 <= i < |views| ==>
              Seen(views[i], StreamOf(events), PendingOf(events), TakenOf(events)[i], size)
    ensures forall i :: 0 <= i < |views| ==>
              var lag := |StreamOf(events)| - TakenOf(events)[i];
              && |views[i]| == lag % size
              && (0 <= lag < size && lag + PendingOf(events) <= size ==>
                    && |views[i]| == lag
                    && forall j :: 0 <= j < lag && TakenOf(events)[i] + j >= 0 ==>
                         views[i][j] == StreamOf(events)[TakenOf(events)[i] + j])
  {
    hide Cell, Mirrors, StreamOf, PendingOf, TakenOf;
    var buffer, readers := Play(size, events);
    views := [];
    for i := 0 to |readers|
      invariant |views| == i && buffer.Valid()
      invariant buffer.stream == StreamOf(events) && buffer.pending == PendingOf(events)
      invariant forall j :: 0 <= j < |readers| ==>
                  readers[j].buffer == buffer && readers[j].Valid() && readers[j].taken == TakenOf(events)[j]
      invariant forall j :: 0 <= j < i ==>
                  Seen(views[j], StreamOf(events), PendingOf(events), TakenOf(events)[j], size)
    {
      var slice := readers[i].Slice();
      views := views + [slice];
      if 0 <= |buffer.stream| - readers[i].taken < size {
        SmallMod(|buffer.stream| - readers[i].taken, size);
      }
    }
  }
}
