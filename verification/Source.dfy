/**
 src/lib/source.cpp (TcpSource::loop; the same arithmetic is in
 src/apps/csdr/commands.cpp:108-118): bytes of any read size are put behind the write
 pointer of a ring of elements, and only whole elements are committed. The start of
 an unfinished element stays in place, across calls and across the wrap of the ring.
 */
module ByteSources {
  import opened Integers
  import opened RingBuffers

  /** The byte address of an element position plus an offset is the byte count modulo the ring. */
  lemma ByteAddress(total: nat, size: nat, width: nat)
    requires size > 0 && width > 0
    ensures size * width > 0
    ensures Cell(total / width, size) * width + total % width == Cell(total, size * width)
  {
    var q, r := total / width, total % width;
    var p, c := q / size, q % size;
    DivBounds(total, width);
    DivBounds(q, size);
    ProductMonotone(c + 1, size, width);
    ProductMonotone(1, size, width);
    assert total == q * width + r && q == p * size + c;
    assert q * width == p * (size * width) + c * width;
    DivModUnique(total, size * width, p, c * width + r);
  }

  lemma AppendKeepsMirror<T>(cells: seq<T>, stream: seq<T>, value: T)
    requires Mirrors(cells, stream, 0)
    ensures Mirrors(cells[Cell(|stream|, |cells|) := value], stream + [value], 0)
  {
    hide Cell, Mirrors;
    assert |cells| > 0 by { MirrorHasCells(cells, stream); }
    StoreKeepsMirror(cells, stream, 0, 0, value);
    var after := cells[Cell(|stream| + 0, |cells|) := value];
    CommitKeepsMirror(after, stream, 1, 1);
    if |cells| > 1 {
      SpanStore(cells, |stream|, 0, value);
    }
    assert Span(after, |stream|, 1) == [value];
  }

  lemma MirrorHasCells<T>(cells: seq<T>, stream: seq<T>)
    requires Mirrors(cells, stream, 0)
    ensures |cells| > 0
  {}

  /** The bytes one read may return, behind `offset` bytes of an unfinished element. */
  function RoomAt(size: nat, width: nat, offset: nat): int {
    Min(size - 1, 1024) * width - offset
  }

  /**
   All bytes received once reads of these sizes follow on `total` bytes: each read returns
   no more than there is room for and than is left, and a read of nothing ends the run.
   */
  function Received(size: nat, width: nat, length: nat, total: nat, readSizes: seq<nat>): (n: nat)
    requires width > 0 && total <= length
    ensures total <= n <= length
    decreases |readSizes|
  {
    if |readSizes| == 0 then total
    else
      var n := Min(Min(readSizes[0], RoomAt(size, width, total % width)), length - total);
      if n <= 0 then total else Received(size, width, length, total + n, readSizes[1..])
  }

  /** One read: at most 1024 elements, one less than the ring, without the bytes of the unfinished one. */
  lemma ReceivedGrows(size: nat, width: nat, length: nat, total: nat, read: nat, rest: seq<nat>)
    requires width > 0 && total <= length && size > 0
    ensures Received(size, width, length, total, []) == total
    ensures var room := (if size - 1 < 1024 then size - 1 else 1024) * width - total % width;
            var n := Min(Min(read, room), length - total);
            Received(size, width, length, total, [read] + rest)
            == if n <= 0 then total else Received(size, width, length, total + n, rest)
  {
    assert ([read] + rest)[1..] == rest;
  }

  /** Enough reads of at least one byte come to the end of the stream; a ring of one element receives nothing. */
  lemma {:induction false} EverythingReceived(size: nat, width: nat, length: nat, total: nat, readSizes: seq<nat>)
    requires width > 0 && total <= length && size >= 1
    requires |readSizes| >= length - total && forall r :: 0 <= r < |readSizes| ==> readSizes[r] > 0
    ensures Received(size, width, length, total, readSizes) == if size >= 2 then length else total
    decreases |readSizes|
  {
    RoomIsPositive(size, width, total);
    if |readSizes| > 0 && total < length && size >= 2 {
      var n := Min(Min(readSizes[0], RoomAt(size, width, total % width)), length - total);
      EverythingReceived(size, width, length, total + n, readSizes[1..]);
    }
  }

  lemma RoomIsPositive(size: nat, width: nat, total: nat)
    requires width > 0
    ensures RoomAt(size, width, total % width) > 0 <==> size >= 2
  {
    DivBounds(total, width);
    if size >= 2 {
      ProductMonotone(1, Min(size - 1, 1024), width);
    } else {
      ProductMonotone(Min(size - 1, 1024), 0, width);
    }
  }

  class ElementRing<T(0)> {
    const size: nat
    const width: nat
    const bytes: array<T>
    var writePos: nat
    var offset: nat
    /** All bytes received so far. */
    ghost var received: seq<T>

    ghost predicate Valid()
      reads this, bytes
    {
      && size > 0 && width > 0 && bytes.Length == size * width
      && writePos == Cell(|received| / width, size)
      && offset == |received| % width
      && Mirrors(bytes[..], received, 0)
    }

    constructor (size: nat, width: nat)
      requires size > 0 && width > 0
      ensures Valid() && fresh(bytes) && received == [] && this.size == size && this.width == width
    {
      this.size := size;
      this.width := width;
      bytes := new T[size * width];
      writePos, offset := 0, 0;
      received := [];
      new;
      ByteAddress(0, size, width);
    }

    /** How many bytes the next read may return. */
    function Room(): int
      reads this
    {
      RoomAt(size, width, offset)
    }

    /** Stores the bytes of one read behind the write pointer and commits the finished elements. */
    method Receive(chunk: seq<T>) returns (committed: nat)
      requires Valid() && |chunk| <= Room()
      modifies this, bytes
      ensures Valid() && received == old(received) + chunk
      ensures |old(received)| / width + committed == |received| / width
    {
      hide Cell, Mirrors;
      assert width > 0;
      var address := writePos * width + offset;
      ByteAddress(|received|, size, width);
      for i := 0 to |chunk|
        invariant Mirrors(bytes[..], received, 0) && received == old(received) + chunk[..i]
        invariant writePos == old(writePos) && offset == old(offset)
      {
        CellOfSum(|old(received)|, i, bytes.Length);
        AppendKeepsMirror(bytes[..], received, chunk[i]);
        bytes[Cell(address + i, bytes.Length)] := chunk[i];
        received := received + [chunk[i]];
      }
      committed := (offset + |chunk|) / width;
      Finished(|old(received)|, |chunk|, width, size);
      writePos := Cell(writePos + committed, size);
      offset := (offset + |chunk|) % width;
    }

    /** The bytes of element k, read where the ring keeps that element. */
    method Element(k: nat) returns (element: seq<T>)
      requires Valid() && k < |received| / width
      ensures |element| == width
      ensures |received| / width - k < size ==> element == ElementOf(received, k, width)
    {
      hide Cell, Mirrors, ElementOf;
      ghost var start := k * width;
      element := [];
      for b := 0 to width
        invariant element == Span(bytes[..], start, b)
      {
        DivModUnique(k * width + b, width, k, b);
        ByteAddress(k * width + b, size, width);
        element := element + [bytes[Cell(k, size) * width + b]];
      }
      if |received| / width - k < size {
        ElementInRing(bytes[..], received, k, width, size);
      }
    }
  }

  /** What more bytes finish. */
  lemma Finished(total: nat, more: nat, width: nat, size: nat)
    requires width > 0 && size > 0
    ensures var committed := (total % width + more) / width;
            && total / width + committed == (total + more) / width
            && (total % width + more) % width == (total + more) % width
            && Cell(Cell(total / width, size) + committed, size) == Cell((total + more) / width, size)
  {
    hide Cell;
    DivBounds(total, width);
    DivModShift(total % width + more, width, total / width);
    CellOfSum(total / width, (total % width + more) / width, size);
  }

  /** Bytes k * width to k * width + width of a byte stream, where they exist. */
  function ElementOf<T>(stream: seq<T>, k: nat, width: nat): seq<T> {
    if k * width + width <= |stream| then stream[k * width..k * width + width] else []
  }

  lemma ElementBounds(total: nat, k: nat, width: nat, size: nat)
    requires width > 0 && k < total / width
    ensures 0 <= k * width && k * width + width <= total
    ensures total / width - k < size ==> total <= k * width + size * width
  {
    DivBounds(total, width);
    ProductMonotone(k + 1, total / width, width);
    ProductMonotone(0, k, width);
    assert (k + 1) * width == k * width + width;
    if total / width - k < size {
      ProductMonotone(total / width + 1, k + size, width);
      assert (k + size) * width == k * width + size * width;
      assert (total / width + 1) * width == total / width * width + width;
    }
  }

  lemma ElementInRing<T>(cells: seq<T>, stream: seq<T>, k: nat, width: nat, size: nat)
    requires Mirrors(cells, stream, 0) && width > 0 && k < |stream| / width
    requires |cells| == size * width && |stream| / width - k < size
    ensures Span(cells, k * width, width) == ElementOf(stream, k, width)
  {
    hide Cell;
    ElementBounds(|stream|, k, width, size);
    var from := k * width;
    var element := stream[from..from + width];
    forall j | 0 <= j < width ensures Span(cells, from, width)[j] == element[j] {
      assert stream[from + j] == element[j];
    }
  }

  /**
   Any sequence of read sizes: what has been committed is the first floor(total / width)
   elements of the byte stream, and the last size - 1 of them can be read back unbroken.
   A read of nothing ends the loop.
   */
  method ReceiveAll<T(0)>(size: nat, width: nat, socket: seq<T>, readSizes: seq<nat>)
    returns (total: nat, committed: nat, latest: seq<seq<T>>)
    requires size > 0 && width > 0
    ensures total == Received(size, width, |socket|, 0, readSizes)
    ensures total <= |socket| && committed == total / width
    ensures |latest| == Min(committed, size - 1)
    ensures forall i :: 0 <= i < |latest| ==> latest[i] == ElementOf(socket, committed - |latest| + i, width)
  {
    hide Cell, Mirrors, ElementOf;
    var ring := new ElementRing<T>(size, width);
    total, committed := 0, 0;
    for r := 0 to |readSizes|
      invariant fresh(ring) && fresh(ring.bytes) && ring.Valid() && ring.size == size && ring.width == width
      invariant total <= |socket| && ring.received == socket[..total] && committed == total / width
      invariant Received(size, width, |socket|, total, readSizes[r..]) == Received(size, width, |socket|, 0, readSizes)
    {
      assert readSizes[r..][1..] == readSizes[r + 1..];
      var n := Min(Min(readSizes[r], ring.Room()), |socket| - total);
      if n <= 0 {
        break;
      }
      var count := ring.Receive(socket[total..total + n]);
      total, committed := total + n, committed + count;
    }
    latest := [];
    var kept := Min(committed, size - 1);
    for i := 0 to kept
      invariant ring.Valid() && ring.size == size && ring.width == width && ring.received == socket[..total]
      invariant |latest| == i
      invariant forall j :: 0 <= j < i ==> latest[j] == ElementOf(socket, committed - kept + j, width)
    {
      var element := ring.Element(committed - kept + i);
      ElementOfPrefix(socket, total, committed - kept + i, width);
      latest := latest + [element];
    }
  }

  /** An element is the bytes at its place in the stream. */
  lemma ElementIs<T>(stream: seq<T>, total: nat, k: nat, width: nat)
    requires total <= |stream| && width > 0 && k < total / width
    ensures 0 <= k * width && k * width + width <= total
    ensures ElementOf(stream, k, width) == stream[k * width..k * width + width]
  {
    ElementBounds(total, k, width, 0);
  }

  lemma ElementOfPrefix<T>(stream: seq<T>, total: nat, k: nat, width: nat)
    requires total <= |stream| && width > 0 && k < total / width
    ensures ElementOf(stream[..total], k, width) == ElementOf(stream, k, width)
  {
    ElementBounds(total, k, width, 0);
  }
}
