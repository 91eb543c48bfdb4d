/**
 src/apps/nmux/tsmpool.cpp: a circular pool of blocks with one writer and many readers
 that may be lapped. Every method runs under the pool's mutex, so each is one atomic
 step. Counters of the model number the blocks: `taken` counts those handed to the writer,
 the last of which (taken - 1) is being filled.
 */
module TsmPools {
  import opened Integers

  function IndexNext(index: int, num: int): int { if index + 1 == num then 0 else index + 1 }

  function IndexBefore(index: int, num: int): int { if index - 1 < 0 then num - 1 else index - 1 }

  /** Stepping through the slots is counting blocks. */
  lemma SlotSteps(block: int, num: nat)
    requires num > 0
    ensures IndexNext(Cell(block, num), num) == Cell(block + 1, num)
    ensures IndexBefore(Cell(block, num), num) == Cell(block - 1, num)
  {
    DivBounds(block, num);
    var q, r := block / num, block % num;
    assert (q + 1) * num == q * num + num && (q - 1) * num == q * num - num;
    if r + 1 == num {
      DivModUnique(block + 1, num, q + 1, 0);
    } else {
      DivModUnique(block + 1, num, q, r + 1);
    }
    if r == 0 {
      DivModUnique(block - 1, num, q - 1, num - 1);
    } else {
      DivModUnique(block - 1, num, q, r - 1);
    }
  }

  /** Two blocks share a slot if and only if they are whole rounds apart. */
  lemma SameSlot(a: int, b: int, num: nat)
    requires num > 0
    ensures Cell(a, num) == Cell(b, num) <==> (a - b) % num == 0
  {
    SameRemainder(a, b, num);
  }

  /** The newest block written to a slot, or -1. */
  function Newest(taken: nat, slot: nat, num: nat): int
    requires num > 0
  {
    if slot < taken then taken - 1 - (taken - 1 - slot) % num else -1
  }

  lemma NewestBlock(taken: nat, slot: nat, num: nat)
    requires slot < num && slot < taken
    ensures Cell(Newest(taken, slot, num), num) == slot
    ensures taken - num <= Newest(taken, slot, num) < taken
    ensures 0 <= Newest(taken, slot, num)
  {
    var gap := (taken - 1 - slot) % num;
    DivBounds(taken - 1 - slot, num);
    ProductMonotone(0, (taken - 1 - slot) / num, num);
    assert (taken - 1 - gap - slot) == (taken - 1 - slot) / num * num;
    DivModUnique(taken - 1 - gap - slot, num, (taken - 1 - slot) / num, 0);
    SameSlot(taken - 1 - gap, slot, num);
    SmallMod(slot, num);
  }

  /** Writing block `taken` replaces the block of one slot and no other. */
  lemma NewestAfterTake(taken: nat, slot: nat, num: nat)
    requires slot < num
    ensures Newest(taken + 1, slot, num) == if slot == Cell(taken, num) then taken else Newest(taken, slot, num)
  {
    SmallMod(slot, num);
    SameSlot(taken, slot, num);
    if slot <= taken {
      if slot != Cell(taken, num) {
        var d := taken - slot;
        DivBounds(d, num);
        DivModUnique(d - 1, num, d / num, d % num - 1);
      }
    } else {
      SmallMod(taken, num);
    }
  }

  /**
   What a reader that waits for block `next` is handed, in terms of counts alone: nothing if
   its lag is a whole number of rounds, otherwise the block that many whole rounds on.
   */
  function Answer(taken: nat, next: int, num: nat): int
    requires num > 0
  {
    var lag := taken - 1 - next;
    if lag % num == 0 then -1 else next + lag / num * num
  }

  /** A hand-out is never the block being filled, and skips nothing exactly if the lag is below num. */
  lemma AnswerExactly(taken: nat, next: int, num: nat)
    requires num > 0 && 0 <= next < taken
    ensures var lag, block := taken - 1 - next, Answer(taken, next, num);
            && (block == -1 <==> lag % num == 0)
            && (block != -1 ==>
                  && next <= block < taken - 1 && block >= taken - num
                  && (block - next) % num == 0
                  && (block == next <==> lag < num))
  {
    var lag := taken - 1 - next;
    DivBounds(lag, num);
    ProductMonotone(0, lag / num, num);
    DivModUnique(lag / num * num, num, lag / num, 0);
    if lag >= num {
      DivMonotone(num, lag, num);
      DivModUnique(num, num, 1, 0);
      ProductMonotone(1, lag / num, num);
    } else {
      SmallMod(lag, num);
    }
  }

  class TsmThread {
    var readIndex: int
    /** One more than the last block handed out; at registration, the block being filled. */
    ghost var next: int

    constructor (readIndex: int, ghost next: int)
      ensures this.readIndex == readIndex && this.next == next
    {
      this.readIndex := readIndex;
      this.next := next;
    }

    /** The reader was registered after a first write, and has not run ahead of the writer. */
    ghost predicate Valid(pool: TsmPool)
      reads this, pool
    {
      pool.num > 0 && 0 <= next < pool.taken && readIndex == Cell(next, pool.num)
    }
  }

  class TsmPool {
    const num: nat
    var writeIndex: int
    var threads: seq<TsmThread>
    /** The model's own counts: buffers taken for writing, and the block each buffer holds. */
    var taken: nat
    var blocks: seq<int>

    ghost predicate Valid()
      reads this
    {
      && num > 0 && |blocks| == num
      && writeIndex == Cell(taken, num)
      && forall s :: 0 <= s < num ==> blocks[s] == Newest(taken, s, num)
    }

    constructor (num: nat)
      requires num > 0
      ensures Valid() && taken == 0 && this.num == num && threads == []
    {
      this.num := num;
      writeIndex := 0;
      threads := [];
      taken := 0;
      blocks := seq(num, _ => -1);
    }

    /** The writer takes the next buffer, which is now block `taken`, for filling. */
    method GetWriteBuffer() returns (slot: nat)
      requires Valid()
      modifies `writeIndex, `taken, `blocks
      ensures Valid() && taken == old(taken) + 1 && slot == Cell(old(taken), num)
      ensures blocks == old(blocks)[slot := old(taken)]
    {
      hide Cell, Newest;
      SlotSteps(taken, num);
      slot := writeIndex;
      blocks := blocks[slot := taken];
      writeIndex := IndexNext(writeIndex, num);
      taken := taken + 1;
      forall s | 0 <= s < num ensures blocks[s] == Newest(taken, s, num) {
        NewestAfterTake(taken - 1, s, num);
      }
    }

    method RegisterThread() returns (thread: TsmThread)
      requires Valid()
      modifies `threads
      ensures Valid() && fresh(thread) && threads == old(threads) + [thread]
      ensures thread.next == taken - 1 && thread.readIndex == Cell(thread.next, num)
      ensures taken > 0 ==> thread.Valid(this)
    {
      hide Cell, Newest;
      SlotSteps(taken, num);
      thread := new TsmThread(IndexBefore(writeIndex, num), taken - 1);
      threads := threads + [thread];
    }

    method RemoveThread(thread: TsmThread)
      requires Valid()
      modifies `threads
      ensures Valid()
      ensures thread !in old(threads) ==> threads == old(threads)
      ensures exists i :: 0 <= i <= |old(threads)| && thread !in old(threads)[..i]
                          && threads == old(threads)[..i] + (if i < |old(threads)| then old(threads)[i + 1..] else [])
    {
      for i := 0 to |threads|
        invariant threads == old(threads) && thread !in threads[..i]
      {
        if threads[i] == thread {
          threads := threads[..i] + threads[i + 1..];
          return;
        }
      }
      assert threads[..|threads|] == threads;
    }

    /**
     Hands out the buffer at the reader's index, unless that is the one being filled. For a
     valid reader the block in it is the next one, or, after laps, a whole number of rounds
     later.
     */
    method GetReadBuffer(thread: TsmThread) returns (slot: int, block: int)
      requires Valid() && 0 <= thread.readIndex < num
      modifies thread
      ensures slot == if old(thread.readIndex) == IndexBefore(writeIndex, num) then -1 else old(thread.readIndex)
      ensures slot == -1 ==> thread.readIndex == old(thread.readIndex) && thread.next == old(thread.next)
      ensures slot != -1 ==> block == blocks[slot] && thread.readIndex == IndexNext(old(thread.readIndex), num)
      ensures old(thread.Valid(this)) ==>
                && thread.Valid(this)
                && (slot == -1 <==> (taken - 1 - old(thread.next)) % num == 0)
                && (if slot == -1 then -1 else block) == Answer(taken, old(thread.next), num)
                && (slot != -1 ==>
                      && old(thread.next) <= block < taken - 1 && block >= taken - num
                      && (block - old(thread.next)) % num == 0
                      && thread.next == block + 1
                      && (taken - 1 - old(thread.next) < num ==> block == old(thread.next)))
    {
      hide Cell, Newest;
      if thread.readIndex == IndexBefore(writeIndex, num) {
        if thread.Valid(this) {
          SlotSteps(taken, num);
          SameSlot(taken - 1, thread.next, num);
          AnswerExactly(taken, thread.next, num);
        }
        return -1, -1;
      }
      slot := thread.readIndex;
      block := blocks[slot];
      if thread.Valid(this) {
        HandedOut(taken, thread.next, num);
      }
      thread.readIndex := IndexNext(thread.readIndex, num);
      thread.next := block + 1;
    }
  }

  /** The newest block in the slot of a reader that is not the one being filled. */
  lemma HandedOut(taken: nat, next: int, num: nat)
    requires num > 0 && 0 <= next < taken
    requires Cell(next, num) != IndexBefore(Cell(taken, num), num)
    ensures (taken - 1 - next) % num != 0
    ensures var block := Newest(taken, Cell(next, num), num);
            && next <= block < taken - 1 && block >= taken - num
            && (block - next) % num == 0
            && IndexNext(Cell(next, num), num) == Cell(block + 1, num)
            && (taken - 1 - next < num ==> block == next)
            && block == Answer(taken, next, num)
  {
    hide Cell, Newest;
    var block := Newest(taken, Cell(next, num), num);
    SlotSteps(taken, num);
    SameSlot(taken - 1, next, num);
    SlotOfSmall(next, num, taken);
    NewestBlock(taken, Cell(next, num), num);
    SameSlot(block, next, num);
    RoundsApart(block, next, num);
    SameSlot(taken - 1, block, num);
    SlotSteps(block, num);
    DivBounds(block - next, num);
    DivModUnique(taken - 1 - next, num, (block - next) / num, taken - 1 - block);
  }

  lemma SlotOfSmall(block: nat, num: nat, taken: nat)
    requires num > 0 && block < taken
    ensures Cell(block, num) < taken
  {
    DivBounds(block, num);
    ProductMonotone(0, block / num, num);
  }

  lemma RoundsApart(a: int, b: int, num: nat)
    requires num > 0 && (a - b) % num == 0
    ensures a < b ==> a <= b - num
    ensures a > b ==> a >= b + num
  {
    var k := (a - b) / num;
    DivBounds(a - b, num);
    if a < b {
      if k >= 0 { ProductMonotone(0, k, num); }
      ProductMonotone(k, -1, num);
    } else if a > b {
      if k <= 0 { ProductMonotone(k, 0, num); }
      ProductMonotone(1, k, num);
    }
  }

  // ----- runs -------------------------------------------------------------------------------

  datatype Event = Take | Register | Remove(reader: nat) | Get(reader: nat)

  /** A reader's record: the block being filled at registration, the one it waits for, and what it got. */
  datatype Reader = Reader(start: int, next: int, blocks: seq<int>, registered: bool)

  datatype History = History(taken: nat, readers: seq<Reader>)

  /** The reader is there, and a Get of it is handed a block. */
  predicate HandsOut(h: History, event: Event, num: nat)
    requires num > 0
  {
    event.Get? && event.reader < |h.readers| && h.readers[event.reader].registered
    && Answer(h.taken, h.readers[event.reader].next, num) != -1
  }

  /** One event on counts alone: no slots, no indices. */
  function Happened(h: History, event: Event, num: nat): History
    requires num > 0
  {
    match event
    case Take => h.(taken := h.taken + 1)
    case Register => h.(readers := h.readers + [Reader(h.taken - 1, h.taken - 1, [], true)])
    case Remove(r) =>
      if r < |h.readers| then h.(readers := h.readers[r := h.readers[r].(registered := false)]) else h
    case Get(r) =>
      if HandsOut(h, event, num) then
        var reader, block := h.readers[r], Answer(h.taken, h.readers[r].next, num);
        h.(readers := h.readers[r := reader.(next := block + 1, blocks := reader.blocks + [block])])
      else h
  }

  /** A run after a first GetWriteBuffer, as nmux makes it. */
  function HistoryOf(events: seq<Event>, num: nat): History
    requires num > 0
  {
    if |events| == 0 then History(1, [])
    else Happened(HistoryOf(events[..|events| - 1], num), events[|events| - 1], num)
  }

  /**
   What the events are: a taken buffer, a reader that starts at the block being filled, a
   reader that leaves, and a hand-out to a reader that is there, of the block the lag says.
   */
  lemma EventLaws(h: History, r: nat, num: nat)
    requires num > 0
    ensures Happened(h, Take, num) == History(h.taken + 1, h.readers)
    ensures Happened(h, Register, num)
         == History(h.taken, h.readers + [Reader(h.taken - 1, h.taken - 1, [], true)])
    ensures r < |h.readers| ==>
              var reader := h.readers[r];
              var lag := h.taken - 1 - reader.next;
              var block := reader.next + lag / num * num;
              && Happened(h, Remove(r), num) == History(h.taken, h.readers[r := reader.(registered := false)])
              && Happened(h, Get(r), num) ==
                   if !reader.registered || lag % num == 0 || block == -1 then h
                   else History(h.taken, h.readers[r := Reader(reader.start, block + 1, reader.blocks + [block],
                                                               reader.registered)])
  {}

  /** A reader that has left is never handed anything again. */
  lemma {:induction false} RemovedIsSilent(events: seq<Event>, r: nat, later: seq<Event>, num: nat)
    requires num > 0 && r < |HistoryOf(events, num).readers|
    ensures r < |HistoryOf(events + [Remove(r)] + later, num).readers|
    ensures HistoryOf(events + [Remove(r)] + later, num).readers[r]
         == HistoryOf(events, num).readers[r].(registered := false)
    decreases |later|
  {
    hide Answer;
    var all := events + [Remove(r)] + later;
    if |later| == 0 {
      assert all[..|events|] == events && all == events + [Remove(r)];
    } else {
      RemovedIsSilent(events, r, later[..|later| - 1], num);
      assert all[..|all| - 1] == events + [Remove(r)] + later[..|later| - 1];
    }
  }

  lemma NoHistory(num: nat)
    requires num > 0
    ensures HistoryOf([], num) == History(1, [])
  {}

  lemma HistoryNext(events: seq<Event>, num: nat, k: nat)
    requires num > 0 && k < |events|
    ensures HistoryOf(events[..k + 1], num) == Happened(HistoryOf(events[..k], num), events[k], num)
  {
    hide Happened;
    assert events[..k + 1][..k] == events[..k];
  }

  /**
   What a reader registered at block `start` has been handed: increasing blocks, successive
   ones one slot apart, so that losses are whole rounds; `next` is one past the last.
   */
  ghost predicate Delivery(blocks: seq<int>, start: int, next: int, num: nat)
    requires num > 0
  {
    && (forall i :: 0 < i < |blocks| ==> blocks[i - 1] < blocks[i] && (blocks[i] - blocks[i - 1] - 1) % num == 0)
    && (forall i :: 0 <= i < |blocks| ==> start <= blocks[i] < next)
    && (|blocks| > 0 ==> (blocks[0] - start) % num == 0)
    && next == if |blocks| == 0 then start else blocks[|blocks| - 1] + 1
  }

  lemma DeliveryGrows(blocks: seq<int>, start: int, next: int, num: nat, block: int)
    requires num > 0 && Delivery(blocks, start, next, num)
    requires next <= block && (block - next) % num == 0
    ensures Delivery(blocks + [block], start, block + 1, num)
  {
    var more := blocks + [block];
    forall i | 0 < i < |more|
      ensures more[i - 1] < more[i] && (more[i] - more[i - 1] - 1) % num == 0
    {
      if i == |blocks| {
        assert block - more[i - 1] - 1 == block - next;
      } else {
        assert more[i - 1] == blocks[i - 1] && more[i] == blocks[i];
      }
    }
  }

  /**
   In every run each reader gets a delivery, starting with the block being filled when it
   registered (or whole rounds later), and never the block that is being filled.
   */
  lemma {:induction false} EveryDelivery(events: seq<Event>, num: nat)
    requires num > 0
    ensures var h := HistoryOf(events, num);
            h.taken >= 1 && forall r :: 0 <= r < |h.readers| ==>
              Delivery(h.readers[r].blocks, h.readers[r].start, h.readers[r].next, num)
              && 0 <= h.readers[r].start <= h.readers[r].next < h.taken
  {
    hide Delivery, Answer;
    if |events| > 0 {
      var before, last := HistoryOf(events[..|events| - 1], num), events[|events| - 1];
      EveryDelivery(events[..|events| - 1], num);
      NothingDelivered(before.taken - 1, num);
      if HandsOut(before, last, num) {
        var reader := before.readers[last.reader];
        AnswerExactly(before.taken, reader.next, num);
        DeliveryGrows(reader.blocks, reader.start, reader.next, num, Answer(before.taken, reader.next, num));
      }
    }
  }

  ghost predicate GapFree(reader: Reader) {
    forall i :: 0 <= i < |reader.blocks| ==> reader.blocks[i] == reader.start + i
  }

  /** Whenever reader r was handed a block, its lag was below num. */
  ghost predicate Timely(events: seq<Event>, r: nat, num: nat)
    requires num > 0
  {
    forall k :: 0 <= k < |events| && events[k] == Get(r) ==> InTime(HistoryOf(events[..k], num), r, num)
  }

  ghost predicate InTime(h: History, r: nat, num: nat)
    requires num > 0
  {
    HandsOut(h, Get(r), num) ==> h.taken - 1 - h.readers[r].next < num
  }

  /** A reader gets every block from its registration on without a gap exactly if it was always in time. */
  lemma {:induction false} NoLossExactly(events: seq<Event>, r: nat, num: nat)
    requires num > 0 && r < |HistoryOf(events, num).readers|
    ensures GapFree(HistoryOf(events, num).readers[r]) <==> Timely(events, r, num)
    ensures GapFree(HistoryOf(events, num).readers[r])
            ==> HistoryOf(events, num).readers[r].next
                == HistoryOf(events, num).readers[r].start + |HistoryOf(events, num).readers[r].blocks|
  {
    hide Answer, Delivery;
    if |events| > 0 {
      var rest, last := events[..|events| - 1], events[|events| - 1];
      var before := HistoryOf(rest, num);
      TimelyPrefix(events, r, num);
      if r < |before.readers| {
        NoLossExactly(rest, r, num);
        EveryDelivery(rest, num);
        if last == Get(r) && HandsOut(before, last, num) {
          AnswerExactly(before.taken, before.readers[r].next, num);
          GapFreeGrows(before.readers[r], Answer(before.taken, before.readers[r].next, num));
        }
      } else {
        NotYetTimely(rest, r, num);
      }
    }
  }

  lemma TimelyPrefix(events: seq<Event>, r: nat, num: nat)
    requires num > 0 && |events| > 0
    ensures var rest, last := events[..|events| - 1], events[|events| - 1];
            && (Timely(events, r, num)
                <==> Timely(rest, r, num) && (last == Get(r) ==> InTime(HistoryOf(rest, num), r, num)))
  {
    hide InTime, HistoryOf;
    var rest := events[..|events| - 1];
    assert forall k :: 0 <= k < |rest| ==> rest[k] == events[k] && rest[..k] == events[..k];
  }

  /** Before a reader is there, nothing can have been lost. */
  lemma {:induction false} NotYetTimely(events: seq<Event>, r: nat, num: nat)
    requires num > 0 && r >= |HistoryOf(events, num).readers|
    ensures Timely(events, r, num)
  {
    hide Answer;
    if |events| > 0 {
      NotYetTimely(events[..|events| - 1], r, num);
      TimelyPrefix(events, r, num);
    }
  }

  lemma GapFreeGrows(reader: Reader, block: int)
    ensures GapFree(reader.(next := block + 1, blocks := reader.blocks + [block]))
       <==> GapFree(reader) && block == reader.start + |reader.blocks|
  {
    var more := reader.blocks + [block];
    assert more[|reader.blocks|] == block;
    assert forall i :: 0 <= i < |reader.blocks| ==> more[i] == reader.blocks[i];
  }

  lemma NothingDelivered(start: int, num: nat)
    requires num > 0
    ensures Delivery([], start, start, num)
  {}

  /**
   Every run of writer and readers on the pool itself: what the indices and slots hand out is
   what the history says, reader by reader.
   */
  method RunPool(num: nat, events: seq<Event>) returns (h: History)
    requires num > 0
    ensures h == HistoryOf(events, num)
  {
    hide Cell, Newest, Answer, HistoryOf;
    NoHistory(num);
    var pool := new TsmPool(num);
    var _ := pool.GetWriteBuffer();
    var threads: seq<TsmThread> := [];
    h := History(1, []);
    for k := 0 to |events|
      invariant fresh(pool) && pool.Valid() && pool.num == num && pool.taken == h.taken >= 1
      invariant h == HistoryOf(events[..k], num) && |threads| == |h.readers|
      invariant forall r :: 0 <= r < |threads| ==>
                  fresh(threads[r]) && threads[r].Valid(pool) && threads[r].next == h.readers[r].next
      invariant forall r, s :: 0 <= r < s < |threads| ==> threads[r] != threads[s]
    {
      HistoryNext(events, num, k);
      match events[k] {
        case Take =>
          var _ := pool.GetWriteBuffer();
          h := h.(taken := h.taken + 1);
        case Register =>
          var thread := pool.RegisterThread();
          threads := threads + [thread];
          h := h.(readers := h.readers + [Reader(h.taken - 1, h.taken - 1, [], true)]);
        case Remove(r) =>
          if r < |threads| {
            pool.RemoveThread(threads[r]);
            h := h.(readers := h.readers[r := h.readers[r].(registered := false)]);
          }
        case Get(r) =>
          if r < |threads| && h.readers[r].registered {
            var slot, block := pool.GetReadBuffer(threads[r]);
            if slot != -1 {
              var reader := h.readers[r];
              h := h.(readers := h.readers[r := reader.(next := block + 1, blocks := reader.blocks + [block])]);
            }
          }
      }
    }
    assert events[..|events|] == events;
  }

  /**
   What a reader gets first, when `before` buffers had been taken as it registered and
   `after` more until it asks. The buffer is one that was never written exactly if there was
   no first write and the writer has not been round since.
   */
  method FirstHandOut(num: nat, before: nat, after: nat) returns (slot: int, block: int)
    requires num > 0
    ensures slot == -1 <==> after % num == 0
    ensures slot != -1 ==> block == before - 1 + after / num * num
    ensures slot != -1 ==> (block == -1 <==> before == 0 && after < num)
  {
    hide Cell, Newest, Answer;
    var pool := new TsmPool(num);
    for i := 0 to before
      invariant fresh(pool) && pool.Valid() && pool.num == num && pool.taken == i
    {
      var _ := pool.GetWriteBuffer();
    }
    var thread := pool.RegisterThread();
    for i := 0 to after
      invariant fresh(pool) && pool.Valid() && pool.num == num && pool.taken == before + i
      invariant fresh(thread) && thread.next == before - 1 && thread.readIndex == Cell(before - 1, num)
    {
      var _ := pool.GetWriteBuffer();
    }
    FirstAnswer(num, before, after);
    slot, block := pool.GetReadBuffer(thread);
  }

  lemma FirstAnswer(num: nat, before: nat, after: nat)
    requires num > 0
    ensures Cell(before - 1, num) == IndexBefore(Cell(before + after, num), num) <==> after % num == 0
    ensures before > 0 ==>
              Answer(before + after, before - 1, num) == if after % num == 0 then -1 else before - 1 + after / num * num
    ensures before == 0 ==> Newest(after, Cell(-1, num), num) == after / num * num - 1
    ensures after / num * num >= 0 && (after / num * num == 0 <==> after < num)
  {
    hide Cell, Newest;
    SlotSteps(before + after, num);
    SameSlot(before + after - 1, before - 1, num);
    SlotBeforeFirst(after, num);
    RoundsSoFar(after, num);
    assert before + after - 1 - (before - 1) == after;
  }

  lemma RoundsSoFar(after: nat, num: nat)
    requires num > 0
    ensures after / num * num >= 0
    ensures after / num * num == 0 <==> after < num
  {
    DivBounds(after, num);
    if after < num {
      SmallMod(after, num);
    } else {
      DivMonotone(num, after, num);
      DivModUnique(num, num, 1, 0);
      ProductMonotone(1, after / num, num);
    }
  }

  /** The slot before the first one is written once in every round, as its last. */
  lemma SlotBeforeFirst(taken: nat, num: nat)
    requires num > 0
    ensures Cell(-1, num) == num - 1
    ensures Newest(taken, num - 1, num) == taken / num * num - 1
  {
    DivModUnique(-1, num, -1, num - 1);
    DivBounds(taken, num);
    if taken < num {
      SmallMod(taken, num);
    } else {
      DivModShift(taken, num, -1);
    }
  }
}
