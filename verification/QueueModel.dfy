/**
 The bare-metal message queue on values: fixed-size messages in a byte buffer, addressed by 16-bit byte offsets,
 and exactly which queues are first-in first-out.
 */
module QueueModel {
  import opened Rings

  const U16 := 0x1_0000
  const U32 := 0x1_0000_0000

  /** The queue's fields; the offsets and the maximum have 16 bits, the size of a message 32. */
  datatype Queue = Queue(mem: seq<Byte>, size: nat, max: nat, number: nat, head: nat, tail: nat)

  /** The offset after `p`: a 16-bit addition of the truncated size, reset if it is not below the 32-bit product. */
  function NextOffset(p: nat, size: nat, max: nat): nat {
    var q := (p + size % U16) % U16;
    if q >= (max * size) % U32 then 0 else q
  }

  function Overwrite(mem: seq<Byte>, at: nat, m: seq<Byte>): (r: seq<Byte>)
    requires at + |m| <= |mem|
    ensures |r| == |mem|
    ensures forall i :: 0 <= i < |mem| ==> r[i] == if at <= i < at + |m| then m[i - at] else mem[i]
  {
    mem[..at] + m + mem[at + |m|..]
  }

  /** The memory behind the handle holds `max` messages. */
  predicate HasSlots(mem: seq<Byte>, size: nat, max: nat) {
    max * size <= |mem|
  }

  /** The copy of a put or a get stays among the slots. */
  predicate PutInSlots(q: Queue) {
    q.number < q.max ==> q.tail + q.size <= q.max * q.size
  }

  predicate GetInSlots(q: Queue) {
    0 < q.number ==> q.head + q.size <= q.max * q.size
  }

  /** A full queue takes nothing. */
  function AfterPut(q: Queue, m: seq<Byte>): (r: Queue)
    requires |m| == q.size && HasSlots(q.mem, q.size, q.max) && PutInSlots(q)
    ensures r.size == q.size && r.max == q.max && |r.mem| == |q.mem|
  {
    if q.number >= q.max then q
    else q.(mem := Overwrite(q.mem, q.tail, m), number := q.number + 1, tail := NextOffset(q.tail, q.size, q.max))
  }

  /** The bytes a get copies out. */
  function Front(q: Queue): (m: seq<Byte>)
    requires HasSlots(q.mem, q.size, q.max) && 0 < q.number && GetInSlots(q)
    ensures |m| == q.size
  {
    q.mem[q.head..q.head + q.size]
  }

  function AfterGet(q: Queue): (r: Queue)
    ensures r.size == q.size && r.max == q.max && r.mem == q.mem
  {
    if q.number == 0 then q else q.(number := q.number - 1, head := NextOffset(q.head, q.size, q.max))
  }

  // ----- Runs

  datatype Op = Put(message: seq<Byte>) | Get

  /** A queue, all messages it took and all it gave out; and whether every copy stayed among the slots so far. */
  datatype History = History(q: Queue, accepted: seq<seq<Byte>>, delivered: seq<seq<Byte>>, inSlots: bool)

  function Created(mem: seq<Byte>, size: nat, max: nat): History {
    History(Queue(mem, size, max, 0, 0, 0), [], [], true)
  }

  /** A copy that leaves the slots ends what the model follows. */
  function Step(h: History, op: Op): (h': History)
    requires HasSlots(h.q.mem, h.q.size, h.q.max)
    ensures HasSlots(h'.q.mem, h'.q.size, h'.q.max) && h'.q.size == h.q.size && h'.q.max == h.q.max
  {
    if !h.inSlots then h
    else
      match op
      case Put(m) =>
        if |m| != h.q.size then h
        else if !PutInSlots(h.q) then h.(inSlots := false)
        else h.(q := AfterPut(h.q, m), accepted := if h.q.number < h.q.max then h.accepted + [m] else h.accepted)
      case Get =>
        if !GetInSlots(h.q) then h.(inSlots := false)
        else h.(q := AfterGet(h.q), delivered := if 0 < h.q.number then h.delivered + [Front(h.q)] else h.delivered)
  }

  function Run(h: History, ops: seq<Op>): (h': History)
    requires HasSlots(h.q.mem, h.q.size, h.q.max)
    ensures HasSlots(h'.q.mem, h'.q.size, h'.q.max) && h'.q.size == h.q.size && h'.q.max == h.q.max
    decreases |ops|
  {
    if ops == [] then h else Run(Step(h, ops[0]), ops[1..])
  }

  lemma {:induction false} RunAppend(h: History, a: seq<Op>, b: seq<Op>)
    requires HasSlots(h.q.mem, h.q.size, h.q.max)
    ensures Run(h, a + b) == Run(Run(h, a), b)
    decreases |a|
  {
    if a == [] {
      assert a + b == b;
    } else {
      assert (a + b)[1..] == a[1..] + b;
      RunAppend(Step(h, a[0]), a[1..], b);
    }
  }

  lemma {:induction false} StoppedStays(h: History, ops: seq<Op>)
    requires HasSlots(h.q.mem, h.q.size, h.q.max) && !h.inSlots
    ensures Run(h, ops) == h
    decreases |ops|
  {
    if ops != [] { StoppedStays(h, ops[1..]); }
  }

  /** The messages that came out are the first ones that went in, and no copy left the slots. */
  ghost predicate Fifo(h: History) {
    h.inSlots && |h.delivered| <= |h.accepted| && h.delivered == h.accepted[..|h.delivered|]
  }

  /** Offsets that fit: 2^16 bytes in all, or one slot whose size the 16-bit addition does not see. */
  predicate OffsetsFit(size: nat, max: nat) {
    max * size <= U16 || (max == 1 && size % U16 == 0)
  }

  // ----- The offsets

  lemma MulStep(i: nat, size: nat)
    ensures (i + 1) * size == i * size + size
  {
  }

  lemma MulOrder(i: nat, j: nat, size: nat)
    requires i <= j
    ensures i * size <= j * size
    ensures i < j ==> i * size + size <= j * size
  {
    if i < j {
      MulOrder(i, j - 1, size);
      MulStep(j - 1, size);
    }
  }

  /** The 16-bit sum is exact while it stays below the end of the buffer, and at the end it is reset or wraps to 0. */
  lemma StepWithin(p: nat, size: nat, end: nat)
    requires p + size + size <= end <= U16 && (size == 0 ==> p == 0)
    ensures (p + size % U16) % U16 == p + size && (size == 0 || p + size < end)
  {
    ModIsWrap(size, U16);
    ModIsWrap(p + size, U16);
  }

  lemma StepOut(p: nat, size: nat, end: nat)
    requires p + size == end <= U16
    ensures (p + size % U16) % U16 >= end || (p + size % U16) % U16 == 0
  {
    ModIsWrap(size, U16);
    ModIsWrap(p + size % U16, U16);
    if end < U16 { assert size % U16 == size; }
  }

  lemma NextOffsetIsNextSlot(i: nat, size: nat, max: nat)
    requires i < max && size < U32 && OffsetsFit(size, max)
    ensures NextOffset(i * size, size, max) == Wrap(i + 1, max) * size
  {
    if max * size <= U16 {
      MulStep(i, size);
      MulOrder(i, max, size);
      if i + 1 < max {
        MulOrder(i + 1, max, size);
        StepWithin(i * size, size, max * size);
      } else {
        StepOut(i * size, size, max * size);
      }
    }
  }

  /** The slot whose successor is the first to lie beyond 16 bits. */
  lemma FirstBeyond(size: nat, max: nat, n: nat) returns (i: nat)
    requires 0 < size < U16 && 0 < n <= max && U16 < n * size
    ensures i < max && i * size <= U16 < i * size + size && i + 1 <= n
    decreases n
  {
    MulStep(n - 1, size);
    if (n - 1) * size <= U16 { i := n - 1; } else { i := FirstBeyond(size, max, n - 1); }
  }

  lemma SecondOffset(size: nat, max: nat)
    requires 0 < size < U32 && 0 < max < U16
    ensures NextOffset(0, size, max) <= size
    ensures U16 <= size ==> NextOffset(0, size, max) < size
    ensures max == 1 ==> NextOffset(0, size, max) == if size <= U16 then 0 else size % U16
  {
  }

  /** From slot `i` the offset goes to the next slot, and from the last one to the first. */
  predicate StepsToNext(size: nat, max: nat, i: nat) {
    NextOffset(i * size, size, max) == Wrap(i + 1, max) * size
  }

  lemma OffsetStrays(size: nat, max: nat) returns (i: nat)
    requires 0 < size < U32 && 0 < max < U16 && !OffsetsFit(size, max)
    ensures i < max && !StepsToNext(size, max, i)
  {
    if max == 1 || U16 <= size {
      i := 0;
      SecondOffset(size, max);
      assert Wrap(1, max) * size == if max == 1 then 0 else size;
    } else {
      i := FirstBeyond(size, max, max);
      StraysBeyond(size, max, i);
    }
  }

  lemma StraysBeyond(size: nat, max: nat, i: nat)
    requires size < U16 && max < U16 && i < max && i * size <= U16 < i * size + size
    ensures !StepsToNext(size, max, i)
  {
    MulStep(i, size);
    MulOrder(i + 1, max, size);
    ProductIsExact(size, max);
    ModIsWrap(i * size + size, U16);
  }

  lemma ProductIsExact(size: nat, max: nat)
    requires size < U16 && max < U16
    ensures (max * size) % U32 == max * size
  {
    MulOrder(max, U16, size);
    SmallWord(max * size);
  }

  lemma SmallWord(x: nat)
    requires x < U32
    ensures x % U32 == x
  {
  }

  /** The offsets walk through all slots in turn exactly when they fit. */
  lemma OffsetsWalkTheSlotsIff(size: nat, max: nat)
    requires 0 < size < U32 && 0 < max < U16
    ensures (forall i :: 0 <= i < max ==> StepsToNext(size, max, i)) <==> OffsetsFit(size, max)
  {
    if OffsetsFit(size, max) {
      forall i | 0 <= i < max ensures StepsToNext(size, max, i) { NextOffsetIsNextSlot(i, size, max); }
    } else {
      var i := OffsetStrays(size, max);
    }
  }

  // ----- The buffer as a ring of messages

  lemma SlotFits(mem: seq<Byte>, size: nat, max: nat, i: nat)
    requires HasSlots(mem, size, max) && i < max
    ensures i * size + size <= |mem|
  {
    MulOrder(i, max, size);
  }

  /** The message in slot `i`. */
  function Slot(mem: seq<Byte>, size: nat, max: nat, i: nat): (m: seq<Byte>)
    requires HasSlots(mem, size, max) && i < max
    ensures |m| == size
  {
    SlotFits(mem, size, max, i);
    mem[i * size..i * size + size]
  }

  /** The buffer as a ring of whole messages. */
  function Slots(mem: seq<Byte>, size: nat, max: nat): (slots: seq<seq<Byte>>)
    requires HasSlots(mem, size, max)
    ensures |slots| == max
  {
    seq(max, i requires 0 <= i < max => Slot(mem, size, max, i))
  }

  /** The two buffers differ in slot `w` only. */
  ghost predicate SameButSlot(mem: seq<Byte>, mem': seq<Byte>, size: nat, w: nat) {
    |mem'| == |mem| && forall i :: 0 <= i < |mem| && !(w * size <= i < w * size + size) ==> mem'[i] == mem[i]
  }

  lemma SlotUnchanged(mem: seq<Byte>, mem': seq<Byte>, size: nat, max: nat, w: nat, i: nat)
    requires HasSlots(mem, size, max) && SameButSlot(mem, mem', size, w) && w < max && i < max && i != w
    ensures Slot(mem', size, max, i) == Slot(mem, size, max, i)
  {
    SlotFits(mem, size, max, i);
    if i < w { MulOrder(i, w, size); } else { MulOrder(w, i, size); }
  }

  /** Overwriting the bytes of one slot replaces that message in the ring and no other. */
  lemma SlotWritten(mem: seq<Byte>, mem': seq<Byte>, size: nat, max: nat, w: nat, message: seq<Byte>)
    requires HasSlots(mem, size, max) && SameButSlot(mem, mem', size, w) && w < max
    requires Slot(mem', size, max, w) == message
    ensures Slots(mem', size, max) == Slots(mem, size, max)[w := message]
  {
    forall i | 0 <= i < max && i != w ensures Slots(mem', size, max)[i] == Slots(mem, size, max)[i] {
      SlotUnchanged(mem, mem', size, max, w, i);
    }
  }

  /** The `n` messages from slot `first` on, wrapping. */
  function Queued<T>(slots: seq<T>, first: nat, n: nat): (q: seq<T>)
    requires n <= |slots| && (n == 0 || first < |slots|)
    ensures |q| == n
  {
    seq(n, k requires 0 <= k < n => slots[Wrap(first + k, |slots|)])
  }

  lemma QueuedAt<T>(slots: seq<T>, first: nat, n: nat)
    requires n <= |slots| && (n == 0 || first < |slots|)
    ensures forall k :: 0 <= k < n ==> Queued(slots, first, n)[k] == slots[Wrap(first + k, |slots|)]
  {
  }

  /** Writing a message into the slot behind the queued ones appends it. */
  lemma PutAppends<T>(slots: seq<T>, first: nat, n: nat, w: nat, message: T)
    requires n < |slots| && first < |slots| && w == Wrap(first + n, |slots|)
    ensures Queued(slots[w := message], first, n + 1) == Queued(slots, first, n) + [message]
    ensures Wrap(first + (n + 1), |slots|) == Wrap(w + 1, |slots|)
  {
    QueuedAt(slots, first, n);
    QueuedAt(slots[w := message], first, n + 1);
  }

  /** Taking the message at the front leaves the others. */
  lemma GetRemoves<T>(slots: seq<T>, first: nat, n: nat)
    requires 0 < n <= |slots| && first < |slots|
    ensures Queued(slots, first, n) == [slots[first]] + Queued(slots, Wrap(first + 1, |slots|), n - 1)
    ensures Wrap(Wrap(first + 1, |slots|) + (n - 1), |slots|) == Wrap(first + n, |slots|)
  {
    QueuedAt(slots, first, n);
    QueuedAt(slots, Wrap(first + 1, |slots|), n - 1);
  }

  // ----- Queues that fit

  /** The offsets stand for the slots of the first message and of the one behind the last. */
  ghost predicate Ready(q: Queue, first: nat) {
    && HasSlots(q.mem, q.size, q.max) && q.number <= q.max && (if q.max == 0 then first == 0 else first < q.max)
    && q.head == first * q.size
    && q.tail == (if q.max == 0 then 0 else Wrap(first + q.number, q.max) * q.size)
  }

  function Contents(q: Queue, first: nat): seq<seq<Byte>>
    requires Ready(q, first)
  {
    Queued(Slots(q.mem, q.size, q.max), first, q.number)
  }

  lemma ReadyPutInSlots(q: Queue, first: nat)
    requires Ready(q, first)
    ensures PutInSlots(q) && GetInSlots(q)
  {
    if q.number < q.max { MulOrder(Wrap(first + q.number, q.max), q.max, q.size); }
    if 0 < q.number { MulOrder(first, q.max, q.size); }
  }

  lemma PutKeepsReady(q: Queue, first: nat, m: seq<Byte>)
    requires Ready(q, first) && |m| == q.size < U32 && OffsetsFit(q.size, q.max) && q.number < q.max && PutInSlots(q)
    ensures Ready(AfterPut(q, m), first) && Contents(AfterPut(q, m), first) == Contents(q, first) + [m]
  {
    var w, q' := Wrap(first + q.number, q.max), AfterPut(q, m);
    SlotFits(q.mem, q.size, q.max, w);
    assert Slot(q'.mem, q.size, q.max, w) == m;
    SlotWritten(q.mem, q'.mem, q.size, q.max, w, m);
    PutAppends(Slots(q.mem, q.size, q.max), first, q.number, w, m);
    NextOffsetIsNextSlot(w, q.size, q.max);
  }

  lemma GetKeepsReady(q: Queue, first: nat)
    requires Ready(q, first) && q.size < U32 && OffsetsFit(q.size, q.max) && 0 < q.number && GetInSlots(q)
    ensures Ready(AfterGet(q), Wrap(first + 1, q.max))
    ensures Contents(q, first) == [Front(q)] + Contents(AfterGet(q), Wrap(first + 1, q.max))
  {
    GetRemoves(Slots(q.mem, q.size, q.max), first, q.number);
    NextOffsetIsNextSlot(first, q.size, q.max);
  }

  /** Every message that went in has come out or is queued, in order. */
  ghost predicate Accounted(h: History, first: nat) {
    h.inSlots && Ready(h.q, first) && h.accepted == h.delivered + Contents(h.q, first)
  }

  lemma StepKeepsAccounted(h: History, first: nat, op: Op) returns (next: nat)
    requires Accounted(h, first) && h.q.size < U32 && OffsetsFit(h.q.size, h.q.max)
    ensures Accounted(Step(h, op), next)
  {
    next := first;
    ReadyPutInSlots(h.q, first);
    match op
    case Put(m) =>
      if |m| == h.q.size && h.q.number < h.q.max { PutKeepsReady(h.q, first, m); }
    case Get =>
      if 0 < h.q.number {
        GetKeepsReady(h.q, first);
        next := Wrap(first + 1, h.q.max);
      }
  }

  lemma {:induction false} RunKeepsAccounted(h: History, first: nat, ops: seq<Op>) returns (last: nat)
    requires Accounted(h, first) && h.q.size < U32 && OffsetsFit(h.q.size, h.q.max)
    ensures Accounted(Run(h, ops), last)
    decreases |ops|
  {
    if ops == [] {
      last := first;
    } else {
      var next := StepKeepsAccounted(h, first, ops[0]);
      last := RunKeepsAccounted(Step(h, ops[0]), next, ops[1..]);
    }
  }

  lemma FittingQueueIsFifo(mem: seq<Byte>, size: nat, max: nat, ops: seq<Op>)
    requires size < U32 && HasSlots(mem, size, max) && OffsetsFit(size, max)
    ensures Fifo(Run(Created(mem, size, max), ops))
  {
    var h := Created(mem, size, max);
    assert Contents(h.q, 0) == [];
    var last := RunKeepsAccounted(h, 0, ops);
  }

  // ----- Queues that do not fit

  /** A message of `n` equal bytes. */
  function Filled(n: nat, b: Byte): (m: seq<Byte>)
    ensures |m| == n && forall i :: 0 <= i < n ==> m[i] == b
  {
    seq(n, i => b)
  }

  /** The `k`-th message out is not the `k`-th message in, though every copy stayed among the slots. */
  ghost predicate ComesOutWrong(h: History, k: nat) {
    h.inSlots && k < |h.delivered| && k < |h.accepted| && h.delivered[k] != h.accepted[k]
  }

  lemma WrongMessage(h: History, k: nat, i: nat)
    requires h.inSlots && k < |h.delivered| && k < |h.accepted| && i < |h.delivered[k]| == |h.accepted[k]|
    requires h.delivered[k][i] != h.accepted[k][i]
    ensures ComesOutWrong(h, k) && !Fifo(h)
  {
  }

  lemma WrongIsNotFifo(h: History, k: nat)
    requires ComesOutWrong(h, k)
    ensures !Fifo(h)
  {
  }

  lemma PutStep(h: History, m: seq<Byte>)
    requires HasSlots(h.q.mem, h.q.size, h.q.max) && h.inSlots && |m| == h.q.size
    requires h.q.number < h.q.max && PutInSlots(h.q)
    ensures Step(h, Put(m)) == h.(q := AfterPut(h.q, m), accepted := h.accepted + [m])
  {
  }

  lemma GetStep(h: History)
    requires HasSlots(h.q.mem, h.q.size, h.q.max) && h.inSlots && 0 < h.q.number && GetInSlots(h.q)
    ensures Step(h, Get) == h.(q := AfterGet(h.q), delivered := h.delivered + [Front(h.q)])
  {
  }

  lemma RunTwo(h: History, a: Op, b: Op)
    requires HasSlots(h.q.mem, h.q.size, h.q.max)
    ensures Run(h, [a, b]) == Step(Step(h, a), b)
  {
    assert [a, b][1..] == [b] && [b][1..] == [];
    assert Run(Step(h, a), [b]) == Run(Step(Step(h, a), b), []);
  }

  lemma RunThree(h: History, a: Op, b: Op, c: Op)
    requires HasSlots(h.q.mem, h.q.size, h.q.max)
    ensures Run(h, [a, b, c]) == Step(Step(Step(h, a), b), c)
  {
    assert [a, b, c][1..] == [b, c];
    RunTwo(Step(h, a), b, c);
  }

  /** One slot whose size the 16-bit addition sees: the second message is written past the slot. */
  lemma OneSlotOverruns(mem: seq<Byte>, size: nat)
    requires U16 < size < U32 && size % U16 != 0 && size <= |mem|
    ensures !Run(Created(mem, size, 1), [Put(Filled(size, 0)), Get, Put(Filled(size, 0))]).inSlots
  {
    var h, m := Created(mem, size, 1), Filled(size, 0);
    RunThree(h, Put(m), Get, Put(m));
    PutStep(h, m);
    SecondOffset(size, 1);
    var h1 := Step(h, Put(m));
    GetStep(h1);
  }

  /** Messages of 2^16 bytes and more: the second one is written over the first. */
  lemma SecondOverwritesFirst(mem: seq<Byte>, size: nat, max: nat)
    requires U16 <= size < U32 && 1 < max < U16 && HasSlots(mem, size, max)
    ensures ComesOutWrong(Run(Created(mem, size, max), [Put(Filled(size, 0)), Put(Filled(size, 1)), Get]), 0)
  {
    var h, a, b := Created(mem, size, max), Filled(size, 0), Filled(size, 1);
    RunThree(h, Put(a), Put(b), Get);
    MulOrder(2, max, size);
    PutStep(h, a);
    SecondOffset(size, max);
    var h1 := Step(h, Put(a));
    PutStep(h1, b);
    var h2 := Step(h1, Put(b));
    GetStep(h2);
    WrongMessage(Step(h2, Get), 0, NextOffset(0, size, max));
  }

  /** The tail after `j` messages, up to the first slot that lies beyond 16 bits. */
  function TailAfter(j: nat, size: nat): nat {
    if j * size == U16 then 0 else j * size
  }

  lemma NextTail(j: nat, size: nat, max: nat)
    requires 0 < size < U16 && 0 < max < U16 && U16 < max * size && j * size + size <= U16
    ensures NextOffset(TailAfter(j, size), size, max) == TailAfter(j + 1, size)
  {
    MulStep(j, size);
    ProductIsExact(size, max);
    ModIsWrap(j * size + size, U16);
  }

  /** So far only zeros went in, the next message goes where `j` messages end, and up to `i` of them stay within 16 bits. */
  ghost predicate Walking(h: History, j: nat, i: nat) {
    && HasSlots(h.q.mem, h.q.size, h.q.max) && h.inSlots && 0 < h.q.size < U16 && i < h.q.max < U16
    && U16 < h.q.max * h.q.size && i * h.q.size <= U16 && j <= i && h.q.tail == TailAfter(j, h.q.size)
    && forall k :: 0 <= k < |h.accepted| ==> h.accepted[k] == Filled(h.q.size, 0)
  }

  lemma WalkingPut(h: History, j: nat, i: nat, m: seq<Byte>)
    requires Walking(h, j, i) && |m| == h.q.size && h.q.number < h.q.max
    ensures PutInSlots(h.q)
    ensures Step(h, Put(m)) == h.(q := AfterPut(h.q, m), accepted := h.accepted + [m])
  {
    MulOrder(j, i, h.q.size);
    MulOrder(j, h.q.max, h.q.size);
    PutStep(h, m);
  }

  lemma WalkingStep(h: History, j: nat, i: nat)
    requires Walking(h, j, i) && j < i && h.q.number < h.q.max
    ensures var h' := Step(h, Put(Filled(h.q.size, 0)));
            Walking(h', j + 1, i) && h'.q.number == h.q.number + 1 && h'.q.head == h.q.head
            && h'.delivered == h.delivered && |h'.accepted| == |h.accepted| + 1
  {
    WalkingPut(h, j, i, Filled(h.q.size, 0));
    MulOrder(j, i, h.q.size);
    NextTail(j, h.q.size, h.q.max);
  }

  function Zeros(n: nat, size: nat): seq<Op> {
    if n == 0 then [] else [Put(Filled(size, 0))] + Zeros(n - 1, size)
  }

  lemma {:induction false} WalkingRun(h: History, j: nat, i: nat, n: nat)
    requires Walking(h, j, i) && j + n == i && h.q.number + n <= h.q.max
    ensures var h' := Run(h, Zeros(n, h.q.size));
            Walking(h', i, i) && h'.q.number == h.q.number + n && h'.q.head == h.q.head
            && h'.delivered == h.delivered && |h'.accepted| == |h.accepted| + n
    decreases n
  {
    if 0 < n {
      WalkingStep(h, j, i);
      assert Zeros(n, h.q.size)[1..] == Zeros(n - 1, h.q.size);
      WalkingRun(Step(h, Zeros(n, h.q.size)[0]), j + 1, i, n - 1);
    }
  }

  /** The first message goes in and out, so that the second slot comes next. */
  lemma WalkingStart(mem: seq<Byte>, size: nat, max: nat, i: nat)
    requires HasSlots(mem, size, max) && 0 < size < U16 && i < max < U16 && U16 < max * size
    requires 0 < i && i * size <= U16
    ensures var h := Run(Created(mem, size, max), [Put(Filled(size, 0)), Get]);
            Walking(h, 1, i) && h.q.number == 0 && h.q.head == size && |h.accepted| == 1 && |h.delivered| == 1
  {
    var h := Created(mem, size, max);
    MulOrder(1, i, size);
    assert Walking(h, 0, i);
    WalkingStep(h, 0, i);
    RunTwo(h, Put(Filled(size, 0)), Get);
    NextTail(0, size, max);
    MulOrder(1, max, size);
    GetStep(Step(h, Put(Filled(size, 0))));
  }

  /** Where the tail goes after the last slot within 16 bits: into the first one, up to its end. */
  lemma TailComesBack(i: nat, size: nat, max: nat)
    requires 0 < size < U16 && 0 < max < U16 && U16 < max * size && i * size <= U16 < i * size + size
    ensures 0 < NextOffset(TailAfter(i, size), size, max) <= size
  {
    ProductIsExact(size, max);
    ModIsWrap(TailAfter(i, size) + size, U16);
  }

  /** With the second message waiting, a message of ones written at or before its first byte shows up in its place. */
  lemma WaitingIsOverwritten(h: History)
    requires HasSlots(h.q.mem, h.q.size, h.q.max) && h.inSlots && 0 < h.q.number < h.q.max && 0 < h.q.size
    requires 0 < h.q.tail <= h.q.head == h.q.size && |h.delivered| == 1
    requires 1 < |h.accepted| && h.accepted[1] == Filled(h.q.size, 0)
    ensures ComesOutWrong(Step(Step(h, Put(Filled(h.q.size, 1))), Get), 1)
  {
    MulOrder(2, h.q.max, h.q.size);
    PutStep(h, Filled(h.q.size, 1));
    var h' := Step(h, Put(Filled(h.q.size, 1)));
    GetStep(h');
    assert h'.q.mem[h.q.size] == 1;
    WrongMessage(Step(h', Get), 1, 0);
  }

  lemma WalkingEnd(h: History, i: nat)
    requires Walking(h, i, i) && 0 < i && U16 < i * h.q.size + h.q.size && h.q.number == i - 1 && h.q.head == h.q.size
    requires |h.delivered| == 1 && |h.accepted| == i
    ensures ComesOutWrong(Run(h, [Put(Filled(h.q.size, 0)), Put(Filled(h.q.size, 1)), Get]), 1)
  {
    var size, m := h.q.size, Filled(h.q.size, 0);
    RunThree(h, Put(m), Put(Filled(size, 1)), Get);
    WalkingPut(h, i, i, m);
    TailComesBack(i, size, h.q.max);
    WaitingIsOverwritten(Step(h, Put(m)));
  }

  /** Small messages whose slots reach beyond 2^16 bytes: one that comes back to the first slots is written over another. */
  lemma WaitingOverwrites(mem: seq<Byte>, size: nat, max: nat) returns (ops: seq<Op>)
    requires 0 < size < U16 && max < U16 && U16 < max * size && HasSlots(mem, size, max)
    ensures ComesOutWrong(Run(Created(mem, size, max), ops), 1)
  {
    var i := FirstBeyond(size, max, max);
    var h, start := Created(mem, size, max), [Put(Filled(size, 0)), Get];
    var last := [Put(Filled(size, 0)), Put(Filled(size, 1)), Get];
    WalkingStart(mem, size, max, i);
    WalkingRun(Run(h, start), 1, i, i - 1);
    WalkingEnd(Run(Run(h, start), Zeros(i - 1, size)), i);
    RunAppend(h, start, Zeros(i - 1, size));
    RunAppend(h, start + Zeros(i - 1, size), last);
    ops := start + Zeros(i - 1, size) + last;
  }

  /** A queue whose offsets do not fit delivers something wrong, or writes outside its slots, in some run. */
  lemma UnfitQueueFails(mem: seq<Byte>, size: nat, max: nat) returns (ops: seq<Op>)
    requires size < U32 && max < U16 && HasSlots(mem, size, max) && !OffsetsFit(size, max)
    ensures !Fifo(Run(Created(mem, size, max), ops))
  {
    if max == 1 {
      OneSlotOverruns(mem, size);
      ops := [Put(Filled(size, 0)), Get, Put(Filled(size, 0))];
    } else if U16 <= size {
      SecondOverwritesFirst(mem, size, max);
      ops := [Put(Filled(size, 0)), Put(Filled(size, 1)), Get];
      WrongIsNotFifo(Run(Created(mem, size, max), ops), 0);
    } else {
      ops := WaitingOverwrites(mem, size, max);
      WrongIsNotFifo(Run(Created(mem, size, max), ops), 1);
    }
  }

  /** A queue is first-in first-out in all runs exactly when its offsets fit. */
  lemma QueueIsFifoIff(mem: seq<Byte>, size: nat, max: nat)
    requires size < U32 && max < U16 && HasSlots(mem, size, max)
    ensures (forall ops: seq<Op> :: Fifo(Run(Created(mem, size, max), ops))) <==> OffsetsFit(size, max)
  {
    if OffsetsFit(size, max) {
      forall ops: seq<Op> ensures Fifo(Run(Created(mem, size, max), ops)) {
        FittingQueueIsFifo(mem, size, max, ops);
      }
    } else {
      var ops := UnfitQueueFails(mem, size, max);
    }
  }
}
