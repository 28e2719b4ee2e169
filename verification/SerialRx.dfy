/**
 The receive side of the serial manager: the ring buffer between the UART and the reader, and the pending read.
 */
module SerialRx {
  import opened Rings

  datatype Status = Success | Error | Busy | Notify | RingBufferOverflow
  datatype Mode = Blocking | NonBlocking
  datatype Option<T> = None | Some(value: T)

  /** The bytes from tail to head, oldest first. */
  function Held<T>(ring: seq<T>, head: nat, tail: nat): (c: seq<T>)
    requires head < |ring| && tail < |ring|
    ensures |c| == Count(head, tail, |ring|)
  {
    Back(ring, head, Count(head, tail, |ring|))
  }

  /** What a ring of `size` positions holds after a message: the copy that does not wrap never moves the tail. */
  function Stored<T>(held: seq<T>, message: seq<T>, size: nat, wraps: bool): (c: seq<T>)
    requires |held| < size
    ensures |c| < size || !wraps
  {
    if |held| + |message| < size then held + message
    else Last(if wraps then size - 1 else |held| + |message| - size, held + message)
  }

  /** Nothing is lost exactly when the message fits the free space. */
  lemma NothingLostIff<T>(held: seq<T>, message: seq<T>, size: nat, wraps: bool)
    requires |held| < size
    ensures Stored(held, message, size, wraps) == held + message <==> |held| + |message| < size
    ensures |Stored(held, message, size, wraps)| <= |held| + |message|
  {
  }

  lemma CountAfterOne(head: nat, tail: nat, size: nat)
    requires head < size && tail < size
    ensures var (head', n) := (Wrap(head + 1, size), Count(head, tail, size));
      head' < size && Wrap(tail + 1, size) < size &&
      if head' == tail then n == size - 1 && Count(head', Wrap(tail + 1, size), size) == n
      else n < size - 1 && Count(head', tail, size) == n + 1
  {
  }

  lemma BackAfterOne<T>(ring: seq<T>, head: nat, n: nat, b: T)
    requires head < |ring| && n < |ring|
    ensures Wrap(head + 1, |ring|) < |ring|
    ensures Back(ring[head := b], Wrap(head + 1, |ring|), n + 1) == Back(ring, head, n) + [b]
    ensures Back(ring[head := b], Wrap(head + 1, |ring|), n) == (Back(ring, head, n) + [b])[1..]
  {
    var ring', head' := ring[head := b], Wrap(head + 1, |ring|);
    assert Written(ring, head, [b], ring');
    BackAfterWrite(ring, head, [b], ring', n + 1);
    BackIsSuffix(ring', head', n, n + 1);
  }

  /** The byte-by-byte copy drops the oldest byte whenever the head catches up with the tail. */
  lemma OneMore<T>(ring: seq<T>, head: nat, tail: nat, b: T)
    requires head < |ring| && tail < |ring|
    ensures var (size, head') := (|ring|, Wrap(head + 1, |ring|));
      head' < size && Wrap(tail + 1, size) < size &&
      Held(ring[head := b], head', if head' == tail then Wrap(tail + 1, size) else tail) ==
        Last(size - 1, Held(ring, head, tail) + [b])
    ensures Wrap(head + 1, |ring|) == tail <==> |Held(ring, head, tail)| == |ring| - 1
  {
    CountAfterOne(head, tail, |ring|);
    BackAfterOne(ring, head, Count(head, tail, |ring|), b);
  }

  lemma CountAfterFlat(head: nat, tail: nat, size: nat, m: nat)
    requires head < size && tail < size && head + m < size
    ensures var n := Count(head, tail, size);
      Count(head + m, tail, size) == if n + m < size then n + m else n + m - size
  {
  }

  lemma FlatFits<T>(ring: seq<T>, head: nat, m: seq<T>, ring': seq<T>, n: nat)
    requires head + |m| < |ring| && Written(ring, head, m, ring') && n + |m| < |ring|
    ensures Back(ring', head + |m|, n + |m|) == Back(ring, head, n) + m
  {
    BackAfterWrite(ring, head, m, ring', n + |m|);
  }

  lemma FlatAll<T>(ring: seq<T>, head: nat, m: seq<T>, ring': seq<T>)
    requires head + |m| < |ring| && Written(ring, head, m, ring')
    ensures Back(ring', head + |m|, |m|) == m
  {
    FlatFits(ring, head, m, ring', 0);
  }

  lemma EndOfSum<T>(c: seq<T>, m: seq<T>, k: nat)
    requires k <= |m|
    ensures Last(k, c + m) == m[|m| - k..]
  {
  }

  lemma FlatOvertakes<T>(ring': seq<T>, head': nat, m: seq<T>, c: seq<T>, k: nat)
    requires head' < |ring'| && k <= |m| <= |ring'| && Back(ring', head', |m|) == m
    ensures Back(ring', head', k) == Last(k, c + m)
  {
    BackIsSuffix(ring', head', k, |m|);
    EndOfSum(c, m, k);
  }

  lemma StoredFlat<T>(c: seq<T>, m: seq<T>, size: nat, r: seq<T>)
    requires |c| < size
    requires if |c| + |m| < size then r == c + m else r == Last(|c| + |m| - size, c + m)
    ensures r == Stored(c, m, size, false)
  {
  }

  lemma FlatBack<T>(ring: seq<T>, head: nat, m: seq<T>, ring': seq<T>, n: nat, n': nat)
    requires n < |ring| && head + |m| < |ring| && Written(ring, head, m, ring')
    requires n' == if n + |m| < |ring| then n + |m| else n + |m| - |ring|
    ensures Back(ring', head + |m|, n') == Stored(Back(ring, head, n), m, |ring|, false)
  {
    if n + |m| < |ring| {
      FlatFits(ring, head, m, ring', n);
    } else {
      FlatAll(ring, head, m, ring');
      FlatOvertakes(ring', head + |m|, m, Back(ring, head, n), n');
    }
    StoredFlat(Back(ring, head, n), m, |ring|, Back(ring', head + |m|, n'));
  }

  /** The plain copy, right up to the end of the ring: when it overtakes the tail, only the end of the message stays. */
  lemma FlatCopy<T>(ring: seq<T>, head: nat, tail: nat, m: seq<T>, ring': seq<T>)
    requires head < |ring| && tail < |ring| && head + |m| < |ring| && Written(ring, head, m, ring')
    ensures Held(ring', head + |m|, tail) == Stored(Held(ring, head, tail), m, |ring|, false)
  {
    CountAfterFlat(head, tail, |ring|, |m|);
    FlatBack(ring, head, m, ring', Count(head, tail, |ring|), Count(head + |m|, tail, |ring|));
  }

  /** Taking the byte at the tail. */
  lemma OneLess<T>(ring: seq<T>, head: nat, tail: nat)
    requires head < |ring| && tail < |ring| && head != tail
    ensures Wrap(tail + 1, |ring|) < |ring|
    ensures Held(ring, head, tail) == [ring[tail]] + Held(ring, head, Wrap(tail + 1, |ring|))
  {
    var n := Count(head, tail, |ring|);
    BackIsSuffix(ring, head, n - 1, n);
  }

  /** The ring after the first `i` bytes of a message. */
  ghost function AfterBytes<T>(held: seq<T>, message: seq<T>, i: nat, size: nat): seq<T>
    requires |held| < size && i <= |message|
    decreases i
  {
    if i == 0 then held else Last(size - 1, AfterBytes(held, message, i - 1, size) + [message[i - 1]])
  }

  lemma {:induction false} AfterBytesLength<T>(held: seq<T>, message: seq<T>, i: nat, size: nat)
    requires |held| < size && i <= |message|
    ensures |AfterBytes(held, message, i, size)| == if |held| + i < size then |held| + i else size - 1
    decreases i
  {
    if i != 0 { AfterBytesLength(held, message, i - 1, size); }
  }

  lemma {:induction false} AfterBytesIsLast<T>(held: seq<T>, message: seq<T>, i: nat, size: nat)
    requires |held| < size && i <= |message|
    ensures AfterBytes(held, message, i, size) == Last(size - 1, held + message[..i])
    decreases i
  {
    if i == 0 {
      assert held + message[..0] == held;
    } else {
      AfterBytesIsLast(held, message, i - 1, size);
      LastOfLastLeft(size - 1, held + message[..i - 1], [message[i - 1]]);
      assert (held + message[..i - 1]) + [message[i - 1]] == held + message[..i];
    }
  }

  lemma AfterAllBytes<T>(held: seq<T>, message: seq<T>, size: nat)
    requires |held| < size
    ensures AfterBytes(held, message, |message|, size) == Stored(held, message, size, true)
  {
    AfterBytesIsLast(held, message, |message|, size);
    assert message[..|message|] == message;
  }

  /** Where `i` single steps lead. */
  function Stepped(head: nat, i: nat, size: nat): nat {
    if i == 0 then head else Wrap(Stepped(head, i - 1, size) + 1, size)
  }

  lemma {:induction false} SteppedIsMod(head: nat, i: nat, size: nat)
    requires head < size
    ensures Stepped(head, i, size) == (head + i) % size
    decreases i
  {
    if i == 0 {
      ModIsWrap(head, size);
    } else {
      SteppedIsMod(head, i - 1, size);
      NextMod(head + i - 1, size);
    }
  }

  lemma OneTaken<T>(held: seq<T>, i: nat, c: seq<T>, rest: seq<T>)
    requires i < |held| && c == held[i..] && rest == c[1..]
    ensures rest == held[i + 1..] && held[..i] + [c[0]] == held[..i + 1]
  {
  }

  lemma FillMoves<T>(buffer: seq<T>, soFar: nat, delivered: seq<T>, buffer': seq<T>, b: T)
    requires soFar < |buffer| && soFar <= |delivered| && buffer[..soFar] == delivered[|delivered| - soFar..]
    requires buffer' == buffer[soFar := b]
    ensures buffer'[..soFar + 1] == (delivered + [b])[|delivered| - soFar..]
  {
  }

  function Min(a: nat, b: nat): nat {
    if a < b then a else b
  }

  // ----- Runs

  /** Ring size, head position and held bytes; the bytes a pending read still lacks, 0 for none, and its mode;
      all bytes received and all bytes handed to readers. */
  datatype Rx = Rx(size: nat, head: nat, held: seq<Byte>, lacking: nat, mode: Mode, received: seq<Byte>, delivered: seq<Byte>)

  datatype Op = Receive(message: seq<Byte>) | Read(wanted: nat, how: Mode, try: bool) | CancelReading

  /** A pending read means an empty ring. */
  ghost predicate RxInv(s: Rx) {
    s.head < s.size && |s.held| < s.size && (0 < s.lacking ==> s.held == [])
  }

  function Fresh(size: nat): Rx {
    Rx(size, 0, [], 0, NonBlocking, [], [])
  }

  /** The ring after a message, before a pending read is served. */
  function HeldAfter(s: Rx, message: seq<Byte>): seq<Byte>
    requires |s.held| < s.size
  {
    Stored(s.held, message, s.size, s.head + |message| >= s.size)
  }

  /** Hands the `n` oldest of the bytes `c` to a reader. */
  function Hand(s: Rx, c: seq<Byte>, n: nat): Rx
    requires n <= |c|
  {
    s.(held := c[n..], delivered := s.delivered + c[..n])
  }

  function Step(s: Rx, op: Op): (r: Rx)
    requires RxInv(s)
    ensures RxInv(r) && r.size == s.size
  {
    match op
    case Receive(m) =>
      StoredFits(s.held, m, s.size, s.head + |m| >= s.size);
      var c := HeldAfter(s, m);
      var n := Min(|c|, s.lacking);
      Hand(s, c, n).(head := (s.head + |m|) % s.size, lacking := s.lacking - n, received := s.received + m)
    case Read(wanted, how, try) =>
      if s.lacking != 0 then s
      else
        var n := Min(|s.held|, wanted);
        Hand(s, s.held, n).(lacking := if try then 0 else wanted - n, mode := how)
    case CancelReading => if s.lacking != 0 && s.mode.Blocking? then s else s.(lacking := 0)
  }

  function Run(s: Rx, ops: seq<Op>): (r: Rx)
    requires RxInv(s)
    ensures RxInv(r)
    decreases |ops|
  {
    if ops == [] then s else Run(Step(s, ops[0]), ops[1..])
  }

  lemma StoredFits<T>(held: seq<T>, message: seq<T>, size: nat, wraps: bool)
    requires |held| < size
    ensures |Stored(held, message, size, wraps)| < size || (!wraps && size <= |message|)
  {
  }

  /** Every message received during the run fits the free space that it meets. */
  ghost predicate AllFit(s: Rx, ops: seq<Op>)
    requires RxInv(s)
    decreases |ops|
  {
    ops == [] ||
    ((ops[0].Receive? ==> |s.held| + |ops[0].message| < s.size) && AllFit(Step(s, ops[0]), ops[1..]))
  }

  /** What was delivered and what is held make up what was received. */
  ghost predicate Intact(s: Rx) {
    s.delivered + s.held == s.received
  }

  lemma HandMoves(s: Rx, c: seq<Byte>, n: nat)
    requires n <= |c|
    ensures Hand(s, c, n).delivered + Hand(s, c, n).held == s.delivered + c
  {
    assert c[..n] + c[n..] == c;
    assert s.delivered + (c[..n] + c[n..]) == (s.delivered + c[..n]) + c[n..];
  }

  /** A step keeps the stream intact exactly unless it is a message that does not fit, and never mends it. */
  lemma StepIsIntactIff(s: Rx, op: Op)
    requires RxInv(s) && |s.delivered| + |s.held| <= |s.received|
    ensures var r := Step(s, op);
      |r.delivered| + |r.held| <= |r.received| &&
      (|r.delivered| + |r.held| == |r.received| <==>
         |s.delivered| + |s.held| == |s.received| && (op.Receive? ==> |s.held| + |op.message| < s.size))
    ensures Intact(s) && (op.Receive? ==> |s.held| + |op.message| < s.size) ==> Intact(Step(s, op))
  {
    match op
    case Receive(m) =>
      StoredFits(s.held, m, s.size, s.head + |m| >= s.size);
      var c := HeldAfter(s, m);
      NothingLostIff(s.held, m, s.size, s.head + |m| >= s.size);
      HandMoves(s, c, Min(|c|, s.lacking));
      assert s.delivered + (s.held + m) == (s.delivered + s.held) + m;
    case Read(wanted, how, try) => HandMoves(s, s.held, Min(|s.held|, wanted));
    case CancelReading =>
  }

  lemma {:induction false} RunIsIntactIff(s: Rx, ops: seq<Op>)
    requires RxInv(s) && |s.delivered| + |s.held| <= |s.received|
    ensures var r := Run(s, ops);
      |r.delivered| + |r.held| == |r.received| <==> |s.delivered| + |s.held| == |s.received| && AllFit(s, ops)
    ensures Intact(s) && AllFit(s, ops) ==> Intact(Run(s, ops))
    decreases |ops|
  {
    if ops != [] {
      StepIsIntactIff(s, ops[0]);
      RunIsIntactIff(Step(s, ops[0]), ops[1..]);
    }
  }

  /** Over any interleaving of receive, read and cancel, delivered bytes followed by held bytes are the received
      stream exactly when every message fitted the free space it met. */
  lemma StreamIsIntactIff(size: nat, ops: seq<Op>)
    requires 0 < size
    ensures Intact(Run(Fresh(size), ops)) <==> AllFit(Fresh(size), ops)
  {
    RunIsIntactIff(Fresh(size), ops);
  }

  class Receiver {
    const ring: array<Byte>
    var head: nat
    var tail: nat
    const hasCallback: bool
    /** The transfer of the read handle; no read is pending while its buffer is null. */
    var buffer: array?<Byte>
    var length: nat
    var soFar: nat
    var mode: Mode
    /** All bytes received, and all bytes handed to readers. */
    ghost var received: seq<Byte>
    ghost var delivered: seq<Byte>

    ghost function Contents(): seq<Byte>
      reads this`head, this`tail, ring
      requires head < ring.Length && tail < ring.Length
    {
      Held(ring[..], head, tail)
    }

    ghost predicate InRing()
      reads this`head, this`tail
    {
      head < ring.Length && tail < ring.Length
    }

    ghost function View(): Rx
      reads this, ring
      requires InRing()
    {
      Rx(ring.Length, head, Contents(), if buffer == null || length < soFar then 0 else length - soFar, mode, received, delivered)
    }

    /** The buffer of the transfer holds the bytes delivered last. */
    ghost predicate Filled()
      reads this, buffer
    {
      buffer != null ==>
        && ring != buffer && soFar <= length <= buffer.Length && soFar <= |delivered|
        && buffer[..soFar] == delivered[|delivered| - soFar..]
    }

    /** A read is pending only while it lacks bytes, and only over an empty ring. */
    ghost predicate Valid()
      reads this, ring, buffer
    {
      && InRing() && Filled()
      && (buffer != null ==> soFar < length && Contents() == [])
    }

    constructor (ring: array<Byte>, hasCallback: bool)
      requires 0 < ring.Length
      ensures Valid() && this.ring == ring && this.hasCallback == hasCallback && buffer == null
      ensures Contents() == [] && View() == Fresh(ring.Length)
    {
      this.ring, this.hasCallback := ring, hasCallback;
      head, tail, buffer, length, soFar, mode := 0, 0, null, 0, 0, NonBlocking;
      received, delivered := [], [];
    }

    /** Stores one byte; a full ring loses its oldest. */
    method StoreByte(b: Byte) returns (overflow: bool)
      requires head < ring.Length && tail < ring.Length
      modifies this`head, this`tail, ring
      ensures head < ring.Length && tail < ring.Length
      ensures Contents() == Last(ring.Length - 1, old(Contents()) + [b])
      ensures overflow <==> |old(Contents())| == ring.Length - 1
      ensures head == Wrap(old(head) + 1, ring.Length)
    {
      OneMore(ring[..], head, tail, b);
      ghost var was := ring[..];
      ring[head] := b;
      assert ring[..] == was[head := b];
      head := head + 1;
      if head >= ring.Length { head := 0; }
      overflow := head == tail;
      if overflow {
        tail := tail + 1;
        if tail >= ring.Length { tail := 0; }
      }
    }

    /** Copies byte by byte, wrapping. */
    method StoreWrapping(message: seq<Byte>) returns (status: Status)
      requires head < ring.Length && tail < ring.Length
      modifies this`head, this`tail, ring
      ensures head < ring.Length && tail < ring.Length
      ensures Contents() == Stored(old(Contents()), message, ring.Length, true)
      ensures head == (old(head) + |message|) % ring.Length
      ensures status == if |old(Contents())| + |message| < ring.Length then Notify else RingBufferOverflow
    {
      status := Notify;
      ghost var held := Contents();
      for i := 0 to |message|
        invariant head < ring.Length && tail < ring.Length
        invariant Contents() == AfterBytes(held, message, i, ring.Length)
        invariant head == Stepped(old(head), i, ring.Length)
        invariant status == if |held| + i < ring.Length then Notify else RingBufferOverflow
      {
        AfterBytesLength(held, message, i, ring.Length);
        var overflow := StoreByte(message[i]);
        if overflow { status := RingBufferOverflow; }
      }
      AfterAllBytes(held, message, ring.Length);
      SteppedIsMod(old(head), |message|, ring.Length);
    }

    method StoreFlat(message: seq<Byte>)
      requires head + |message| < ring.Length && tail < ring.Length
      modifies this`head, ring
      ensures head == old(head) + |message| && Contents() == Stored(old(Contents()), message, ring.Length, false)
    {
      ghost var was := ring[..];
      forall i | 0 <= i < |message| {
        ring[head + i] := message[i];
      }
      assert Written(was, head, message, ring[..]);
      FlatCopy(was, head, tail, message, ring[..]);
      head := head + |message|;
    }

    /** Takes the oldest byte out of the ring. */
    method PopByte() returns (b: Byte)
      requires InRing() && Contents() != []
      modifies this`tail, this`delivered
      ensures InRing() && [b] + Contents() == old(Contents()) && delivered == old(delivered) + [b]
    {
      OneLess(ring[..], head, tail);
      b := ring[tail];
      delivered := delivered + [b];
      tail := tail + 1;
      if tail >= ring.Length { tail := 0; }
    }

    /** Moves the oldest byte of the ring to the buffer of the pending read. */
    method TakeByte()
      requires InRing() && Filled() && buffer != null && Contents() != [] && soFar < length
      modifies this`tail, this`soFar, this`delivered, buffer
      ensures InRing() && Filled() && soFar == old(soFar) + 1
      ensures Contents() == old(Contents())[1..] && delivered == old(delivered) + [old(Contents())[0]]
      ensures forall i :: soFar <= i < buffer.Length ==> buffer[i] == old(buffer[i])
    {
      ghost var held, sent, was := Contents(), delivered, buffer[..];
      var b := PopByte();
      assert held[1..] == Contents();
      buffer[soFar] := b;
      FillMoves(was, soFar, sent, buffer[..], b);
      soFar := soFar + 1;
    }

    /** Moves the `n` oldest bytes of the ring to the buffer of the pending read. */
    method Take(n: nat)
      requires InRing() && Filled() && buffer != null && n <= |Contents()| && soFar + n <= length
      modifies this`tail, this`soFar, this`delivered, buffer
      ensures InRing() && Filled() && soFar == old(soFar) + n
      ensures Contents() == old(Contents())[n..] && delivered == old(delivered) + old(Contents())[..n]
      ensures forall i :: soFar <= i < buffer.Length ==> buffer[i] == old(buffer[i])
    {
      ghost var held := Contents();
      for i := 0 to n
        invariant InRing() && Filled() && soFar == old(soFar) + i
        invariant Contents() == held[i..] && delivered == old(delivered) + held[..i]
        invariant forall i :: soFar <= i < buffer.Length ==> buffer[i] == old(buffer[i])
      {
        OneTaken(held, i, Contents(), Contents()[1..]);
        TakeByte();
      }
    }

    /** Stores a received message, by whichever copy the position of the head selects. */
    method Store(message: seq<Byte>) returns (status: Status)
      requires InRing()
      modifies this`head, this`tail, this`received, ring
      ensures InRing() && received == old(received) + message && head == (old(head) + |message|) % ring.Length
      ensures Contents() == Stored(old(Contents()), message, ring.Length, old(head) + |message| >= ring.Length)
      ensures status == if old(head) + |message| < ring.Length || |old(Contents())| + |message| < ring.Length
                        then Notify else RingBufferOverflow
    {
      status := Notify;
      if head + |message| >= ring.Length {
        status := StoreWrapping(message);
      } else {
        ModIsWrap(head + |message|, ring.Length);
        StoreFlat(message);
      }
      received := received + message;
    }

    /** Hands what it can to the pending read and ends it if that was all it lacked. */
    method Serve() returns (available: nat, completed: bool)
      requires InRing() && Filled() && (buffer != null ==> soFar < length)
      modifies this`tail, this`soFar, this`delivered, this`buffer, buffer
      ensures Valid() && available == |Contents()|
      ensures var (held, n) := (old(Contents()), if old(buffer) == null then 0 else Min(|old(Contents())|, old(length - soFar)));
        && Contents() == held[n..] && delivered == old(delivered) + held[..n] && soFar == old(soFar) + n
        && buffer == (if soFar < length then old(buffer) else null)
        && (completed <==> old(buffer) != null && buffer == null && mode.NonBlocking?)
      ensures old(buffer) != null ==> old(buffer)[..soFar] == delivered[|delivered| - soFar..]
    {
      CountIsMod(head, tail, ring.Length);
      available := (head + ring.Length - tail) % ring.Length;
      completed := false;
      if buffer != null {
        var n := Min(available, length - soFar);
        Take(n);
        available := available - n;
        if length > soFar {
        } else {
          completed := mode.NonBlocking?;
          buffer := null;
        }
      }
    }

    /**
     The UART hands over a message. A pending read is served first; what stays in the ring is announced,
     with the overflow status only if the wrapping copy dropped bytes.
     */
    method RxCallback(message: seq<Byte>) returns (completed: bool, announced: Option<(Status, nat)>)
      requires Valid()
      modifies this`head, this`tail, this`soFar, this`delivered, this`received, this`buffer, ring, buffer
      ensures Valid() && View() == Step(old(View()), Receive(message))
      ensures var held := Stored(old(Contents()), message, ring.Length, old(head) + |message| >= ring.Length);
        var n := if old(buffer) == null then 0 else Min(|held|, old(length - soFar));
        && Contents() == held[n..] && delivered == old(delivered) + held[..n] && soFar == old(soFar) + n
        && buffer == (if soFar < length then old(buffer) else null)
        && (completed <==> old(buffer) != null && buffer == null && mode.NonBlocking?)
      ensures old(buffer) != null ==> old(buffer)[..soFar] == delivered[|delivered| - soFar..]
      ensures announced.Some? <==> Contents() != [] && hasCallback
      ensures announced.Some? ==> announced.value.1 == |Contents()|
      ensures announced.Some? ==>
        (announced.value.0 == RingBufferOverflow <==>
           old(head) + |message| >= ring.Length && |old(Contents())| + |message| >= ring.Length)
      ensures announced.Some? ==> announced.value.0 in {Notify, RingBufferOverflow}
    {
      var status := Store(message);
      var available;
      available, completed := Serve();
      announced := if available != 0 && hasCallback then Some((status, available)) else None;
    }

    /** Fills the buffer of a new read with what there is; a read of one byte does not go through the loop. */
    method Fill()
      requires InRing() && buffer != null && buffer != ring && 0 == soFar < length <= buffer.Length
      modifies this`tail, this`soFar, this`delivered, buffer
      ensures InRing() && soFar == Min(|old(Contents())|, length)
      ensures Contents() == old(Contents())[soFar..] && delivered == old(delivered) + old(Contents())[..soFar]
      ensures buffer[..soFar] == delivered[|delivered| - soFar..] == old(Contents())[..soFar]
      ensures buffer[soFar..] == old(buffer[..])[soFar..]
    {
      CountIsMod(head, tail, ring.Length);
      if length == 1 {
        if head != tail { Take(1); }
      } else {
        var available := (head + ring.Length - tail) % ring.Length;
        Take(Min(available, length));
      }
    }

    /**
     Starts a read, or with `try` takes what there is and leaves nothing pending.
     */
    method Read(target: array<Byte>, wanted: nat, how: Mode, try: bool) returns (status: Status, got: nat, completed: bool)
      requires Valid() && target != ring && 0 < wanted <= target.Length && (how.NonBlocking? && !try ==> hasCallback)
      modifies this`tail, this`soFar, this`length, this`mode, this`delivered, this`buffer, target
      ensures Valid() && View() == Step(old(View()), Op.Read(wanted, how, try))
      ensures status == if old(buffer) != null then Busy else Success
      ensures status.Busy? ==> Contents() == old(Contents()) && delivered == old(delivered) && buffer == old(buffer) && !completed
      ensures status.Busy? ==> target[..] == old(target[..]) && soFar == old(soFar) && length == old(length)
      ensures status.Success? ==> var n := Min(|old(Contents())|, wanted);
        && Contents() == old(Contents())[n..] && delivered == old(delivered) + old(Contents())[..n]
        && target[..n] == old(Contents())[..n] && target[n..] == old(target[..])[n..]
        && buffer == (if try || n == wanted then null else target)
        && soFar == got == n && length == wanted && mode == how
        && (completed <==> !try && n == wanted && how.NonBlocking?)
    {
      got, completed := 0, false;
      if buffer != null { return Busy, got, completed; }
      buffer, length, soFar, mode := target, wanted, 0, how;
      Fill();
      status, got := Success, soFar;
      if try {
        buffer := null;
      } else if soFar >= length {
        buffer := null;
        completed := how.NonBlocking?;
      }
    }

    /** Ends a pending non-blocking read; its callback learns how many bytes it got. */
    method CancelReading() returns (status: Status, canceled: Option<nat>)
      requires Valid()
      modifies this`buffer, this`length
      ensures Valid() && View() == Step(old(View()), Op.CancelReading)
      ensures status == if old(buffer) != null && mode.Blocking? then Error else Success
      ensures status.Error? ==> buffer == old(buffer) && length == old(length) && canceled.None?
      ensures status.Success? ==> buffer == null && length == 0
      ensures status.Success? ==> canceled == if old(buffer) != null && hasCallback then Some(soFar) else None
    {
      if buffer != null && mode.Blocking? { return Error, None; }
      var pending := buffer;
      buffer := null;
      length := 0;
      status := Success;
      canceled := if pending != null && hasCallback then Some(soFar) else None;
    }
  }
}
