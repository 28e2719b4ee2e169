/**
 The log component's ring-buffer backend: after any history of writes it holds exactly the newest bytes.
 */
module LogBackend {
  import opened Rings

  class RingBackend {
    const ring: array<Byte>
    var head: nat
    var tail: nat
    var initialized: bool
    /** Every byte ever put. */
    ghost var history: seq<Byte>

    ghost function Contents(): seq<Byte>
      reads this, ring
      requires head < ring.Length && tail < ring.Length
    {
      Back(ring[..], head, Count(head, tail, ring.Length))
    }

    /** Read from tail to head, the ring holds the newest bytes of the history, as many as it has room for. */
    ghost predicate Valid()
      reads this, ring
    {
      head < ring.Length && tail < ring.Length && Contents() == Last(ring.Length - 1, history)
    }

    constructor (buffer: array<Byte>)
      requires 0 < buffer.Length
      ensures Valid() && ring == buffer && initialized && history == []
    {
      ring := buffer;
      head, tail := 0, 0;
      initialized := true;
      history := [];
    }

    method MemCopy(at: nat, src: seq<Byte>)
      requires at + |src| <= ring.Length
      modifies ring
      ensures ring[..] == old(ring[..at]) + src + old(ring[at + |src|..])
    {
      forall i | 0 <= i < |src| {
        ring[at + i] := src[i];
      }
    }

    /** Copies a message behind the head, in two pieces if it wraps. */
    method CopyIn(message: seq<Byte>)
      requires head < ring.Length && |message| < ring.Length
      modifies ring
      ensures Written(old(ring[..]), head, message, ring[..])
    {
      var copyLength := |message|;
      if head + copyLength > ring.Length { copyLength := ring.Length - head; }
      MemCopy(head, message[..copyLength]);
      ghost var mid := ring[..];
      if copyLength < |message| { MemCopy(0, message[copyLength..]); }
      assert ring[..] == message[copyLength..] + mid[|message| - copyLength..];
      WrittenInTwo(old(ring[..]), head, message, copyLength, mid, ring[..]);
    }

    /** Free bytes: one position always stays unused. */
    method Remaining() returns (remaining: nat)
      requires head < ring.Length && tail < ring.Length
      ensures remaining == ring.Length - 1 - Count(head, tail, ring.Length)
    {
      CountIsMod(head, tail, ring.Length);
      remaining := (head + ring.Length - tail) % ring.Length;
      remaining := ring.Length - remaining - 1;
    }

    /** Moves the head past `length` new bytes, and the tail with it if they used up the free bytes. */
    method Advance(length: nat, remaining: nat)
      requires head < ring.Length && length < ring.Length
      modifies this`head, this`tail
      ensures head == NewHead(old(head), ring.Length, length)
      ensures tail == if length >= remaining then Wrap(head + 1, ring.Length) else old(tail)
    {
      ModIsWrap(head + length, ring.Length);
      head := (head + length) % ring.Length;
      if length >= remaining {
        ModPlusSize(head + 1, ring.Length);
        tail := (head + ring.Length + 1) % ring.Length;
      }
    }

    /** Appends a message of any length; before initialisation it is dropped. */
    method Puts(message: seq<Byte>)
      requires Valid()
      modifies this, ring
      ensures Valid() && initialized == old(initialized)
      ensures history == old(history) + if initialized then message else []
    {
      if !initialized || |message| == 0 { return; }
      ghost var was := ring[..];
      var remaining := Remaining();
      var newest := message;
      if |message| >= ring.Length { newest := message[|message| - ring.Length + 1..]; }
      assert newest == Last(ring.Length - 1, message);
      CopyIn(newest);
      Advance(|newest|, remaining);
      PutKeepsNewest(was, old(head), old(tail), history, message, newest, ring[..], head, tail);
      history := history + message;
    }
  }

  lemma NewCount(head: nat, tail: nat, size: nat, length: nat)
    requires head < size && tail < size && length < size
    ensures var count, head', tail' := Count(head, tail, size), NewHead(head, size, length), NewTail(head, tail, size, length);
      head' < size && tail' < size &&
      Count(head', tail', size) == if size - 1 <= count + length then size - 1 else count + length
  {
  }

  /** Looking back after the write, over all bytes but one if the ring filled up, shows the newest of old and new. */
  lemma RingKeepsNewest<T>(ring: seq<T>, head: nat, count: nat, b: seq<T>, ring': seq<T>, kept: nat)
    requires Written(ring, head, b, ring') && count < |ring| && |b| < |ring|
    requires kept == if |ring| - 1 <= count + |b| then |ring| - 1 else count + |b|
    ensures Back(ring', Wrap(head + |b|, |ring|), kept) == Last(|ring| - 1, Back(ring, head, count) + b)
  {
    var c := Back(ring, head, count);
    BackAfterWrite(ring, head, b, ring', kept);
    assert Back(ring, head, kept - |b|) == c[|c| - (kept - |b|)..] by { BackIsSuffix(ring, head, kept - |b|, count); }
    LastIsSuffixAndNew(|ring| - 1, c, b, kept);
  }

  lemma KeptHistory<T>(n: nat, history: seq<T>, message: seq<T>)
    ensures Last(n, Last(n, history) + Last(n, message)) == Last(n, history + message)
  {
    LastOfLastLeft(n, history, Last(n, message));
    LastOfLastRight(n, history, message);
  }

  /** The positions after a put of `length` bytes. */
  function NewHead(head: nat, size: nat, length: nat): nat {
    Wrap(head + length, size)
  }

  function NewTail(head: nat, tail: nat, size: nat, length: nat): nat
    requires head < size && tail < size
  {
    if length >= size - 1 - Count(head, tail, size) then Wrap(NewHead(head, size, length) + 1, size) else tail
  }

  lemma KeepsNewest<T>(ring: seq<T>, head: nat, count: nat, history: seq<T>, message: seq<T>, newest: seq<T>,
                       ring': seq<T>, head': nat, kept: nat)
    requires count < |ring| && Written(ring, head, newest, ring') && head' == Wrap(head + |newest|, |ring|)
    requires newest == Last(|ring| - 1, message) && Back(ring, head, count) == Last(|ring| - 1, history)
    requires kept == if |ring| - 1 <= count + |newest| then |ring| - 1 else count + |newest|
    ensures head' < |ring| && Back(ring', head', kept) == Last(|ring| - 1, history + message)
  {
    RingKeepsNewest(ring, head, count, newest, ring', kept);
    KeptHistory(|ring| - 1, history, message);
  }

  lemma PutKeepsNewest<T>(ring: seq<T>, head: nat, tail: nat, history: seq<T>, message: seq<T>, newest: seq<T>,
                          ring': seq<T>, head': nat, tail': nat)
    requires head < |ring| && tail < |ring| && newest == Last(|ring| - 1, message) && Written(ring, head, newest, ring')
    requires Back(ring, head, Count(head, tail, |ring|)) == Last(|ring| - 1, history)
    requires head' == NewHead(head, |ring|, |newest|) && tail' == NewTail(head, tail, |ring|, |newest|)
    ensures head' < |ring| && tail' < |ring|
    ensures Back(ring', head', Count(head', tail', |ring|)) == Last(|ring| - 1, history + message)
  {
    NewCount(head, tail, |ring|, |newest|);
    KeepsNewest(ring, head, Count(head, tail, |ring|), history, message, newest, ring', head', Count(head', tail', |ring|));
  }
}
