/**
 The bare-metal message queue over a byte array, with the task that waits for a message.
 */
module OsaMsgQueue {
  import opened Rings
  import opened QueueModel

  datatype OsaStatus = Success | Error | Timeout | Idle

  /** A task control block, as far as the queue writes it. */
  class Task {
    var haveToRun: bool
  }

  class MsgQueue {
    /** Absent once the queue is destroyed. */
    var queueMem: array?<Byte>
    var size: nat
    var max: nat
    var number: nat
    var head: nat
    var tail: nat
    /** The task that last asked for a message. */
    var waitingTask: Task?
    ghost var accepted: seq<seq<Byte>>
    ghost var delivered: seq<seq<Byte>>
    ghost var inSlots: bool

    ghost function Log(): History
      reads this, queueMem
      requires queueMem != null
    {
      History(Queue(queueMem[..], size, max, number, head, tail), accepted, delivered, inSlots)
    }

    /** The memory holds the messages the queue was created for, and no copy has left their slots. */
    ghost predicate Valid()
      reads this
    {
      queueMem != null ==> max * size <= queueMem.Length && inSlots
    }

    /** The number of messages is kept in 16 bits; the waiting task is what the handle's memory holds. */
    constructor (mem: array<Byte>, msgNo: nat, msgSize: nat, waiting: Task?)
      requires (msgNo % U16) * msgSize <= mem.Length
      ensures Valid() && queueMem == mem && Log() == Created(mem[..], msgSize, msgNo % U16) && waitingTask == waiting
    {
      queueMem, max, size := mem, msgNo % U16, msgSize;
      number, head, tail := 0, 0, 0;
      waitingTask := waiting;
      accepted, delivered, inSlots := [], [], true;
    }

    /** Takes a message and wakes the waiting task; `outside` if the copy leaves the slots, where the model stops. */
    method Put(message: seq<Byte>) returns (status: OsaStatus, outside: bool)
      requires Valid() && |message| == size
      modifies this`number, this`tail, this`accepted, this`inSlots, queueMem, waitingTask
      ensures queueMem != null ==> Log() == Step(old(Log()), QueueModel.Put(message))
      ensures outside <==> queueMem != null && !PutInSlots(old(Log().q))
      ensures Valid() <==> !outside
      ensures queueMem == null ==> status == Error
      ensures queueMem != null && !outside ==> status == if old(number) < max then Success else Error
      ensures waitingTask != null ==> waitingTask.haveToRun == (old(waitingTask.haveToRun) || status.Success?)
    {
      if queueMem == null { return Error, false; }
      if number >= max { return Error, false; }
      if tail + size > max * size {
        inSlots := false;
        return Error, true;
      }
      CopyIn(message);
      number := number + 1;
      tail := (tail + size % U16) % U16;
      if tail >= (max * size) % U32 { tail := 0; }
      accepted := accepted + [message];
      if waitingTask != null { waitingTask.haveToRun := true; }
      return Success, false;
    }

    /** Copies a message, byte by byte, to the tail offset. */
    method CopyIn(message: seq<Byte>)
      requires queueMem != null && |message| == size && tail + size <= queueMem.Length
      modifies queueMem
      ensures queueMem[..] == Overwrite(old(queueMem[..]), tail, message)
    {
      for i := 0 to size
        modifies queueMem
        invariant forall j :: 0 <= j < queueMem.Length ==>
                    queueMem[j] == if tail <= j < tail + i then message[j - tail] else old(queueMem[j])
      {
        queueMem[tail + i] := message[i];
      }
    }

    /** Copies out the message at the head offset. */
    method CopyOut() returns (message: seq<Byte>)
      requires queueMem != null && head + size <= queueMem.Length
      ensures message == queueMem[head..head + size]
    {
      message := [];
      for i := 0 to size
        invariant message == queueMem[head..head + i]
      {
        message := message + [queueMem[head + i]];
      }
    }

    /**
     Takes the message at the head. An empty queue times out at once if the caller does not wait; otherwise the caller
     is to sleep, which is written through NULL if no task runs. `outside` if the copy leaves the slots, and then, as
     at the write through NULL, the model stops.
     */
    method Get(millisec: nat, current: Task?)
      returns (status: OsaStatus, message: seq<Byte>, outside: bool, throughNull: bool)
      requires Valid()
      modifies this`number, this`head, this`waitingTask, this`delivered, this`inSlots, current
      ensures queueMem != null ==> Log() == Step(old(Log()), QueueModel.Get)
      ensures outside <==> queueMem != null && !GetInSlots(old(Log().q))
      ensures Valid() <==> !outside
      ensures !outside ==>
                status == if queueMem == null then Error
                          else if 0 < old(number) then Success
                          else if millisec == 0 then Timeout else Idle
      ensures queueMem != null && 0 < old(number) && !outside ==> message == Front(old(Log().q))
      ensures waitingTask == if queueMem == null then old(waitingTask) else current
      ensures throughNull <==> status.Idle? && current == null
      ensures current != null ==> current.haveToRun == (old(current.haveToRun) && !status.Idle?)
    {
      message := [];
      if queueMem == null { return Error, message, false, false; }
      waitingTask := current;
      if number == 0 {
        if millisec == 0 { return Timeout, message, false, false; }
        if waitingTask == null { return Idle, message, false, true; }
        waitingTask.haveToRun := false;
        return Idle, message, false, false;
      }
      if head + size > max * size {
        inSlots := false;
        return Error, message, true, false;
      }
      message := CopyOut();
      number := number - 1;
      head := (head + size % U16) % U16;
      if head >= (max * size) % U32 { head := 0; }
      delivered := delivered + [message];
      return Success, message, false, false;
    }

    /** Clears the whole handle. */
    method Destroy()
      modifies this
      ensures Valid() && queueMem == null && waitingTask == null
    {
      queueMem, waitingTask := null, null;
      size, max, number, head, tail := 0, 0, 0, 0, 0;
    }
  }

  /** Creates a queue and puts and gets until a copy leaves the slots: the run of the model, and so often a FIFO. */
  method Execute(mem: array<Byte>, msgNo: nat, msgSize: nat, current: Task, ops: seq<Op>) returns (queue: MsgQueue)
    requires (msgNo % U16) * msgSize <= mem.Length && msgSize < U32
    requires forall k :: 0 <= k < |ops| && ops[k].Put? ==> |ops[k].message| == msgSize
    modifies mem, current
    ensures fresh(queue) && queue.queueMem == mem
    ensures queue.Log() == Run(Created(old(mem[..]), msgSize, msgNo % U16), ops)
    ensures OffsetsFit(msgSize, msgNo % U16) ==> Fifo(queue.Log())
  {
    queue := new MsgQueue(mem, msgNo, msgSize, null);
    ghost var start := queue.Log();
    var k, outside := 0, false;
    while k < |ops| && !outside
      modifies mem, current, queue
      invariant k <= |ops| && queue.queueMem == mem && queue.size == msgSize
      invariant queue.waitingTask == null || queue.waitingTask == current
      invariant HasSlots(queue.Log().q.mem, queue.size, queue.max) && (queue.Valid() <==> !outside)
      invariant Run(queue.Log(), ops[k..]) == Run(start, ops)
    {
      assert ops[k..][0] == ops[k] && ops[k..][1..] == ops[k + 1..];
      match ops[k] {
        case Put(m) =>
          var status;
          status, outside := queue.Put(m);
        case Get =>
          var status, m, throughNull;
          status, m, outside, throughNull := queue.Get(0, current);
      }
      k := k + 1;
    }
    if outside { StoppedStays(queue.Log(), ops[k..]); }
    if OffsetsFit(msgSize, msgNo % U16) { FittingQueueIsFifo(start.q.mem, msgSize, msgNo % U16, ops); }
  }
}
