/**
 The transmit side as the serial manager runs it, and what holds over every run of it.
 */
module SerialTransmitter {
  import opened Rings
  import opened Sequences
  import opened SerialTx

  // ----- Runs

  datatype Op = Write(handle: nat, data: seq<Byte>, mode: Mode) | TxIdle | CancelWriting(handle: nat) | Task

  /** The opened handles before any write. */
  ghost function Initial(handles: set<nat>): Tx {
    Tx(map h | h in handles :: Transfer(None, 0, 0, NonBlocking, Success), [], [], None, 0, [], [], [], [], [], {}, 0)
  }

  ghost function Step(s: Tx, op: Op): (r: Tx)
    requires WellFormed(s)
    ensures WellFormed(r)
  {
    match op
    case Write(h, data, mode) => if h in s.transfers then AfterWrite(s, h, data, mode) else s
    case TxIdle => AfterPort(s, Success)
    case CancelWriting(h) => if h in s.transfers then AfterCancel(s, h) else s
    case Task => AfterTask(s)
  }

  ghost function Run(s: Tx, ops: seq<Op>): (r: Tx)
    requires WellFormed(s)
    ensures WellFormed(r)
    decreases |ops|
  {
    if ops == [] then s else Run(Step(s, ops[0]), ops[1..])
  }

  lemma InitialInv(handles: set<nat>)
    ensures Inv(Initial(handles))
  {
  }

  lemma StepKeepsInv(s: Tx, op: Op)
    requires Inv(s)
    ensures Inv(Step(s, op))
  {
    match op
    case Write(h, data, mode) => if h in s.transfers { WriteKeepsInv(s, h, data, mode); }
    case TxIdle => PortDoneKeepsInv(s, Success);
    case CancelWriting(h) => if h in s.transfers { CancelKeepsInv(s, h); }
    case Task => TaskKeepsInv(s);
  }

  lemma {:induction false} RunKeepsInv(s: Tx, ops: seq<Op>)
    requires Inv(s)
    ensures Inv(Run(s, ops))
    decreases |ops|
  {
    if ops != [] {
      StepKeepsInv(s, ops[0]);
      RunKeepsInv(Step(s, ops[0]), ops[1..]);
    }
  }

  // ----- What the invariant says

  /** How often a value occurs. */
  function Times<T(==)>(s: seq<T>, x: T): (n: nat)
    ensures n > 0 <==> x in s
  {
    if s == [] then 0 else (if s[0] == x then 1 else 0) + Times(s[1..], x)
  }

  lemma {:induction false} TimesSum<T>(s: seq<T>, t: seq<T>, x: T)
    ensures Times(s + t, x) == Times(s, x) + Times(t, x)
  {
    if s == [] {
      assert s + t == t;
    } else {
      assert (s + t)[1..] == s[1..] + t;
      TimesSum(s[1..], t, x);
    }
  }

  lemma {:induction false} TimesDistinct<T>(s: seq<T>, x: T)
    requires Distinct(s)
    ensures Times(s, x) <= 1
  {
    if s != [] {
      assert Without(s, 0) == s[1..];
      WithoutKeeps(s, 0);
      TimesDistinct(s[1..], x);
    }
  }

  /** A handle has a buffer exactly while it is once in exactly one of the two queues. */
  ghost predicate OneQueue(s: Tx) {
    forall h {:trigger s.transfers[h]} :: h in s.transfers ==>
      Times(s.completed, h) + Times(s.running, h) == if s.transfers[h].buffer.Some? then 1 else 0
  }

  /** Every non-blocking write has been called back once, or it is in a queue once and has not been called back. */
  ghost predicate ExactlyOnce(s: Tx) {
    forall n {:trigger s.accepted[n]} :: 0 <= n < |s.accepted| && s.accepted[n].mode.NonBlocking? ==>
      Times(s.called, n) + Times(s.completedNo, n) + Times(s.runningNo, n) == 1
  }

  ghost predicate NoCallbackWhenBlocking(s: Tx) {
    forall n {:trigger s.accepted[n]} :: 0 <= n < |s.accepted| && s.accepted[n].mode.Blocking? ==> n !in s.called
  }

  /** Callbacks come in order of acceptance, except for writes that were canceled while not being sent. */
  ghost predicate CalledInOrder(s: Tx) {
    forall i, j :: 0 <= i < j < |s.called| && s.called[i] !in s.moved && s.called[j] !in s.moved ==> s.called[i] < s.called[j]
  }

  /** The port gets every write at most once, in order of acceptance. */
  ghost predicate SentInOrder(s: Tx) {
    forall i, j :: 0 <= i < j < |s.started| ==> s.started[i] < s.started[j]
  }

  lemma InvMeansOneQueue(s: Tx)
    requires Inv(s)
    ensures OneQueue(s)
  {
    forall h {:trigger s.transfers[h]} | h in s.transfers
      ensures Times(s.completed, h) + Times(s.running, h) == if s.transfers[h].buffer.Some? then 1 else 0
    {
      TimesSum(s.completed, s.running, h);
      TimesDistinct(s.completed + s.running, h);
    }
  }

  lemma InvMeansExactlyOnce(s: Tx)
    requires Inv(s)
    ensures ExactlyOnce(s)
  {
    forall n {:trigger s.accepted[n]} | 0 <= n < |s.accepted| && s.accepted[n].mode.NonBlocking?
      ensures Times(s.called, n) + Times(s.completedNo, n) + Times(s.runningNo, n) == 1
    {
      TimesSum(s.called + s.completedNo, s.runningNo, n);
      TimesSum(s.called, s.completedNo, n);
      TimesDistinct(s.called + s.completedNo + s.runningNo, n);
    }
  }

  lemma InvMeansInOrder(s: Tx)
    requires Inv(s)
    ensures CalledInOrder(s) && SentInOrder(s)
  {
    var all, line := s.called + s.completedNo + s.runningNo, s.started + Rest(s.runningNo);
    forall i, j | 0 <= i < j < |s.called| && s.called[i] !in s.moved && s.called[j] !in s.moved
      ensures s.called[i] < s.called[j]
    {
      assert Before(i, j) && all[i] == s.called[i] && all[j] == s.called[j];
    }
    forall i, j | 0 <= i < j < |s.started| ensures s.started[i] < s.started[j] {
      assert Before(i, j) && line[i] == s.started[i] && line[j] == s.started[j];
    }
  }

  /** Over every run: one queue per handle, one callback per non-blocking write, and both orders. */
  lemma RunsAnswerOnceInOrder(handles: set<nat>, ops: seq<Op>)
    ensures var s := Run(Initial(handles), ops);
      OneQueue(s) && ExactlyOnce(s) && NoCallbackWhenBlocking(s) && CalledInOrder(s) && SentInOrder(s)
    ensures var s := Run(Initial(handles), ops); s.port.Some? <==> s.running != []
  {
    InitialInv(handles);
    RunKeepsInv(Initial(handles), ops);
    var s := Run(Initial(handles), ops);
    InvMeansOneQueue(s);
    InvMeansExactlyOnce(s);
    InvMeansInOrder(s);
  }

  /** A non-blocking write that is in a queue and is not being sent. */
  ghost predicate Waiting(s: Tx, h: nat) {
    && (h in s.completed || h in s.running) && !(s.running != [] && s.running[0] == h)
    && h in s.transfers && s.transfers[h].mode.NonBlocking?
  }

  /** The serial number of the write a queued handle carries. */
  ghost function NumberOf(s: Tx, h: nat): nat
    requires WellFormed(s) && (h in s.completed || h in s.running)
  {
    (s.completedNo + s.runningNo)[QueuePlace(s, h)]
  }

  lemma PortMovesNone(s: Tx, status: Status)
    requires WellFormed(s)
    ensures AfterPort(s, status).moved == s.moved
  {
  }

  lemma DequeueMovesOne(s: Tx, h: nat)
    requires WellFormed(s) && (h in s.completed || h in s.running)
    ensures AfterDequeue(s, h).moved == s.moved + {NumberOf(s, h)}
  {
    DequeueMoves(s, h);
  }

  lemma QueuedHasBuffer(s: Tx, h: nat)
    requires Inv(s) && h in s.transfers
    ensures s.transfers[h].buffer.Some? <==> h in s.completed || h in s.running
  {
    assert forall x :: x in s.completed || x in s.running <==> x in s.completed + s.running;
  }

  /** Only canceling a waiting write takes it out of the order. */
  lemma OnlyCancelMoves(s: Tx, op: Op)
    requires Inv(s)
    ensures Step(s, op).moved ==
              if op.CancelWriting? && Waiting(s, op.handle) then s.moved + {NumberOf(s, op.handle)} else s.moved
  {
    match op
    case Write(h, data, mode) =>
    case TxIdle => PortMovesNone(s, Success);
    case Task => AfterFlushMoved(s);
    case CancelWriting(h) =>
      if h in s.transfers {
        CancelKeepsInv(s, h);
        QueuedHasBuffer(s, h);
        if Waiting(s, h) { DequeueMovesOne(s, h); } else { PortMovesNone(s, Canceled); }
      }
  }

  lemma AfterFlushMoved(s: Tx)
    requires WellFormed(s)
    ensures AfterTask(s).moved == s.moved
  {
    FlushCallsAll(s);
  }

  // ----- The callbacks of one round of the task

  /** The callback for the completed write at `i`. */
  function CallbackFor(s: Tx, i: nat): Callback
    requires WellFormed(s) && i < |s.completed|
  {
    var t := s.transfers[s.completed[i]];
    Callback(s.completed[i], t.buffer, t.soFar, t.status)
  }

  function Due(s: Tx): (cs: seq<Callback>)
    requires WellFormed(s)
    ensures |cs| == |s.completed|
  {
    seq(|s.completed|, i requires 0 <= i < |s.completed| => CallbackFor(s, i))
  }

  /** The callbacks name the accepted writes and their data, in the order of the queue. */
  lemma DueAreAccepted(s: Tx, i: nat)
    requires Inv(s) && i < |s.completed|
    ensures s.completedNo[i] < |s.accepted|
    ensures var w := s.accepted[s.completedNo[i]];
      Due(s)[i].handle == w.handle && Due(s)[i].buffer == Some(w.data) && w.mode.NonBlocking?
  {
    assert Carries(s.accepted, s.completedNo[i], s.completed[i], s.transfers);
  }

  lemma CallbackStays(s: Tx, i: nat)
    requires WellFormed(s) && Distinct(s.completed + s.running) && 0 < i < |s.completed|
    ensures CallbackFor(s, i) == CallbackFor(AfterCallBack(s), i - 1)
  {
    var queued := s.completed + s.running;
    assert Before(0, i) && queued[0] == s.completed[0] && queued[i] == s.completed[i];
  }

  /** Making the first callback leaves the others as they were. */
  lemma DueAfterCallBack(s: Tx)
    requires WellFormed(s) && Distinct(s.completed + s.running) && s.completed != []
    ensures Due(s) == [CallbackFor(s, 0)] + Due(AfterCallBack(s))
  {
    var due, rest := Due(s), Due(AfterCallBack(s));
    forall i | 0 < i < |s.completed| ensures due[i] == rest[i - 1] { CallbackStays(s, i); }
  }

  // ----- Rounds that call nothing back

  /** With writes due, a round makes their callbacks and takes one post, exactly if the posts are no multiple of 256. */
  lemma RoundCallsBackIff(s: Tx)
    requires WellFormed(s) && Posted(s) && s.completed != []
    ensures var r := AfterTask(s);
      if s.posts % 256 != 0 then
        && r.completed == [] && r.called == s.called + s.completedNo
        && r.running == s.running && r.port == s.port && r.posts == s.posts - 1 && r.sent == s.sent - 1
      else r == s
  {
    FlushCallsAll(s);
    FlushKeepsPort(s);
  }

  lemma {:induction false} FlushKeepsPort(s: Tx)
    requires WellFormed(s)
    ensures AfterFlush(s).port == s.port
    decreases |s.completed|
  {
    if s.completed != [] { FlushKeepsPort(AfterCallBack(s)); }
  }

  /** One non-blocking write is done and due. */
  ghost predicate OnlyDue(s: Tx, h: nat) {
    && WellFormed(s) && Posted(s) && s.completed == [h] && s.running == []
    && s.transfers[h].buffer.Some? && s.transfers[h].mode.NonBlocking?
  }

  lemma CancelPosts(s: Tx, h: nat)
    requires OnlyDue(s, h)
    ensures var r := Step(s, CancelWriting(h)); OnlyDue(r, h) && r.posts == s.posts + 1
  {
    assert Without(s.completed, IndexOf(s.completed, h)) == [];
    PostCounts(s.sent, s.posts);
  }

  function Cancels(h: nat, n: nat): seq<Op> {
    if n == 0 then [] else [CancelWriting(h)] + Cancels(h, n - 1)
  }

  lemma RunFirst(s: Tx, op: Op, ops: seq<Op>)
    requires WellFormed(s)
    ensures Run(s, [op] + ops) == Run(Step(s, op), ops)
  {
    assert ([op] + ops)[1..] == ops;
  }

  lemma {:induction false} CancelsPost(s: Tx, h: nat, n: nat)
    requires OnlyDue(s, h)
    ensures var r := Run(s, Cancels(h, n)); OnlyDue(r, h) && r.posts == s.posts + n
    decreases n
  {
    if n != 0 {
      CancelPosts(s, h);
      CancelsPost(Step(s, CancelWriting(h)), h, n - 1);
      RunFirst(s, CancelWriting(h), Cancels(h, n - 1));
    }
  }

  lemma WriteIsDone(handles: set<nat>, h: nat, data: seq<Byte>)
    requires h in handles
    ensures var s := Step(Step(Initial(handles), Write(h, data, NonBlocking)), TxIdle); OnlyDue(s, h) && s.posts == 1
  {
  }

  /** A write that is done and then canceled `n` times is due, but a round passes it over if n + 1 is a multiple of 256. */
  lemma RoundPassesOverIff(handles: set<nat>, h: nat, data: seq<Byte>, n: nat)
    requires h in handles
    ensures var s := Run(Initial(handles), [Write(h, data, NonBlocking)] + ([TxIdle] + Cancels(h, n)));
      && s.completed == [h] && s.posts == n + 1
      && if (n + 1) % 256 == 0 then Step(s, Task) == s else Step(s, Task).completed == []
  {
    var s, w := Initial(handles), Write(h, data, NonBlocking);
    WriteIsDone(handles, h, data);
    var done := Step(Step(s, w), TxIdle);
    CancelsPost(done, h, n);
    RunFirst(s, w, [TxIdle] + Cancels(h, n));
    RunFirst(Step(s, w), TxIdle, Cancels(h, n));
    RoundCallsBackIff(Run(done, Cancels(h, n)));
  }

  lemma PostsRemain(sent: nat, posts: nat)
    requires sent == posts % 256 && sent != 0
    ensures posts != 0
  {
  }

  lemma Regroup<T>(a: seq<T>, x: T, b: seq<T>)
    ensures (a + [x]) + b == a + ([x] + b)
  {
  }

  class Transmitter {
    var transfers: map<nat, Transfer>
    var running: seq<nat>
    var completed: seq<nat>
    /** The data the UART is sending; it is busy while there is any. */
    var port: Option<seq<Byte>>
    /** How often the task still has to look after completed writes: an 8-bit count. */
    var sent: nat
    ghost var accepted: seq<Accepted>
    ghost var runningNo: seq<nat>
    ghost var completedNo: seq<nat>
    ghost var called: seq<nat>
    ghost var started: seq<nat>
    ghost var moved: set<nat>
    ghost var posts: nat

    ghost function View(): Tx
      reads this
    {
      Tx(transfers, running, completed, port, sent, accepted, runningNo, completedNo, called, started, moved, posts)
    }

    ghost predicate Valid()
      reads this
    {
      Inv(View())
    }

    constructor (handles: set<nat>)
      ensures Valid() && View() == Initial(handles)
    {
      transfers := map h | h in handles :: Transfer(None, 0, 0, NonBlocking, Success);
      running, completed, port, sent := [], [], None, 0;
      accepted, runningNo, completedNo, called, started, moved, posts := [], [], [], [], [], {}, 0;
    }

    /** The port refuses while it is busy. */
    method PortWrite(data: seq<Byte>) returns (status: Status)
      modifies this`port
      ensures status == if old(port).Some? then Busy else Success
      ensures port == if old(port).Some? then old(port) else Some(data)
    {
      if port.Some? { return Busy; }
      port := Some(data);
      status := Success;
    }

    method StartWriting()
      requires WellFormed(View()) && (running != [] ==> transfers[running[0]].buffer.Some?)
      modifies this`port, this`started
      ensures View() == AfterStart(old(View()))
    {
      if running != [] {
        var status := PortWrite(transfers[running[0]].buffer.value);
        if status.Success? { started := started + [runningNo[0]]; }
      }
    }

    /** Puts a handle behind the completed ones and posts it to the task. */
    method Complete(h: nat, ghost n: nat, t: Transfer)
      modifies this`transfers, this`completed, this`completedNo, this`sent, this`posts
      ensures View() == Post(old(View()).(transfers := old(transfers)[h := t], completed := old(completed) + [h],
                                          completedNo := old(completedNo) + [n]))
    {
      transfers := transfers[h := t];
      completed, completedNo := completed + [h], completedNo + [n];
      sent, posts := (sent + 1) % 256, posts + 1;
    }

    /** The port is done with the first running write. */
    method TxCallback(length: nat, status: Status)
      requires WellFormed(View()) && port == None && (|running| > 1 ==> transfers[running[1]].buffer.Some?)
      modifies this
      ensures View() == AfterTxCallback(old(View()), length, status)
    {
      if running == [] { return; }
      var h := running[0];
      ghost var n := runningNo[0];
      running, runningNo := running[1..], runningNo[1..];
      StartWriting();
      var t := transfers[h].(soFar := length, status := status);
      if t.mode.NonBlocking? { Complete(h, n, t); } else { transfers := transfers[h := t.(buffer := None)]; }
    }

    /** The port finishes or abandons what it is sending. */
    method PortDone(status: Status)
      requires Valid()
      modifies this
      ensures Valid() && View() == AfterPort(old(View()), status)
    {
      PortDoneKeepsInv(View(), status);
      if port.Some? {
        var length := |port.value|;
        RunningHaveBuffers(View());
        port := None;
        TxCallback(length, status);
      }
    }

    method Write(h: nat, data: seq<Byte>, mode: Mode) returns (status: Status)
      requires Valid() && h in transfers
      modifies this
      ensures Valid() && View() == AfterWrite(old(View()), h, data, mode)
      ensures status == if old(transfers)[h].buffer.Some? then Busy else Success
    {
      WriteKeepsInv(View(), h, data, mode);
      if transfers[h].buffer.Some? { return Busy; }
      transfers := transfers[h := transfers[h].(buffer := Some(data), length := |data|, soFar := 0, mode := mode)];
      var isEmpty := running == [];
      running, runningNo := running + [h], runningNo + [|accepted|];
      accepted := accepted + [Accepted(h, data, mode)];
      if isEmpty { StartWriting(); }
      status := Success;
    }

    method CancelWriting(h: nat) returns (status: Status)
      requires Valid() && h in transfers
      modifies this
      ensures Valid() && View() == AfterCancel(old(View()), h)
      ensures status == if old(transfers)[h].buffer.Some? && old(transfers)[h].mode.Blocking? then Error else Success
    {
      CancelKeepsInv(View(), h);
      QueuedHasBuffer(View(), h);
      if transfers[h].buffer.Some? && transfers[h].mode.Blocking? { return Error; }
      status := Success;
      if running != [] && running[0] == h {
        PortDone(Canceled);
      } else if h in completed || h in running {
        DequeueKeepsInv(View(), h);
        Dequeue(h);
      } else {
        return;
      }
      RunningHaveBuffers(View());
      StartWriting();
    }

    /** Takes a handle out of the queue it is in and puts it behind the completed ones. */
    method Dequeue(h: nat)
      requires WellFormed(View()) && (h in completed || h in running)
      modifies this
      ensures View() == AfterDequeue(old(View()), h)
    {
      ghost var n: nat := 0;
      if h in completed {
        var i := IndexOf(completed, h);
        n := completedNo[i];
        completed, completedNo, moved := Without(completed, i), Without(completedNo, i), moved + {n};
      } else {
        var i := IndexOf(running, h);
        n := runningNo[i];
        running, runningNo, moved := Without(running, i), Without(runningNo, i), moved + {n};
      }
      Complete(h, n, transfers[h].(soFar := 0, status := Canceled));
    }

    /** Frees the first completed handle and makes its callback. */
    method CallBack() returns (callback: Callback)
      requires Valid() && completed != []
      modifies this`transfers, this`completed, this`completedNo, this`called
      ensures Valid() && View() == AfterCallBack(old(View())) && callback == CallbackFor(old(View()), 0)
    {
      CallBackKeepsInv(View());
      var h := completed[0];
      called := called + [completedNo[0]];
      completed, completedNo := completed[1..], completedNo[1..];
      callback := Callback(h, transfers[h].buffer, transfers[h].soFar, transfers[h].status);
      transfers := transfers[h := transfers[h].(buffer := None)];
    }

    /** Calls back all completed writes, in order. */
    method CallBackAll() returns (callbacks: seq<Callback>)
      requires Valid()
      modifies this`transfers, this`completed, this`completedNo, this`called
      ensures Valid() && View() == AfterFlush(old(View())) && callbacks == Due(old(View()))
    {
      callbacks := [];
      while completed != []
        invariant Valid() && AfterFlush(View()) == AfterFlush(old(View()))
        invariant callbacks + Due(View()) == Due(old(View()))
        decreases |completed|
      {
        DueAfterCallBack(View());
        var callback := CallBack();
        Regroup(callbacks, callback, Due(View()));
        callbacks := callbacks + [callback];
      }
    }

    /** One round of the task: if anything was posted, all completed writes are called back. */
    method Task() returns (callbacks: seq<Callback>)
      requires Valid()
      modifies this
      ensures Valid() && View() == AfterTask(old(View()))
      ensures callbacks == if old(sent) == 0 then [] else Due(old(View()))
      ensures old(sent) != 0 ==> completed == [] && called == old(called) + old(completedNo)
    {
      TaskKeepsInv(View());
      FlushCallsAll(View());
      if sent == 0 { return []; }
      PostsRemain(sent, posts);
      callbacks := Round();
    }

    method Round() returns (callbacks: seq<Callback>)
      requires Valid() && sent != 0 && posts != 0
      modifies this
      ensures View() == AfterTask(old(View())) && callbacks == Due(old(View()))
    {
      RoundIs(View());
      callbacks := CallBackAll();
      Unpost();
    }

    method Unpost()
      requires 0 < sent && 0 < posts
      modifies this`sent, this`posts
      ensures View() == old(View()).(sent := old(sent) - 1, posts := old(posts) - 1)
    {
      sent, posts := sent - 1, posts - 1;
    }
  }

  lemma RoundIs(s: Tx)
    requires WellFormed(s) && s.sent != 0 && s.posts != 0
    ensures AfterTask(s) == AfterFlush(s).(sent := s.sent - 1, posts := s.posts - 1)
  {
  }

  lemma RunningHaveBuffers(s: Tx)
    requires Inv(s)
    ensures forall i :: 0 <= i < |s.running| ==> s.running[i] in s.transfers && s.transfers[s.running[i]].buffer.Some?
  {
    forall i | 0 <= i < |s.running| ensures s.running[i] in s.transfers && s.transfers[s.running[i]].buffer.Some? {
      assert Carries(s.accepted, s.runningNo[i], s.running[i], s.transfers);
    }
  }
}
