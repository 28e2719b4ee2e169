/**
 The transmit side of the serial manager over a UART: the queue of running writes, the queue of completed ones,
 and the task that makes the callbacks. Handles are opened beforehand and known by number.
 */
module SerialTx {
  import opened Rings
  import opened Sequences

  datatype Status = Success | Error | Busy | Canceled
  datatype Mode = Blocking | NonBlocking
  datatype Option<T> = None | Some(value: T)
  datatype Transfer = Transfer(buffer: Option<seq<Byte>>, length: nat, soFar: nat, mode: Mode, status: Status)
  datatype Callback = Callback(handle: nat, buffer: Option<seq<Byte>>, length: nat, status: Status)
  /** A write the manager accepted. */
  datatype Accepted = Accepted(handle: nat, data: seq<Byte>, mode: Mode)

  // ----- Orders of writes

  /** Apart from the moved ones, the writes stand in order of acceptance. */
  ghost predicate InOrder(s: seq<nat>, moved: set<nat>) {
    forall i, j {:trigger Before(i, j)} :: Before(i, j) && j < |s| && s[i] !in moved && s[j] !in moved ==> s[i] < s[j]
  }

  lemma WithoutInOrder(s: seq<nat>, i: nat, moved: set<nat>)
    requires InOrder(s, moved) && i < |s|
    ensures InOrder(Without(s, i), moved)
  {
    var s' := Without(s, i);
    forall k, l {:trigger Before(k, l)} | Before(k, l) && l < |s'| && s'[k] !in moved && s'[l] !in moved
      ensures s'[k] < s'[l]
    {
      assert Before(OldPlace(i, k), OldPlace(i, l));
    }
  }

  lemma WithInOrder(s: seq<nat>, j: nat, x: nat, moved: set<nat>)
    requires InOrder(s, moved) && j <= |s|
    ensures InOrder(With(s, j, x), moved + {x})
  {
    var s' := With(s, j, x);
    forall k, l {:trigger Before(k, l)} | Before(k, l) && l < |s'| && s'[k] !in moved + {x} && s'[l] !in moved + {x}
      ensures s'[k] < s'[l]
    {
      assert Before(Place(j, k), Place(j, l));
    }
  }

  lemma NewestInOrder(s: seq<nat>, x: nat, moved: set<nat>)
    requires InOrder(s, moved) && forall y :: y in s ==> y < x
    ensures InOrder(s + [x], moved)
  {
    assert forall i :: 0 <= i < |s| ==> s[i] in s;
  }

  // ----- What each step does to the accepted writes, known by their serial numbers

  /** Every write stands at one place, in order, and none of the non-blocking ones is missing. */
  ghost predicate Ordered(accepted: seq<Accepted>, all: seq<nat>, moved: set<nat>) {
    && Distinct(all) && InOrder(all, moved)
    && (forall n :: n in all ==> n < |accepted|)
    && (forall n {:trigger accepted[n]} :: 0 <= n < |accepted| && accepted[n].mode.NonBlocking? ==> n in all)
  }

  /** Called back, then waiting for the callback, then running. */
  ghost predicate Pipeline(accepted: seq<Accepted>, called: seq<nat>, completed: seq<nat>, running: seq<nat>, moved: set<nat>) {
    Ordered(accepted, called + completed + running, moved)
  }

  lemma AcceptKeepsPipeline(accepted: seq<Accepted>, called: seq<nat>, completed: seq<nat>, running: seq<nat>,
                            moved: set<nat>, w: Accepted)
    requires Pipeline(accepted, called, completed, running, moved)
    ensures Pipeline(accepted + [w], called, completed, running + [|accepted|], moved)
  {
    var all := called + completed + running;
    assert called + completed + (running + [|accepted|]) == all + [|accepted|] == With(all, |all|, |accepted|);
    WithKeeps(all, |all|, |accepted|);
    NewestInOrder(all, |accepted|, moved);
  }

  lemma CompleteKeepsPipeline(accepted: seq<Accepted>, called: seq<nat>, completed: seq<nat>, running: seq<nat>,
                              moved: set<nat>)
    requires Pipeline(accepted, called, completed, running, moved) && running != []
    ensures Pipeline(accepted, called, completed + [running[0]], running[1..], moved)
  {
    assert called + (completed + [running[0]]) + running[1..] == called + completed + running;
  }

  lemma CallKeepsPipeline(accepted: seq<Accepted>, called: seq<nat>, completed: seq<nat>, running: seq<nat>,
                          moved: set<nat>)
    requires Pipeline(accepted, called, completed, running, moved) && completed != []
    ensures Pipeline(accepted, called + [completed[0]], completed[1..], running, moved)
  {
    assert (called + [completed[0]]) + completed[1..] + running == called + completed + running;
  }

  lemma DropKeepsPipeline(accepted: seq<Accepted>, called: seq<nat>, completed: seq<nat>, running: seq<nat>,
                          moved: set<nat>)
    requires Pipeline(accepted, called, completed, running, moved) && running != []
    requires running[0] < |accepted| && accepted[running[0]].mode.Blocking?
    ensures Pipeline(accepted, called, completed, running[1..], moved)
  {
    var all, i := called + completed + running, |called + completed|;
    assert called + completed + running[1..] == Without(all, i);
    WithoutKeeps(all, i);
    WithoutInOrder(all, i, moved);
  }

  lemma MovedWrite(accepted: seq<Accepted>, all: seq<nat>, k: nat, j: nat, n: nat, moved: set<nat>)
    requires Ordered(accepted, all, moved) && k < |all| && j < |all| && n == all[k]
    ensures Ordered(accepted, With(Without(all, k), j, n), moved + {n})
  {
    WithoutKeeps(all, k);
    WithoutInOrder(all, k, moved);
    WithKeeps(Without(all, k), j, n);
    WithInOrder(Without(all, k), j, n, moved);
    assert forall x :: x in With(Without(all, k), j, n) <==> x in all;
  }

  lemma MovedOrder(accepted: seq<Accepted>, all: seq<nat>, all': seq<nat>, k: nat, j: nat, n: nat, moved: set<nat>)
    requires Ordered(accepted, all, moved) && k < |all| && j < |all| && n == all[k] && all' == With(Without(all, k), j, n)
    ensures Ordered(accepted, all', moved + {n})
  {
    MovedWrite(accepted, all, k, j, n, moved);
  }

  /** Taking the write at `i` out of two queues and putting it behind the first of them. */
  ghost predicate Moved(b: seq<nat>, c: seq<nat>, i: nat, b': seq<nat>, c': seq<nat>, n: nat) {
    && i < |b| + |c|
    && if i < |b| then b' == Without(b, i) + [b[i]] && c' == c && n == b[i]
       else b' == b + [c[i - |b|]] && c' == Without(c, i - |b|) && n == c[i - |b|]
  }

  lemma MovedInSequence(a: seq<nat>, b: seq<nat>, c: seq<nat>, i: nat, b': seq<nat>, c': seq<nat>, n: nat)
    requires Moved(b, c, i, b', c', n)
    ensures (a + b + c)[|a| + i] == n
    ensures i < |b| + |c| && 0 < |b'| <= |b| + 1
    ensures a + b' + c' == With(Without(a + b + c, |a| + i), |a| + |b'| - 1, n)
  {
    var all := a + b + c;
    if i < |b| {
      assert Without(all, |a| + i) == a + Without(b, i) + c;
    } else {
      assert Without(all, |a| + i) == a + b + Without(c, i - |b|);
    }
  }

  lemma MovedInPair(b: seq<nat>, c: seq<nat>, i: nat, b': seq<nat>, c': seq<nat>, n: nat)
    requires Moved(b, c, i, b', c', n)
    ensures i < |b| + |c| && 0 < |b'| <= |b| + 1 && (b + c)[i] == n
    ensures b' + c' == With(Without(b + c, i), |b'| - 1, n)
  {
    MovedInSequence([], b, c, i, b', c', n);
    assert [] + b + c == b + c && [] + b' + c' == b' + c';
  }

  /** A canceled write leaves its place for the end of the completed ones. */
  lemma MoveKeepsPipeline(accepted: seq<Accepted>, called: seq<nat>, completed: seq<nat>, running: seq<nat>,
                          moved: set<nat>, i: nat, completed': seq<nat>, running': seq<nat>, n: nat)
    requires Pipeline(accepted, called, completed, running, moved)
    requires Moved(completed, running, i, completed', running', n)
    ensures Pipeline(accepted, called, completed', running', moved + {n})
  {
    MovedInSequence(called, completed, running, i, completed', running', n);
    MovedOrder(accepted, called + completed + running, called + completed' + running', |called| + i, |called| + |completed'| - 1,
               n, moved);
  }

  // ----- The state and its steps

  /**
   The handles' transfers, the two queues, what the port is sending and the 8-bit count of unserved completions;
   and the history: all writes accepted, the serial numbers of the writes in each queue, of those called back,
   of those handed to the port, and of those canceled while not being sent, with the exact count of completions.
   */
  datatype Tx = Tx(transfers: map<nat, Transfer>, running: seq<nat>, completed: seq<nat>, port: Option<seq<Byte>>, sent: nat,
                   accepted: seq<Accepted>, runningNo: seq<nat>, completedNo: seq<nat>, called: seq<nat>,
                   started: seq<nat>, moved: set<nat>, posts: nat)

  /** The queues name opened handles, with one serial number each. */
  ghost predicate WellFormed(s: Tx) {
    && |s.running| == |s.runningNo| && |s.completed| == |s.completedNo|
    && (forall h :: h in s.running ==> h in s.transfers)
    && (forall h :: h in s.completed ==> h in s.transfers)
  }

  /** Hands the first running write to the port, which refuses while it is busy. */
  ghost function AfterStart(s: Tx): (r: Tx)
    requires WellFormed(s)
    ensures WellFormed(r)
  {
    if s.running == [] || s.port.Some? then s
    else s.(port := s.transfers[s.running[0]].buffer, started := s.started + [s.runningNo[0]])
  }

  ghost function Post(s: Tx): Tx {
    s.(sent := (s.sent + 1) % 256, posts := s.posts + 1)
  }

  ghost function DropFirst(s: Tx): (r: Tx)
    requires WellFormed(s) && s.running != []
    ensures WellFormed(r)
  {
    s.(running := s.running[1..], runningNo := s.runningNo[1..])
  }

  /** The port is done with the first running write, and gets the next one before this one is filed. */
  ghost function AfterTxCallback(s: Tx, length: nat, status: Status): (r: Tx)
    requires WellFormed(s)
    ensures WellFormed(r)
  {
    if s.running == [] then s
    else
      var h, n := s.running[0], s.runningNo[0];
      var t := s.transfers[h].(soFar := length, status := status);
      var s1 := AfterStart(DropFirst(s));
      if t.mode.NonBlocking? then
        Post(s1.(transfers := s.transfers[h := t], completed := s.completed + [h], completedNo := s.completedNo + [n]))
      else
        s1.(transfers := s.transfers[h := t.(buffer := None)])
  }

  /** The port reports that it sent everything, or abandons what it is sending. */
  ghost function AfterPort(s: Tx, status: Status): (r: Tx)
    requires WellFormed(s)
    ensures WellFormed(r)
  {
    match s.port
    case None => s
    case Some(data) => AfterTxCallback(s.(port := None), |data|, status)
  }

  ghost function AfterEnqueue(s: Tx, h: nat, data: seq<Byte>, mode: Mode): (r: Tx)
    requires WellFormed(s) && h in s.transfers
    ensures WellFormed(r)
  {
    var t := s.transfers[h].(buffer := Some(data), length := |data|, soFar := 0, mode := mode);
    s.(transfers := s.transfers[h := t], running := s.running + [h], runningNo := s.runningNo + [|s.accepted|],
       accepted := s.accepted + [Accepted(h, data, mode)])
  }

  ghost function AfterWrite(s: Tx, h: nat, data: seq<Byte>, mode: Mode): (r: Tx)
    requires WellFormed(s) && h in s.transfers
    ensures WellFormed(r)
  {
    if s.transfers[h].buffer.Some? then s
    else if s.running == [] then AfterStart(AfterEnqueue(s, h, data, mode))
    else AfterEnqueue(s, h, data, mode)
  }

  /** Takes a handle out of the queue it is in and puts it behind the completed ones. */
  ghost function AfterDequeue(s: Tx, h: nat): (r: Tx)
    requires WellFormed(s) && (h in s.completed || h in s.running)
    ensures WellFormed(r)
  {
    var t := s.transfers[h].(soFar := 0, status := Canceled);
    if h in s.completed then
      var i := IndexOf(s.completed, h);
      Post(s.(transfers := s.transfers[h := t], completed := Without(s.completed, i) + [h],
              completedNo := Without(s.completedNo, i) + [s.completedNo[i]], moved := s.moved + {s.completedNo[i]}))
    else
      var i := IndexOf(s.running, h);
      Post(s.(transfers := s.transfers[h := t], running := Without(s.running, i), runningNo := Without(s.runningNo, i),
              completed := s.completed + [h], completedNo := s.completedNo + [s.runningNo[i]],
              moved := s.moved + {s.runningNo[i]}))
  }

  /** A handle that is neither being sent nor in a queue is left alone. */
  ghost function AfterCancel(s: Tx, h: nat): (r: Tx)
    requires WellFormed(s) && h in s.transfers
    ensures WellFormed(r)
  {
    if s.transfers[h].buffer.Some? && s.transfers[h].mode.Blocking? then s
    else if s.running != [] && s.running[0] == h then AfterStart(AfterPort(s, Canceled))
    else if h in s.completed || h in s.running then AfterStart(AfterDequeue(s, h))
    else s
  }

  /** The task frees the first completed handle and makes its callback. */
  ghost function AfterCallBack(s: Tx): (r: Tx)
    requires WellFormed(s) && s.completed != []
    ensures WellFormed(r)
  {
    var h := s.completed[0];
    s.(completed := s.completed[1..], completedNo := s.completedNo[1..], called := s.called + [s.completedNo[0]],
       transfers := s.transfers[h := s.transfers[h].(buffer := None)])
  }

  ghost function AfterFlush(s: Tx): (r: Tx)
    requires WellFormed(s)
    ensures WellFormed(r) && r.completed == [] && r.sent == s.sent && r.posts == s.posts
    decreases |s.completed|
  {
    if s.completed == [] then s else AfterFlush(AfterCallBack(s))
  }

  /** One round of the task. */
  ghost function AfterTask(s: Tx): (r: Tx)
    requires WellFormed(s)
    ensures WellFormed(r)
  {
    if s.sent == 0 || s.posts == 0 then s
    else
      var r := AfterFlush(s);
      r.(sent := r.sent - 1, posts := r.posts - 1)
  }

  // ----- What every reachable state satisfies

  /** A handle has a buffer exactly while it is in one of the queues, and it is there once. */
  ghost predicate Owned(transfers: map<nat, Transfer>, queued: seq<nat>) {
    && Distinct(queued)
    && (forall h {:trigger transfers[h]} :: h in transfers ==> (transfers[h].buffer.Some? <==> h in queued))
  }

  /** The transfer of a queued handle is that of the accepted write with its serial number. */
  ghost predicate Carries(accepted: seq<Accepted>, n: nat, h: nat, transfers: map<nat, Transfer>) {
    && n < |accepted| && h in transfers && accepted[n].handle == h
    && transfers[h].buffer == Some(accepted[n].data) && transfers[h].mode == accepted[n].mode
  }

  ghost predicate Linked(accepted: seq<Accepted>, nos: seq<nat>, hs: seq<nat>, transfers: map<nat, Transfer>) {
    |nos| == |hs| && forall i {:trigger nos[i]} :: 0 <= i < |nos| ==> Carries(accepted, nos[i], hs[i], transfers)
  }

  ghost predicate AllNonBlocking(hs: seq<nat>, transfers: map<nat, Transfer>) {
    forall h :: h in hs ==> h in transfers && transfers[h].mode.NonBlocking?
  }

  function Rest<T>(s: seq<T>): seq<T> {
    if s == [] then [] else s[1..]
  }

  /** The writes go to the port in order of acceptance, each once; the first running one has gone there last. */
  ghost predicate Line(started: seq<nat>, running: seq<nat>, limit: nat) {
    && InOrder(started + Rest(running), {})
    && (forall n :: n in started + Rest(running) ==> n < limit)
    && (running != [] ==> started != [] && started[|started| - 1] == running[0])
  }

  /** The port is busy exactly while writes are running, with the data of the first. */
  ghost predicate Sending(s: Tx) {
    && |s.running| == |s.runningNo|
    && if s.running == [] then s.port == None
       else s.runningNo[0] < |s.accepted| && s.port == Some(s.accepted[s.runningNo[0]].data)
  }

  /** Only non-blocking writes are called back. */
  ghost predicate Answered(accepted: seq<Accepted>, called: seq<nat>) {
    forall n :: n in called ==> n < |accepted| && accepted[n].mode.NonBlocking?
  }

  ghost predicate Posted(s: Tx) {
    s.sent == s.posts % 256 && (s.completed != [] ==> 0 < s.posts)
  }

  /** The queues, the transfers and the history agree. */
  ghost predicate QueuesInv(s: Tx) {
    && Pipeline(s.accepted, s.called, s.completedNo, s.runningNo, s.moved)
    && Owned(s.transfers, s.completed + s.running)
    && Linked(s.accepted, s.completedNo, s.completed, s.transfers)
    && Linked(s.accepted, s.runningNo, s.running, s.transfers)
    && AllNonBlocking(s.completed, s.transfers) && Answered(s.accepted, s.called)
  }

  ghost predicate Inv(s: Tx) {
    WellFormed(s) && QueuesInv(s) && Line(s.started, s.runningNo, |s.accepted|) && Sending(s) && Posted(s)
  }

  // ----- The parts of the invariant, step by step

  lemma OwnedOneMore(transfers: map<nat, Transfer>, queued: seq<nat>, h: nat, t: Transfer)
    requires Owned(transfers, queued) && h in transfers && transfers[h].buffer.None? && t.buffer.Some?
    ensures h !in queued && Owned(transfers[h := t], queued + [h])
  {
    assert queued + [h] == With(queued, |queued|, h);
    WithKeeps(queued, |queued|, h);
  }

  lemma OwnedOneLess(transfers: map<nat, Transfer>, queued: seq<nat>, i: nat, t: Transfer)
    requires Owned(transfers, queued) && i < |queued| && t.buffer.None?
    ensures queued[i] !in Without(queued, i) && Owned(transfers[queued[i] := t], Without(queued, i))
  {
    WithoutKeeps(queued, i);
  }

  lemma OwnedSame(transfers: map<nat, Transfer>, queued: seq<nat>, h: nat, t: Transfer)
    requires Owned(transfers, queued) && h in transfers && (t.buffer.Some? <==> transfers[h].buffer.Some?)
    ensures Owned(transfers[h := t], queued)
  {
  }

  lemma OwnedMoved(transfers: map<nat, Transfer>, queued: seq<nat>, queued': seq<nat>, k: nat, j: nat)
    requires Owned(transfers, queued) && k < |queued| && j < |queued|
    requires queued' == With(Without(queued, k), j, queued[k])
    ensures Owned(transfers, queued')
  {
    WithoutKeeps(queued, k);
    WithKeeps(Without(queued, k), j, queued[k]);
  }

  lemma LinkedUpdate(accepted: seq<Accepted>, nos: seq<nat>, hs: seq<nat>, transfers: map<nat, Transfer>, h: nat, t: Transfer)
    requires Linked(accepted, nos, hs, transfers)
    requires h !in hs || (h in transfers && t.buffer == transfers[h].buffer && t.mode == transfers[h].mode)
    ensures Linked(accepted, nos, hs, transfers[h := t])
  {
    forall i {:trigger nos[i]} | 0 <= i < |nos| ensures Carries(accepted, nos[i], hs[i], transfers[h := t]) {
      assert Carries(accepted, nos[i], hs[i], transfers) && hs[i] in hs;
    }
  }

  lemma LinkedAccept(accepted: seq<Accepted>, nos: seq<nat>, hs: seq<nat>, transfers: map<nat, Transfer>, w: Accepted)
    requires Linked(accepted, nos, hs, transfers)
    ensures Linked(accepted + [w], nos, hs, transfers)
  {
    forall i {:trigger nos[i]} | 0 <= i < |nos| ensures Carries(accepted + [w], nos[i], hs[i], transfers) {
      assert Carries(accepted, nos[i], hs[i], transfers);
    }
  }

  lemma LinkedSnoc(accepted: seq<Accepted>, nos: seq<nat>, hs: seq<nat>, transfers: map<nat, Transfer>, n: nat, h: nat)
    requires Linked(accepted, nos, hs, transfers) && Carries(accepted, n, h, transfers)
    ensures Linked(accepted, nos + [n], hs + [h], transfers)
  {
  }

  lemma LinkedWithout(accepted: seq<Accepted>, nos: seq<nat>, hs: seq<nat>, transfers: map<nat, Transfer>, i: nat)
    requires Linked(accepted, nos, hs, transfers) && i < |hs|
    ensures Carries(accepted, nos[i], hs[i], transfers)
    ensures Linked(accepted, Without(nos, i), Without(hs, i), transfers)
  {
    forall k {:trigger Without(nos, i)[k]} | 0 <= k < |nos| - 1
      ensures Carries(accepted, Without(nos, i)[k], Without(hs, i)[k], transfers)
    {
      assert Carries(accepted, nos[OldPlace(i, k)], hs[OldPlace(i, k)], transfers);
    }
  }

  lemma LineAccept(started: seq<nat>, running: seq<nat>, limit: nat)
    requires Line(started, running, limit) && running != []
    ensures Line(started, running + [limit], limit + 1)
  {
    assert started + Rest(running + [limit]) == (started + Rest(running)) + [limit];
    NewestInOrder(started + Rest(running), limit, {});
  }

  lemma LineStart(started: seq<nat>, limit: nat)
    requires Line(started, [], limit)
    ensures Line(started + [limit], [limit], limit + 1)
  {
    assert started + Rest<nat>([]) == started && (started + [limit]) + Rest([limit]) == started + [limit];
    NewestInOrder(started, limit, {});
  }

  lemma LineNext(started: seq<nat>, running: seq<nat>, limit: nat)
    requires Line(started, running, limit) && running != []
    ensures Line(if |running| == 1 then started else started + [running[1]], running[1..], limit)
  {
    if |running| == 1 {
      assert started + Rest(running[1..]) == started + Rest(running);
    } else {
      assert (started + [running[1]]) + Rest(running[1..]) == started + Rest(running);
    }
  }

  lemma LineWithout(started: seq<nat>, running: seq<nat>, limit: nat, i: nat)
    requires Line(started, running, limit) && 0 < i < |running|
    ensures Line(started, Without(running, i), limit)
  {
    var all, k := started + Rest(running), |started| + (i - 1);
    assert Rest(Without(running, i)) == Without(Rest(running), i - 1);
    assert started + Without(Rest(running), i - 1) == Without(all, k);
    WithoutInOrder(all, k, {});
    WithoutIsPart(all, k);
    assert Without(running, i)[0] == running[0];
  }

  // ----- Every step keeps the invariant

  lemma PortIsTaken(s: Tx)
    requires Inv(s)
    ensures AfterStart(s) == s
  {
  }

  lemma WriteKeepsInv(s: Tx, h: nat, data: seq<Byte>, mode: Mode)
    requires Inv(s) && h in s.transfers
    ensures Inv(AfterWrite(s, h, data, mode))
  {
    if s.transfers[h].buffer.None? {
      EnqueueKeepsQueues(s, h, data, mode);
      WriteIsInLine(s, h, data, mode);
      WriteIsSent(s, h, data, mode);
      QueuesOnly(AfterEnqueue(s, h, data, mode), AfterWrite(s, h, data, mode));
    }
  }

  /** A write to an idle port starts at once; another one waits. */
  lemma WriteStarts(s: Tx, h: nat, data: seq<Byte>, mode: Mode)
    requires WellFormed(s) && Sending(s) && h in s.transfers && s.transfers[h].buffer.None?
    ensures var r := AfterWrite(s, h, data, mode);
      && r.port == (if s.running == [] then Some(data) else s.port)
      && r.started == (if s.running == [] then s.started + [|s.accepted|] else s.started)
      && r == AfterEnqueue(s, h, data, mode).(port := r.port, started := r.started)
  {
  }

  lemma WriteIsSent(s: Tx, h: nat, data: seq<Byte>, mode: Mode)
    requires WellFormed(s) && Sending(s) && h in s.transfers && s.transfers[h].buffer.None?
    ensures Sending(AfterWrite(s, h, data, mode))
  {
    WriteStarts(s, h, data, mode);
  }

  lemma WriteIsInLine(s: Tx, h: nat, data: seq<Byte>, mode: Mode)
    requires Inv(s) && h in s.transfers && s.transfers[h].buffer.None?
    ensures var r := AfterWrite(s, h, data, mode);
      Line(r.started, r.runningNo, |r.accepted|) && Posted(r)
      && r == AfterEnqueue(s, h, data, mode).(port := r.port, started := r.started)
  {
    WriteStarts(s, h, data, mode);
    if s.running == [] {
      assert s.runningNo == [] && s.runningNo + [|s.accepted|] == [|s.accepted|];
      LineStart(s.started, |s.accepted|);
    } else {
      LineAccept(s.started, s.runningNo, |s.accepted|);
    }
  }

  lemma EnqueueKeepsQueues(s: Tx, h: nat, data: seq<Byte>, mode: Mode)
    requires Inv(s) && h in s.transfers && s.transfers[h].buffer.None?
    ensures QueuesInv(AfterEnqueue(s, h, data, mode))
  {
    var r, w := AfterEnqueue(s, h, data, mode), Accepted(h, data, mode);
    AcceptKeepsPipeline(s.accepted, s.called, s.completedNo, s.runningNo, s.moved, w);
    OwnedOneMore(s.transfers, s.completed + s.running, h, r.transfers[h]);
    assert r.completed + r.running == (s.completed + s.running) + [h];
    LinkedUpdate(s.accepted, s.completedNo, s.completed, s.transfers, h, r.transfers[h]);
    LinkedAccept(s.accepted, s.completedNo, s.completed, r.transfers, w);
    LinkedUpdate(s.accepted, s.runningNo, s.running, s.transfers, h, r.transfers[h]);
    LinkedAccept(s.accepted, s.runningNo, s.running, r.transfers, w);
    LinkedSnoc(r.accepted, s.runningNo, s.running, r.transfers, |s.accepted|, h);
  }

  /** The queues after the first running write moves behind the completed ones. */
  lemma LinkedShift(accepted: seq<Accepted>, cNo: seq<nat>, c: seq<nat>, rNo: seq<nat>, r: seq<nat>, transfers: map<nat, Transfer>)
    requires Linked(accepted, cNo, c, transfers) && Linked(accepted, rNo, r, transfers) && r != []
    ensures Linked(accepted, cNo + [rNo[0]], c + [r[0]], transfers) && Linked(accepted, rNo[1..], r[1..], transfers)
  {
    LinkedWithout(accepted, rNo, r, transfers, 0);
    assert Without(r, 0) == r[1..] && Without(rNo, 0) == rNo[1..];
    LinkedSnoc(accepted, cNo, c, transfers, rNo[0], r[0]);
  }

  lemma OwnedShift(transfers: map<nat, Transfer>, c: seq<nat>, r: seq<nat>, t: Transfer)
    requires Owned(transfers, c + r) && r != [] && r[0] in transfers
    requires t.buffer.Some? <==> transfers[r[0]].buffer.Some?
    ensures Owned(transfers[r[0] := t], (c + [r[0]]) + r[1..])
  {
    OwnedSame(transfers, c + r, r[0], t);
    assert (c + [r[0]]) + r[1..] == c + r;
  }

  lemma OwnedDrop(transfers: map<nat, Transfer>, c: seq<nat>, r: seq<nat>, t: Transfer)
    requires Owned(transfers, c + r) && r != [] && t.buffer.None?
    ensures Owned(transfers[r[0] := t], c + r[1..]) && r[0] !in c && r[0] !in r[1..]
  {
    assert (c + r)[|c|] == r[0] && Without(c + r, |c|) == c + r[1..];
    OwnedOneLess(transfers, c + r, |c|, t);
    assert forall x :: x in c || x in r[1..] ==> x in c + r[1..];
  }

  ghost function AfterFiling(s: Tx, t: Transfer): Tx
    requires WellFormed(s) && s.running != []
  {
    var h := s.running[0];
    s.(transfers := s.transfers[h := t], completed := s.completed + [h], completedNo := s.completedNo + [s.runningNo[0]],
       running := s.running[1..], runningNo := s.runningNo[1..])
  }

  lemma FileDoneKeepsQueues(s: Tx, t: Transfer)
    requires QueuesInv(s) && WellFormed(s) && s.running != [] && t.mode.NonBlocking?
    requires t.buffer == s.transfers[s.running[0]].buffer && t.mode == s.transfers[s.running[0]].mode
    ensures QueuesInv(AfterFiling(s, t))
  {
    var h := s.running[0];
    CompleteKeepsPipeline(s.accepted, s.called, s.completedNo, s.runningNo, s.moved);
    OwnedShift(s.transfers, s.completed, s.running, t);
    LinkedUpdate(s.accepted, s.completedNo, s.completed, s.transfers, h, t);
    LinkedUpdate(s.accepted, s.runningNo, s.running, s.transfers, h, t);
    LinkedShift(s.accepted, s.completedNo, s.completed, s.runningNo, s.running, s.transfers[h := t]);
  }

  ghost function AfterFreeing(s: Tx, t: Transfer): Tx
    requires WellFormed(s) && s.running != []
  {
    s.(transfers := s.transfers[s.running[0] := t], running := s.running[1..], runningNo := s.runningNo[1..])
  }

  lemma FreeDoneKeepsQueues(s: Tx, t: Transfer)
    requires QueuesInv(s) && WellFormed(s) && s.running != [] && t.buffer.None?
    requires s.transfers[s.running[0]].mode.Blocking?
    ensures QueuesInv(AfterFreeing(s, t))
  {
    var h := s.running[0];
    LinkedShift(s.accepted, s.completedNo, s.completed, s.runningNo, s.running, s.transfers);
    LinkedWithout(s.accepted, s.runningNo, s.running, s.transfers, 0);
    DropKeepsPipeline(s.accepted, s.called, s.completedNo, s.runningNo, s.moved);
    OwnedDrop(s.transfers, s.completed, s.running, t);
    LinkedUpdate(s.accepted, s.completedNo, s.completed, s.transfers, h, t);
    LinkedUpdate(s.accepted, s.runningNo[1..], s.running[1..], s.transfers, h, t);
  }

  /** The port, the counts and the record of starts play no part in it. */
  lemma QueuesOnly(s: Tx, r: Tx)
    requires QueuesInv(s)
    requires r == s.(port := r.port, sent := r.sent, started := r.started, posts := r.posts)
    ensures QueuesInv(r)
  {
  }

  /** The transfer of the first running write once the port is done with it. */
  ghost function DoneTransfer(s: Tx, length: nat, status: Status): Transfer
    requires WellFormed(s) && s.running != []
  {
    var t := s.transfers[s.running[0]].(soFar := length, status := status);
    if t.mode.NonBlocking? then t else t.(buffer := None)
  }

  lemma TxCallbackKeepsQueues(s: Tx, length: nat, status: Status)
    requires QueuesInv(s) && WellFormed(s) && s.running != []
    ensures QueuesInv(AfterTxCallback(s, length, status))
  {
    var t := DoneTransfer(s, length, status);
    if t.mode.NonBlocking? {
      FileDoneKeepsQueues(s, t);
      QueuesOnly(AfterFiling(s, t), AfterTxCallback(s, length, status));
    } else {
      FreeDoneKeepsQueues(s, t);
      QueuesOnly(AfterFreeing(s, t), AfterTxCallback(s, length, status));
    }
  }

  lemma PortDoneKeepsQueues(s: Tx, status: Status)
    requires Inv(s)
    ensures QueuesInv(AfterPort(s, status))
  {
    if s.running != [] {
      QueuesOnly(s, s.(port := None));
      TxCallbackKeepsQueues(s.(port := None), |s.port.value|, status);
    }
  }

  /** The port goes on with the next running write. */
  lemma NextIsSent(s: Tx, length: nat, status: Status)
    requires WellFormed(s) && s.running != [] && s.port == None
    ensures var r := AfterTxCallback(s, length, status);
      && r.running == s.running[1..] && r.runningNo == s.runningNo[1..] && r.accepted == s.accepted
      && r.started == (if |s.running| == 1 then s.started else s.started + [s.runningNo[1]])
      && r.port == (if |s.running| == 1 then None else s.transfers[s.running[1]].buffer)
  {
  }

  lemma CompletionIsPosted(s: Tx, length: nat, status: Status)
    requires WellFormed(s) && s.running != []
    ensures var r := AfterTxCallback(s, length, status);
      if s.transfers[s.running[0]].mode.NonBlocking? then r.sent == (s.sent + 1) % 256 && r.posts == s.posts + 1
      else r.sent == s.sent && r.posts == s.posts && r.completed == s.completed
  {
  }

  lemma PortDoneGoesOn(s: Tx, status: Status)
    requires Inv(s) && s.running != []
    ensures var r := AfterPort(s, status);
      && r.running == s.running[1..] && r.runningNo == s.runningNo[1..] && r.accepted == s.accepted
      && r.started == (if |s.running| == 1 then s.started else s.started + [s.runningNo[1]])
      && Sending(r)
  {
    NextIsSent(s.(port := None), |s.port.value|, status);
    if |s.running| > 1 { assert Carries(s.accepted, s.runningNo[1], s.running[1], s.transfers); }
  }

  lemma PostCounts(sent: nat, posts: nat)
    requires sent == posts % 256
    ensures (sent + 1) % 256 == (posts + 1) % 256
  {
  }

  lemma PortDonePosts(s: Tx, status: Status)
    requires WellFormed(s) && Posted(s) && s.running != [] && s.port.Some?
    ensures Posted(AfterPort(s, status))
  {
    PostCounts(s.sent, s.posts);
    CompletionIsPosted(s.(port := None), |s.port.value|, status);
  }

  lemma PortDoneKeepsInv(s: Tx, status: Status)
    requires Inv(s)
    ensures Inv(AfterPort(s, status))
  {
    if s.running != [] {
      PortDonePosts(s, status);
      PortDoneKeepsQueues(s, status);
      PortDoneGoesOn(s, status);
      LineNext(s.started, s.runningNo, |s.accepted|);
    }
  }

  lemma LinkedMoved(accepted: seq<Accepted>, cNo: seq<nat>, c: seq<nat>, rNo: seq<nat>, r: seq<nat>, transfers: map<nat, Transfer>,
                    i: nat, cNo': seq<nat>, c': seq<nat>, rNo': seq<nat>, r': seq<nat>, n: nat, h: nat)
    requires Linked(accepted, cNo, c, transfers) && Linked(accepted, rNo, r, transfers)
    requires Moved(c, r, i, c', r', h) && Moved(cNo, rNo, i, cNo', rNo', n)
    ensures Linked(accepted, cNo', c', transfers) && Linked(accepted, rNo', r', transfers)
  {
    if i < |c| {
      LinkedWithout(accepted, cNo, c, transfers, i);
      LinkedSnoc(accepted, Without(cNo, i), Without(c, i), transfers, n, h);
    } else {
      LinkedWithout(accepted, rNo, r, transfers, i - |c|);
      LinkedSnoc(accepted, cNo, c, transfers, n, h);
    }
  }

  lemma OwnedDequeue(transfers: map<nat, Transfer>, c: seq<nat>, r: seq<nat>, i: nat, c': seq<nat>, r': seq<nat>, h: nat)
    requires Owned(transfers, c + r) && Moved(c, r, i, c', r', h)
    ensures Owned(transfers, c' + r')
  {
    MovedInPair(c, r, i, c', r', h);
    OwnedMoved(transfers, c + r, c' + r', i, |c'| - 1);
  }

  lemma NonBlockingMoved(transfers: map<nat, Transfer>, c: seq<nat>, r: seq<nat>, i: nat, c': seq<nat>, r': seq<nat>, h: nat)
    requires AllNonBlocking(c, transfers) && Moved(c, r, i, c', r', h) && h in transfers && transfers[h].mode.NonBlocking?
    ensures AllNonBlocking(c', transfers)
  {
    forall x | x in c' ensures x in c || x == h {
      var k :| 0 <= k < |c'| && c'[k] == x;
      if i < |c| && k < |c'| - 1 { assert c[OldPlace(i, k)] == x; }
    }
  }

  lemma NonBlockingSame(hs: seq<nat>, transfers: map<nat, Transfer>, h: nat, t: Transfer)
    requires AllNonBlocking(hs, transfers) && h in transfers && t.mode == transfers[h].mode
    ensures AllNonBlocking(hs, transfers[h := t])
  {
  }

  /** The place of a handle in the completed and running queues. */
  function QueuePlace(s: Tx, h: nat): (i: nat)
    requires h in s.completed || h in s.running
    ensures i < |s.completed| + |s.running| && (s.completed + s.running)[i] == h
  {
    if h in s.completed then IndexOf(s.completed, h) else |s.completed| + IndexOf(s.running, h)
  }

  function CanceledTransfer(s: Tx, h: nat): Transfer
    requires h in s.transfers
  {
    s.transfers[h].(soFar := 0, status := Canceled)
  }

  lemma DequeueMoves(s: Tx, h: nat)
    requires WellFormed(s) && (h in s.completed || h in s.running)
    ensures var (r, i) := (AfterDequeue(s, h), QueuePlace(s, h));
      && Moved(s.completed, s.running, i, r.completed, r.running, h)
      && Moved(s.completedNo, s.runningNo, i, r.completedNo, r.runningNo, (s.completedNo + s.runningNo)[i])
      && r.moved == s.moved + {(s.completedNo + s.runningNo)[i]}
      && r == s.(transfers := s.transfers[h := CanceledTransfer(s, h)], completed := r.completed, running := r.running,
                 completedNo := r.completedNo, runningNo := r.runningNo, moved := r.moved, sent := r.sent, posts := r.posts)
  {
  }

  lemma DequeueKeepsQueues(s: Tx, h: nat)
    requires Inv(s) && (h in s.completed || h in s.running) && s.transfers[h].mode.NonBlocking?
    ensures QueuesInv(AfterDequeue(s, h))
  {
    var r, i, t := AfterDequeue(s, h), QueuePlace(s, h), CanceledTransfer(s, h);
    var n := (s.completedNo + s.runningNo)[i];
    DequeueMoves(s, h);
    MoveKeepsPipeline(s.accepted, s.called, s.completedNo, s.runningNo, s.moved, i, r.completedNo, r.runningNo, n);
    OwnedDequeue(s.transfers, s.completed, s.running, i, r.completed, r.running, h);
    OwnedSame(s.transfers, r.completed + r.running, h, t);
    LinkedMoved(s.accepted, s.completedNo, s.completed, s.runningNo, s.running, s.transfers, i,
                r.completedNo, r.completed, r.runningNo, r.running, n, h);
    LinkedUpdate(s.accepted, r.completedNo, r.completed, s.transfers, h, t);
    LinkedUpdate(s.accepted, r.runningNo, r.running, s.transfers, h, t);
    NonBlockingMoved(s.transfers, s.completed, s.running, i, r.completed, r.running, h);
    NonBlockingSame(r.completed, s.transfers, h, t);
  }

  lemma DequeueKeepsInv(s: Tx, h: nat)
    requires Inv(s) && (h in s.completed || h in s.running) && s.transfers[h].mode.NonBlocking?
    requires s.running != [] ==> s.running[0] != h
    ensures Inv(AfterDequeue(s, h))
  {
    DequeueKeepsQueues(s, h);
    DequeuePosts(s, h);
    DequeueKeepsLine(s, h);
  }

  lemma DequeuePosts(s: Tx, h: nat)
    requires WellFormed(s) && Posted(s) && (h in s.completed || h in s.running)
    ensures Posted(AfterDequeue(s, h))
  {
    PostCounts(s.sent, s.posts);
  }

  lemma DequeueKeepsLine(s: Tx, h: nat)
    requires WellFormed(s) && Line(s.started, s.runningNo, |s.accepted|) && Sending(s)
    requires (h in s.completed || h in s.running) && (s.running != [] ==> s.running[0] != h)
    ensures var r := AfterDequeue(s, h); Line(r.started, r.runningNo, |r.accepted|) && Sending(r)
  {
    if h !in s.completed { LineWithout(s.started, s.runningNo, |s.accepted|, IndexOf(s.running, h)); }
  }

  lemma CancelKeepsInv(s: Tx, h: nat)
    requires Inv(s) && h in s.transfers
    ensures Inv(AfterCancel(s, h))
    ensures AfterCancel(s, h) ==
              if s.transfers[h].buffer.None? || s.transfers[h].mode.Blocking? then s
              else if s.running != [] && s.running[0] == h then AfterPort(s, Canceled)
              else AfterDequeue(s, h)
  {
    assert s.transfers[h].buffer.Some? <==> h in s.completed || h in s.running by {
      assert forall x :: x in s.completed || x in s.running <==> x in s.completed + s.running;
    }
    if s.transfers[h].buffer.Some? && s.transfers[h].mode.NonBlocking? {
      if s.running != [] && s.running[0] == h {
        PortDoneKeepsInv(s, Canceled);
        PortIsTaken(AfterPort(s, Canceled));
      } else {
        DequeueKeepsInv(s, h);
        PortIsTaken(AfterDequeue(s, h));
      }
    }
  }

  lemma OwnedTake(transfers: map<nat, Transfer>, c: seq<nat>, r: seq<nat>, t: Transfer)
    requires Owned(transfers, c + r) && c != [] && t.buffer.None?
    ensures Owned(transfers[c[0] := t], c[1..] + r) && c[0] !in c[1..] && c[0] !in r
  {
    assert (c + r)[0] == c[0] && Without(c + r, 0) == c[1..] + r;
    OwnedOneLess(transfers, c + r, 0, t);
    assert forall x :: x in c[1..] || x in r ==> x in c[1..] + r;
  }

  lemma LinkedTake(accepted: seq<Accepted>, nos: seq<nat>, hs: seq<nat>, transfers: map<nat, Transfer>)
    requires Linked(accepted, nos, hs, transfers) && hs != []
    ensures Carries(accepted, nos[0], hs[0], transfers) && Linked(accepted, nos[1..], hs[1..], transfers)
  {
    LinkedWithout(accepted, nos, hs, transfers, 0);
    assert Without(hs, 0) == hs[1..] && Without(nos, 0) == nos[1..];
  }

  lemma CallBackKeepsQueues(s: Tx)
    requires QueuesInv(s) && WellFormed(s) && s.completed != []
    ensures QueuesInv(AfterCallBack(s))
  {
    var r, h := AfterCallBack(s), s.completed[0];
    CallKeepsPipeline(s.accepted, s.called, s.completedNo, s.runningNo, s.moved);
    OwnedTake(s.transfers, s.completed, s.running, r.transfers[h]);
    LinkedTake(s.accepted, s.completedNo, s.completed, s.transfers);
    LinkedUpdate(s.accepted, r.completedNo, r.completed, s.transfers, h, r.transfers[h]);
    LinkedUpdate(s.accepted, s.runningNo, s.running, s.transfers, h, r.transfers[h]);
  }

  lemma CallBackKeepsInv(s: Tx)
    requires Inv(s) && s.completed != []
    ensures Inv(AfterCallBack(s))
  {
    CallBackKeepsQueues(s);
  }

  lemma {:induction false} FlushCallsAll(s: Tx)
    requires WellFormed(s)
    ensures AfterFlush(s).called == s.called + s.completedNo && AfterFlush(s).running == s.running && AfterFlush(s).moved == s.moved
    decreases |s.completed|
  {
    if s.completed != [] {
      FlushCallsAll(AfterCallBack(s));
      assert s.called + s.completedNo == (s.called + [s.completedNo[0]]) + s.completedNo[1..];
    }
  }

  lemma {:induction false} FlushKeepsInv(s: Tx)
    requires Inv(s)
    ensures Inv(AfterFlush(s))
    decreases |s.completed|
  {
    if s.completed != [] {
      CallBackKeepsInv(s);
      FlushKeepsInv(AfterCallBack(s));
    }
  }

  lemma TaskKeepsInv(s: Tx)
    requires Inv(s)
    ensures Inv(AfterTask(s))
  {
    if s.sent != 0 && s.posts != 0 {
      FlushKeepsInv(s);
      TakePostKeepsInv(AfterFlush(s), AfterTask(s));
    }
  }

  lemma TakePostKeepsInv(s: Tx, r: Tx)
    requires Inv(s) && s.completed == [] && 0 < s.sent && 0 < s.posts
    requires r == s.(sent := s.sent - 1, posts := s.posts - 1)
    ensures Inv(r)
  {
    QueuesOnly(s, r);
    PostTaken(s.sent, s.posts);
  }

  lemma PostTaken(sent: nat, posts: nat)
    requires sent == posts % 256 && 0 < sent
    ensures sent - 1 == (posts - 1) % 256
  {
  }
}
