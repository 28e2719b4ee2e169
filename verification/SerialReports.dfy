/**
 What a run of the transmit side comes to for its callers: the writes accepted are the writes asked for, and every
 callback made, in the whole run, reports the length and the status that its write met.
 */
module SerialReports {
  import opened Rings
  import opened Sequences
  import opened SerialTx
  import opened SerialTransmitter

  // ----- The writes asked for

  /** A write on an opened handle that waits in no queue. */
  ghost function Asked(s: Tx, op: Op): seq<Accepted> {
    if op.Write? && op.handle in s.transfers && op.handle !in s.completed && op.handle !in s.running
    then [Accepted(op.handle, op.data, op.mode)] else []
  }

  ghost function AskedIn(s: Tx, ops: seq<Op>): seq<Accepted>
    requires WellFormed(s)
    decreases |ops|
  {
    if ops == [] then [] else Asked(s, ops[0]) + AskedIn(Step(s, ops[0]), ops[1..])
  }

  lemma PortAccepts(s: Tx, status: Status)
    requires WellFormed(s)
    ensures AfterPort(s, status).accepted == s.accepted
  {
  }

  lemma {:induction false} FlushAccepts(s: Tx)
    requires WellFormed(s)
    ensures AfterFlush(s).accepted == s.accepted
    decreases |s.completed|
  {
    if s.completed != [] { FlushAccepts(AfterCallBack(s)); }
  }

  lemma WriteAccepts(s: Tx, h: nat, data: seq<Byte>, mode: Mode)
    requires Inv(s) && h in s.transfers
    ensures AfterWrite(s, h, data, mode).accepted ==
              if h in s.completed || h in s.running then s.accepted else s.accepted + [Accepted(h, data, mode)]
  {
    QueuedHasBuffer(s, h);
    if s.transfers[h].buffer.None? { WriteStarts(s, h, data, mode); }
  }

  lemma CancelAccepts(s: Tx, h: nat)
    requires Inv(s) && h in s.transfers
    ensures AfterCancel(s, h).accepted == s.accepted
  {
    CancelKeepsInv(s, h);
    PortAccepts(s, Canceled);
  }

  /** A write that meets a free handle is accepted as it is, and nothing else is. */
  lemma StepAccepts(s: Tx, op: Op)
    requires Inv(s)
    ensures Step(s, op).accepted == s.accepted + Asked(s, op)
  {
    assert s.accepted + [] == s.accepted;
    match op
    case Write(h, data, mode) => if h in s.transfers { WriteAccepts(s, h, data, mode); }
    case TxIdle => PortAccepts(s, Success);
    case CancelWriting(h) => if h in s.transfers { CancelAccepts(s, h); }
    case Task => FlushAccepts(s);
  }

  lemma {:induction false} RunAccepts(s: Tx, ops: seq<Op>)
    requires Inv(s)
    ensures Run(s, ops).accepted == s.accepted + AskedIn(s, ops)
    decreases |ops|
  {
    if ops != [] {
      StepKeepsInv(s, ops[0]);
      StepAccepts(s, ops[0]);
      RunAccepts(Step(s, ops[0]), ops[1..]);
      Grouped(s.accepted, Asked(s, ops[0]), AskedIn(Step(s, ops[0]), ops[1..]));
    }
  }

  lemma Grouped<T>(a: seq<T>, b: seq<T>, c: seq<T>)
    ensures (a + b) + c == a + (b + c)
  {
  }

  /** Over every run the accepted writes are those asked for on free handles, in order; only the non-blocking ones of
      them are called back or due. */
  lemma AcceptedAreAsked(handles: set<nat>, ops: seq<Op>)
    ensures var s := Run(Initial(handles), ops);
      && s.accepted == AskedIn(Initial(handles), ops)
      && forall n :: n in s.called || n in s.completedNo ==>
           n < |AskedIn(Initial(handles), ops)| && AskedIn(Initial(handles), ops)[n].mode.NonBlocking?
  {
    var s := Run(Initial(handles), ops);
    InitialInv(handles);
    RunKeepsInv(Initial(handles), ops);
    RunAccepts(Initial(handles), ops);
    forall n | n in s.completedNo ensures n < |s.accepted| && s.accepted[n].mode.NonBlocking? {
      var i :| 0 <= i < |s.completedNo| && s.completedNo[i] == n;
      assert Carries(s.accepted, s.completedNo[i], s.completed[i], s.transfers) && s.completed[i] in s.completed;
    }
  }

  // ----- What becomes of the write that the port is done with

  lemma TxCallbackFiles(s: Tx, length: nat, status: Status)
    requires WellFormed(s) && s.running != [] && s.port == None
    ensures s.running[0] in s.transfers
    ensures var (r, h) := (AfterTxCallback(s, length, status), s.running[0]);
      && r.accepted == s.accepted && r.called == s.called && r.moved == s.moved
      && if s.transfers[h].mode.NonBlocking? then
           && r.completed == s.completed + [h] && r.completedNo == s.completedNo + [s.runningNo[0]]
           && r.transfers == s.transfers[h := s.transfers[h].(soFar := length, status := status)]
         else
           && r.completed == s.completed && r.completedNo == s.completedNo
           && r.transfers == s.transfers[h := s.transfers[h].(soFar := length, status := status, buffer := None)]
  {
  }

  /** A non-blocking write is due; a blocking one is over, and its handle free. */
  lemma PortDoneFiles(s: Tx, status: Status)
    requires Inv(s) && s.running != []
    ensures s.runningNo[0] < |s.accepted|
    ensures var (r, h, w) := (AfterPort(s, status), s.running[0], s.accepted[s.runningNo[0]]);
      && h in s.transfers && r.accepted == s.accepted && r.called == s.called && r.moved == s.moved
      && if w.mode.NonBlocking? then
           && r.completed == s.completed + [h] && r.completedNo == s.completedNo + [s.runningNo[0]]
           && r.transfers == s.transfers[h := s.transfers[h].(soFar := |w.data|, status := status)]
         else
           && r.completed == s.completed && r.completedNo == s.completedNo
           && r.transfers == s.transfers[h := s.transfers[h].(soFar := |w.data|, status := status, buffer := None)]
  {
    assert Carries(s.accepted, s.runningNo[0], s.running[0], s.transfers);
    TxCallbackFiles(s.(port := None), |s.port.value|, status);
  }

  /** The port is done with a blocking write: its handle is free, nothing is posted, and it is never called back. */
  lemma BlockingIsReleased(s: Tx)
    requires Inv(s) && s.running != []
    ensures s.runningNo[0] < |s.accepted|
    ensures s.accepted[s.runningNo[0]].mode.Blocking? ==>
      var (r, h, n) := (Step(s, TxIdle), s.running[0], s.runningNo[0]);
      && h !in r.completed && h !in r.running && n !in r.completedNo && n !in r.runningNo && n !in r.called
      && h in r.transfers && r.transfers[h].buffer.None? && r.sent == s.sent
  {
    PortDoneFiles(s, Success);
    PortDoneKeepsInv(s, Success);
    if s.accepted[s.runningNo[0]].mode.Blocking? {
      var r, h := Step(s, TxIdle), s.running[0];
      QueuedHasBuffer(r, h);
      InvDistinct(s);
      NumberIsOnce(s.called, s.completedNo, s.runningNo, s.completed, s.running, 0);
      PortDoneGoesOn(s, Success);
      CompletionIsPosted(s.(port := None), |s.port.value|, Success);
      assert Carries(s.accepted, s.runningNo[0], s.running[0], s.transfers);
    }
  }

  lemma OnceInThree(a: seq<nat>, b: seq<nat>, c: seq<nat>, k: nat)
    requires Distinct(a + b + c) && k < |c|
    ensures c[k] !in a && c[k] !in b && forall j :: k < j < |c| ==> c[j] != c[k]
  {
    var all, p := a + b + c, |a| + |b| + k;
    assert all[p] == c[k];
    forall i | 0 <= i < |a| ensures a[i] != c[k] { assert Before(i, p) && all[i] == a[i]; }
    forall i | 0 <= i < |b| ensures b[i] != c[k] { assert Before(|a| + i, p) && all[|a| + i] == b[i]; }
    forall j | k < j < |c| ensures c[j] != c[k] { assert Before(p, |a| + |b| + j) && all[|a| + |b| + j] == c[j]; }
  }

  lemma DistinctParts(a: seq<nat>, b: seq<nat>, c: seq<nat>)
    requires Distinct(a + b + c)
    ensures Distinct(b) && forall i :: 0 <= i < |b| ==> b[i] !in a
  {
    var all := a + b + c;
    forall i, j {:trigger Before(i, j)} | Before(i, j) && j < |b| ensures b[i] != b[j] {
      assert Before(|a| + i, |a| + j) && all[|a| + i] == b[i] && all[|a| + j] == b[j];
    }
    forall i | 0 <= i < |b| ensures b[i] !in a {
      forall j | 0 <= j < |a| ensures a[j] != b[i] { assert Before(j, |a| + i) && all[j] == a[j] && all[|a| + i] == b[i]; }
    }
  }

  lemma OnceInTwo(b: seq<nat>, c: seq<nat>, k: nat)
    requires Distinct(b + c) && k < |c|
    ensures c[k] !in b
  {
    assert [] + b + c == b + c;
    OnceInThree([], b, c, k);
  }

  lemma FrontDistinct(b: seq<nat>, c: seq<nat>)
    requires Distinct(b + c)
    ensures Distinct(b)
  {
    assert [] + b + c == b + c;
    DistinctParts([], b, c);
  }

  lemma InvDistinct(s: Tx)
    requires Inv(s)
    ensures Distinct(s.called + s.completedNo + s.runningNo) && Distinct(s.completed + s.running)
  {
  }

  /** The number of a running write is nowhere else, and neither is its handle. */
  lemma NumberIsOnce(called: seq<nat>, completedNo: seq<nat>, runningNo: seq<nat>, completed: seq<nat>, running: seq<nat>, k: nat)
    requires Distinct(called + completedNo + runningNo) && Distinct(completed + running) && k < |running| == |runningNo|
    ensures runningNo[k] !in called && runningNo[k] !in completedNo && running[k] !in completed
    ensures k == 0 ==> runningNo[0] !in runningNo[1..]
  {
    OnceInThree(called, completedNo, runningNo, k);
    OnceInTwo(completed, running, k);
  }

  /** The number of a completed write is not among those called back, nor twice among the completed ones. */
  lemma CompletedIsOnce(called: seq<nat>, completedNo: seq<nat>, runningNo: seq<nat>, completed: seq<nat>, running: seq<nat>, i: nat)
    requires Distinct(called + completedNo + runningNo) && Distinct(completed + running) && i < |completed| == |completedNo|
    ensures completedNo[i] !in called && completedNo[i] !in Without(completedNo, i) && completed[i] !in Without(completed, i)
  {
    DistinctParts(called, completedNo, runningNo);
    WithoutKeeps(completedNo, i);
    FrontDistinct(completed, running);
    WithoutKeeps(completed, i);
  }

  // ----- Reports

  /** The number of the write whose sending is canceled, if it is. */
  ghost function Aborted(s: Tx, op: Op): set<nat>
    requires WellFormed(s)
  {
    if op.CancelWriting? && s.running != [] && s.running[0] == op.handle
       && s.runningNo[0] < |s.accepted| && s.accepted[s.runningNo[0]].mode.NonBlocking?
    then {s.runningNo[0]} else {}
  }

  /** The callbacks that a step makes. */
  ghost function Made(s: Tx, op: Op): seq<Callback>
    requires WellFormed(s)
  {
    if op.Task? && s.sent != 0 then Due(s) else []
  }

  /** A run with the numbers of the writes canceled while being sent, and all callbacks made. */
  datatype Past = Past(s: Tx, aborted: set<nat>, made: seq<Callback>)

  ghost function PastAfter(p: Past, ops: seq<Op>): (r: Past)
    requires WellFormed(p.s)
    ensures r.s == Run(p.s, ops)
    decreases |ops|
  {
    if ops == [] then p
    else PastAfter(Past(Step(p.s, ops[0]), p.aborted + Aborted(p.s, ops[0]), p.made + Made(p.s, ops[0])), ops[1..])
  }

  /** What a completed write `n` reports: nothing sent if it was canceled in a queue, else all its data. */
  ghost predicate Tells(soFar: nat, status: Status, data: seq<Byte>, n: nat, moved: set<nat>, aborted: set<nat>) {
    && soFar == (if n in moved then 0 else |data|)
    && status == if n in moved || n in aborted then Canceled else Success
  }

  ghost predicate AllTell(accepted: seq<Accepted>, nos: seq<nat>, hs: seq<nat>, transfers: map<nat, Transfer>,
                          moved: set<nat>, aborted: set<nat>) {
    |nos| == |hs| && forall i {:trigger nos[i]} :: 0 <= i < |nos| ==>
      && nos[i] < |accepted| && hs[i] in transfers
      && Tells(transfers[hs[i]].soFar, transfers[hs[i]].status, accepted[nos[i]].data, nos[i], moved, aborted)
  }

  ghost predicate AllTold(accepted: seq<Accepted>, called: seq<nat>, made: seq<Callback>, moved: set<nat>, aborted: set<nat>) {
    |called| == |made| && forall i {:trigger called[i]} {:trigger made[i]} :: 0 <= i < |called| ==>
      && called[i] < |accepted|
      && made[i].handle == accepted[called[i]].handle && made[i].buffer == Some(accepted[called[i]].data)
      && Tells(made[i].length, made[i].status, accepted[called[i]].data, called[i], moved, aborted)
  }

  /** Only completed writes have been canceled. */
  ghost predicate CanceledAreFiled(s: Tx, aborted: set<nat>) {
    forall n :: n in s.moved || n in aborted ==> n in s.called || n in s.completedNo
  }

  ghost predicate Honest(p: Past) {
    && Inv(p.s) && CanceledAreFiled(p.s, p.aborted)
    && AllTell(p.s.accepted, p.s.completedNo, p.s.completed, p.s.transfers, p.s.moved, p.aborted)
    && AllTold(p.s.accepted, p.s.called, p.made, p.s.moved, p.aborted)
  }

  lemma TellAccept(accepted: seq<Accepted>, nos: seq<nat>, hs: seq<nat>, transfers: map<nat, Transfer>, called: seq<nat>,
                   made: seq<Callback>, moved: set<nat>, aborted: set<nat>, more: seq<Accepted>)
    requires AllTell(accepted, nos, hs, transfers, moved, aborted) && AllTold(accepted, called, made, moved, aborted)
    ensures AllTell(accepted + more, nos, hs, transfers, moved, aborted)
    ensures AllTold(accepted + more, called, made, moved, aborted)
  {
  }

  lemma TellUpdate(accepted: seq<Accepted>, nos: seq<nat>, hs: seq<nat>, transfers: map<nat, Transfer>,
                   moved: set<nat>, aborted: set<nat>, h: nat, t: Transfer)
    requires AllTell(accepted, nos, hs, transfers, moved, aborted) && h !in hs
    ensures AllTell(accepted, nos, hs, transfers[h := t], moved, aborted)
  {
  }

  /** Marking a write that is not among them changes nothing. */
  lemma TellMark(accepted: seq<Accepted>, nos: seq<nat>, hs: seq<nat>, transfers: map<nat, Transfer>,
                 moved: set<nat>, aborted: set<nat>, moved': set<nat>, aborted': set<nat>, n: nat)
    requires AllTell(accepted, nos, hs, transfers, moved, aborted) && n !in nos
    requires moved <= moved' <= moved + {n} && aborted <= aborted' <= aborted + {n}
    ensures AllTell(accepted, nos, hs, transfers, moved', aborted')
  {
    assert forall i :: 0 <= i < |nos| ==> nos[i] in nos;
  }

  lemma ToldMark(accepted: seq<Accepted>, called: seq<nat>, made: seq<Callback>, moved: set<nat>, aborted: set<nat>,
                 moved': set<nat>, aborted': set<nat>, n: nat)
    requires AllTold(accepted, called, made, moved, aborted) && n !in called
    requires moved <= moved' <= moved + {n} && aborted <= aborted' <= aborted + {n}
    ensures AllTold(accepted, called, made, moved', aborted')
  {
    assert forall i :: 0 <= i < |called| ==> called[i] in called;
  }

  lemma TellSnoc(accepted: seq<Accepted>, nos: seq<nat>, hs: seq<nat>, transfers: map<nat, Transfer>,
                 moved: set<nat>, aborted: set<nat>, n: nat, h: nat)
    requires AllTell(accepted, nos, hs, transfers, moved, aborted) && n < |accepted| && h in transfers
    requires Tells(transfers[h].soFar, transfers[h].status, accepted[n].data, n, moved, aborted)
    ensures AllTell(accepted, nos + [n], hs + [h], transfers, moved, aborted)
  {
  }

  lemma TellWithout(accepted: seq<Accepted>, nos: seq<nat>, hs: seq<nat>, transfers: map<nat, Transfer>,
                    moved: set<nat>, aborted: set<nat>, i: nat)
    requires AllTell(accepted, nos, hs, transfers, moved, aborted) && i < |nos|
    ensures AllTell(accepted, Without(nos, i), Without(hs, i), transfers, moved, aborted)
  {
    forall k {:trigger Without(nos, i)[k]} | 0 <= k < |nos| - 1
      ensures Without(nos, i)[k] == nos[OldPlace(i, k)] && Without(hs, i)[k] == hs[OldPlace(i, k)]
    {
    }
  }

  // ----- Every step is honest

  lemma WriteIsHonest(p: Past, h: nat, data: seq<Byte>, mode: Mode)
    requires Honest(p) && h in p.s.transfers
    ensures Honest(Past(AfterWrite(p.s, h, data, mode), p.aborted, p.made))
  {
    var s := p.s;
    WriteKeepsInv(s, h, data, mode);
    if s.transfers[h].buffer.None? {
      var r := AfterWrite(s, h, data, mode);
      QueuedHasBuffer(s, h);
      WriteStarts(s, h, data, mode);
      TellAccept(s.accepted, s.completedNo, s.completed, s.transfers, s.called, p.made, s.moved, p.aborted,
                 [Accepted(h, data, mode)]);
      TellUpdate(r.accepted, s.completedNo, s.completed, s.transfers, s.moved, p.aborted, h, r.transfers[h]);
    }
  }

  lemma PortDoneIsHonest(p: Past, status: Status, aborted: set<nat>)
    requires Honest(p) && p.s.running != [] && (status == Success || status == Canceled)
    requires p.s.runningNo[0] < |p.s.accepted|
    requires aborted == if status == Canceled && p.s.accepted[p.s.runningNo[0]].mode.NonBlocking?
                        then p.aborted + {p.s.runningNo[0]} else p.aborted
    ensures Honest(Past(AfterPort(p.s, status), aborted, p.made))
  {
    var s, n, h := p.s, p.s.runningNo[0], p.s.running[0];
    var r := AfterPort(s, status);
    PortDoneKeepsInv(s, status);
    PortDoneFiles(s, status);
    InvDistinct(s);
    NumberIsOnce(s.called, s.completedNo, s.runningNo, s.completed, s.running, 0);
    ToldMark(s.accepted, s.called, p.made, s.moved, p.aborted, s.moved, aborted, n);
    TellMark(s.accepted, s.completedNo, s.completed, s.transfers, s.moved, p.aborted, s.moved, aborted, n);
    TellUpdate(s.accepted, s.completedNo, s.completed, s.transfers, s.moved, aborted, h, r.transfers[h]);
    if s.accepted[n].mode.NonBlocking? {
      TellSnoc(s.accepted, s.completedNo, s.completed, r.transfers, s.moved, aborted, n, h);
    }
  }

  lemma DequeueIsHonest(p: Past, h: nat)
    requires Honest(p) && (h in p.s.completed || h in p.s.running) && p.s.transfers[h].mode.NonBlocking?
    requires p.s.running != [] ==> p.s.running[0] != h
    ensures Honest(Past(AfterDequeue(p.s, h), p.aborted, p.made))
  {
    var s, r := p.s, AfterDequeue(p.s, h);
    DequeueKeepsInv(s, h);
    if h in s.completed { DequeueCompleted(p, h, IndexOf(s.completed, h)); } else { DequeueRunning(p, h, IndexOf(s.running, h)); }
  }

  /** The parts of `Honest` besides the invariant. */
  ghost predicate Reports(s: Tx, aborted: set<nat>, made: seq<Callback>) {
    && CanceledAreFiled(s, aborted) && AllTell(s.accepted, s.completedNo, s.completed, s.transfers, s.moved, aborted)
    && AllTold(s.accepted, s.called, made, s.moved, aborted)
  }

  lemma DequeueCompleted(p: Past, h: nat, i: nat)
    requires Honest(p) && h in p.s.completed && i == IndexOf(p.s.completed, h)
    ensures Reports(AfterDequeue(p.s, h), p.aborted, p.made)
  {
    var s, r, n := p.s, AfterDequeue(p.s, h), p.s.completedNo[i];
    var nos, hs := Without(s.completedNo, i), Without(s.completed, i);
    InvDistinct(s);
    CompletedIsOnce(s.called, s.completedNo, s.runningNo, s.completed, s.running, i);
    ToldMark(s.accepted, s.called, p.made, s.moved, p.aborted, r.moved, p.aborted, n);
    TellWithout(s.accepted, s.completedNo, s.completed, s.transfers, s.moved, p.aborted, i);
    TellMark(s.accepted, nos, hs, s.transfers, s.moved, p.aborted, r.moved, p.aborted, n);
    TellUpdate(s.accepted, nos, hs, s.transfers, r.moved, p.aborted, h, r.transfers[h]);
    TellSnoc(s.accepted, nos, hs, r.transfers, r.moved, p.aborted, n, h);
    FiledMoves(s.called, s.completedNo, i);
  }

  lemma FiledMoves(called: seq<nat>, nos: seq<nat>, i: nat)
    requires i < |nos|
    ensures forall n :: n in nos ==> n in Without(nos, i) + [nos[i]]
  {
    forall n | n in nos ensures n in Without(nos, i) + [nos[i]] {
      var k :| 0 <= k < |nos| && nos[k] == n;
      if k != i { assert Without(nos, i)[Place(i, k)] == n; }
    }
  }

  lemma DequeueRunning(p: Past, h: nat, i: nat)
    requires Honest(p) && h !in p.s.completed && h in p.s.running && i == IndexOf(p.s.running, h)
    ensures Reports(AfterDequeue(p.s, h), p.aborted, p.made)
  {
    var s, r, n := p.s, AfterDequeue(p.s, h), p.s.runningNo[i];
    InvDistinct(s);
    NumberIsOnce(s.called, s.completedNo, s.runningNo, s.completed, s.running, i);
    assert Carries(s.accepted, s.runningNo[i], s.running[i], s.transfers);
    ToldMark(s.accepted, s.called, p.made, s.moved, p.aborted, r.moved, p.aborted, n);
    TellMark(s.accepted, s.completedNo, s.completed, s.transfers, s.moved, p.aborted, r.moved, p.aborted, n);
    TellUpdate(s.accepted, s.completedNo, s.completed, s.transfers, r.moved, p.aborted, h, r.transfers[h]);
    TellSnoc(s.accepted, s.completedNo, s.completed, r.transfers, r.moved, p.aborted, n, h);
  }

  lemma CancelIsHonest(p: Past, h: nat)
    requires Honest(p) && h in p.s.transfers
    ensures Honest(Past(AfterCancel(p.s, h), p.aborted + Aborted(p.s, CancelWriting(h)), p.made))
  {
    var s := p.s;
    CancelKeepsInv(s, h);
    QueuedHasBuffer(s, h);
    if s.running != [] && s.running[0] == h {
      assert Carries(s.accepted, s.runningNo[0], s.running[0], s.transfers);
      if s.transfers[h].mode.NonBlocking? {
        PortDoneIsHonest(p, Canceled, p.aborted + {s.runningNo[0]});
        assert Aborted(s, CancelWriting(h)) == {s.runningNo[0]};
      } else {
        assert p.aborted + {} == p.aborted;
      }
    } else {
      assert p.aborted + {} == p.aborted;
      if s.transfers[h].buffer.Some? && s.transfers[h].mode.NonBlocking? { DequeueIsHonest(p, h); }
    }
  }

  lemma ToldConcat(accepted: seq<Accepted>, a: seq<nat>, x: seq<Callback>, b: seq<nat>, y: seq<Callback>,
                   moved: set<nat>, aborted: set<nat>)
    requires AllTold(accepted, a, x, moved, aborted) && AllTold(accepted, b, y, moved, aborted)
    ensures AllTold(accepted, a + b, x + y, moved, aborted)
  {
    forall i {:trigger (a + b)[i]} {:trigger (x + y)[i]} | 0 <= i < |a + b|
      ensures (a + b)[i] == (if i < |a| then a[i] else b[i - |a|]) && (x + y)[i] == (if i < |a| then x[i] else y[i - |a|])
    {
    }
  }

  /** The callbacks that are due tell what the transfers do. */
  lemma DueAreHonest(p: Past)
    requires Honest(p)
    ensures AllTold(p.s.accepted, p.s.completedNo, Due(p.s), p.s.moved, p.aborted)
  {
    forall i {:trigger p.s.completedNo[i]} {:trigger Due(p.s)[i]} | 0 <= i < |p.s.completedNo|
      ensures var n := p.s.completedNo[i];
        && n < |p.s.accepted|
        && Due(p.s)[i].handle == p.s.accepted[n].handle && Due(p.s)[i].buffer == Some(p.s.accepted[n].data)
        && Tells(Due(p.s)[i].length, Due(p.s)[i].status, p.s.accepted[n].data, n, p.s.moved, p.aborted)
    {
      DueAreAccepted(p.s, i);
    }
  }

  lemma {:induction false} FlushedAway(s: Tx)
    requires WellFormed(s)
    ensures AfterFlush(s).completedNo == []
    decreases |s.completed|
  {
    if s.completed != [] { FlushedAway(AfterCallBack(s)); }
  }

  lemma TaskIsHonest(p: Past)
    requires Honest(p)
    ensures Honest(Past(AfterTask(p.s), p.aborted, p.made + Made(p.s, Task)))
  {
    var s := p.s;
    TaskKeepsInv(s);
    if s.sent == 0 {
      assert p.made + [] == p.made;
    } else {
      PostsRemain(s.sent, s.posts);
      RoundIs(s);
      FlushCallsAll(s);
      FlushAccepts(s);
      FlushedAway(s);
      DueAreHonest(p);
      ToldConcat(s.accepted, s.called, p.made, s.completedNo, Due(s), s.moved, p.aborted);
    }
  }

  lemma StepIsHonest(p: Past, op: Op)
    requires Honest(p)
    ensures Honest(Past(Step(p.s, op), p.aborted + Aborted(p.s, op), p.made + Made(p.s, op)))
  {
    assert p.aborted + {} == p.aborted && p.made + [] == p.made;
    match op
    case Write(h, data, mode) => if h in p.s.transfers { WriteIsHonest(p, h, data, mode); }
    case TxIdle => if p.s.running != [] { PortDoneFiles(p.s, Success); PortDoneIsHonest(p, Success, p.aborted); }
    case CancelWriting(h) => if h in p.s.transfers { CancelIsHonest(p, h); } else { NotOpened(p.s, h); }
    case Task => TaskIsHonest(p);
  }

  lemma NotOpened(s: Tx, h: nat)
    requires WellFormed(s) && h !in s.transfers
    ensures Aborted(s, CancelWriting(h)) == {}
  {
    assert s.running != [] ==> s.running[0] in s.running;
  }

  lemma {:induction false} RunIsHonest(p: Past, ops: seq<Op>)
    requires Honest(p)
    ensures Honest(PastAfter(p, ops))
    decreases |ops|
  {
    if ops != [] {
      StepIsHonest(p, ops[0]);
      RunIsHonest(Past(Step(p.s, ops[0]), p.aborted + Aborted(p.s, ops[0]), p.made + Made(p.s, ops[0])), ops[1..]);
    }
  }

  /** Over every run, each callback made and each callback due names its write and its data. A write that was canceled
      in a queue reports that nothing was sent and that it was canceled; any other reports all its data, canceled
      exactly if it was canceled while being sent. */
  lemma CallbacksAreHonest(handles: set<nat>, ops: seq<Op>)
    ensures var p := PastAfter(Past(Initial(handles), {}, []), ops);
      var (s, writes) := (Run(Initial(handles), ops), AskedIn(Initial(handles), ops));
      && p.s == s && |p.made| == |s.called| && |Due(s)| == |s.completedNo|
      && (forall i {:trigger p.made[i]} :: 0 <= i < |p.made| ==>
            var n := s.called[i];
            && n < |writes| && p.made[i].handle == writes[n].handle && p.made[i].buffer == Some(writes[n].data)
            && p.made[i].length == (if n in s.moved then 0 else |writes[n].data|)
            && p.made[i].status == if n in s.moved || n in p.aborted then Canceled else Success)
      && (forall i {:trigger Due(s)[i]} :: 0 <= i < |Due(s)| ==>
            var n := s.completedNo[i];
            && n < |writes| && Due(s)[i].handle == writes[n].handle && Due(s)[i].buffer == Some(writes[n].data)
            && Due(s)[i].length == (if n in s.moved then 0 else |writes[n].data|)
            && Due(s)[i].status == if n in s.moved || n in p.aborted then Canceled else Success)
  {
    var p := Past(Initial(handles), {}, []);
    InitialInv(handles);
    RunIsHonest(p, ops);
    AcceptedAreAsked(handles, ops);
    DueAreHonest(PastAfter(p, ops));
  }

  lemma PastUnfolds(p: Past, ops: seq<Op>, k: nat)
    requires WellFormed(p.s) && k < |ops|
    ensures PastAfter(p, ops[k..]) ==
              PastAfter(Past(Step(p.s, ops[k]), p.aborted + Aborted(p.s, ops[k]), p.made + Made(p.s, ops[k])), ops[k + 1..])
  {
    assert ops[k..][0] == ops[k] && ops[k..][1..] == ops[k + 1..];
  }

  /** Runs any interleaving of the steps and collects the callbacks. */
  method Execute(handles: set<nat>, ops: seq<Op>) returns (t: Transmitter, made: seq<Callback>)
    ensures fresh(t) && t.Valid() && t.View() == Run(Initial(handles), ops)
    ensures made == PastAfter(Past(Initial(handles), {}, []), ops).made
  {
    t := new Transmitter(handles);
    made := [];
    ghost var start, aborted: set<nat> := Past(Initial(handles), {}, []), {};
    assert ops[0..] == ops;
    for k := 0 to |ops|
      invariant fresh(t) && t.Valid()
      invariant PastAfter(Past(t.View(), aborted, made), ops[k..]) == PastAfter(start, ops)
    {
      PastUnfolds(Past(t.View(), aborted, made), ops, k);
      aborted := aborted + Aborted(t.View(), ops[k]);
      var callbacks := Apply(t, ops[k]);
      made := made + callbacks;
    }
    assert ops[|ops|..] == [];
  }

  method Apply(t: Transmitter, op: Op) returns (made: seq<Callback>)
    requires t.Valid()
    modifies t
    ensures t.Valid() && t.View() == Step(old(t.View()), op) && made == Made(old(t.View()), op)
  {
    made := [];
    match op
    case Write(h, data, mode) => if h in t.transfers { var status := t.Write(h, data, mode); }
    case TxIdle => t.PortDone(Success);
    case CancelWriting(h) => if h in t.transfers { var status := t.CancelWriting(h); }
    case Task => made := t.Task();
  }
}
