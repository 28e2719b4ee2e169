/**
 The bare-metal OSA's task list on sequences: priorities, ready flags, and the run-to-completion scheduler.
 */
module TaskModel {
  import opened Sequences

  /** Priority, ready flag and whether there is an entry function, of every task control block; the list order. */
  datatype Tasks = Tasks(order: seq<nat>, priority: map<nat, nat>, haveToRun: map<nat, nat>, entry: map<nat, bool>)

  ghost predicate Sorted(priority: map<nat, nat>, order: seq<nat>)
    requires forall t :: t in order ==> t in priority
  {
    forall i, j {:trigger Before(i, j)} :: Before(i, j) && j < |order| ==> priority[order[i]] <= priority[order[j]]
  }

  /** Each task is in the list once, in order of priority; a ready flag is 0 or 1. */
  ghost predicate Inv(s: Tasks) {
    && s.priority.Keys == s.haveToRun.Keys == s.entry.Keys
    && (forall t :: t in s.order ==> t in s.priority)
    && Distinct(s.order) && Sorted(s.priority, s.order)
    && (forall t {:trigger s.haveToRun[t]} :: t in s.haveToRun ==> s.haveToRun[t] <= 1)
  }

  // ----- Where a task goes

  /** The first position whose task has no smaller number than `p`. */
  function Slot(priority: map<nat, nat>, order: seq<nat>, p: nat): (i: nat)
    requires forall t :: t in order ==> t in priority
    ensures i <= |order|
    ensures i < |order| ==> p <= priority[order[i]]
    ensures forall k :: 0 <= k < i ==> priority[order[k]] < p
  {
    if order == [] || p <= priority[order[0]] then 0
    else
      var j := Slot(priority, order[1..], p);
      assert forall k :: 0 < k <= j ==> order[k] == order[1..][k - 1];
      1 + j
  }

  lemma InsertKeepsSorted(priority: map<nat, nat>, order: seq<nat>, t: nat)
    requires (forall x :: x in order ==> x in priority) && t in priority && t !in order
    requires Distinct(order) && Sorted(priority, order)
    ensures var i := Slot(priority, order, priority[t]);
      && Distinct(With(order, i, t)) && (forall x :: x in With(order, i, t) <==> x in order || x == t)
      && Sorted(priority, With(order, i, t))
  {
    var i := Slot(priority, order, priority[t]);
    var order' := With(order, i, t);
    WithKeeps(order, i, t);
    forall k, l {:trigger Before(k, l)} | Before(k, l) && l < |order'| ensures priority[order'[k]] <= priority[order'[l]] {
      if k != i && l != i {
        assert Before(Place(i, k), Place(i, l));
      } else if k == i && i < l - 1 {
        assert Before(i, l - 1);
      }
    }
  }

  lemma RemoveKeepsSorted(priority: map<nat, nat>, order: seq<nat>, i: nat)
    requires (forall x :: x in order ==> x in priority) && i < |order|
    requires Distinct(order) && Sorted(priority, order)
    ensures Distinct(Without(order, i)) && (forall x :: x in Without(order, i) <==> x in order && x != order[i])
    ensures Sorted(priority, Without(order, i))
  {
    WithoutKeeps(order, i);
    var order' := Without(order, i);
    forall k, l {:trigger Before(k, l)} | Before(k, l) && l < |order'| ensures priority[order'[k]] <= priority[order'[l]] {
      assert Before(OldPlace(i, k), OldPlace(i, l));
    }
  }

  lemma OtherPriority(priority: map<nat, nat>, order: seq<nat>, t: nat, p: nat)
    requires (forall x :: x in order ==> x in priority) && t !in order && Sorted(priority, order)
    ensures Sorted(priority[t := p], order)
  {
    forall k, l {:trigger Before(k, l)} | Before(k, l) && l < |order|
      ensures priority[t := p][order[k]] <= priority[t := p][order[l]]
    {
      assert order[k] in order && order[l] in order;
    }
  }

  // ----- The operations

  /** The list without a task that may or may not be in it. */
  function Others(order: seq<nat>, t: nat): seq<nat> {
    if t in order then Without(order, IndexOf(order, t)) else order
  }

  /** Acts that tasks and interrupts perform. */
  datatype Act = Create(task: nat, prio: nat, hasEntry: bool) | SetPriority(task: nat, prio: nat) | Destroy(task: nat)
               | Signal(task: nat) | Clear(task: nat)

  /** A created task is not in the list yet; setting a priority needs another task in the list. */
  ghost predicate Legal(s: Tasks, a: Act) {
    && a.task in s.priority
    && (a.Create? ==> a.task !in s.order)
    && (a.SetPriority? ==> Others(s.order, a.task) != [])
  }

  lemma OthersKnown(order: seq<nat>, t: nat)
    ensures forall x :: x in Others(order, t) ==> x in order
  {
    if t in order { WithoutIsPart(order, IndexOf(order, t)); }
  }

  ghost predicate InTable(s: Tasks) {
    forall x :: x in s.order ==> x in s.priority
  }

  ghost function AfterCreate(s: Tasks, t: nat, p: nat, f: bool): Tasks
    requires InTable(s)
  {
    s.(priority := s.priority[t := p], haveToRun := s.haveToRun[t := 1], entry := s.entry[t := f],
       order := With(s.order, Slot(s.priority[t := p], s.order, p), t))
  }

  ghost function AfterSetPriority(s: Tasks, t: nat, p: nat): Tasks
    requires InTable(s)
  {
    OthersKnown(s.order, t);
    s.(priority := s.priority[t := p],
       order := With(Others(s.order, t), Slot(s.priority[t := p], Others(s.order, t), p), t))
  }

  ghost function Perform(s: Tasks, a: Act): Tasks
    requires Inv(s) && Legal(s, a)
  {
    match a
    case Create(t, p, f) => AfterCreate(s, t, p, f)
    case SetPriority(t, p) => AfterSetPriority(s, t, p)
    case Destroy(t) => s.(order := Others(s.order, t))
    case Signal(t) => s.(haveToRun := s.haveToRun[t := 1])
    case Clear(t) => s.(haveToRun := s.haveToRun[t := 0])
  }

  lemma OthersKeepSorted(s: Tasks, t: nat)
    requires Inv(s)
    ensures var o := Others(s.order, t);
      && t !in o && Distinct(o) && (forall x :: x in o <==> x in s.order && x != t) && Sorted(s.priority, o)
  {
    if t in s.order { RemoveKeepsSorted(s.priority, s.order, IndexOf(s.order, t)); }
  }

  /** Every act keeps the list sorted, with each task in it once. */
  lemma PerformKeepsInv(s: Tasks, a: Act)
    requires Inv(s) && Legal(s, a)
    ensures Inv(Perform(s, a))
    ensures forall x :: x in Perform(s, a).order <==>
              if x == a.task && a.Create? then true
              else if x == a.task && a.SetPriority? then true
              else if x == a.task && a.Destroy? then false
              else x in s.order
  {
    match a
    case Create(t, p, f) =>
      OtherPriority(s.priority, s.order, t, p);
      InsertKeepsSorted(s.priority[t := p], s.order, t);
    case SetPriority(t, p) =>
      OthersKeepSorted(s, t);
      OtherPriority(s.priority, Others(s.order, t), t, p);
      InsertKeepsSorted(s.priority[t := p], Others(s.order, t), t);
    case Destroy(t) => OthersKeepSorted(s, t);
    case _ =>
  }

  /** Every act leaves the fields of the other tasks alone, and sets those of its own. */
  lemma PerformSetsFields(s: Tasks, a: Act, x: nat)
    requires Inv(s) && Legal(s, a) && x in s.priority
    ensures var r := Perform(s, a);
      && r.priority.Keys == s.priority.Keys && r.haveToRun.Keys == s.haveToRun.Keys && r.entry.Keys == s.entry.Keys
      && r.priority[x] == (if x == a.task && (a.Create? || a.SetPriority?) then a.prio else s.priority[x])
      && r.entry[x] == (if x == a.task && a.Create? then a.hasEntry else s.entry[x])
      && r.haveToRun[x] == if x == a.task && (a.Create? || a.Signal?) then 1
                           else if x == a.task && a.Clear? then 0 else s.haveToRun[x]
  {
  }

  /** A created or re-prioritised task stands in front of the tasks of its own priority and of larger numbers, and
      behind those of smaller ones; the others keep their order. */
  lemma PlacedBeforeEquals(s: Tasks, a: Act) returns (i: nat)
    requires Inv(s) && Legal(s, a) && (a.Create? || a.SetPriority?)
    ensures var others := Others(s.order, a.task);
      && i <= |others| && Perform(s, a).order == others[..i] + [a.task] + others[i..]
      && forall k {:trigger others[k]} :: 0 <= k < |others| ==>
           others[k] in s.priority && (k < i <==> s.priority[others[k]] < a.prio)
  {
    var others := Others(s.order, a.task);
    OthersKeepSorted(s, a.task);
    i := Slot(s.priority[a.task := a.prio], others, a.prio);
    forall k {:trigger others[k]} | 0 <= k < |others|
      ensures others[k] in s.priority && (k < i <==> s.priority[others[k]] < a.prio)
    {
      assert others[k] in others && others[k] != a.task;
      if i < k { assert Before(i, k) && others[i] in others; }
    }
  }

  /** Destroying takes just the task out of the list. */
  lemma DestroyedIsOut(s: Tasks, t: nat) returns (i: nat)
    requires Inv(s) && t in s.priority
    ensures var r := Perform(s, Destroy(t)).order;
      if t in s.order then i < |s.order| && s.order[i] == t && r == s.order[..i] + s.order[i + 1..] && t !in r
      else r == s.order
  {
    OthersKeepSorted(s, t);
    i := if t in s.order then IndexOf(s.order, t) else 0;
  }

  /** An act that the source does not allow for in this state is left out. */
  ghost function PerformAll(s: Tasks, acts: seq<Act>): (r: Tasks)
    requires Inv(s)
    ensures Inv(r)
    decreases |acts|
  {
    if acts == [] then s
    else if Legal(s, acts[0]) then PerformKeepsInv(s, acts[0]); PerformAll(Perform(s, acts[0]), acts[1..])
    else PerformAll(s, acts[1..])
  }

  /** A task created and destroyed again leaves the list as it was. */
  lemma DestroyUndoesCreate(s: Tasks, t: nat, p: nat, f: bool)
    requires Inv(s) && Legal(s, Create(t, p, f))
    ensures Inv(Perform(s, Create(t, p, f))) && Perform(Perform(s, Create(t, p, f)), Destroy(t)).order == s.order
  {
    PerformKeepsInv(s, Create(t, p, f));
    var r, i := Perform(s, Create(t, p, f)), Slot(s.priority[t := p], s.order, p);
    assert r.order[i] == t;
    SamePlace(r.order, i, IndexOf(r.order, t));
    assert Without(With(s.order, i, t), i) == s.order;
  }

  // ----- The scheduler

  predicate Ready(s: Tasks, t: nat) {
    t in s.haveToRun && s.haveToRun[t] != 0
  }

  /** The first ready position, or the length of the list. */
  function FirstReady(s: Tasks, from: nat): (i: nat)
    requires from <= |s.order|
    ensures from <= i <= |s.order| && (i < |s.order| ==> Ready(s, s.order[i]))
    ensures forall k :: from <= k < i ==> !Ready(s, s.order[k])
    decreases |s.order| - from
  {
    if from == |s.order| || Ready(s, s.order[from]) then from else FirstReady(s, from + 1)
  }

  datatype Outcome = Outcome(started: seq<nat>, after: Tasks, finished: bool)

  /** What the task at `i` does when it runs; one without entry function does nothing. */
  ghost function AfterTask(s: Tasks, t: nat, acts: seq<Act>): (r: Tasks)
    requires Inv(s)
    ensures Inv(r)
  {
    if t in s.entry && s.entry[t] then PerformAll(s, acts) else s
  }

  /** Always the first ready task, from the head again after every run; unfinished if the script runs out. */
  ghost function ProcessTasks(s: Tasks, script: seq<seq<Act>>): (r: Outcome)
    requires Inv(s)
    ensures Inv(r.after)
    decreases |script|
  {
    var i := FirstReady(s, 0);
    if i == |s.order| then Outcome([], s, true)
    else if script == [] then Outcome([], s, false)
    else
      var r := ProcessTasks(AfterTask(s, s.order[i], script[0]), script[1..]);
      Outcome([s.order[i]] + r.started, r.after, r.finished)
  }

  lemma {:induction false} PerformAllAppend(s: Tasks, a: seq<Act>, b: seq<Act>)
    requires Inv(s)
    ensures PerformAll(s, a + b) == PerformAll(PerformAll(s, a), b)
    decreases |a|
  {
    if a == [] {
      assert a + b == b;
    } else {
      assert (a + b)[1..] == a[1..] + b;
      if Legal(s, a[0]) {
        PerformKeepsInv(s, a[0]);
        PerformAllAppend(Perform(s, a[0]), a[1..], b);
      } else {
        PerformAllAppend(s, a[1..], b);
      }
    }
  }

  /** The acts of the tasks started, each with its element of the script if it has an entry function then. */
  ghost function ActsOf(s: Tasks, started: seq<nat>, script: seq<seq<Act>>): seq<Act>
    requires Inv(s) && |started| <= |script|
    decreases |started|
  {
    if started == [] then []
    else
      var acts := if started[0] in s.entry && s.entry[started[0]] then script[0] else [];
      acts + ActsOf(PerformAll(s, acts), started[1..], script[1..])
  }

  /** What a run does: the acts of the tasks it starts, one after the other. */
  lemma {:induction false} RunIsItsActs(s: Tasks, script: seq<seq<Act>>)
    requires Inv(s)
    ensures var r := ProcessTasks(s, script);
      |r.started| <= |script| && r.after == PerformAll(s, ActsOf(s, r.started, script))
    decreases |script|
  {
    var i := FirstReady(s, 0);
    if i < |s.order| && script != [] {
      var t := s.order[i];
      var acts := if t in s.entry && s.entry[t] then script[0] else [];
      var rest := ProcessTasks(PerformAll(s, acts), script[1..]);
      assert AfterTask(s, t, script[0]) == PerformAll(s, acts);
      RunIsItsActs(PerformAll(s, acts), script[1..]);
      StartedUnfolds(s, script, t, rest.started);
      PerformAllAppend(s, acts, ActsOf(PerformAll(s, acts), rest.started, script[1..]));
    }
  }

  lemma StartedUnfolds(s: Tasks, script: seq<seq<Act>>, t: nat, rest: seq<nat>)
    requires Inv(s) && script != [] && |rest| < |script|
    ensures var acts := if t in s.entry && s.entry[t] then script[0] else [];
      ActsOf(s, [t] + rest, script) == acts + ActsOf(PerformAll(s, acts), rest, script[1..])
  {
    assert ([t] + rest)[1..] == rest;
  }

  /** The state in which the n-th task is started: after the acts of those before it. */
  ghost function StateAt(s: Tasks, script: seq<seq<Act>>, n: nat): (r: Tasks)
    requires Inv(s) && n <= |ProcessTasks(s, script).started| <= |script|
    ensures Inv(r)
  {
    PerformAll(s, ActsOf(s, ProcessTasks(s, script).started[..n], script))
  }

  /** A task is started only if it is ready and none ahead of it is: no ready task has a smaller priority number. */
  lemma {:induction false} StartedIsMostUrgent(s: Tasks, script: seq<seq<Act>>, n: nat)
    requires Inv(s) && n < |ProcessTasks(s, script).started|
    ensures |ProcessTasks(s, script).started| <= |script|
    ensures var (u, t) := (StateAt(s, script, n), ProcessTasks(s, script).started[n]);
      && t in u.order && Ready(u, t)
      && (forall k :: 0 <= k < IndexOf(u.order, t) ==> !Ready(u, u.order[k]))
      && (forall x :: x in u.order && Ready(u, x) ==> u.priority[t] <= u.priority[x])
    decreases n
  {
    var i := FirstReady(s, 0);
    RunIsItsActs(s, script);
    if n == 0 {
      assert ProcessTasks(s, script).started[..0] == [];
      FirstIsMostUrgent(s, i);
    } else {
      StartedIsMostUrgent(AfterTask(s, s.order[i], script[0]), script[1..], n - 1);
      StateAtLater(s, script, n);
    }
  }

  lemma StateAtLater(s: Tasks, script: seq<seq<Act>>, n: nat)
    requires Inv(s) && 0 < n <= |ProcessTasks(s, script).started| <= |script|
    ensures var s' := AfterTask(s, ProcessTasks(s, script).started[0], script[0]);
      && n - 1 <= |ProcessTasks(s', script[1..]).started| <= |script[1..]|
      && StateAt(s, script, n) == StateAt(s', script[1..], n - 1)
  {
    var t := s.order[FirstReady(s, 0)];
    var acts := if t in s.entry && s.entry[t] then script[0] else [];
    var s' := PerformAll(s, acts);
    var rest := ProcessTasks(s', script[1..]).started;
    assert AfterTask(s, t, script[0]) == s' && ProcessTasks(s, script).started == [t] + rest;
    assert ([t] + rest)[..n] == [t] + rest[..n - 1];
    StartedUnfolds(s, script, t, rest[..n - 1]);
    PerformAllAppend(s, acts, ActsOf(s', rest[..n - 1], script[1..]));
  }

  lemma FirstIsMostUrgent(s: Tasks, i: nat)
    requires Inv(s) && i < |s.order| && i == FirstReady(s, 0)
    ensures IndexOf(s.order, s.order[i]) == i
    ensures forall x :: x in s.order && Ready(s, x) ==> s.priority[s.order[i]] <= s.priority[x]
  {
    SamePlace(s.order, i, IndexOf(s.order, s.order[i]));
    forall x | x in s.order && Ready(s, x) ensures s.priority[s.order[i]] <= s.priority[x] {
      var k :| 0 <= k < |s.order| && s.order[k] == x;
      if i < k { assert Before(i, k); }
    }
  }

  predicate AnyReady(s: Tasks) {
    exists t :: t in s.order && Ready(s, t)
  }

  /** The scheduler returns exactly when no task in the list is ready; otherwise the script has run out. */
  lemma {:induction false} FinishedIffNoneReady(s: Tasks, script: seq<seq<Act>>)
    requires Inv(s)
    ensures var r := ProcessTasks(s, script);
      && (r.finished <==> !AnyReady(r.after)) && (!r.finished ==> |r.started| == |script|)
    decreases |script|
  {
    var i := FirstReady(s, 0);
    if i < |s.order| {
      if script != [] { FinishedIffNoneReady(AfterTask(s, s.order[i], script[0]), script[1..]); }
    } else {
      forall t | t in s.order ensures !Ready(s, t) {
        var k :| 0 <= k < |s.order| && s.order[k] == t;
      }
    }
  }

  // ----- Tasks that do their work once, and tasks without an entry function

  /** The ready tasks of a list, in order. */
  function ReadyOnes(order: seq<nat>, haveToRun: map<nat, nat>): seq<nat> {
    if order == [] then []
    else (if order[0] in haveToRun && haveToRun[order[0]] != 0 then [order[0]] else []) + ReadyOnes(order[1..], haveToRun)
  }

  /** Clearing the flag of the first ready task leaves the other ready ones. */
  lemma {:induction false} ReadyAfterClear(order: seq<nat>, haveToRun: map<nat, nat>, i: nat)
    requires Distinct(order) && i < |order| && order[i] in haveToRun && haveToRun[order[i]] != 0
    requires forall k :: 0 <= k < i ==> !(order[k] in haveToRun && haveToRun[order[k]] != 0)
    ensures ReadyOnes(order, haveToRun) == [order[i]] + ReadyOnes(order, haveToRun[order[i] := 0])
    decreases i
  {
    assert Without(order, 0) == order[1..];
    WithoutKeeps(order, 0);
    if i == 0 {
      ReadyElsewhere(order[1..], haveToRun, order[0]);
    } else {
      assert order[1..][i - 1] == order[i] && Before(0, i);
      assert forall k :: 0 <= k < i - 1 ==> order[1..][k] == order[k + 1];
      ReadyAfterClear(order[1..], haveToRun, i - 1);
    }
  }

  lemma {:induction false} ReadyElsewhere(order: seq<nat>, haveToRun: map<nat, nat>, t: nat)
    requires t !in order
    ensures ReadyOnes(order, haveToRun) == ReadyOnes(order, haveToRun[t := 0])
  {
    if order != [] { ReadyElsewhere(order[1..], haveToRun, t); }
  }

  lemma {:induction false} NoneReadyOnes(order: seq<nat>, haveToRun: map<nat, nat>)
    requires forall k :: 0 <= k < |order| ==> !(order[k] in haveToRun && haveToRun[order[k]] != 0)
    ensures ReadyOnes(order, haveToRun) == []
  {
    if order != [] {
      assert forall k :: 0 <= k < |order| - 1 ==> order[1..][k] == order[k + 1];
      NoneReadyOnes(order[1..], haveToRun);
    }
  }

  /** Every task runs once: if each only clears its own flag, the run starts each ready task once, in the order of the
      list, and finishes. */
  lemma {:induction false} EachRunsOnce(s: Tasks, script: seq<seq<Act>>)
    requires Inv(s) && |ReadyOnes(s.order, s.haveToRun)| <= |script|
    requires forall t :: t in ReadyOnes(s.order, s.haveToRun) ==> t in s.entry && s.entry[t]
    requires forall k :: 0 <= k < |ReadyOnes(s.order, s.haveToRun)| ==>
               script[k] == [Clear(ReadyOnes(s.order, s.haveToRun)[k])]
    ensures var r := ProcessTasks(s, script);
      r.started == ReadyOnes(s.order, s.haveToRun) && r.finished && r.after.order == s.order && !AnyReady(r.after)
    decreases |script|
  {
    var i, ready := FirstReady(s, 0), ReadyOnes(s.order, s.haveToRun);
    FinishedIffNoneReady(s, script);
    if i == |s.order| {
      NoneReadyOnes(s.order, s.haveToRun);
    } else {
      var t := s.order[i];
      ReadyAfterClear(s.order, s.haveToRun, i);
      assert t in ready && script[0] == [Clear(t)];
      ClearOnly(s, t);
      var s' := s.(haveToRun := s.haveToRun[t := 0]);
      assert ready[1..] == ReadyOnes(s'.order, s'.haveToRun);
      EachRunsOnce(s', script[1..]);
    }
  }

  lemma ClearOnly(s: Tasks, t: nat)
    requires Inv(s) && t in s.order && s.entry[t]
    ensures AfterTask(s, t, [Clear(t)]) == s.(haveToRun := s.haveToRun[t := 0])
    ensures Inv(s.(haveToRun := s.haveToRun[t := 0]))
  {
    assert [Clear(t)][1..] == [];
    PerformKeepsInv(s, Clear(t));
    assert PerformAll(Perform(s, Clear(t)), []) == Perform(s, Clear(t));
  }

  /** A ready task without an entry function, and with no ready task ahead, is started again and again: the run does
      nothing and never finishes. */
  lemma {:induction false} NoEntryNeverFinishes(s: Tasks, script: seq<seq<Act>>)
    requires Inv(s) && FirstReady(s, 0) < |s.order| && !s.entry[s.order[FirstReady(s, 0)]]
    ensures var r := ProcessTasks(s, script);
      !r.finished && r.after == s && r.started == seq(|script|, _ => s.order[FirstReady(s, 0)])
    decreases |script|
  {
    if script != [] { NoEntryNeverFinishes(s, script[1..]); }
  }
}
