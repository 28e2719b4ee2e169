/**
 The bare-metal OSA's tasks over the light generic list: creation, priorities, destruction and the scheduler loop.
 */
module OsaTasks {
  import opened Sequences
  import L = ListModel
  import opened GenericList
  import opened TaskModel

  /** The one list here, and the null pointer. */
  const TASKS := 1
  const NULL := L.NULL

  class Osa {
    const lists: LightLists
    var priority: map<nat, nat>
    var haveToRun: map<nat, nat>
    var entry: map<nat, bool>
    var current: nat

    /** The list memory is sound and holds just the task list, which is unlimited. */
    ghost predicate ListValid()
      reads this`priority, lists
    {
      lists.Valid() && TaskListOnly(lists.View()) && lists.owner.Keys == priority.Keys
    }

    ghost function Order(): seq<nat>
      reads lists`contents
      requires TASKS in lists.contents
    {
      lists.contents[TASKS]
    }

    ghost function View(): Tasks
      reads this`priority, this`haveToRun, this`entry, lists`contents
      requires TASKS in lists.contents
    {
      Tasks(lists.contents[TASKS], priority, haveToRun, entry)
    }

    ghost predicate Valid()
      reads this`priority, this`haveToRun, this`entry, lists
    {
      ListValid() && Inv(View())
    }

    constructor (handles: set<nat>)
      requires NULL !in handles
      ensures Valid() && Order() == [] && priority.Keys == handles && fresh(lists)
    {
      lists := new LightLists(map[TASKS := 0], handles);
      priority, haveToRun, entry := map h | h in handles :: 0, map h | h in handles :: 0, map h | h in handles :: false;
      current := NULL;
    }

    /** The first task whose priority number is not below `p`, and the one in front of it; else the last task. */
    method FindSlot(p: nat, ghost s: seq<nat>) returns (before: nat, tcb: nat, found: bool)
      requires TASKS in lists.labels && L.Spells(lists.labels[TASKS], lists.next, s) && forall t :: t in s ==> t in priority
      ensures var i := Slot(priority, s, p);
        && found == (i < |s|)
        && (if found then tcb == s[i] && before == L.Predecessor(s, i) else tcb == L.LastOf(s))
    {
      before, tcb, found := NULL, NULL, false;
      var element := lists.labels[TASKS].head;
      assert s != [] ==> s[0] in s;
      ghost var k: nat := 0;
      while element != NULL
        invariant !found && k <= |s| && element == (if k < |s| then s[k] else NULL)
        invariant element == NULL <==> k == |s|
        invariant tcb == before == if k == 0 then NULL else s[k - 1]
        invariant forall j :: 0 <= j < k ==> priority[s[j]] < p
        decreases |s| - k
      {
        assert L.Nth(k) && lists.next[s[k]] == L.Successor(s, k);
        tcb := element;
        if p <= priority[tcb] {
          found := true;
          SlotIs(priority, s, p, k);
          return;
        }
        before := tcb;
        element := lists.next[element];
        k := k + 1;
        assert k < |s| ==> s[k] in s;
      }
      SlotIs(priority, s, p, k);
    }

    /** Links a task in front of another, writing head, next, owner and size itself. */
    method WriteLinks(before: nat, tcb: nat, t: nat, ghost s: seq<nat>, ghost i: nat)
      requires i < |s| && NULL !in s && tcb == s[i] && before == L.Predecessor(s, i)
      requires tcb in lists.owner && lists.owner[tcb] in lists.labels && lists.owner[tcb] != NULL
      requires lists.labels[lists.owner[tcb]].max == 0
      modifies lists`labels, lists`next, lists`owner
      ensures lists.View() == L.AfterAddPrev(old(lists.View()), tcb, t, s, i)
    {
      assert 0 < i ==> s[i - 1] in s;
      var l := lists.owner[tcb];
      if before == NULL {
        lists.labels := lists.labels[l := lists.labels[l].(head := t)];
      } else {
        lists.next := lists.next[before := t];
      }
      lists.owner := lists.owner[t := l];
      lists.next := lists.next[t := tcb];
      lists.labels := lists.labels[l := lists.labels[l].(size := lists.labels[l].size + 1)];
    }

    method LinkBefore(before: nat, tcb: nat, t: nat, ghost i: nat)
      requires ListValid() && i < |Order()| && tcb == Order()[i] && before == L.Predecessor(Order(), i)
      requires t in lists.owner && lists.owner[t] == NULL
      modifies lists
      ensures ListValid() && Order() == With(old(Order()), i, t)
    {
      L.AddPrevRefines(lists.View(), lists.contents, TASKS, i, t);
      L.LabelSpells(lists.State(), TASKS);
      WriteLinks(before, tcb, t, Order(), i);
      lists.contents := lists.contents[TASKS := With(Order(), i, t)];
    }

    /** An operation of the list component that leaves the task list the only one. */
    method Change(op: L.Op)
      requires ListValid() && L.Legal(lists.View(), op) && TaskListOnly(L.StepMemory(lists.State(), op))
      requires L.StepMemory(lists.State(), op).owner.Keys == lists.owner.Keys
      modifies lists
      ensures ListValid() && lists.State() == L.Lists(L.StepMemory(old(lists.State()), op), L.StepContents(old(lists.State()), op))
    {
      var result := lists.Apply(op);
    }

    method LinkLast(t: nat)
      requires ListValid() && t in lists.owner && lists.owner[t] == NULL
      modifies lists
      ensures ListValid() && Order() == With(old(Order()), |old(Order())|, t)
    {
      LastInModel(lists.State(), t);
      Change(L.AddTail(TASKS, t));
    }

    method Unlink(t: nat)
      requires ListValid() && t in lists.owner
      modifies lists
      ensures ListValid() && Order() == Others(old(Order()), t)
      ensures lists.owner[t] == NULL
    {
      UnlinkInModel(lists.State(), t);
      Change(L.RemoveElement(t));
    }

    /** OSA_TaskCreate: a new task is ready, and goes in front of the tasks of its own priority. */
    method TaskCreate(t: nat, p: nat, hasEntry: bool)
      requires ListValid() && InTable(View()) && t in priority && t !in Order()
      modifies this, lists
      ensures ListValid() && View() == AfterCreate(old(View()), t, p, hasEntry)
    {
      Fill(t, p, hasEntry);
      Insert(t, true);
    }

    /** The fields of a new task. */
    method Fill(t: nat, p: nat, hasEntry: bool)
      requires ListValid() && InTable(View()) && t in priority && t !in Order()
      modifies this`priority, this`haveToRun, this`entry
      ensures ListValid() && priority == old(priority)[t := p] && haveToRun == old(haveToRun)[t := 1]
      ensures entry == old(entry)[t := hasEntry] && InTable(View()) && lists.owner[t] == NULL
    {
      Membership(lists, t);
      entry, haveToRun, priority := entry[t := hasEntry], haveToRun[t := 1], priority[t := p];
    }

    method StorePriority(t: nat, p: nat)
      requires ListValid() && InTable(View()) && t in priority
      modifies this`priority
      ensures ListValid() && InTable(View()) && priority == old(priority)[t := p]
    {
      priority := priority[t := p];
    }

    method SetFlag(t: nat, value: nat)
      requires ListValid()
      modifies this`haveToRun
      ensures ListValid() && haveToRun == old(haveToRun)[t := value]
    {
      haveToRun := haveToRun[t := value];
    }

    /**
     Unlinks the task and inserts it again. The walk leaves the task it visited last, whose priority is read after it:
     a task that is alone in the list is read through NULL there, and the model stops with the list empty.
     */
    method TaskSetPriority(t: nat, p: nat) returns (readsNull: bool)
      requires ListValid() && InTable(View()) && t in priority
      modifies this, lists
      ensures ListValid() && (readsNull <==> Others(old(Order()), t) == [])
      ensures View() == if readsNull then old(View()).(priority := old(priority)[t := p], order := [])
                        else AfterSetPriority(old(View()), t, p)
    {
      StorePriority(t, p);
      Unlink(t);
      OthersKnown(old(Order()), t);
      readsNull := IsEmpty();
      if !readsNull { Insert(t, false); }
    }

    /** Whether the walk over the list visits no task. */
    method IsEmpty() returns (empty: bool)
      requires ListValid()
      ensures empty <==> Order() == []
    {
      L.LabelSpells(lists.State(), TASKS);
      assert Order() != [] ==> Order()[0] in Order();
      empty := lists.labels[TASKS].head == NULL;
    }

    /** Walks to the slot and links the task there, or last if all tasks have smaller numbers. */
    method Insert(t: nat, mayBeEmpty: bool)
      requires ListValid() && t in lists.owner && lists.owner[t] == NULL && forall x :: x in Order() ==> x in priority
      requires mayBeEmpty || Order() != []
      modifies lists
      ensures ListValid() && Order() == With(old(Order()), Slot(priority, old(Order()), priority[t]), t)
    {
      L.LabelSpells(lists.State(), TASKS);
      ghost var s := Order();
      var before, tcb, found := FindSlot(priority[t], s);
      if found {
        LinkBefore(before, tcb, t, Slot(priority, s, priority[t]));
      } else {
        assert s != [] ==> s[|s| - 1] in s;
        if tcb == NULL || priority[t] > priority[tcb] { LinkLast(t); }
      }
    }

    method TaskDestroy(t: nat)
      requires ListValid() && t in priority
      modifies lists
      ensures ListValid() && Order() == Others(old(Order()), t)
    {
      Unlink(t);
    }

    /** Whether the source allows for an act: a task is created once, and is not alone when its priority is set. */
    method Allowed(a: Act) returns (allowed: bool)
      requires Valid()
      ensures allowed <==> Legal(View(), a)
    {
      if a.task !in priority { return false; }
      Membership(lists, a.task);
      L.LabelSpells(lists.State(), TASKS);
      OthersLength(Order(), a.task);
      match a
      case Create(t, _, _) => allowed := lists.owner[t] == NULL;
      case SetPriority(t, _) => allowed := lists.labels[TASKS].size > if lists.owner[t] == NULL then 0 else 1;
      case _ => allowed := true;
    }

    /** An act of a task or an interrupt; signals and waits set and clear the ready flag. */
    method Do(a: Act)
      requires Valid()
      modifies this, lists
      ensures Valid() && View() == if Legal(old(View()), a) then Perform(old(View()), a) else old(View())
    {
      var allowed := Allowed(a);
      if allowed { Execute(a); }
    }

    method Execute(a: Act)
      requires Valid() && Legal(View(), a)
      modifies this, lists
      ensures Valid() && View() == Perform(old(View()), a)
    {
      PerformKeepsInv(View(), a);
      Carry(a);
    }

    method Carry(a: Act)
      requires ListValid() && Inv(View()) && Legal(View(), a)
      modifies this, lists
      ensures ListValid() && View() == Perform(old(View()), a)
    {
      match a
      case Create(t, p, f) => TaskCreate(t, p, f);
      case SetPriority(t, p) => var readsNull := TaskSetPriority(t, p);
      case Destroy(t) => TaskDestroy(t);
      case Signal(t) => SetFlag(t, 1);
      case Clear(t) => SetFlag(t, 0);
    }

    /** What an entry function does, as given. */
    method CallEntry(acts: seq<Act>)
      requires Valid()
      modifies this, lists
      ensures Valid() && View() == PerformAll(old(View()), acts)
    {
      for k := 0 to |acts|
        invariant Valid() && PerformAll(View(), acts[k..]) == PerformAll(old(View()), acts)
      {
        assert acts[k..][0] == acts[k] && acts[k..][1..] == acts[k + 1..];
        Do(acts[k]);
      }
    }

    /** The list memory spells `s`, whose tasks all have a ready flag. */
    ghost predicate Walkable(s: seq<nat>)
      reads this`haveToRun, lists`labels, lists`next
    {
      && TASKS in lists.labels && L.Spells(lists.labels[TASKS], lists.next, s)
      && forall t :: t in s ==> t in haveToRun
    }

    /** Walks from the head to the first ready task. */
    method FindReady(ghost s: seq<nat>) returns (element: nat, ghost k: nat)
      requires Walkable(s)
      modifies this`current
      ensures AtPlace(s, k, element) && (k < |s| ==> s[k] in haveToRun && haveToRun[s[k]] != 0)
      ensures forall j :: 0 <= j < k ==> s[j] in haveToRun && haveToRun[s[j]] == 0
      ensures current == if k < |s| then element else if s == [] then old(current) else s[|s| - 1]
    {
      element := Head(s);
      k := 0;
      while element != NULL
        modifies this`current
        invariant AtPlace(s, k, element) && current == if k == 0 then old(current) else s[k - 1]
        invariant forall j :: 0 <= j < k ==> s[j] in haveToRun && haveToRun[s[j]] == 0
        decreases |s| - k
      {
        current := element;
        assert s[k] in s;
        if haveToRun[element] != 0 { break; }
        element := Next(element, s, k);
        k := k + 1;
      }
    }

    lemma CanWalk()
      requires Valid()
      ensures Walkable(Order())
    {
      L.LabelSpells(lists.State(), TASKS);
    }

    method NextReady() returns (element: nat, ghost k: nat)
      requires Valid()
      modifies this`current
      ensures Valid() && k == FirstReady(View(), 0) && Visited(Order(), k, element, current)
    {
      CanWalk();
      element, k := FindReady(Order());
      FirstReadyIs(View(), k);
    }

    /** Calls the entry function of the current task, if it has one. */
    method RunEntry(t: nat, acts: seq<Act>)
      requires Valid() && t in entry && current == t
      modifies this, lists
      ensures Valid() && View() == AfterTask(old(View()), t, acts)
    {
      if entry[t] { CallEntry(acts); }
    }

    /** Runs a task to completion and looks for the next from the head. */
    method RunTask(t: nat, acts: seq<Act>) returns (element: nat, ghost k: nat)
      requires Valid() && t in Order() && current == t
      modifies this, lists
      ensures Valid() && View() == AfterTask(old(View()), t, acts)
      ensures k == FirstReady(View(), 0) && Visited(Order(), k, element, current)
    {
      RunEntry(t, acts);
      element, k := NextReady();
    }

    /**
     OSA_ProcessTasks: walks the list, runs the first ready task and starts again from the head.
     The script gives what the entry functions do, one element a run; it may run out before the work is done.
     Each task is the current one while it runs, and at the end the current one is the last that the walk visited.
     */
    method RunReady(script: seq<seq<Act>>) returns (started: seq<nat>, finished: bool)
      requires Valid()
      modifies this, lists
      ensures Valid() && Outcome(started, View(), finished) == ProcessTasks(old(View()), script)
      ensures finished && Order() != [] ==> current == L.LastOf(Order())
      ensures !finished ==> FirstReady(View(), 0) < |Order()| && current == Order()[FirstReady(View(), 0)]
    {
      ghost var s := View();
      started, finished := [], true;
      var n: nat := 0;
      var element; ghost var k;
      element, k := NextReady();
      ProcessStarts(s, script);
      while element != NULL
        invariant Valid() && k == FirstReady(View(), 0) && Visited(Order(), k, element, current)
        invariant Underway(s, script, started, View(), n) && finished
        decreases |script| - n
      {
        if n == |script| {
          ProcessEnds(s, script, started, View(), n);
          return started, false;
        }
        ProcessStep(s, script, started, View(), n, element);
        started := started + [element];
        element, k := RunTask(element, script[n]);
        n := n + 1;
      }
      ProcessEnds(s, script, started, View(), n);
    }

    method Head(ghost s: seq<nat>) returns (element: nat)
      requires Walkable(s)
      ensures AtPlace(s, 0, element)
    {
      assert s != [] ==> s[0] in s;
      element := lists.labels[TASKS].head;
    }

    method Next(element: nat, ghost s: seq<nat>, ghost k: nat) returns (next: nat)
      requires Walkable(s) && k < |s| && element == s[k]
      ensures AtPlace(s, k + 1, next)
    {
      assert s[k] in s && L.Nth(k) && lists.next[s[k]] == L.Successor(s, k);
      assert k + 1 < |s| ==> s[k + 1] in s;
      next := lists.next[element];
    }

    /** Walks the list until a flag is 1. */
    method FindSignaled(ghost s: seq<nat>) returns (status: bool, ghost k: nat)
      requires Walkable(s)
      ensures forall j :: 0 <= j < k ==> j < |s| && s[j] in haveToRun && haveToRun[s[j]] != 1
      ensures if status then k < |s| && s[k] in haveToRun && haveToRun[s[k]] == 1 else k == |s|
    {
      var element := Head(s);
      k := 0;
      while element != NULL
        invariant AtPlace(s, k, element)
        invariant forall j :: 0 <= j < k ==> j < |s| && s[j] in haveToRun && haveToRun[s[j]] != 1
        decreases |s| - k
      {
        assert s[k] in s;
        if haveToRun[element] == 1 { return true, k; }
        element := Next(element, s, k);
        k := k + 1;
      }
      status := false;
    }

    method TaskShouldYield() returns (status: bool)
      requires Valid()
      ensures status == AnyReady(View())
    {
      CanWalk();
      ghost var k;
      status, k := FindSignaled(Order());
      YieldIffReady(View(), k, status);
    }
  }

  /** The walk stands at position `k`, or at the end. */
  ghost predicate AtPlace(order: seq<nat>, k: nat, element: nat) {
    k <= |order| && element == (if k < |order| then order[k] else NULL) && (element == NULL <==> k == |order|)
  }

  /** The walk stands there, and `now` is the task it visited last, if it visited any. */
  ghost predicate Visited(order: seq<nat>, k: nat, element: nat, now: nat) {
    AtPlace(order, k, element) && (order != [] ==> now == if k < |order| then order[k] else order[|order| - 1])
  }

  ghost function Prepend(started: seq<nat>, r: Outcome): Outcome {
    r.(started := started + r.started)
  }

  lemma FirstReadyIs(s: Tasks, k: nat)
    requires k <= |s.order| && (k < |s.order| ==> Ready(s, s.order[k]))
    requires forall j :: 0 <= j < k ==> !Ready(s, s.order[j])
    ensures FirstReady(s, 0) == k
  {
  }

  /** `n` tasks were started since `s`, and the rest of the script is run from `v`. */
  ghost predicate Underway(s: Tasks, script: seq<seq<Act>>, started: seq<nat>, v: Tasks, n: nat) {
    Inv(s) && Inv(v) && n <= |script| && ProcessTasks(s, script) == Prepend(started, ProcessTasks(v, script[n..]))
  }

  lemma ProcessStarts(s: Tasks, script: seq<seq<Act>>)
    requires Inv(s)
    ensures Underway(s, script, [], s, 0)
  {
    assert script[0..] == script;
    assert [] + ProcessTasks(s, script).started == ProcessTasks(s, script).started;
  }

  lemma ProcessEnds(s: Tasks, script: seq<seq<Act>>, started: seq<nat>, v: Tasks, n: nat)
    requires Underway(s, script, started, v, n) && (FirstReady(v, 0) == |v.order| || n == |script|)
    ensures ProcessTasks(s, script) == Outcome(started, v, FirstReady(v, 0) == |v.order|)
  {
    assert started + [] == started;
  }

  lemma ProcessStep(s: Tasks, script: seq<seq<Act>>, started: seq<nat>, v: Tasks, n: nat, t: nat)
    requires Underway(s, script, started, v, n) && n < |script|
    requires FirstReady(v, 0) < |v.order| && t == v.order[FirstReady(v, 0)]
    ensures Underway(s, script, started + [t], AfterTask(v, t, script[n]), n + 1)
  {
    ProcessFirst(started, v, script[n..], t);
    assert script[n..][0] == script[n] && script[n..][1..] == script[n + 1..];
  }

  lemma ProcessFirst(started: seq<nat>, v: Tasks, script: seq<seq<Act>>, t: nat)
    requires Inv(v) && script != [] && FirstReady(v, 0) < |v.order| && t == v.order[FirstReady(v, 0)]
    ensures Prepend(started, ProcessTasks(v, script)) ==
              Prepend(started + [t], ProcessTasks(AfterTask(v, t, script[0]), script[1..]))
  {
    var rest := ProcessTasks(AfterTask(v, t, script[0]), script[1..]).started;
    assert started + ([t] + rest) == (started + [t]) + rest;
  }

  lemma OthersLength(order: seq<nat>, t: nat)
    ensures |Others(order, t)| == if t in order then |order| - 1 else |order|
  {
  }

  /** With flags that are 0 or 1, looking for a 1 is looking for a ready task. */
  lemma YieldIffReady(s: Tasks, k: nat, status: bool)
    requires Inv(s) && k <= |s.order|
    requires forall j :: 0 <= j < k ==> s.order[j] in s.haveToRun && s.haveToRun[s.order[j]] != 1
    requires if status then k < |s.order| && s.order[k] in s.haveToRun && s.haveToRun[s.order[k]] == 1 else k == |s.order|
    ensures status == AnyReady(s)
  {
    if status {
      assert s.order[k] in s.order && Ready(s, s.order[k]);
    } else {
      forall t | t in s.order ensures !Ready(s, t) {
        var j :| 0 <= j < |s.order| && s.order[j] == t;
        assert s.haveToRun[t] <= 1;
      }
    }
  }

  ghost predicate TaskListOnly(m: L.Memory) {
    m.labels.Keys == {TASKS} && m.labels[TASKS].max == 0
  }

  lemma LastInModel(s: L.Lists, t: nat)
    requires L.Inv(s.m, s.contents) && TaskListOnly(s.m) && L.Legal(s.m, L.AddTail(TASKS, t))
    ensures var (m', c') := (L.StepMemory(s, L.AddTail(TASKS, t)), L.StepContents(s, L.AddTail(TASKS, t)));
      && TaskListOnly(m') && m'.owner.Keys == s.m.owner.Keys
      && TASKS in c' && c'[TASKS] == With(s.contents[TASKS], |s.contents[TASKS]|, t)
  {
  }

  lemma UnlinkInModel(s: L.Lists, t: nat)
    requires L.Inv(s.m, s.contents) && TaskListOnly(s.m) && t in s.m.owner
    ensures var (m', c') := (L.StepMemory(s, L.RemoveElement(t)), L.StepContents(s, L.RemoveElement(t)));
      && TaskListOnly(m') && m'.owner.Keys == s.m.owner.Keys && m'.owner[t] == NULL
      && TASKS in c' && c'[TASKS] == Others(s.contents[TASKS], t)
  {
    assert L.ListOk(s.m, TASKS, s.contents[TASKS]);
  }

  /** A known task is in the list exactly if it names the list as its own. */
  lemma Membership(lists: LightLists, t: nat)
    requires lists.Valid() && lists.labels.Keys == {TASKS} && t in lists.owner
    ensures TASKS in lists.contents && (lists.owner[t] != NULL <==> t in lists.contents[TASKS])
    ensures lists.owner[t] != NULL ==> lists.owner[t] == TASKS
  {
    assert L.ListOk(lists.View(), TASKS, lists.contents[TASKS]);
  }

  lemma SlotIs(priority: map<nat, nat>, order: seq<nat>, p: nat, i: nat)
    requires (forall t :: t in order ==> t in priority) && i <= |order|
    requires (i < |order| ==> p <= priority[order[i]]) && forall j :: 0 <= j < i ==> priority[order[j]] < p
    ensures Slot(priority, order, p) == i
  {
  }
}
