/**
 The two builds of the generic list: the light one, whose elements only know the next element,
 and the doubly linked one. Both are proved against the same sequence operations.
 */
module GenericList {
  import opened Sequences
  import opened ListModel

  class LightLists {
    var labels: map<nat, Label>
    var next: map<nat, nat>
    var owner: map<nat, nat>
    ghost var contents: map<nat, seq<nat>>

    ghost function View(): Memory
      reads this
    {
      Memory(labels, next, owner)
    }

    ghost function State(): Lists
      reads this
    {
      Lists(View(), contents)
    }

    ghost predicate Valid()
      reads this
    {
      Inv(View(), contents)
    }

    /** LIST_Init for every list, and elements that belong to none. */
    constructor (maxima: map<nat, nat>, elements: set<nat>)
      requires NULL !in maxima && NULL !in elements
      ensures Valid() && labels.Keys == maxima.Keys && owner.Keys == elements
      ensures forall l :: l in maxima ==> contents[l] == [] && labels[l].max == maxima[l]
      ensures forall e :: e in elements ==> owner[e] == NULL
    {
      labels := map l | l in maxima :: Label(NULL, NULL, 0, maxima[l]);
      next := map e | e in elements :: NULL;
      owner := map e | e in elements :: NULL;
      contents := map l | l in maxima :: [];
    }

    method AddTail(l: nat, e: nat) returns (status: Status)
      requires l in labels
      modifies this`labels, this`next, this`owner
      ensures View() == AfterAddTail(old(View()), l, e) && status == AddStatus(old(labels)[l])
    {
      status := AddStatus(labels[l]);
      if status.Ok? {
        if labels[l].size == 0 {
          labels := labels[l := labels[l].(head := e)];
        } else {
          next := next[labels[l].tail := e];
        }
        owner := owner[e := l];
        next := next[e := NULL];
        labels := labels[l := labels[l].(tail := e, size := labels[l].size + 1)];
      }
    }

    method AddHead(l: nat, e: nat) returns (status: Status)
      requires l in labels
      modifies this`labels, this`next, this`owner
      ensures View() == AfterAddHead(old(View()), l, e) && status == AddStatus(old(labels)[l])
    {
      status := AddStatus(labels[l]);
      if status.Ok? {
        if labels[l].size == 0 { labels := labels[l := labels[l].(tail := e)]; }
        owner := owner[e := l];
        next := next[e := labels[l].head];
        labels := labels[l := labels[l].(head := e, size := labels[l].size + 1)];
      }
    }

    method RemoveHead(l: nat) returns (e: nat)
      requires l in labels && (labels[l].size != 0 ==> labels[l].head in next)
      modifies this`labels, this`next, this`owner
      ensures View() == AfterRemoveHead(old(View()), l)
      ensures e == if old(labels)[l].size == 0 then NULL else old(labels)[l].head
    {
      if labels[l].size == 0 { return NULL; }
      e := labels[l].head;
      labels := labels[l := labels[l].(size := labels[l].size - 1)];
      if labels[l].size == 0 { labels := labels[l := labels[l].(tail := NULL)]; }
      owner := owner[e := NULL];
      labels := labels[l := labels[l].(head := next[e])];
    }

    /** Walks from the head to the element in front of the one at position `i`; a head has none. */
    method FindPrevious(l: nat, e: nat, ghost s: seq<nat>, ghost i: nat) returns (previous: nat)
      requires l in labels && Spells(labels[l], next, s) && i < |s| && s[i] == e
      ensures previous == Predecessor(s, i)
    {
      previous := NULL;
      var current := labels[l].head;
      ghost var k: nat := 0;
      while current != NULL
        invariant previous == NULL && k < |s| && current == s[k] && (k == 0 || k < i)
        decreases |s| - k
      {
        assert Nth(k) && next[s[k]] == Successor(s, k);
        if labels[l].head == e {
          SamePlace(s, 0, i);
          break;
        }
        if next[current] == e {
          previous := current;
          assert s[i] in s;
          SamePlace(s, k + 1, i);
          break;
        }
        current := next[current];
        k := k + 1;
        assert s[k] in s;
      }
    }

    method RemoveElement(e: nat, ghost s: seq<nat>, ghost i: nat) returns (status: Status)
      requires e in owner && (owner[e] != NULL ==>
                 owner[e] in labels && Spells(labels[owner[e]], next, s) && i < |s| && s[i] == e)
      modifies this`labels, this`next, this`owner
      ensures status == if old(owner)[e] == NULL then OrphanElement else Ok
      ensures old(owner)[e] == NULL ==> View() == old(View())
      ensures old(owner)[e] != NULL ==> View() == AfterRemoveElement(old(View()), e, s, i)
    {
      if owner[e] == NULL { return OrphanElement; }
      var l := owner[e];
      assert s[i] in s && (0 < i ==> s[i - 1] in s);
      var previous := FindPrevious(l, e, s, i);
      if previous == NULL {
        labels := labels[l := labels[l].(head := next[e])];
      } else {
        next := next[previous := next[e]];
        DifferentPlaces(s, i - 1, i);
      }
      if next[e] == NULL { labels := labels[l := labels[l].(tail := previous)]; }
      labels := labels[l := labels[l].(size := labels[l].size - 1)];
      owner := owner[e := NULL];
      status := Ok;
    }

    method AddPrevElement(e: nat, e': nat, ghost s: seq<nat>, ghost i: nat) returns (status: Status)
      requires e in owner && (owner[e] != NULL ==>
                 owner[e] in labels && Spells(labels[owner[e]], next, s) && i < |s| && s[i] == e)
      modifies this`labels, this`next, this`owner
      ensures status == if old(owner)[e] == NULL then OrphanElement else AddStatus(old(labels)[old(owner)[e]])
      ensures old(owner)[e] == NULL ==> View() == old(View())
      ensures old(owner)[e] != NULL ==> View() == AfterAddPrev(old(View()), e, e', s, i)
    {
      if owner[e] == NULL { return OrphanElement; }
      var l := owner[e];
      status := AddStatus(labels[l]);
      if status.Ok? {
        assert 0 < i ==> s[i - 1] in s;
        var previous := FindPrevious(l, e, s, i);
        if previous == NULL {
          labels := labels[l := labels[l].(head := e')];
        } else {
          next := next[previous := e'];
        }
        owner := owner[e' := l];
        next := next[e' := e];
        labels := labels[l := labels[l].(size := labels[l].size + 1)];
      }
    }

    /** One operation on the memory alone. */
    method ApplyRemoveHead(l: nat) returns (result: Result)
      requires Valid() && Legal(View(), Op.RemoveHead(l))
      modifies this`labels, this`next, this`owner
      ensures View() == StepMemory(old(State()), Op.RemoveHead(l)) && result == StepResult(old(State()), Op.RemoveHead(l))
    {
      LabelSpells(State(), l);
      var e := RemoveHead(l);
      result := Handle(e);
    }

    method ApplyRemove(e: nat) returns (result: Result)
      requires Valid() && Legal(View(), Op.RemoveElement(e))
      modifies this`labels, this`next, this`owner
      ensures View() == StepMemory(old(State()), Op.RemoveElement(e)) && result == StepResult(old(State()), Op.RemoveElement(e))
    {
      ghost var s: seq<nat>, i: nat := [], 0;
      if owner[e] != NULL {
        MemberSpells(State(), e);
        s, i := contents[owner[e]], PlaceOf(State(), e);
      }
      var status := RemoveElement(e, s, i);
      result := Answer(status);
    }

    method ApplyAddPrev(e: nat, e': nat) returns (result: Result)
      requires Valid() && Legal(View(), Op.AddPrevElement(e, e'))
      modifies this`labels, this`next, this`owner
      ensures View() == StepMemory(old(State()), Op.AddPrevElement(e, e'))
      ensures result == StepResult(old(State()), Op.AddPrevElement(e, e'))
    {
      ghost var s: seq<nat>, i: nat := [], 0;
      if owner[e] != NULL {
        MemberSpells(State(), e);
        s, i := contents[owner[e]], PlaceOf(State(), e);
      }
      var status := AddPrevElement(e, e', s, i);
      result := Answer(status);
    }

    method Query(op: Op) returns (result: Result)
      requires Valid() && Legal(View(), op) && (op.GetHead? || op.GetNext? || op.GetList? || op.GetSize?)
      ensures result == StepResult(State(), op)
    {
      match op
      case GetHead(l) => LabelSpells(State(), l); return Handle(labels[l].head);
      case GetNext(e) => return Handle(next[e]);
      case GetList(e) => return Handle(owner[e]);
      case GetSize(l) => LabelSpells(State(), l); return Count(labels[l].size);
    }

    method ApplyToMemory(op: Op) returns (result: Result)
      requires Valid() && Legal(View(), op)
      modifies this`labels, this`next, this`owner
      ensures View() == StepMemory(old(State()), op) && result == StepResult(old(State()), op)
    {
      match op
      case AddTail(l, e) => var status := AddTail(l, e); result := Answer(status);
      case AddHead(l, e) => var status := AddHead(l, e); result := Answer(status);
      case RemoveHead(l) => result := ApplyRemoveHead(l);
      case RemoveElement(e) => result := ApplyRemove(e);
      case AddPrevElement(e, e') => result := ApplyAddPrev(e, e');
      case _ => result := Query(op);
    }

    /** One operation on the lists: memory, sequences and result are those of the model. */
    method Apply(op: Op) returns (result: Result)
      requires Valid() && Legal(View(), op)
      modifies this
      ensures Valid() && View() == StepMemory(old(State()), op)
      ensures contents == StepContents(old(State()), op) && result == StepResult(old(State()), op)
    {
      StepRefines(State(), op);
      ghost var contents' := StepContents(State(), op);
      result := ApplyToMemory(op);
      contents := contents';
    }
  }

  class LinkedLists {
    var labels: map<nat, Label>
    var next: map<nat, nat>
    var owner: map<nat, nat>
    var prev: map<nat, nat>
    ghost var contents: map<nat, seq<nat>>

    ghost function View(): Memory
      reads this
    {
      Memory(labels, next, owner)
    }

    ghost function State(): Lists
      reads this
    {
      Lists(View(), contents)
    }

    /** Beside the memory of the light build, the previous links are the inverse of the next links. */
    ghost predicate Valid()
      reads this
    {
      Inv(View(), contents) && AllBackward(prev, contents)
    }

    constructor (maxima: map<nat, nat>, elements: set<nat>)
      requires NULL !in maxima && NULL !in elements
      ensures Valid() && labels.Keys == maxima.Keys && owner.Keys == elements
      ensures forall l :: l in maxima ==> contents[l] == [] && labels[l].max == maxima[l]
      ensures forall e :: e in elements ==> owner[e] == NULL
    {
      labels := map l | l in maxima :: Label(NULL, NULL, 0, maxima[l]);
      next := map e | e in elements :: NULL;
      owner := map e | e in elements :: NULL;
      prev := map e | e in elements :: NULL;
      contents := map l | l in maxima :: [];
    }

    method AddTail(l: nat, e: nat) returns (status: Status)
      requires l in labels
      modifies this`labels, this`next, this`owner, this`prev
      ensures View() == AfterAddTail(old(View()), l, e) && status == AddStatus(old(labels)[l])
      ensures prev == PrevAfterAddTail(old(prev), old(labels)[l], e)
    {
      status := AddStatus(labels[l]);
      if status.Ok? {
        if labels[l].size == 0 {
          labels := labels[l := labels[l].(head := e)];
        } else {
          next := next[labels[l].tail := e];
        }
        prev := prev[e := labels[l].tail];
        owner := owner[e := l];
        next := next[e := NULL];
        labels := labels[l := labels[l].(tail := e, size := labels[l].size + 1)];
      }
    }

    method AddHead(l: nat, e: nat) returns (status: Status)
      requires l in labels
      modifies this`labels, this`next, this`owner, this`prev
      ensures View() == AfterAddHead(old(View()), l, e) && status == AddStatus(old(labels)[l])
      ensures prev == PrevAfterAddHead(old(prev), old(labels)[l], e)
    {
      status := AddStatus(labels[l]);
      if status.Ok? {
        if labels[l].size == 0 {
          labels := labels[l := labels[l].(tail := e)];
        } else {
          prev := prev[labels[l].head := e];
        }
        prev := prev[e := NULL];
        owner := owner[e := l];
        next := next[e := labels[l].head];
        labels := labels[l := labels[l].(head := e, size := labels[l].size + 1)];
      }
    }

    method RemoveHead(l: nat, ghost s: seq<nat>) returns (e: nat)
      requires l in labels && Spells(labels[l], next, s)
      modifies this`labels, this`next, this`owner, this`prev
      ensures s == [] ==> View() == old(View()) && prev == old(prev) && e == NULL
      ensures s != [] ==> View() == AfterRemoveHead(old(View()), l) && prev == PrevAfterRemove(old(prev), s, 0) && e == s[0]
    {
      if labels[l].size == 0 { return NULL; }
      assert Nth(0) && s[0] in s && next[s[0]] == Successor(s, 0);
      e := labels[l].head;
      labels := labels[l := labels[l].(size := labels[l].size - 1)];
      if labels[l].size == 0 {
        labels := labels[l := labels[l].(tail := NULL)];
      } else {
        prev := prev[next[e] := NULL];
      }
      owner := owner[e := NULL];
      labels := labels[l := labels[l].(head := next[e])];
    }

    method RemoveElement(e: nat, ghost s: seq<nat>, ghost i: nat) returns (status: Status)
      requires e in owner && (owner[e] != NULL ==>
                 owner[e] in labels && Spells(labels[owner[e]], next, s) && Backward(prev, s) && i < |s| && s[i] == e)
      modifies this`labels, this`next, this`owner, this`prev
      ensures status == if old(owner)[e] == NULL then OrphanElement else Ok
      ensures old(owner)[e] == NULL ==> View() == old(View()) && prev == old(prev)
      ensures old(owner)[e] != NULL ==>
                View() == AfterRemoveElement(old(View()), e, s, i) && prev == PrevAfterRemove(old(prev), s, i)
    {
      if owner[e] == NULL { return OrphanElement; }
      var l := owner[e];
      assert Nth(i) && s[i] in s && (0 < i ==> s[i - 1] in s) && (i + 1 < |s| ==> s[i + 1] in s);
      assert next[e] == Successor(s, i) && prev[e] == Predecessor(s, i);
      if 0 < i { DifferentPlaces(s, i - 1, i); }
      if prev[e] == NULL { labels := labels[l := labels[l].(head := next[e])]; }
      if next[e] == NULL { labels := labels[l := labels[l].(tail := prev[e])]; }
      if prev[e] != NULL { next := next[prev[e] := next[e]]; }
      if next[e] != NULL { prev := prev[next[e] := prev[e]]; }
      labels := labels[l := labels[l].(size := labels[l].size - 1)];
      owner := owner[e := NULL];
      status := Ok;
    }

    method AddPrevElement(e: nat, e': nat, ghost s: seq<nat>, ghost i: nat) returns (status: Status)
      requires e in owner && (owner[e] != NULL ==> e != e')
      requires owner[e] != NULL ==>
                 (owner[e] in labels && Spells(labels[owner[e]], next, s) && Backward(prev, s) && i < |s| && s[i] == e)
      modifies this`labels, this`next, this`owner, this`prev
      ensures status == if old(owner)[e] == NULL then OrphanElement else AddStatus(old(labels)[old(owner)[e]])
      ensures old(owner)[e] == NULL ==> View() == old(View())
      ensures old(owner)[e] != NULL ==> View() == AfterAddPrev(old(View()), e, e', s, i)
      ensures prev == if status.Ok? then old(prev)[e' := Predecessor(s, i)][e := e'] else old(prev)
    {
      if owner[e] == NULL { return OrphanElement; }
      var l := owner[e];
      status := AddStatus(labels[l]);
      if status.Ok? {
        assert Nth(i) && s[i] in s && (0 < i ==> s[i - 1] in s) && prev[e] == Predecessor(s, i);
        if prev[e] == NULL {
          labels := labels[l := labels[l].(head := e')];
        } else {
          next := next[prev[e] := e'];
        }
        owner := owner[e' := l];
        labels := labels[l := labels[l].(size := labels[l].size + 1)];
        next := next[e' := e];
        prev := prev[e' := prev[e]];
        prev := prev[e := e'];
      }
    }

    /** The operations on the memory alone, with the previous links. */
    method ApplyAddTail(l: nat, e: nat) returns (result: Result)
      requires Valid() && Legal(View(), Op.AddTail(l, e))
      modifies this`labels, this`next, this`owner, this`prev
      ensures View() == StepMemory(old(State()), Op.AddTail(l, e)) && result == StepResult(old(State()), Op.AddTail(l, e))
      ensures AllBackward(prev, StepContents(old(State()), Op.AddTail(l, e)))
    {
      PrevAddTail(State(), prev, l, e);
      var status := AddTail(l, e);
      result := Answer(status);
    }

    method ApplyAddHead(l: nat, e: nat) returns (result: Result)
      requires Valid() && Legal(View(), Op.AddHead(l, e))
      modifies this`labels, this`next, this`owner, this`prev
      ensures View() == StepMemory(old(State()), Op.AddHead(l, e)) && result == StepResult(old(State()), Op.AddHead(l, e))
      ensures AllBackward(prev, StepContents(old(State()), Op.AddHead(l, e)))
    {
      PrevAddHead(State(), prev, l, e);
      var status := AddHead(l, e);
      result := Answer(status);
    }

    method ApplyRemoveHead(l: nat) returns (result: Result)
      requires Valid() && Legal(View(), Op.RemoveHead(l))
      modifies this`labels, this`next, this`owner, this`prev
      ensures View() == StepMemory(old(State()), Op.RemoveHead(l)) && result == StepResult(old(State()), Op.RemoveHead(l))
      ensures AllBackward(prev, StepContents(old(State()), Op.RemoveHead(l)))
    {
      LabelSpells(State(), l);
      if labels[l].size != 0 {
        PrevRemove(State(), prev, l, 0);
        assert Without(contents[l], 0) == contents[l][1..];
      }
      var e := RemoveHead(l, contents[l]);
      result := Handle(e);
    }

    method ApplyRemove(e: nat) returns (result: Result)
      requires Valid() && Legal(View(), Op.RemoveElement(e))
      modifies this`labels, this`next, this`owner, this`prev
      ensures View() == StepMemory(old(State()), Op.RemoveElement(e)) && result == StepResult(old(State()), Op.RemoveElement(e))
      ensures AllBackward(prev, StepContents(old(State()), Op.RemoveElement(e)))
    {
      ghost var s: seq<nat>, i: nat := [], 0;
      if owner[e] != NULL {
        MemberSpells(State(), e);
        s, i := contents[owner[e]], PlaceOf(State(), e);
        PrevRemove(State(), prev, owner[e], i);
      }
      var status := RemoveElement(e, s, i);
      result := Answer(status);
    }

    method ApplyAddPrev(e: nat, e': nat) returns (result: Result)
      requires Valid() && Legal(View(), Op.AddPrevElement(e, e'))
      modifies this`labels, this`next, this`owner, this`prev
      ensures View() == StepMemory(old(State()), Op.AddPrevElement(e, e'))
      ensures result == StepResult(old(State()), Op.AddPrevElement(e, e'))
      ensures AllBackward(prev, StepContents(old(State()), Op.AddPrevElement(e, e')))
    {
      ghost var s: seq<nat>, i: nat := [], 0;
      if owner[e] != NULL {
        MemberSpells(State(), e);
        s, i := contents[owner[e]], PlaceOf(State(), e);
        PrevInsert(State(), prev, owner[e], i, e');
      }
      var status := AddPrevElement(e, e', s, i);
      result := Answer(status);
    }

    method Query(op: Op) returns (result: Result)
      requires Valid() && Legal(View(), op) && (op.GetHead? || op.GetNext? || op.GetList? || op.GetSize?)
      ensures result == StepResult(State(), op)
    {
      match op
      case GetHead(l) => LabelSpells(State(), l); return Handle(labels[l].head);
      case GetNext(e) => return Handle(next[e]);
      case GetList(e) => return Handle(owner[e]);
      case GetSize(l) => LabelSpells(State(), l); return Count(labels[l].size);
    }

    method ApplyToMemory(op: Op) returns (result: Result)
      requires Valid() && Legal(View(), op)
      modifies this`labels, this`next, this`owner, this`prev
      ensures View() == StepMemory(old(State()), op) && result == StepResult(old(State()), op)
      ensures AllBackward(prev, StepContents(old(State()), op))
    {
      match op
      case AddTail(l, e) => result := ApplyAddTail(l, e);
      case AddHead(l, e) => result := ApplyAddHead(l, e);
      case RemoveHead(l) => result := ApplyRemoveHead(l);
      case RemoveElement(e) => result := ApplyRemove(e);
      case AddPrevElement(e, e') => result := ApplyAddPrev(e, e');
      case _ => result := Query(op);
    }

    /** One operation on the lists: memory, sequences and result are those of the model. */
    method Apply(op: Op) returns (result: Result)
      requires Valid() && Legal(View(), op)
      modifies this
      ensures Valid() && View() == StepMemory(old(State()), op)
      ensures contents == StepContents(old(State()), op) && result == StepResult(old(State()), op)
    {
      StepRefines(State(), op);
      ghost var contents' := StepContents(State(), op);
      result := ApplyToMemory(op);
      contents := contents';
    }

    /** The previous element of a member; only this build has it. */
    method GetPrev(e: nat) returns (previous: nat)
      requires Valid() && e in owner && owner[e] != NULL
      ensures previous == Predecessor(contents[owner[e]], PlaceOf(State(), e))
    {
      MemberSpells(State(), e);
      assert Backward(prev, contents[owner[e]]) && Nth(PlaceOf(State(), e));
      previous := prev[e];
    }
  }

  // ----- The two builds side by side

  ghost predicate AllLegal(s: Lists, ops: seq<Op>)
    requires Inv(s.m, s.contents)
    decreases |ops|
  {
    ops == [] ||
    (Legal(s.m, ops[0]) &&
     (StepRefines(s, ops[0]); AllLegal(Lists(StepMemory(s, ops[0]), StepContents(s, ops[0])), ops[1..])))
  }

  /**
   From equal memories, any sequence of operations that inserts only orphans gives equal results in the two builds,
   and leaves equal labels, next links and owners.
   */
  method RunBoth(light: LightLists, linked: LinkedLists, ops: seq<Op>) returns (lightResults: seq<Result>, linkedResults: seq<Result>)
    requires light.Valid() && linked.Valid() && light.State() == linked.State() && AllLegal(light.State(), ops)
    modifies light, linked
    ensures lightResults == linkedResults && |lightResults| == |ops|
    ensures light.Valid() && linked.Valid() && light.State() == linked.State()
  {
    lightResults, linkedResults := [], [];
    for k := 0 to |ops|
      invariant light.Valid() && linked.Valid() && light.State() == linked.State()
      invariant AllLegal(light.State(), ops[k..])
      invariant lightResults == linkedResults && |lightResults| == k
    {
      assert ops[k..][0] == ops[k] && ops[k..][1..] == ops[k + 1..];
      var a := light.Apply(ops[k]);
      var b := linked.Apply(ops[k]);
      lightResults, linkedResults := lightResults + [a], linkedResults + [b];
    }
  }
}
