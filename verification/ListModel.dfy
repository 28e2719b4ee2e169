/**
 The generic list as memory: a label per list, and per element a link to the next and the list it belongs to.
 Lists and elements are known by number, 0 standing for the null pointer; the model of a list is a sequence.
 */
module ListModel {
  import opened Sequences

  const NULL := 0

  datatype Status = Ok | Full | OrphanElement
  datatype Label = Label(head: nat, tail: nat, size: nat, max: nat)
  datatype Memory = Memory(labels: map<nat, Label>, next: map<nat, nat>, owner: map<nat, nat>)

  /** Names a position, so that facts about positions are used only where one is meant. */
  predicate Nth(i: int) {
    0 <= i
  }

  function First(s: seq<nat>): nat {
    if s == [] then NULL else s[0]
  }

  function LastOf(s: seq<nat>): nat {
    if s == [] then NULL else s[|s| - 1]
  }

  function Successor(s: seq<nat>, i: nat): nat
    requires i < |s|
  {
    if i + 1 < |s| then s[i + 1] else NULL
  }

  function Predecessor(s: seq<nat>, i: nat): nat
    requires i < |s|
  {
    if i == 0 then NULL else s[i - 1]
  }

  /** The label and the links spell out the sequence. */
  ghost predicate Spells(lab: Label, next: map<nat, nat>, s: seq<nat>) {
    && Distinct(s) && NULL !in s && lab.size == |s| && (lab.max != 0 ==> |s| <= lab.max)
    && lab.head == First(s) && lab.tail == LastOf(s)
    && (forall e :: e in s ==> e in next)
    && (forall i {:trigger Nth(i)} :: Nth(i) && i < |s| ==> next[s[i]] == Successor(s, i))
  }

  /** Exactly the elements of the sequence name the list as theirs. */
  ghost predicate Owns(owner: map<nat, nat>, l: nat, s: seq<nat>) {
    forall e {:trigger owner[e]} {:trigger e in s} :: e in owner ==> (owner[e] == l <==> e in s)
  }

  ghost predicate ListOk(m: Memory, l: nat, s: seq<nat>) {
    l != NULL && l in m.labels && Spells(m.labels[l], m.next, s) && Owns(m.owner, l, s)
  }

  ghost predicate Inv(m: Memory, contents: map<nat, seq<nat>>) {
    && contents.Keys == m.labels.Keys && m.next.Keys == m.owner.Keys && NULL !in m.owner
    && (forall l {:trigger contents[l]} :: l in contents ==> ListOk(m, l, contents[l]))
    && (forall e {:trigger m.owner[e]} :: e in m.owner ==> m.owner[e] == NULL || m.owner[e] in m.labels)
  }

  // ----- The operations

  function AddStatus(lab: Label): Status {
    if lab.max != 0 && lab.max == lab.size then Full else Ok
  }

  ghost function AfterAddTail(m: Memory, l: nat, e: nat): Memory
    requires l in m.labels
  {
    var lab := m.labels[l];
    if AddStatus(lab).Full? then m
    else Memory(m.labels[l := Label(if lab.size == 0 then e else lab.head, e, lab.size + 1, lab.max)],
                (if lab.size == 0 then m.next else m.next[lab.tail := e])[e := NULL], m.owner[e := l])
  }

  ghost function AfterAddHead(m: Memory, l: nat, e: nat): Memory
    requires l in m.labels
  {
    var lab := m.labels[l];
    if AddStatus(lab).Full? then m
    else Memory(m.labels[l := Label(e, if lab.size == 0 then e else lab.tail, lab.size + 1, lab.max)],
                m.next[e := lab.head], m.owner[e := l])
  }

  ghost function AfterRemoveHead(m: Memory, l: nat): Memory
    requires l in m.labels && (m.labels[l].size != 0 ==> m.labels[l].head in m.next)
  {
    var lab := m.labels[l];
    if lab.size == 0 then m
    else Memory(m.labels[l := Label(m.next[lab.head], if lab.size == 1 then NULL else lab.tail, lab.size - 1, lab.max)],
                m.next, m.owner[lab.head := NULL])
  }

  /** Unlinks the element at position `i` of the list that spells `s`. */
  ghost function AfterRemoveElement(m: Memory, e: nat, s: seq<nat>, i: nat): Memory
    requires e in m.owner && e in m.next && (m.owner[e] != NULL ==> m.owner[e] in m.labels && i < |s| == m.labels[m.owner[e]].size)
  {
    var l := m.owner[e];
    if l == NULL then m
    else
      var (lab, pred) := (m.labels[l], Predecessor(s, i));
      Memory(m.labels[l := Label(if i == 0 then m.next[e] else lab.head, if m.next[e] == NULL then pred else lab.tail,
                                 lab.size - 1, lab.max)],
             if i == 0 then m.next else m.next[pred := m.next[e]], m.owner[e := NULL])
  }

  /** Links an element in front of the one at position `i` of the list that spells `s`. */
  ghost function AfterAddPrev(m: Memory, e: nat, e': nat, s: seq<nat>, i: nat): Memory
    requires e in m.owner && (m.owner[e] != NULL ==> m.owner[e] in m.labels && i < |s|)
  {
    var l := m.owner[e];
    if l == NULL || AddStatus(m.labels[l]).Full? then m
    else
      var lab := m.labels[l];
      Memory(m.labels[l := Label(if i == 0 then e' else lab.head, lab.tail, lab.size + 1, lab.max)],
             (if i == 0 then m.next else m.next[Predecessor(s, i) := e'])[e' := e], m.owner[e' := l])
  }

  // ----- One list

  lemma SpellsAddTail(lab: Label, next: map<nat, nat>, s: seq<nat>, e: nat, lab': Label, next': map<nat, nat>)
    requires Spells(lab, next, s) && e !in s && e in next && e != NULL && AddStatus(lab).Ok?
    requires lab' == Label(if lab.size == 0 then e else lab.head, e, lab.size + 1, lab.max)
    requires next' == (if lab.size == 0 then next else next[lab.tail := e])[e := NULL]
    ensures Spells(lab', next', s + [e])
  {
    assert s + [e] == With(s, |s|, e);
    WithKeeps(s, |s|, e);
    forall i {:trigger Nth(i)} | Nth(i) && i < |s| + 1 ensures next'[(s + [e])[i]] == Successor(s + [e], i) {
      if i < |s| {
        assert s[i] in s;
        if i < |s| - 1 { assert Before(i, |s| - 1); }
      }
    }
  }

  lemma SpellsAddHead(lab: Label, next: map<nat, nat>, s: seq<nat>, e: nat, lab': Label)
    requires Spells(lab, next, s) && e !in s && e in next && e != NULL && AddStatus(lab).Ok?
    requires lab' == Label(e, if lab.size == 0 then e else lab.tail, lab.size + 1, lab.max)
    ensures Spells(lab', next[e := lab.head], [e] + s)
  {
    assert [e] + s == With(s, 0, e);
    WithKeeps(s, 0, e);
    forall i {:trigger Nth(i)} | Nth(i) && i < |s| + 1 ensures next[e := lab.head][([e] + s)[i]] == Successor([e] + s, i) {
      if 0 < i { assert Nth(i - 1) && s[i - 1] in s; }
    }
  }

  /** Taking out the element at `i` and bridging the gap. */
  lemma SpellsRemove(lab: Label, next: map<nat, nat>, s: seq<nat>, i: nat, lab': Label, next': map<nat, nat>)
    requires Spells(lab, next, s) && i < |s|
    requires lab' == Label(if i == 0 then next[s[i]] else lab.head,
                             if next[s[i]] == NULL then Predecessor(s, i) else lab.tail, lab.size - 1, lab.max)
    requires next' == if i == 0 then next else next[Predecessor(s, i) := next[s[i]]]
    ensures Spells(lab', next', Without(s, i))
  {
    var s' := Without(s, i);
    WithoutKeeps(s, i);
    assert Nth(i) && next[s[i]] == Successor(s, i);
    forall k {:trigger Nth(k)} | Nth(k) && k < |s'| ensures next'[s'[k]] == Successor(s', k) {
      var o := OldPlace(i, k);
      assert Nth(o) && next[s[o]] == Successor(s, o);
      if k != i - 1 && 0 < i { if o < i - 1 { assert Before(o, i - 1); } else { assert Before(i - 1, o); } }
    }
  }

  /** Putting an element in at `i`, in front of a member. */
  lemma SpellsInsert(lab: Label, next: map<nat, nat>, s: seq<nat>, i: nat, e: nat, lab': Label, next': map<nat, nat>)
    requires Spells(lab, next, s) && i < |s| && e !in s && e in next && e != NULL && AddStatus(lab).Ok?
    requires lab' == Label(if i == 0 then e else lab.head, lab.tail, lab.size + 1, lab.max)
    requires next' == (if i == 0 then next else next[Predecessor(s, i) := e])[e := s[i]]
    ensures Spells(lab', next', With(s, i, e))
  {
    var s' := With(s, i, e);
    WithKeeps(s, i, e);
    forall k {:trigger Nth(k)} | Nth(k) && k < |s'| ensures next'[s'[k]] == Successor(s', k) {
      if k != i {
        var o := Place(i, k);
        assert Nth(o) && next[s[o]] == Successor(s, o) && s[o] in s;
        if k != i - 1 && 0 < i { if o < i - 1 { assert Before(o, i - 1); } else { assert Before(i - 1, o); } }
      }
    }
  }

  // ----- All lists

  /** The two memories differ in list `l`, its elements and one element `e` only. */
  ghost predicate SameButList(m: Memory, m': Memory, l: nat, s: seq<nat>, e: nat) {
    && m'.labels.Keys == m.labels.Keys && m'.next.Keys == m.next.Keys && m'.owner.Keys == m.owner.Keys
    && (forall k :: k in m.labels && k != l ==> m'.labels[k] == m.labels[k])
    && (forall x {:trigger m'.next[x]} :: x in m.next && x !in s && x != e ==> m'.next[x] == m.next[x])
    && (forall x {:trigger m'.owner[x]} :: x in m.owner && x !in s && x != e ==> m'.owner[x] == m.owner[x])
    && (forall x {:trigger m'.owner[x]} :: x in m.owner && (x in s || x == e) ==> m'.owner[x] == l || m'.owner[x] == NULL)
  }

  lemma SpellsSame(lab: Label, next: map<nat, nat>, next': map<nat, nat>, s: seq<nat>)
    requires Spells(lab, next, s) && forall x :: x in s ==> x in next' && next'[x] == next[x]
    ensures Spells(lab, next', s)
  {
    forall i {:trigger Nth(i)} | Nth(i) && i < |s| ensures next'[s[i]] == Successor(s, i) {
      assert s[i] in s;
    }
  }

  /** A change of one list leaves the other lists as they are. */
  lemma OtherListOk(m: Memory, m': Memory, l: nat, s: seq<nat>, e: nat, k: nat, t: seq<nat>)
    requires ListOk(m, l, s) && ListOk(m, k, t) && k != l && SameButList(m, m', l, s, e)
    requires e in m.owner && (m.owner[e] == NULL || m.owner[e] == l) && m.next.Keys == m.owner.Keys
    ensures ListOk(m', k, t)
  {
    forall x | x in t ensures x in m'.next && m'.next[x] == m.next[x] {
      assert m.owner[x] == k;
    }
    SpellsSame(m.labels[k], m.next, m'.next, t);
    forall x {:trigger m'.owner[x]} | x in m'.owner ensures m'.owner[x] == k <==> x in t {
      if x in s || x == e { assert m.owner[x] != k; }
    }
  }

  ghost predicate OwnersExist(m: Memory) {
    forall e {:trigger m.owner[e]} :: e in m.owner ==> m.owner[e] == NULL || m.owner[e] in m.labels
  }

  lemma OwnersStillExist(m: Memory, m': Memory, l: nat, s: seq<nat>, e: nat)
    requires OwnersExist(m) && SameButList(m, m', l, s, e) && l in m.labels
    ensures OwnersExist(m')
  {
    forall x {:trigger m'.owner[x]} | x in m'.owner ensures m'.owner[x] == NULL || m'.owner[x] in m'.labels {
      assert m.owner[x] == NULL || m.owner[x] in m.labels;
    }
  }

  lemma ListChanged(m: Memory, contents: map<nat, seq<nat>>, m': Memory, l: nat, e: nat, s': seq<nat>)
    requires Inv(m, contents) && l in contents && SameButList(m, m', l, contents[l], e)
    requires e in m.owner && (m.owner[e] == NULL || m.owner[e] == l)
    requires ListOk(m', l, s')
    ensures Inv(m', contents[l := s'])
  {
    OwnersStillExist(m, m', l, contents[l], e);
    assert ListOk(m, l, contents[l]);
    var contents' := contents[l := s'];
    forall k {:trigger contents'[k]} | k in contents' ensures ListOk(m', k, contents'[k]) {
      if k != l {
        assert ListOk(m, k, contents[k]);
        OtherListOk(m, m', l, contents[l], e, k, contents[k]);
      }
    }
  }

  lemma AddTailLocal(m: Memory, l: nat, s: seq<nat>, e: nat)
    requires ListOk(m, l, s) && e in m.owner && m.owner[e] == NULL && m.next.Keys == m.owner.Keys && e != NULL
    requires AddStatus(m.labels[l]).Ok?
    ensures var m' := AfterAddTail(m, l, e); SameButList(m, m', l, s, e) && ListOk(m', l, s + [e])
  {
    var m' := AfterAddTail(m, l, e);
    SpellsAddTail(m.labels[l], m.next, s, e, m'.labels[l], m'.next);
    assert s != [] ==> s[|s| - 1] in s;
  }

  lemma AddTailRefines(m: Memory, contents: map<nat, seq<nat>>, l: nat, e: nat)
    requires Inv(m, contents) && l in contents && e in m.owner && m.owner[e] == NULL
    ensures l in m.labels
    ensures Inv(AfterAddTail(m, l, e), if AddStatus(m.labels[l]).Ok? then contents[l := contents[l] + [e]] else contents)
  {
    assert ListOk(m, l, contents[l]);
    if AddStatus(m.labels[l]).Ok? {
      AddTailLocal(m, l, contents[l], e);
      ListChanged(m, contents, AfterAddTail(m, l, e), l, e, contents[l] + [e]);
    }
  }

  lemma AddHeadLocal(m: Memory, l: nat, s: seq<nat>, e: nat)
    requires ListOk(m, l, s) && e in m.owner && m.owner[e] == NULL && m.next.Keys == m.owner.Keys && e != NULL
    requires AddStatus(m.labels[l]).Ok?
    ensures var m' := AfterAddHead(m, l, e); SameButList(m, m', l, s, e) && ListOk(m', l, [e] + s)
  {
    SpellsAddHead(m.labels[l], m.next, s, e, AfterAddHead(m, l, e).labels[l]);
  }

  lemma AddHeadRefines(m: Memory, contents: map<nat, seq<nat>>, l: nat, e: nat)
    requires Inv(m, contents) && l in contents && e in m.owner && m.owner[e] == NULL
    ensures l in m.labels
    ensures Inv(AfterAddHead(m, l, e), if AddStatus(m.labels[l]).Ok? then contents[l := [e] + contents[l]] else contents)
  {
    assert ListOk(m, l, contents[l]);
    if AddStatus(m.labels[l]).Ok? {
      AddHeadLocal(m, l, contents[l], e);
      ListChanged(m, contents, AfterAddHead(m, l, e), l, e, [e] + contents[l]);
    }
  }

  lemma RemoveLocal(m: Memory, l: nat, s: seq<nat>, i: nat)
    requires ListOk(m, l, s) && i < |s| && s[i] in m.owner && m.next.Keys == m.owner.Keys
    ensures m.owner[s[i]] == l
    ensures var m' := AfterRemoveElement(m, s[i], s, i); SameButList(m, m', l, s, s[i]) && ListOk(m', l, Without(s, i))
  {
    var m' := AfterRemoveElement(m, s[i], s, i);
    SpellsRemove(m.labels[l], m.next, s, i, m'.labels[l], m'.next);
    WithoutKeeps(s, i);
    assert 0 < i ==> s[i - 1] in s;
  }

  lemma RemoveRefines(m: Memory, contents: map<nat, seq<nat>>, l: nat, i: nat)
    requires Inv(m, contents) && l in contents && i < |contents[l]|
    ensures contents[l][i] in m.owner && m.owner[contents[l][i]] == l && l in m.labels && |contents[l]| == m.labels[l].size
    ensures Inv(AfterRemoveElement(m, contents[l][i], contents[l], i), contents[l := Without(contents[l], i)])
  {
    var s := contents[l];
    assert ListOk(m, l, s) && s[i] in s;
    RemoveLocal(m, l, s, i);
    ListChanged(m, contents, AfterRemoveElement(m, s[i], s, i), l, s[i], Without(s, i));
  }

  /** Removing the head is removing the element at the first position. */
  lemma RemoveHeadRefines(m: Memory, contents: map<nat, seq<nat>>, l: nat)
    requires Inv(m, contents) && l in contents
    ensures l in m.labels && m.labels[l].size == |contents[l]|
    ensures contents[l] != [] ==> m.labels[l].head == contents[l][0] && contents[l][0] in m.next
    ensures contents[l] == [] ==> AfterRemoveHead(m, l) == m
    ensures contents[l] != [] ==> Inv(AfterRemoveHead(m, l), contents[l := contents[l][1..]])
  {
    var s := contents[l];
    assert ListOk(m, l, s);
    if s != [] {
      RemoveRefines(m, contents, l, 0);
      assert Without(s, 0) == s[1..] && Nth(0);
      assert AfterRemoveHead(m, l) == AfterRemoveElement(m, s[0], s, 0);
    }
  }

  lemma InsertLocal(m: Memory, l: nat, s: seq<nat>, i: nat, e: nat)
    requires ListOk(m, l, s) && i < |s| && s[i] in m.owner && m.next.Keys == m.owner.Keys
    requires e in m.owner && m.owner[e] == NULL && e != NULL && AddStatus(m.labels[l]).Ok?
    ensures m.owner[s[i]] == l
    ensures var m' := AfterAddPrev(m, s[i], e, s, i); SameButList(m, m', l, s, e) && ListOk(m', l, With(s, i, e))
  {
    var m' := AfterAddPrev(m, s[i], e, s, i);
    SpellsInsert(m.labels[l], m.next, s, i, e, m'.labels[l], m'.next);
    WithKeeps(s, i, e);
    assert 0 < i ==> s[i - 1] in s;
  }

  lemma AddPrevRefines(m: Memory, contents: map<nat, seq<nat>>, l: nat, i: nat, e: nat)
    requires Inv(m, contents) && l in contents && i < |contents[l]| && e in m.owner && m.owner[e] == NULL
    ensures contents[l][i] in m.owner && m.owner[contents[l][i]] == l && l in m.labels
    ensures Inv(AfterAddPrev(m, contents[l][i], e, contents[l], i),
                if AddStatus(m.labels[l]).Ok? then contents[l := With(contents[l], i, e)] else contents)
  {
    var s := contents[l];
    assert ListOk(m, l, s) && s[i] in s;
    if AddStatus(m.labels[l]).Ok? {
      InsertLocal(m, l, s, i, e);
      ListChanged(m, contents, AfterAddPrev(m, s[i], e, s, i), l, e, With(s, i, e));
    }
  }

  // ----- Operation sequences

  datatype Op =
    | AddTail(list: nat, elem: nat) | AddHead(list: nat, elem: nat) | RemoveHead(list: nat) | RemoveElement(elem: nat)
    | AddPrevElement(member: nat, elem: nat) | GetHead(list: nat) | GetNext(elem: nat) | GetList(elem: nat) | GetSize(list: nat)
  datatype Result = Answer(status: Status) | Handle(ref: nat) | Count(size: nat)

  /** Lists and elements exist, and an element to be inserted is an orphan. */
  ghost predicate Legal(m: Memory, op: Op) {
    match op
    case AddTail(l, e) => l in m.labels && e in m.owner && m.owner[e] == NULL
    case AddHead(l, e) => l in m.labels && e in m.owner && m.owner[e] == NULL
    case AddPrevElement(e, e') => e in m.owner && e' in m.owner && m.owner[e'] == NULL
    case RemoveHead(l) => l in m.labels
    case GetHead(l) => l in m.labels
    case GetSize(l) => l in m.labels
    case RemoveElement(e) => e in m.owner
    case GetNext(e) => e in m.owner
    case GetList(e) => e in m.owner
  }

  /** The memory and the sequences its lists spell. */
  datatype Lists = Lists(m: Memory, contents: map<nat, seq<nat>>)

  lemma MemberIsOwned(s: Lists, e: nat)
    requires Inv(s.m, s.contents) && e in s.m.owner && s.m.owner[e] != NULL
    ensures s.m.owner[e] in s.contents && e in s.contents[s.m.owner[e]]
    ensures |s.contents[s.m.owner[e]]| == s.m.labels[s.m.owner[e]].size
  {
    assert ListOk(s.m, s.m.owner[e], s.contents[s.m.owner[e]]);
  }

  /** Where a member stands in its list. */
  ghost function PlaceOf(s: Lists, e: nat): (i: nat)
    requires Inv(s.m, s.contents) && e in s.m.owner && s.m.owner[e] != NULL
    ensures s.m.owner[e] in s.contents && i < |s.contents[s.m.owner[e]]| && s.contents[s.m.owner[e]][i] == e
  {
    MemberIsOwned(s, e);
    IndexOf(s.contents[s.m.owner[e]], e)
  }

  /** The operation on sequences: a full list takes nothing, an orphan is in no list. */
  ghost function StepContents(s: Lists, op: Op): map<nat, seq<nat>>
    requires Inv(s.m, s.contents) && Legal(s.m, op)
  {
    match op
    case AddTail(l, e) => if AddStatus(s.m.labels[l]).Ok? then s.contents[l := s.contents[l] + [e]] else s.contents
    case AddHead(l, e) => if AddStatus(s.m.labels[l]).Ok? then s.contents[l := [e] + s.contents[l]] else s.contents
    case RemoveHead(l) => if s.contents[l] != [] then s.contents[l := s.contents[l][1..]] else s.contents
    case RemoveElement(e) =>
      var l := s.m.owner[e];
      if l == NULL then s.contents else s.contents[l := Without(s.contents[l], PlaceOf(s, e))]
    case AddPrevElement(e, e') =>
      var l := s.m.owner[e];
      if l == NULL || AddStatus(s.m.labels[l]).Full? then s.contents
      else s.contents[l := With(s.contents[l], PlaceOf(s, e), e')]
    case _ => s.contents
  }

  ghost function StepMemory(s: Lists, op: Op): Memory
    requires Inv(s.m, s.contents) && Legal(s.m, op)
  {
    match op
    case AddTail(l, e) => AfterAddTail(s.m, l, e)
    case AddHead(l, e) => AfterAddHead(s.m, l, e)
    case RemoveHead(l) => RemoveHeadRefines(s.m, s.contents, l); AfterRemoveHead(s.m, l)
    case RemoveElement(e) =>
      if s.m.owner[e] == NULL then s.m
      else MemberIsOwned(s, e); AfterRemoveElement(s.m, e, s.contents[s.m.owner[e]], PlaceOf(s, e))
    case AddPrevElement(e, e') =>
      if s.m.owner[e] == NULL then s.m
      else AfterAddPrev(s.m, e, e', s.contents[s.m.owner[e]], PlaceOf(s, e))
    case _ => s.m
  }

  ghost function StepResult(s: Lists, op: Op): Result
    requires Inv(s.m, s.contents) && Legal(s.m, op)
  {
    match op
    case AddTail(l, e) => Answer(AddStatus(s.m.labels[l]))
    case AddHead(l, e) => Answer(AddStatus(s.m.labels[l]))
    case RemoveHead(l) => Handle(First(s.contents[l]))
    case RemoveElement(e) => Answer(if s.m.owner[e] == NULL then OrphanElement else Ok)
    case AddPrevElement(e, e') => Answer(if s.m.owner[e] == NULL then OrphanElement else AddStatus(s.m.labels[s.m.owner[e]]))
    case GetHead(l) => Handle(First(s.contents[l]))
    case GetNext(e) => Handle(s.m.next[e])
    case GetList(e) => Handle(s.m.owner[e])
    case GetSize(l) => Count(|s.contents[l]|)
  }

  lemma LabelSpells(s: Lists, l: nat)
    requires Inv(s.m, s.contents) && l in s.m.labels
    ensures l in s.contents && Spells(s.m.labels[l], s.m.next, s.contents[l])
    ensures s.m.labels[l].head == First(s.contents[l]) && s.m.labels[l].size == |s.contents[l]|
    ensures s.m.labels[l].size != 0 ==> s.m.labels[l].head in s.m.next
  {
    assert ListOk(s.m, l, s.contents[l]);
  }

  lemma MemberSpells(s: Lists, e: nat)
    requires Inv(s.m, s.contents) && e in s.m.owner && s.m.owner[e] != NULL
    ensures s.m.owner[e] in s.m.labels && PlaceOf(s, e) < |s.contents[s.m.owner[e]]|
    ensures Spells(s.m.labels[s.m.owner[e]], s.m.next, s.contents[s.m.owner[e]])
  {
    LabelSpells(s, s.m.owner[e]);
  }

  /** The link of a member leads to its successor in the sequence. */
  lemma NextIsSuccessor(s: Lists, e: nat)
    requires Inv(s.m, s.contents) && e in s.m.owner && s.m.owner[e] != NULL
    ensures e in s.m.next && s.m.next[e] == Successor(s.contents[s.m.owner[e]], PlaceOf(s, e))
  {
    MemberSpells(s, e);
    assert Nth(PlaceOf(s, e));
  }

  /** Every operation on the memory does to what the lists spell what it should do to sequences. */
  lemma StepRefines(s: Lists, op: Op)
    requires Inv(s.m, s.contents) && Legal(s.m, op)
    ensures Inv(StepMemory(s, op), StepContents(s, op))
  {
    match op
    case AddTail(l, e) => AddTailRefines(s.m, s.contents, l, e);
    case AddHead(l, e) => AddHeadRefines(s.m, s.contents, l, e);
    case RemoveHead(l) => RemoveHeadRefines(s.m, s.contents, l);
    case RemoveElement(e) =>
      if s.m.owner[e] != NULL { RemoveRefines(s.m, s.contents, s.m.owner[e], PlaceOf(s, e)); }
    case AddPrevElement(e, e') =>
      if s.m.owner[e] != NULL { AddPrevRefines(s.m, s.contents, s.m.owner[e], PlaceOf(s, e), e'); }
    case _ =>
  }

  /** A list is refused more elements exactly when it has as many as its maximum, unless that is 0. */
  lemma FullIff(m: Memory, contents: map<nat, seq<nat>>, l: nat)
    requires Inv(m, contents) && l in contents
    ensures l in m.labels && (AddStatus(m.labels[l]).Full? <==> m.labels[l].max != 0 && |contents[l]| == m.labels[l].max)
  {
    assert ListOk(m, l, contents[l]);
  }

  // ----- What the operations answer

  /** An orphan is in no list, and a member in just the one it names. */
  lemma OwnerIsTheList(s: Lists, e: nat)
    requires Inv(s.m, s.contents) && e in s.m.owner
    ensures forall l {:trigger s.contents[l]} :: l in s.contents ==> (e in s.contents[l] <==> s.m.owner[e] == l)
    ensures s.m.owner[e] != NULL ==> s.m.owner[e] in s.contents
    ensures NULL !in s.contents
  {
    forall l {:trigger s.contents[l]} | l in s.contents ensures l != NULL && (e in s.contents[l] <==> s.m.owner[e] == l) {
      assert ListOk(s.m, l, s.contents[l]);
    }
  }

  /** The queries tell the first element, the number of elements, and the list an element is in. */
  lemma QueriesAnswer(s: Lists, l: nat, e: nat)
    requires Inv(s.m, s.contents) && l in s.m.labels && e in s.m.owner
    ensures l in s.contents
    ensures StepResult(s, GetHead(l)) == Handle(if s.contents[l] == [] then NULL else s.contents[l][0])
    ensures StepResult(s, GetSize(l)) == Count(|s.contents[l]|)
    ensures StepResult(s, GetList(e)) == Handle(l) <==> e in s.contents[l]
    ensures StepResult(s, GetList(e)) == Handle(NULL) <==> forall k {:trigger s.contents[k]} :: k in s.contents ==> e !in s.contents[k]
    ensures StepContents(s, GetHead(l)) == StepContents(s, GetSize(l)) == StepContents(s, GetList(e)) == s.contents
  {
    OwnerIsTheList(s, e);
  }

  /** The next element is the one behind it in its list. */
  lemma NextAnswers(s: Lists, l: nat, i: nat)
    requires Inv(s.m, s.contents) && l in s.contents && i < |s.contents[l]|
    ensures s.contents[l][i] in s.m.owner && Legal(s.m, GetNext(s.contents[l][i]))
    ensures StepResult(s, GetNext(s.contents[l][i])) == Handle(if i + 1 < |s.contents[l]| then s.contents[l][i + 1] else NULL)
  {
    assert ListOk(s.m, l, s.contents[l]);
    assert s.contents[l][i] in s.contents[l] && Nth(i);
  }

  /** Taking the head answers the element that leaves, or NULL for an empty list. */
  lemma RemoveHeadAnswers(s: Lists, l: nat)
    requires Inv(s.m, s.contents) && l in s.m.labels
    ensures l in s.contents
    ensures var (r, after) := (StepResult(s, RemoveHead(l)), StepContents(s, RemoveHead(l)));
      && r.Handle? && l in after
      && if s.contents[l] == [] then r.ref == NULL && after == s.contents else s.contents[l] == [r.ref] + after[l]
  {
  }

  /** An addition is refused exactly when the list has its maximum, and then changes nothing. */
  lemma AddAnswers(s: Lists, l: nat, e: nat)
    requires Inv(s.m, s.contents) && l in s.m.labels && e in s.m.owner && s.m.owner[e] == NULL
    ensures l in s.contents
    ensures var full := s.m.labels[l].max != 0 && |s.contents[l]| == s.m.labels[l].max;
      && StepResult(s, AddTail(l, e)) == StepResult(s, AddHead(l, e)) == Answer(if full then Full else Ok)
      && StepContents(s, AddTail(l, e)) == (if full then s.contents else s.contents[l := s.contents[l] + [e]])
      && StepContents(s, AddHead(l, e)) == (if full then s.contents else s.contents[l := [e] + s.contents[l]])
  {
    FullIff(s.m, s.contents, l);
  }

  /** Removing a member is answered with success and leaves the rest of its list; an orphan is reported. */
  lemma RemoveAnswers(s: Lists, l: nat, i: nat, orphan: nat)
    requires Inv(s.m, s.contents) && l in s.contents && i < |s.contents[l]|
    requires orphan in s.m.owner && forall k {:trigger s.contents[k]} :: k in s.contents ==> orphan !in s.contents[k]
    ensures s.contents[l][i] in s.m.owner
    ensures var e := s.contents[l][i];
      && StepResult(s, RemoveElement(e)) == Answer(Ok)
      && StepContents(s, RemoveElement(e)) == s.contents[l := s.contents[l][..i] + s.contents[l][i + 1..]]
    ensures StepResult(s, RemoveElement(orphan)) == Answer(OrphanElement) && StepContents(s, RemoveElement(orphan)) == s.contents
  {
    MemberAt(s, l, i);
    OwnerIsTheList(s, orphan);
  }

  lemma MemberAt(s: Lists, l: nat, i: nat)
    requires Inv(s.m, s.contents) && l in s.contents && i < |s.contents[l]|
    ensures s.contents[l][i] in s.m.owner && s.m.owner[s.contents[l][i]] == l && l != NULL && PlaceOf(s, s.contents[l][i]) == i
  {
    assert ListOk(s.m, l, s.contents[l]);
    assert s.contents[l][i] in s.contents[l];
    SamePlace(s.contents[l], i, PlaceOf(s, s.contents[l][i]));
  }

  /** An element is put in front of a member unless its list is full; in front of an orphan it cannot be put. */
  lemma AddPrevAnswers(s: Lists, l: nat, i: nat, e: nat, orphan: nat)
    requires Inv(s.m, s.contents) && l in s.contents && i < |s.contents[l]| && e in s.m.owner && s.m.owner[e] == NULL
    requires orphan in s.m.owner && forall k {:trigger s.contents[k]} :: k in s.contents ==> orphan !in s.contents[k]
    ensures s.contents[l][i] in s.m.owner && l in s.m.labels
    ensures var (op, full) := (AddPrevElement(s.contents[l][i], e), s.m.labels[l].max != 0 && |s.contents[l]| == s.m.labels[l].max);
      && StepResult(s, op) == Answer(if full then Full else Ok)
      && StepContents(s, op) == if full then s.contents
                                else s.contents[l := s.contents[l][..i] + [e] + s.contents[l][i..]]
    ensures StepResult(s, AddPrevElement(orphan, e)) == Answer(OrphanElement)
    ensures StepContents(s, AddPrevElement(orphan, e)) == s.contents
  {
    FullIff(s.m, s.contents, l);
    MemberAt(s, l, i);
    OwnerIsTheList(s, orphan);
  }

  // ----- Links to the previous element

  ghost predicate Backward(prev: map<nat, nat>, s: seq<nat>) {
    && (forall x :: x in s ==> x in prev)
    && (forall i {:trigger Nth(i)} :: Nth(i) && i < |s| ==> prev[s[i]] == Predecessor(s, i))
  }

  ghost predicate AllBackward(prev: map<nat, nat>, contents: map<nat, seq<nat>>) {
    forall l {:trigger contents[l]} :: l in contents ==> Backward(prev, contents[l])
  }

  lemma BackAddTail(prev: map<nat, nat>, s: seq<nat>, e: nat)
    requires Backward(prev, s) && e !in s
    ensures Backward(prev[e := LastOf(s)], s + [e])
  {
    forall i {:trigger Nth(i)} | Nth(i) && i < |s| + 1 ensures prev[e := LastOf(s)][(s + [e])[i]] == Predecessor(s + [e], i) {
      if i < |s| { assert s[i] in s; }
    }
  }

  lemma BackAddHead(prev: map<nat, nat>, s: seq<nat>, e: nat, prev': map<nat, nat>)
    requires Backward(prev, s) && e !in s && Distinct(s)
    requires prev' == (if s == [] then prev else prev[s[0] := e])[e := NULL]
    ensures Backward(prev', [e] + s)
  {
    forall i {:trigger Nth(i)} | Nth(i) && i < |s| + 1 ensures prev'[([e] + s)[i]] == Predecessor([e] + s, i) {
      if 0 < i { assert Nth(i - 1) && s[i - 1] in s; }
      if 1 < i { assert Before(0, i - 1); }
    }
  }

  lemma BackRemove(prev: map<nat, nat>, s: seq<nat>, i: nat, prev': map<nat, nat>)
    requires Backward(prev, s) && Distinct(s) && i < |s|
    requires prev' == if i + 1 == |s| then prev else prev[s[i + 1] := Predecessor(s, i)]
    ensures Backward(prev', Without(s, i))
  {
    var s' := Without(s, i);
    WithoutKeeps(s, i);
    forall k {:trigger Nth(k)} | Nth(k) && k < |s'| ensures prev'[s'[k]] == Predecessor(s', k) {
      var o := OldPlace(i, k);
      assert Nth(o) && prev[s[o]] == Predecessor(s, o);
      if o < i + 1 { if i + 1 < |s| { assert Before(o, i + 1); } } else if i + 1 < o { assert Before(i + 1, o); }
    }
  }

  lemma BackInsert(prev: map<nat, nat>, s: seq<nat>, i: nat, e: nat)
    requires Backward(prev, s) && Distinct(s) && i < |s| && e !in s
    ensures Backward(prev[e := Predecessor(s, i)][s[i] := e], With(s, i, e))
  {
    var s', prev' := With(s, i, e), prev[e := Predecessor(s, i)][s[i] := e];
    WithKeeps(s, i, e);
    forall k {:trigger Nth(k)} | Nth(k) && k < |s'| ensures prev'[s'[k]] == Predecessor(s', k) {
      if k != i {
        var o := Place(i, k);
        assert Nth(o) && prev[s[o]] == Predecessor(s, o) && s[o] in s;
        if o < i { assert Before(o, i); } else if i < o { assert Before(i, o); }
      }
    }
  }

  /** Links of other lists' elements stay. */
  lemma BackwardChanged(m: Memory, contents: map<nat, seq<nat>>, prev: map<nat, nat>, prev': map<nat, nat>,
                        l: nat, e: nat, s': seq<nat>)
    requires Inv(m, contents) && AllBackward(prev, contents) && l in contents
    requires e in m.owner && (m.owner[e] == NULL || m.owner[e] == l)
    requires forall x :: x in prev && x !in contents[l] && x != e ==> x in prev' && prev'[x] == prev[x]
    requires Backward(prev', s')
    ensures AllBackward(prev', contents[l := s'])
  {
    assert ListOk(m, l, contents[l]);
    forall k {:trigger contents[k]} | k in contents && k != l ensures Backward(prev', contents[k]) {
      assert ListOk(m, k, contents[k]);
      OtherBackward(m, contents[l], contents[k], prev, prev', l, k, e);
    }
  }

  lemma OtherBackward(m: Memory, s: seq<nat>, t: seq<nat>, prev: map<nat, nat>, prev': map<nat, nat>, l: nat, k: nat, e: nat)
    requires ListOk(m, l, s) && ListOk(m, k, t) && k != l && Backward(prev, t) && m.next.Keys == m.owner.Keys
    requires e in m.owner && (m.owner[e] == NULL || m.owner[e] == l)
    requires forall x :: x in prev && x !in s && x != e ==> x in prev' && prev'[x] == prev[x]
    ensures Backward(prev', t)
  {
    forall x | x in t ensures x in prev' && prev'[x] == prev[x] {
      assert m.owner[x] == k;
    }
    forall i {:trigger Nth(i)} | Nth(i) && i < |t| ensures prev'[t[i]] == Predecessor(t, i) {
      assert t[i] in t;
    }
  }

  // ----- What the doubly linked build does to those links

  function PrevAfterAddTail(prev: map<nat, nat>, lab: Label, e: nat): map<nat, nat> {
    if AddStatus(lab).Full? then prev else prev[e := lab.tail]
  }

  function PrevAfterAddHead(prev: map<nat, nat>, lab: Label, e: nat): map<nat, nat> {
    if AddStatus(lab).Full? then prev else (if lab.size == 0 then prev else prev[lab.head := e])[e := NULL]
  }

  ghost function PrevAfterRemove(prev: map<nat, nat>, s: seq<nat>, i: nat): map<nat, nat>
    requires i < |s|
  {
    if i + 1 == |s| then prev else prev[s[i + 1] := Predecessor(s, i)]
  }

  lemma PrevAddTail(s: Lists, prev: map<nat, nat>, l: nat, e: nat)
    requires Inv(s.m, s.contents) && AllBackward(prev, s.contents) && Legal(s.m, Op.AddTail(l, e))
    ensures AllBackward(PrevAfterAddTail(prev, s.m.labels[l], e), StepContents(s, Op.AddTail(l, e)))
  {
    LabelSpells(s, l);
    assert ListOk(s.m, l, s.contents[l]);
    assert e !in s.contents[l];
    if AddStatus(s.m.labels[l]).Ok? {
      BackAddTail(prev, s.contents[l], e);
      BackwardChanged(s.m, s.contents, prev, PrevAfterAddTail(prev, s.m.labels[l], e), l, e, s.contents[l] + [e]);
    }
  }

  lemma PrevAddHead(s: Lists, prev: map<nat, nat>, l: nat, e: nat)
    requires Inv(s.m, s.contents) && AllBackward(prev, s.contents) && Legal(s.m, Op.AddHead(l, e))
    ensures AllBackward(PrevAfterAddHead(prev, s.m.labels[l], e), StepContents(s, Op.AddHead(l, e)))
  {
    LabelSpells(s, l);
    assert ListOk(s.m, l, s.contents[l]);
    assert e !in s.contents[l];
    if AddStatus(s.m.labels[l]).Ok? {
      var prev' := PrevAfterAddHead(prev, s.m.labels[l], e);
      BackAddHead(prev, s.contents[l], e, prev');
      BackwardChanged(s.m, s.contents, prev, prev', l, e, [e] + s.contents[l]);
    }
  }

  lemma PrevRemove(s: Lists, prev: map<nat, nat>, l: nat, i: nat)
    requires Inv(s.m, s.contents) && AllBackward(prev, s.contents) && l in s.contents && i < |s.contents[l]|
    ensures AllBackward(PrevAfterRemove(prev, s.contents[l], i), s.contents[l := Without(s.contents[l], i)])
  {
    var t := s.contents[l];
    var prev' := PrevAfterRemove(prev, t, i);
    assert ListOk(s.m, l, t) && t[i] in t;
    BackRemove(prev, t, i, prev');
    BackwardChanged(s.m, s.contents, prev, prev', l, t[i], Without(t, i));
  }

  lemma PrevInsert(s: Lists, prev: map<nat, nat>, l: nat, i: nat, e: nat)
    requires Inv(s.m, s.contents) && AllBackward(prev, s.contents) && l in s.contents && i < |s.contents[l]|
    requires e in s.m.owner && s.m.owner[e] == NULL
    ensures AllBackward(prev[e := Predecessor(s.contents[l], i)][s.contents[l][i] := e],
                        s.contents[l := With(s.contents[l], i, e)])
  {
    var t := s.contents[l];
    assert ListOk(s.m, l, t) && t[i] in t;
    assert e !in t;
    BackInsert(prev, t, i, e);
    BackwardChanged(s.m, s.contents, prev, prev[e := Predecessor(t, i)][t[i] := e], l, e, With(t, i, e));
  }
}
