/**
 What a press gesture is, in terms of the times at which a button goes down and up: the reference for the recogniser.
 */
module ButtonModel {

  const INTERVAL := 25
  const SHORT_PRESS := 200
  const LONG_PRESS := 500
  const DOUBLE_CLICK := 200

  datatype Event = OneClick | DoubleClick | ShortPress | LongPress | Error
  datatype Option<T> = None | Some(value: T)
  datatype Callback = Callback(button: nat, event: Event)

  /** A gesture in progress: down since a time, up again since a time, or down for the second time. */
  datatype Gesture = Idle | Down(press: nat) | Up(press: nat, release: nat) | DownAgain(press: nat, release: nat, press2: nat)

  datatype Panel = Panel(now: nat, gestures: seq<Gesture>)
  datatype Op = Edge(button: nat, down: bool) | Tick

  /** An edge, or a repeated level, on one button. */
  function OnEdge(g: Gesture, now: nat, down: bool): (Gesture, Option<Event>) {
    match g
    case Idle => (if down then Down(now) else Idle, None)
    case Down(p) =>
      if down then (g, None)
      else if now - p < SHORT_PRESS then (Up(p, now), None)
      else (Idle, Some(if now - p < LONG_PRESS then ShortPress else LongPress))
    case Up(p, r) => (if down then DownAgain(p, r, now) else g, None)
    case DownAgain(p, r, q) =>
      if down then (g, None) else (Idle, Some(if now - q < SHORT_PRESS then DoubleClick else Error))
  }

  predicate Expired(g: Gesture, now: nat) {
    g.Up? && DOUBLE_CLICK < now - g.release
  }

  /** A short press that is not followed by a second one in time is a click. */
  function OnTick(g: Gesture, now: nat): Gesture {
    if Expired(g, now) then Idle else g
  }

  function Busy(gs: seq<Gesture>): (n: nat)
    ensures n <= |gs|
  {
    if gs == [] then 0 else (if gs[0].Idle? then 0 else 1) + Busy(gs[1..])
  }

  /** The clicks due at a tick, in the order of the buttons. */
  function Clicks(gs: seq<Gesture>, now: nat, i: nat): seq<Callback>
    requires i <= |gs|
    decreases |gs| - i
  {
    if i == |gs| then []
    else (if Expired(gs[i], now) then [Callback(i, OneClick)] else []) + Clicks(gs, now, i + 1)
  }

  function AfterTick(gs: seq<Gesture>, now: nat): (r: seq<Gesture>)
    ensures |r| == |gs|
  {
    seq(|gs|, i requires 0 <= i < |gs| => OnTick(gs[i], now))
  }

  /** The timer runs only while a gesture is in progress. */
  function Step(p: Panel, op: Op): (r: (Panel, seq<Callback>))
    ensures |r.0.gestures| == |p.gestures|
  {
    match op
    case Edge(b, down) =>
      if b < |p.gestures| then
        var (g, e) := OnEdge(p.gestures[b], p.now, down);
        (p.(gestures := p.gestures[b := g]), if e.Some? then [Callback(b, e.value)] else [])
      else (p, [])
    case Tick =>
      if Busy(p.gestures) == 0 then (p, [])
      else (Panel(p.now + INTERVAL, AfterTick(p.gestures, p.now + INTERVAL)), Clicks(p.gestures, p.now + INTERVAL, 0))
  }

  function Run(p: Panel, ops: seq<Op>): (r: (Panel, seq<Callback>))
    ensures |r.0.gestures| == |p.gestures|
    decreases |ops|
  {
    if ops == [] then (p, [])
    else
      var (q, cs) := Step(p, ops[0]);
      var (r, ds) := Run(q, ops[1..]);
      (r, cs + ds)
  }

  // ----- One event per gesture

  /** The events called back for a button. */
  function EventsOf(cs: seq<Callback>, b: nat): seq<Event> {
    if cs == [] then [] else (if cs[0].button == b then [cs[0].event] else []) + EventsOf(cs[1..], b)
  }

  lemma {:induction false} EventsOfSum(cs: seq<Callback>, ds: seq<Callback>, b: nat)
    ensures EventsOf(cs + ds, b) == EventsOf(cs, b) + EventsOf(ds, b)
  {
    if cs == [] {
      assert cs + ds == ds;
    } else {
      var first := if cs[0].button == b then [cs[0].event] else [];
      assert (cs + ds)[1..] == cs[1..] + ds;
      EventsOfSum(cs[1..], ds, b);
      assert first + (EventsOf(cs[1..], b) + EventsOf(ds, b)) == (first + EventsOf(cs[1..], b)) + EventsOf(ds, b);
    }
  }

  /** How many gestures of a button a run begins: going down while idle. */
  function Begun(p: Panel, ops: seq<Op>, b: nat): nat
    decreases |ops|
  {
    if ops == [] then 0
    else (if ops[0] == Edge(b, true) && b < |p.gestures| && p.gestures[b].Idle? then 1 else 0)
         + Begun(Step(p, ops[0]).0, ops[1..], b)
  }

  function InProgress(p: Panel, b: nat): nat {
    if b < |p.gestures| && !p.gestures[b].Idle? then 1 else 0
  }

  lemma {:induction false} ClicksOf(gs: seq<Gesture>, now: nat, i: nat, b: nat)
    requires i <= |gs|
    ensures EventsOf(Clicks(gs, now, i), b) == if i <= b < |gs| && Expired(gs[b], now) then [OneClick] else []
    decreases |gs| - i
  {
    if i < |gs| {
      var first := if Expired(gs[i], now) then [Callback(i, OneClick)] else [];
      EventsOfSum(first, Clicks(gs, now, i + 1), b);
      ClicksOf(gs, now, i + 1, b);
    }
  }

  lemma StepBalances(p: Panel, op: Op, b: nat)
    ensures var (q, cs) := Step(p, op);
      InProgress(p, b) + (if op == Edge(b, true) && b < |p.gestures| && p.gestures[b].Idle? then 1 else 0)
        == |EventsOf(cs, b)| + InProgress(q, b)
  {
    if op.Tick? { ClicksOf(p.gestures, p.now + INTERVAL, 0, b); }
  }

  /** Over every run, each gesture begun has led to exactly one event, except for one that is still in progress. */
  lemma {:induction false} OneEventPerGesture(p: Panel, ops: seq<Op>, b: nat)
    ensures var (q, cs) := Run(p, ops);
      InProgress(p, b) + Begun(p, ops, b) == |EventsOf(cs, b)| + InProgress(q, b)
    decreases |ops|
  {
    if ops != [] {
      var (q, cs) := Step(p, ops[0]);
      StepBalances(p, ops[0], b);
      OneEventPerGesture(q, ops[1..], b);
      EventsOfSum(cs, Run(q, ops[1..]).1, b);
    }
  }

  // ----- What timing gives what event

  lemma Regroup<T>(a: seq<T>, b: seq<T>, c: seq<T>)
    ensures (a + b) + c == a + (b + c)
  {
  }

  lemma {:induction false} RunAppend(p: Panel, a: seq<Op>, b: seq<Op>)
    ensures Run(p, a + b).0 == Run(Run(p, a).0, b).0
    ensures Run(p, a + b).1 == Run(p, a).1 + Run(Run(p, a).0, b).1
    decreases |a|
  {
    if a == [] {
      assert a + b == b;
      assert [] + Run(p, b).1 == Run(p, b).1;
    } else {
      var (q, cs) := Step(p, a[0]);
      assert (a + b)[1..] == a[1..] + b;
      RunAppend(q, a[1..], b);
      Regroup(cs, Run(q, a[1..]).1, Run(Run(p, a).0, b).1);
    }
  }

  lemma {:induction false} BusyIff(gs: seq<Gesture>)
    ensures Busy(gs) == 0 <==> forall i :: 0 <= i < |gs| ==> gs[i].Idle?
  {
    if gs != [] {
      BusyIff(gs[1..]);
      if gs[0].Idle? && Busy(gs[1..]) == 0 {
        assert forall i :: 0 < i < |gs| ==> gs[i] == gs[1..][i - 1];
      } else if gs[0].Idle? {
        var i :| 0 <= i < |gs[1..]| && !gs[1..][i].Idle?;
        assert !gs[i + 1].Idle?;
      }
    }
  }

  lemma {:induction false} BusyUpdate(gs: seq<Gesture>, i: nat, g: Gesture)
    requires i < |gs|
    ensures Busy(gs[i := g]) + (if gs[i].Idle? then 0 else 1) == Busy(gs) + (if g.Idle? then 0 else 1)
  {
    if i == 0 {
      assert gs[0 := g][1..] == gs[1..];
    } else {
      assert gs[i := g][1..] == gs[1..][i - 1 := g];
      BusyUpdate(gs[1..], i - 1, g);
    }
  }

  lemma {:induction false} BusyWithOne(gs: seq<Gesture>, b: nat)
    requires b < |gs| && !gs[b].Idle?
    ensures Busy(gs) != 0
  {
    BusyIff(gs);
  }

  /** Clicks of buttons from `i` on whose time is over, in the order of the buttons. */
  ghost predicate Ascending(cs: seq<Callback>, gs: seq<Gesture>, now: nat, i: nat) {
    && (forall k :: 0 <= k < |cs| ==> i <= cs[k].button < |gs| && cs[k].event == OneClick && Expired(gs[cs[k].button], now))
    && (forall k, l :: 0 <= k < l < |cs| ==> cs[k].button < cs[l].button)
  }

  lemma AscendingCons(rest: seq<Callback>, gs: seq<Gesture>, now: nat, i: nat)
    requires Ascending(rest, gs, now, i + 1) && i < |gs| && Expired(gs[i], now)
    ensures Ascending([Callback(i, OneClick)] + rest, gs, now, i)
  {
  }

  lemma ClicksUnfold(gs: seq<Gesture>, now: nat, i: nat)
    requires i < |gs|
    ensures Clicks(gs, now, i) ==
              if Expired(gs[i], now) then [Callback(i, OneClick)] + Clicks(gs, now, i + 1) else Clicks(gs, now, i + 1)
  {
    assert [] + Clicks(gs, now, i + 1) == Clicks(gs, now, i + 1);
  }

  lemma AscendingLater(cs: seq<Callback>, gs: seq<Gesture>, now: nat, i: nat)
    requires Ascending(cs, gs, now, i + 1)
    ensures Ascending(cs, gs, now, i)
  {
  }

  /** The clicks of a tick are those of buttons that waited too long, in the order of the buttons. */
  lemma {:induction false} ClicksAscend(gs: seq<Gesture>, now: nat, i: nat)
    requires i <= |gs|
    ensures Ascending(Clicks(gs, now, i), gs, now, i)
    decreases |gs| - i
  {
    if i < |gs| {
      var rest := Clicks(gs, now, i + 1);
      ClicksAscend(gs, now, i + 1);
      ClicksUnfold(gs, now, i);
      if Expired(gs[i], now) { AscendingCons(rest, gs, now, i); } else { AscendingLater(rest, gs, now, i); }
    }
  }

  /** And no button that waited too long is left out. */
  lemma {:induction false} ExpiredIsClicked(gs: seq<Gesture>, now: nat, i: nat, b: nat)
    requires i <= b < |gs| && Expired(gs[b], now)
    ensures Callback(b, OneClick) in Clicks(gs, now, i)
    decreases b - i
  {
    ClicksUnfold(gs, now, i);
    if i < b { ExpiredIsClicked(gs, now, i + 1, b); }
  }

  /** A level that is repeated, or an edge that never was one, does nothing. */
  lemma RepeatedLevelDoesNothing(p: Panel, b: nat, down: bool)
    requires b < |p.gestures| && (down <==> p.gestures[b].Down? || p.gestures[b].DownAgain?)
    ensures Step(p, Edge(b, down)) == (p, [])
  {
    assert p.gestures[b := p.gestures[b]] == p.gestures;
  }

  /** Time stands still exactly while no gesture is in progress. */
  lemma TimeStandsStillIff(p: Panel)
    ensures Step(p, Tick).0.now == p.now <==> forall i :: 0 <= i < |p.gestures| ==> p.gestures[i].Idle?
    ensures (forall i :: 0 <= i < |p.gestures| ==> p.gestures[i].Idle?) ==> Step(p, Tick) == (p, [])
  {
    BusyIff(p.gestures);
  }

  function TicksIn(ops: seq<Op>): nat {
    if ops == [] then 0 else (if ops[0].Tick? then 1 else 0) + TicksIn(ops[1..])
  }

  /** Ticks, and edges of other buttons. */
  ghost predicate Elsewhere(ops: seq<Op>, b: nat) {
    forall op :: op in ops ==> op.Edge? ==> op.button != b
  }

  /** A button's own part of a run: its gesture, the time, and the events called back for it. */
  ghost predicate Leads(p: Panel, ops: seq<Op>, b: nat, g: Gesture, now: nat, es: seq<Event>) {
    var (q, cs) := Run(p, ops);
    b < |q.gestures| && q.gestures[b] == g && q.now == now && EventsOf(cs, b) == es
  }

  /** A first part without events for the button, and a second part. */
  lemma LeadsOn(p: Panel, a: seq<Op>, c: seq<Op>, b: nat, g: Gesture, now: nat, g': Gesture, now': nat, es: seq<Event>)
    requires Leads(p, a, b, g, now, []) && Leads(Run(p, a).0, c, b, g', now', es)
    ensures Leads(p, a + c, b, g', now', es)
  {
    RunAppend(p, a, c);
    EventsOfSum(Run(p, a).1, Run(Run(p, a).0, c).1, b);
    assert [] + es == es;
  }

  lemma LeadsByOne(p: Panel, op: Op, b: nat)
    requires b < |p.gestures|
    ensures Leads(p, [op], b, Step(p, op).0.gestures[b], Step(p, op).0.now, EventsOf(Step(p, op).1, b))
  {
    assert [op][1..] == [];
    assert Step(p, op).1 + [] == Step(p, op).1;
  }

  /** One tick, or an edge of another button, while `b` is in a gesture whose wait for a second press is not over. */
  lemma WaitingStep(p: Panel, op: Op, b: nat)
    requires b < |p.gestures| && !p.gestures[b].Idle? && (op.Edge? ==> op.button != b)
    requires op.Tick? ==> !Expired(p.gestures[b], p.now + INTERVAL)
    ensures var (q, cs) := Step(p, op);
      && q.gestures[b] == p.gestures[b] && q.now == p.now + (if op.Tick? then INTERVAL else 0) && EventsOf(cs, b) == []
  {
    if op.Tick? {
      BusyWithOne(p.gestures, b);
      ClicksOf(p.gestures, p.now + INTERVAL, 0, b);
    }
  }

  /** Whatever the other buttons do, a button that is held, or was released not too long ago, just waits. */
  lemma {:induction false} Waiting(p: Panel, ops: seq<Op>, b: nat)
    requires b < |p.gestures| && !p.gestures[b].Idle? && Elsewhere(ops, b)
    requires p.gestures[b].Up? ==> p.now + INTERVAL * TicksIn(ops) <= p.gestures[b].release + DOUBLE_CLICK
    ensures Leads(p, ops, b, p.gestures[b], p.now + INTERVAL * TicksIn(ops), [])
    decreases |ops|
  {
    if ops != [] {
      var (q, cs) := Step(p, ops[0]);
      assert ops[0] in ops;
      WaitingStep(p, ops[0], b);
      Waiting(q, ops[1..], b);
      EventsOfSum(cs, Run(q, ops[1..]).1, b);
    }
  }

  /** A press held over any doings of the other buttons. */
  function Press(b: nat, during: seq<Op>): seq<Op> {
    [Edge(b, true)] + during + [Edge(b, false)]
  }

  /** The gesture while the button is held, from idle or for the second time. */
  function Held(g: Gesture, now: nat): Gesture {
    if g.Up? then DownAgain(g.press, g.release, now) else Down(now)
  }

  lemma ReleaseStep(p: Panel, b: nat)
    requires b < |p.gestures|
    ensures var (g, e) := OnEdge(p.gestures[b], p.now, false);
      Leads(p, [Edge(b, false)], b, g, p.now, if e.Some? then [e.value] else [])
  {
    LeadsByOne(p, Edge(b, false), b);
  }

  lemma PressStep(p: Panel, b: nat)
    requires b < |p.gestures| && (p.gestures[b].Idle? || p.gestures[b].Up?)
    ensures Leads(p, [Edge(b, true)], b, Held(p.gestures[b], p.now), p.now, [])
  {
    LeadsByOne(p, Edge(b, true), b);
  }

  lemma HeldOn(p: Panel, b: nat, during: seq<Op>, held: Gesture, now: nat)
    requires b < |p.gestures| && (p.gestures[b].Idle? || p.gestures[b].Up?) && Elsewhere(during, b)
    requires held == Held(p.gestures[b], p.now) && now == p.now + INTERVAL * TicksIn(during)
    ensures Leads(p, [Edge(b, true)] + during, b, held, now, [])
  {
    PressStep(p, b);
    Waiting(Run(p, [Edge(b, true)]).0, during, b);
    LeadsOn(p, [Edge(b, true)], during, b, held, p.now, held, now, []);
  }

  /** What a press comes to: a gesture still open, or an event. */
  lemma Pressed(p: Panel, b: nat, during: seq<Op>)
    requires b < |p.gestures| && (p.gestures[b].Idle? || p.gestures[b].Up?) && Elsewhere(during, b)
    ensures var now := p.now + INTERVAL * TicksIn(during);
      var (g, e) := OnEdge(Held(p.gestures[b], p.now), now, false);
      Leads(p, Press(b, during), b, g, now, if e.Some? then [e.value] else [])
  {
    var held, now := Held(p.gestures[b], p.now), p.now + INTERVAL * TicksIn(during);
    var (g, e) := OnEdge(held, now, false);
    HeldOn(p, b, during, held, now);
    ReleaseStep(Run(p, [Edge(b, true)] + during).0, b);
    LeadsOn(p, [Edge(b, true)] + during, [Edge(b, false)], b, held, now, g, now, if e.Some? then [e.value] else []);
  }

  /** A press of 200 or more is short or, from 500 on, long; one below 200 leaves the gesture open. */
  lemma SinglePress(p: Panel, b: nat, during: seq<Op>)
    requires b < |p.gestures| && p.gestures[b].Idle? && Elsewhere(during, b)
    ensures var held := INTERVAL * TicksIn(during);
      if held < SHORT_PRESS then Leads(p, Press(b, during), b, Up(p.now, p.now + held), p.now + held, [])
      else Leads(p, Press(b, during), b, Idle, p.now + held, [if held < LONG_PRESS then ShortPress else LongPress])
  {
    Pressed(p, b, during);
  }

  /** A brief press and eight ticks at most leave the gesture open. */
  lemma StillOpen(p: Panel, b: nat, during: seq<Op>, after: seq<Op>)
    requires b < |p.gestures| && p.gestures[b].Idle? && Elsewhere(during, b) && Elsewhere(after, b)
    requires INTERVAL * TicksIn(during) < SHORT_PRESS && TicksIn(after) <= 8
    ensures var up := p.now + INTERVAL * TicksIn(during);
      Leads(p, Press(b, during) + after, b, Up(p.now, up), up + INTERVAL * TicksIn(after), [])
  {
    var up := p.now + INTERVAL * TicksIn(during);
    SinglePress(p, b, during);
    Waiting(Run(p, Press(b, during)).0, after, b);
    LeadsOn(p, Press(b, during), after, b, Up(p.now, up), up, Up(p.now, up), up + INTERVAL * TicksIn(after), []);
  }

  lemma ClickStep(p: Panel, b: nat)
    requires b < |p.gestures| && Expired(p.gestures[b], p.now + INTERVAL)
    ensures Leads(p, [Tick], b, Idle, p.now + INTERVAL, [OneClick])
  {
    BusyWithOne(p.gestures, b);
    ClicksOf(p.gestures, p.now + INTERVAL, 0, b);
    LeadsByOne(p, Tick, b);
  }

  /** A brief press and no other until the ninth tick after it: one click, at that tick. */
  lemma ClickAtNinthTick(p: Panel, b: nat, during: seq<Op>, after: seq<Op>)
    requires b < |p.gestures| && p.gestures[b].Idle? && Elsewhere(during, b) && Elsewhere(after, b)
    requires INTERVAL * TicksIn(during) < SHORT_PRESS && TicksIn(after) == 8
    ensures var up := p.now + INTERVAL * TicksIn(during);
      && Leads(p, Press(b, during) + after, b, Up(p.now, up), up + 200, [])
      && Leads(p, (Press(b, during) + after) + [Tick], b, Idle, up + 225, [OneClick])
  {
    var up := p.now + INTERVAL * TicksIn(during);
    StillOpen(p, b, during, after);
    ClickStep(Run(p, Press(b, during) + after).0, b);
    LeadsOn(p, Press(b, during) + after, [Tick], b, Up(p.now, up), up + 200, Idle, up + 225, [OneClick]);
  }

  lemma PressedAgain(p: Panel, b: nat, during: seq<Op>)
    requires b < |p.gestures| && p.gestures[b].Up? && Elsewhere(during, b)
    ensures Leads(p, Press(b, during), b, Idle, p.now + INTERVAL * TicksIn(during),
                  [if INTERVAL * TicksIn(during) < SHORT_PRESS then DoubleClick else Error])
  {
    Pressed(p, b, during);
  }

  /** A brief press and a second one within eight ticks: a double click if the second is brief too, else an error. */
  lemma SecondPress(p: Panel, b: nat, during: seq<Op>, between: seq<Op>, during2: seq<Op>)
    requires b < |p.gestures| && p.gestures[b].Idle?
    requires Elsewhere(during, b) && Elsewhere(between, b) && Elsewhere(during2, b)
    requires INTERVAL * TicksIn(during) < SHORT_PRESS && TicksIn(between) <= 8
    ensures Leads(p, (Press(b, during) + between) + Press(b, during2), b, Idle,
                  p.now + INTERVAL * TicksIn(during) + INTERVAL * TicksIn(between) + INTERVAL * TicksIn(during2),
                  [if INTERVAL * TicksIn(during2) < SHORT_PRESS then DoubleClick else Error])
  {
    var up := p.now + INTERVAL * TicksIn(during);
    var again := up + INTERVAL * TicksIn(between);
    StillOpen(p, b, during, between);
    PressedAgain(Run(p, Press(b, during) + between).0, b, during2);
    LeadsOn(p, Press(b, during) + between, Press(b, during2), b, Up(p.now, up), again, Idle,
            again + INTERVAL * TicksIn(during2), [if INTERVAL * TicksIn(during2) < SHORT_PRESS then DoubleClick else Error]);
  }
}
