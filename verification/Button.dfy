/**
 The button component without an operating system: interrupts on the pin, a timer tick, and synchronous callbacks.
 */
module Button {
  import opened ButtonModel

  datatype PressStatus = PressIdle | Pressed | PressDoubleStart | PressDoublePressed
  datatype ButtonState = ButtonState(pressed: PressStatus, pushPeriodCount: nat, pushPeriodCountLast: nat, msg: Option<Event>)

  /** The state that stands for a gesture; the first press of all comes later than the double-click time. */
  ghost predicate Shows(s: ButtonState, g: Gesture, now: nat) {
    && s.msg == None
    && match g
       case Idle => s.pressed.PressIdle? && s.pushPeriodCountLast == 0
       case Down(p) => s.pressed.Pressed? && s.pushPeriodCount == p && s.pushPeriodCountLast == 0 && DOUBLE_CLICK < p <= now
       case Up(p, r) => s.pressed.PressDoubleStart? && s.pushPeriodCountLast == r && r <= now <= r + DOUBLE_CLICK
       case DownAgain(p, r, q) =>
         s.pressed.PressDoublePressed? && s.pushPeriodCount == q && s.pushPeriodCountLast == r && r <= q <= now && q <= r + DOUBLE_CLICK
  }

  class ButtonList {
    var periodCount: nat
    var buttons: seq<ButtonState>
    var activeButtonCount: nat
    var timerRuns: bool
    ghost var gestures: seq<Gesture>

    ghost predicate Shown()
      reads this
    {
      && |gestures| == |buttons| < 256 && DOUBLE_CLICK < periodCount
      && forall i :: 0 <= i < |buttons| ==> Shows(buttons[i], gestures[i], periodCount)
    }

    /** Every button shows its gesture; the count is that of the buttons in use, and the timer runs while there are any. */
    ghost predicate Valid()
      reads this
    {
      Shown() && activeButtonCount == Busy(gestures) && timerRuns == (activeButtonCount != 0)
    }

    ghost function View(): Panel
      reads this
    {
      Panel(periodCount, gestures)
    }

    /** All buttons are initialised before the first press. The count of buttons in use has 8 bits. */
    constructor (n: nat)
      requires n < 256
      ensures Valid() && |gestures| == n && forall i :: 0 <= i < n ==> gestures[i].Idle?
    {
      periodCount := DOUBLE_CLICK + INTERVAL;
      buttons := seq(n, _ => ButtonState(PressIdle, 0, 0, None));
      gestures := seq(n, _ => Idle);
      activeButtonCount, timerRuns := 0, false;
      new;
      BusyIff(gestures);
    }

    /** BUTTON_Task: calls back every button with a message, and stops the timer after the last one in use. */
    method Task(ghost i: nat, ghost event: Event) returns (callbacks: seq<Callback>)
      requires i < |buttons| && buttons[i].msg == Some(event) && 0 < activeButtonCount
      requires forall k :: 0 <= k < |buttons| && k != i ==> buttons[k].msg == None
      modifies this`buttons, this`activeButtonCount, this`timerRuns
      ensures callbacks == [Callback(i, event)] && buttons == old(buttons)[i := old(buttons)[i].(msg := None)]
      ensures activeButtonCount == old(activeButtonCount) - 1
      ensures timerRuns == (old(timerRuns) && activeButtonCount != 0)
    {
      callbacks := [];
      ghost var was := buttons;
      for j := 0 to |buttons|
        invariant |buttons| == |was|
        invariant buttons == if j <= i then was else was[i := was[i].(msg := None)]
        invariant callbacks == if j <= i then [] else [Callback(i, event)]
        invariant activeButtonCount == old(activeButtonCount) - if j <= i then 0 else 1
        invariant timerRuns == (old(timerRuns) && (j <= i || activeButtonCount != 0))
      {
        if buttons[j].msg.Some? {
          callbacks := callbacks + [Callback(j, buttons[j].msg.value)];
          buttons := buttons[j := buttons[j].(msg := None)];
          activeButtonCount := activeButtonCount - 1;
          if activeButtonCount == 0 { timerRuns := false; }
        }
      }
    }

    /** The button is idle again, and its event is called back at once. */
    method NotificationUpdate(i: nat, event: Event) returns (callbacks: seq<Callback>)
      requires i < |buttons| && 0 < activeButtonCount && forall k :: 0 <= k < |buttons| ==> buttons[k].msg == None
      modifies this`buttons, this`activeButtonCount, this`timerRuns
      ensures callbacks == [Callback(i, event)] && buttons == old(buttons)[i := ButtonState(PressIdle, 0, 0, None)]
      ensures activeButtonCount == old(activeButtonCount) - 1
      ensures timerRuns == (old(timerRuns) && activeButtonCount != 0)
    {
      buttons := buttons[i := ButtonState(PressIdle, 0, 0, Some(event))];
      callbacks := Task(i, event);
    }

    /** An interrupt on a button's pin, which reads as pressed or not. */
    method Event(i: nat, down: bool) returns (callbacks: seq<Callback>)
      requires Valid() && i < |buttons|
      modifies this
      ensures Valid() && View() == Step(old(View()), Edge(i, down)).0 && callbacks == Step(old(View()), Edge(i, down)).1
    {
      callbacks := [];
      ghost var g := OnEdge(gestures[i], periodCount, down).0;
      BusyUpdate(gestures, i, g);
      BusyUpdate(gestures, i, Idle);
      assert Shows(buttons[i], gestures[i], periodCount);
      if buttons[i].pressed.PressIdle? || buttons[i].pressed.PressDoubleStart? {
        if down { Press(i); }
      } else if !down {
        callbacks := Release(i);
      }
      gestures := gestures[i := g];
    }

    /** The button goes down, for the first or the second time. */
    method Press(i: nat)
      requires Shown() && i < |buttons| && (gestures[i].Up? || (gestures[i].Idle? && activeButtonCount < 255))
      modifies this`buttons, this`activeButtonCount, this`timerRuns
      ensures |buttons| == |old(buttons)| && buttons == old(buttons)[i := buttons[i]]
      ensures Shows(buttons[i], OnEdge(gestures[i], periodCount, true).0, periodCount)
      ensures activeButtonCount == old(activeButtonCount) + if gestures[i].Idle? then 1 else 0
      ensures timerRuns == (old(timerRuns) || old(activeButtonCount) == 0)
    {
      assert Shows(buttons[i], gestures[i], periodCount);
      var s := buttons[i];
      var pressed := if s.pressed.PressIdle? then Pressed else PressDoublePressed;
      buttons := buttons[i := s.(pressed := pressed, pushPeriodCount := periodCount)];
      if activeButtonCount == 0 { timerRuns := true; }
      if pressed.Pressed? { activeButtonCount := (activeButtonCount + 1) % 256; }
    }

    /** The button goes up: times tell which event it is, or whether a second press may follow. */
    method Release(i: nat) returns (callbacks: seq<Callback>)
      requires Shown() && i < |buttons| && 0 < activeButtonCount && (gestures[i].Down? || gestures[i].DownAgain?)
      modifies this`buttons, this`activeButtonCount, this`timerRuns
      ensures var (g, e) := OnEdge(gestures[i], periodCount, false);
        && |buttons| == |old(buttons)| && buttons == old(buttons)[i := buttons[i]] && Shows(buttons[i], g, periodCount)
        && callbacks == (if e.Some? then [Callback(i, e.value)] else [])
        && activeButtonCount == (if e.Some? then old(activeButtonCount) - 1 else old(activeButtonCount))
        && timerRuns == (old(timerRuns) && (e.Some? ==> activeButtonCount != 0))
    {
      callbacks := [];
      assert Shows(buttons[i], gestures[i], periodCount);
      var s := buttons[i];
      var held := periodCount - s.pushPeriodCount;
      if DOUBLE_CLICK + s.pushPeriodCountLast >= s.pushPeriodCount {
        callbacks := NotificationUpdate(i, if held < SHORT_PRESS then DoubleClick else Error);
      } else if held < SHORT_PRESS {
        buttons := buttons[i := s.(pushPeriodCountLast := periodCount, pressed := PressDoubleStart)];
      } else if held < LONG_PRESS {
        callbacks := NotificationUpdate(i, ShortPress);
      } else {
        callbacks := NotificationUpdate(i, LongPress);
      }
    }

    /** Ends the wait for a second press if it took too long. */
    method Expire(j: nat) returns (clicked: seq<Callback>)
      requires j < |buttons| == |gestures| && Waits(buttons[j], gestures[j], periodCount)
      requires if Expired(gestures[j], periodCount) then 0 < activeButtonCount else Shows(buttons[j], gestures[j], periodCount)
      requires forall k :: 0 <= k < |buttons| ==> buttons[k].msg == None
      modifies this`buttons, this`activeButtonCount, this`timerRuns
      ensures clicked == if Expired(gestures[j], periodCount) then [Callback(j, OneClick)] else []
      ensures |buttons| == |gestures| && buttons == old(buttons)[j := buttons[j]]
      ensures Shows(buttons[j], OnTick(gestures[j], periodCount), periodCount)
      ensures activeButtonCount == old(activeButtonCount) - |clicked|
      ensures timerRuns == (old(timerRuns) && (clicked != [] ==> activeButtonCount != 0))
    {
      clicked := [];
      if buttons[j].pressed.PressDoubleStart? && DOUBLE_CLICK + buttons[j].pushPeriodCountLast < periodCount {
        clicked := NotificationUpdate(j, OneClick);
      }
    }

    /** The timer's tick: every button that waited too long for a second press was clicked once. */
    method TimerEvent() returns (callbacks: seq<Callback>)
      requires Valid() && timerRuns
      modifies this
      ensures Valid() && View() == Step(old(View()), Tick).0 && callbacks == Step(old(View()), Tick).1
    {
      ghost var was, now := gestures, periodCount + INTERVAL;
      callbacks := [];
      TickBegins(buttons, gestures, periodCount);
      periodCount := periodCount + INTERVAL;
      for j := 0 to |buttons|
        invariant |gestures| == |buttons| == |was| < 256 && periodCount == now
        invariant AllAt(buttons, gestures, was, now, j)
        invariant callbacks + Clicks(was, now, j) == Clicks(was, now, 0)
        invariant activeButtonCount == Busy(gestures) && timerRuns == (activeButtonCount != 0)
      {
        BusyUpdate(gestures, j, OnTick(gestures[j], now));
        NoMessages(buttons, gestures, was, now, j);
        assert Ticked(buttons, gestures, was, now, j, j);
        ghost var buttons0, gestures0 := buttons, gestures;
        var clicked := Expire(j);
        ClicksNext(callbacks, clicked, was, now, j);
        callbacks := callbacks + clicked;
        gestures := gestures[j := OnTick(gestures[j], now)];
        TickOn(buttons0, gestures0, buttons, gestures, was, now, j);
      }
      AllTicked(buttons, gestures, was, now);
    }

    /** An interrupt of a pin or, while it runs, of the timer. */
    method Apply(op: Op) returns (callbacks: seq<Callback>)
      requires Valid()
      modifies this
      ensures Valid() && View() == Step(old(View()), op).0 && callbacks == Step(old(View()), op).1
    {
      callbacks := [];
      match op
      case Edge(i, down) => if i < |buttons| { callbacks := Event(i, down); }
      case Tick => if timerRuns { callbacks := TimerEvent(); }
    }

    /** Any sequence of interrupts calls back what the gestures call for. */
    method ApplyAll(ops: seq<Op>) returns (callbacks: seq<Callback>)
      requires Valid()
      modifies this
      ensures Valid() && View() == Run(old(View()), ops).0 && callbacks == Run(old(View()), ops).1
    {
      callbacks := [];
      ghost var p := View();
      RunFrom(p, ops);
      for k := 0 to |ops|
        invariant Valid() && Run(p, ops) == (Run(View(), ops[k..]).0, callbacks + Run(View(), ops[k..]).1)
      {
        RunNext(callbacks, View(), ops, k);
        var called := Apply(ops[k]);
        callbacks := callbacks + called;
      }
    }
  }

  /** What a gesture shows, up to a click that is due. */
  ghost predicate Waits(s: ButtonState, g: Gesture, now: nat) {
    && s.msg == None && (s.pressed.PressDoubleStart? <==> g.Up?) && (g.Up? ==> s.pushPeriodCountLast == g.release <= now)
  }

  /** Where the button at `i` stands when the tick has dealt with those below `j`. */
  ghost predicate Ticked(buttons: seq<ButtonState>, gestures: seq<Gesture>, was: seq<Gesture>, now: nat, j: nat, i: nat)
    requires i < |buttons| == |gestures| == |was|
  {
    && gestures[i] == (if i < j then OnTick(was[i], now) else was[i])
    && Waits(buttons[i], gestures[i], now)
    && (i < j || !Expired(was[i], now) ==> Shows(buttons[i], gestures[i], now))
  }

  ghost predicate AllAt(buttons: seq<ButtonState>, gestures: seq<Gesture>, was: seq<Gesture>, now: nat, j: nat)
    requires |buttons| == |gestures| == |was|
  {
    forall i {:trigger Ticked(buttons, gestures, was, now, j, i)} :: 0 <= i < |buttons| ==>
      Ticked(buttons, gestures, was, now, j, i)
  }

  lemma NoMessages(buttons: seq<ButtonState>, gestures: seq<Gesture>, was: seq<Gesture>, now: nat, j: nat)
    requires |buttons| == |gestures| == |was| && AllAt(buttons, gestures, was, now, j)
    ensures forall k :: 0 <= k < |buttons| ==> buttons[k].msg == None
  {
    forall k | 0 <= k < |buttons| ensures buttons[k].msg == None {
      assert Ticked(buttons, gestures, was, now, j, k);
    }
  }

  lemma TickOn(buttons: seq<ButtonState>, gestures: seq<Gesture>, buttons': seq<ButtonState>, gestures': seq<Gesture>,
               was: seq<Gesture>, now: nat, j: nat)
    requires |buttons| == |gestures| == |was| == |buttons'| && j < |was| && AllAt(buttons, gestures, was, now, j)
    requires buttons' == buttons[j := buttons'[j]] && gestures' == gestures[j := OnTick(gestures[j], now)]
    requires Shows(buttons'[j], gestures'[j], now)
    ensures AllAt(buttons', gestures', was, now, j + 1)
  {
    forall i {:trigger Ticked(buttons', gestures', was, now, j + 1, i)} | 0 <= i < |buttons'|
      ensures Ticked(buttons', gestures', was, now, j + 1, i)
    {
      assert Ticked(buttons, gestures, was, now, j, i);
    }
  }

  lemma AllTicked(buttons: seq<ButtonState>, gestures: seq<Gesture>, was: seq<Gesture>, now: nat)
    requires |buttons| == |gestures| == |was| && AllAt(buttons, gestures, was, now, |was|)
    ensures gestures == AfterTick(was, now) && forall i :: 0 <= i < |buttons| ==> Shows(buttons[i], gestures[i], now)
  {
    forall i | 0 <= i < |buttons| ensures gestures[i] == AfterTick(was, now)[i] && Shows(buttons[i], gestures[i], now) {
      assert Ticked(buttons, gestures, was, now, |was|, i);
    }
  }

  lemma TickBegins(buttons: seq<ButtonState>, gestures: seq<Gesture>, now: nat)
    requires |gestures| == |buttons| && forall i :: 0 <= i < |buttons| ==> Shows(buttons[i], gestures[i], now)
    ensures AllAt(buttons, gestures, gestures, now + INTERVAL, 0)
  {
    forall i {:trigger Ticked(buttons, gestures, gestures, now + INTERVAL, 0, i)} | 0 <= i < |buttons|
      ensures Ticked(buttons, gestures, gestures, now + INTERVAL, 0, i)
    {
      assert Shows(buttons[i], gestures[i], now);
    }
  }

  lemma ClicksNext(callbacks: seq<Callback>, clicked: seq<Callback>, gs: seq<Gesture>, now: nat, j: nat)
    requires j < |gs| && clicked == if Expired(gs[j], now) then [Callback(j, OneClick)] else []
    ensures callbacks + Clicks(gs, now, j) == (callbacks + clicked) + Clicks(gs, now, j + 1)
  {
  }

  lemma RunFrom(p: Panel, ops: seq<Op>)
    ensures Run(p, ops) == (Run(p, ops[0..]).0, [] + Run(p, ops[0..]).1)
  {
    assert ops[0..] == ops;
    assert [] + Run(p, ops).1 == Run(p, ops).1;
  }

  lemma RunNext(callbacks: seq<Callback>, p: Panel, ops: seq<Op>, k: nat)
    requires k < |ops|
    ensures var (q, cs) := Step(p, ops[k]);
      && Run(p, ops[k..]).0 == Run(q, ops[k + 1..]).0
      && callbacks + Run(p, ops[k..]).1 == (callbacks + cs) + Run(q, ops[k + 1..]).1
  {
    assert ops[k..][0] == ops[k] && ops[k..][1..] == ops[k + 1..];
  }
}
