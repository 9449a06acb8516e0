/** Scrolling over the workspace buttons of the bar (swaybar/input.c 196-357, one axis of one seat). */
module Scrolling {

  const THRESHOLD := 10000
  const TIMEOUT := 1000
  const WORD := 0x1_0000_0000

  function Abs(x: int): nat {
    if x < 0 then -x else x
  }

  function Sign(x: int): int {
    if x < 0 then -1 else if x > 0 then 1 else 0
  }

  // ----- which workspace is visible

  /** The buttons are in a row of n; the step to a neighbour goes round only with wrap_scroll. */
  function Next(active: int, left: bool, n: int, wrap: bool): int {
    if left then (if active > 0 then active - 1 else if wrap then n - 1 else active)
    else (if active < n - 1 then active + 1 else if wrap then 0 else active)
  }

  function After(active: int, left: bool, n: int, wrap: bool, steps: nat): int {
    if steps == 0 then active else Next(After(active, left, n, wrap, steps - 1), left, n, wrap)
  }

  /** The place in a row of n that goes round. */
  function Modulo(x: int, n: int): (r: int)
    requires n > 0
    ensures 0 <= r < n
    decreases if x < 0 then n - x else x
  {
    if x < 0 then Modulo(x + n, n) else if x >= n then Modulo(x - n, n) else x
  }

  lemma {:induction false} ModuloIsRemainder(x: int, n: int) returns (q: int)
    requires n > 0
    ensures x == q * n + Modulo(x, n)
    decreases if x < 0 then n - x else x
  {
    if x < 0 {
      q := ModuloIsRemainder(x + n, n);
      q := q - 1;
    } else if x >= n {
      q := ModuloIsRemainder(x - n, n);
      q := q + 1;
    } else {
      q := 0;
    }
  }

  lemma {:induction false} NextModulo(x: int, n: int)
    requires n > 0
    ensures Modulo(x + 1, n) == if Modulo(x, n) == n - 1 then 0 else Modulo(x, n) + 1
    ensures Modulo(x - 1, n) == if Modulo(x, n) == 0 then n - 1 else Modulo(x, n) - 1
    decreases if x < 0 then n - x else x
  {
    if x < 0 {
      NextModulo(x + n, n);
    } else if x >= n {
      NextModulo(x - n, n);
    }
  }

  function Clamped(x: int, n: int): int {
    if x < 0 then 0 else if x > n - 1 then n - 1 else x
  }

  function Shift(left: bool, steps: nat): int {
    if left then 0 - steps else steps
  }

  /** Any number of steps one way: counted round the row with wrap_scroll, stopped at its end without. */
  lemma {:induction false} AfterSteps(active: int, left: bool, n: int, wrap: bool, steps: nat)
    requires 0 <= active < n
    ensures var to := active + Shift(left, steps);
      After(active, left, n, wrap, steps) == if wrap then Modulo(to, n) else Clamped(to, n)
  {
    if steps == 0 {
      assert Modulo(active, n) == active;
    } else {
      AfterSteps(active, left, n, wrap, steps - 1);
      NextModulo(active + Shift(left, steps - 1), n);
    }
  }

  // ----- the virtual wheel

  /** The value of the axis and the number of clicks that the loop of process_continuous_scroll makes of it. */
  function Clicks(value: int): (k: nat)
    ensures Abs(value) <= THRESHOLD <==> k == 0
    ensures Abs(value - Sign(value) * THRESHOLD * k) <= THRESHOLD
    ensures k > 0 ==> Sign(value - Sign(value) * THRESHOLD * k) == Sign(value)
    decreases Abs(value)
  {
    if Abs(value) <= THRESHOLD then 0 else 1 + Clicks(value - Sign(value) * THRESHOLD)
  }

  function Leftover(value: int): int {
    value - Sign(value) * THRESHOLD * Clicks(value)
  }

  lemma ClicksEnd(value: int)
    requires Abs(value) <= THRESHOLD
    ensures Clicks(value) == 0 && Leftover(value) == value
  {
  }

  lemma ClicksStep(value: int)
    requires Abs(value) > THRESHOLD
    ensures var next := value - Sign(value) * THRESHOLD;
      Clicks(value) == 1 + Clicks(next) && Leftover(value) == Leftover(next) && Sign(next) == Sign(value)
  {
  }

  /** Number of the first k clicks that no hotspot and no binding takes for itself. */
  function Unconsumed(consumed: nat -> bool, k: nat): nat {
    if k == 0 then 0 else Unconsumed(consumed, k - 1) + if consumed(k - 1) then 0 else 1
  }

  lemma {:induction false} AllUnconsumed(consumed: nat -> bool, k: nat)
    requires forall i :: 0 <= i < k ==> !consumed(i)
    ensures Unconsumed(consumed, k) == k
  {
    if k > 0 {
      AllUnconsumed(consumed, k - 1);
    }
  }

  /** Where the clicks so far have brought the row: nowhere if the bar has no workspace buttons. */
  function Position(start: int, left: bool, n: int, wrap: bool, buttons: bool, consumed: nat -> bool, k: nat): int {
    if buttons then After(start, left, n, wrap, Unconsumed(consumed, k)) else start
  }

  lemma PositionStep(start: int, left: bool, n: int, wrap: bool, buttons: bool, consumed: nat -> bool, k: nat)
    ensures Position(start, left, n, wrap, buttons, consumed, 0) == start
    ensures var at := Position(start, left, n, wrap, buttons, consumed, k);
      Position(start, left, n, wrap, buttons, consumed, k + 1) ==
        if consumed(k) || !buttons then at else Next(at, left, n, wrap)
  {
  }

  // ----- over any run of events

  /** One axis of a seat. */
  datatype Wheel = Wheel(value: int, discreteSteps: nat, updateTime: nat)

  datatype Event = Axis(time: nat, amount: int) | Discrete(count: int) | Frame

  /** The 32-bit clock wraps. */
  predicate Stale(w: Wheel, time: nat) {
    w.discreteSteps == 0 && (time - w.updateTime) % WORD > TIMEOUT
  }

  function Turned(w: Wheel, e: Event): Wheel {
    match e
    case Axis(time, amount) => Wheel(amount + if Stale(w, time) then 0 else w.value, w.discreteSteps, time)
    case Discrete(count) => w.(discreteSteps := w.discreteSteps + Abs(count))
    case Frame => if w.discreteSteps > 0 then w.(value := 0, discreteSteps := 0) else w.(value := Leftover(w.value))
  }

  /** The clicks that a frame makes, as a signed number. */
  function NetClicks(w: Wheel, e: Event): int {
    if !e.Frame? then 0
    else Sign(w.value) * if w.discreteSteps > 0 then w.discreteSteps else Clicks(w.value)
  }

  function Run(w: Wheel, events: seq<Event>): (r: (Wheel, int)) {
    if events == [] then (w, 0) else
      var n := |events| - 1; var (before, clicks) := Run(w, events[..n]);
      (Turned(before, events[n]), clicks + NetClicks(before, events[n]))
  }

  function Total(events: seq<Event>): int {
    if events == [] then 0 else
      var n := |events| - 1; Total(events[..n]) + if events[n].Axis? then events[n].amount else 0
  }

  /** No pause long enough to put the wheel back, and no mouse wheel with notches. */
  predicate Steady(w: Wheel, events: seq<Event>) {
    events != [] ==>
      var n := |events| - 1;
      && Steady(w, events[..n]) && !events[n].Discrete?
      && (events[n].Axis? ==> !Stale(Run(w, events[..n]).0, events[n].time))
  }

  /** Over any steady run every unit scrolled is in a click or still on the wheel, however it was cut up. */
  lemma {:induction false} NothingScrolledIsLost(w: Wheel, events: seq<Event>)
    requires w.discreteSteps == 0 && Steady(w, events)
    ensures var (r, clicks) := Run(w, events);
      && w.value + Total(events) == 10000 * clicks + r.value && r.discreteSteps == 0
      && (events != [] && events[|events| - 1].Frame? ==> -10000 <= r.value <= 10000)
  {
    if events != [] {
      var n := |events| - 1;
      NothingScrolledIsLost(w, events[..n]);
    }
  }

  /** A pause of more than a second clears the wheel, on a clock that starts again at 2^32, but not behind notches that
      no frame has ended yet. */
  lemma PauseClears(w: Wheel, time: nat, amount: int)
    requires time < 0x1_0000_0000 && w.updateTime < 0x1_0000_0000
    ensures var passed := if w.updateTime <= time then time - w.updateTime else time + 0x1_0000_0000 - w.updateTime;
      var r := Turned(w, Axis(time, amount));
      && r.value == (if passed > 1000 && w.discreteSteps == 0 then amount else w.value + amount)
      && r.updateTime == time && r.discreteSteps == w.discreteSteps
  {
    if w.updateTime <= time {
      assert (time - w.updateTime) % WORD == time - w.updateTime;
    } else {
      assert (time - w.updateTime + WORD) % WORD == (time - w.updateTime) % WORD;
    }
  }

  // ----- a mouse wheel with notches

  /** What one turn of it sends within a frame: the number of notches, and the amount that goes with them. */
  datatype Notches = Notches(count: int, time: nat, amount: int)

  function EventsOf(n: Notches): seq<Event> {
    [Discrete(n.count), Axis(n.time, n.amount), Frame]
  }

  function AllEvents(turns: seq<Notches>): seq<Event> {
    if turns == [] then [] else AllEvents(turns[..|turns| - 1]) + EventsOf(turns[|turns| - 1])
  }

  function NotchTotal(turns: seq<Notches>): int {
    if turns == [] then 0 else NotchTotal(turns[..|turns| - 1]) + turns[|turns| - 1].count
  }

  lemma {:induction false} RunConcat(w: Wheel, a: seq<Event>, b: seq<Event>)
    ensures var (middle, first) := Run(w, a); var (r, next) := Run(middle, b); Run(w, a + b) == (r, first + next)
    decreases |b|
  {
    hide Turned, NetClicks;
    if b == [] {
      assert a + b == a;
    } else {
      var n := |b| - 1;
      RunConcat(w, a, b[..n]);
      assert (a + b)[..|a| + n] == a + b[..n];
    }
  }

  lemma RunOne(w: Wheel, e: Event)
    ensures Run(w, [e]) == (Turned(w, e), NetClicks(w, e))
  {
    assert [e][..0] == [];
  }

  lemma RunNotches(w: Wheel, n: Notches)
    ensures var pushed := Turned(Turned(w, Discrete(n.count)), Axis(n.time, n.amount));
      Run(w, EventsOf(n)) == (Turned(pushed, Frame), NetClicks(pushed, Frame))
  {
    hide Turned, NetClicks;
    var a, b := Discrete(n.count), Axis(n.time, n.amount);
    RunOne(w, a);
    RunConcat(w, [a], [b]);
    RunOne(Turned(w, a), b);
    RunConcat(w, [a, b], [Frame]);
    RunOne(Turned(Turned(w, a), b), Frame);
    assert [a] + [b] == [a, b] && [a, b] + [Frame] == EventsOf(n);
    NoClicks(w, a);
    NoClicks(Turned(w, a), b);
  }

  lemma NoClicks(w: Wheel, e: Event)
    ensures !e.Frame? ==> NetClicks(w, e) == 0
  {
  }

  /** A turn is as many clicks as notches, and clears the wheel. But their direction is that of all that is on it: what
      continuous scrolling has left there can outweigh the turn, or cancel it. */
  lemma NotchesOfTurn(w: Wheel, n: Notches)
    requires w.discreteSteps == 0 && n.count != 0
    ensures var (r, clicks) := Run(w, EventsOf(n));
      && r.value == 0 && r.discreteSteps == 0
      && clicks == Sign(w.value + n.amount) * Abs(n.count)
      && (clicks == n.count <==> Sign(w.value + n.amount) == Sign(n.count))
  {
    RunNotches(w, n);
  }

  /** From a wheel at rest no notch is lost or turned around, over any number of turns and whatever the pauses. */
  lemma {:induction false} NotchesCount(w: Wheel, turns: seq<Notches>)
    requires w.value == 0 && w.discreteSteps == 0
    requires forall i :: 0 <= i < |turns| ==> Sign(turns[i].amount) == Sign(turns[i].count)
    ensures var (r, clicks) := Run(w, AllEvents(turns));
      clicks == NotchTotal(turns) && r.value == 0 && r.discreteSteps == 0
  {
    hide Turned, NetClicks;
    if turns != [] {
      var n := |turns| - 1;
      NotchesCount(w, turns[..n]);
      RunConcat(w, AllEvents(turns[..n]), EventsOf(turns[n]));
      var before := Run(w, AllEvents(turns[..n])).0;
      if turns[n].count != 0 {
        NotchesOfTurn(before, turns[n]);
      } else {
        RunNotches(before, turns[n]);
        NothingTurned(before, turns[n]);
      }
    }
  }

  lemma NothingTurned(w: Wheel, n: Notches)
    requires w.value == 0 && w.discreteSteps == 0 && n.count == 0 && n.amount == 0
    ensures var pushed := Turned(Turned(w, Discrete(n.count)), Axis(n.time, n.amount));
      NetClicks(pushed, Frame) == 0 && Turned(pushed, Frame).value == 0 && Turned(pushed, Frame).discreteSteps == 0
  {
  }

  // ----- the bar

  class Bar {
    var visible: seq<bool>            // workspace buttons of the output
    var value: int                    // axis[axis].value
    var discreteSteps: nat
    var updateTime: nat
    const wrapScroll: bool
    const workspaceButtons: bool
    ghost var active: nat

    constructor (n: nat, active: nat, wrapScroll: bool, workspaceButtons: bool)
      requires active < n
      ensures Valid() && |visible| == n && this.active == active && value == 0 && discreteSteps == 0
      ensures this.wrapScroll == wrapScroll && this.workspaceButtons == workspaceButtons
    {
      visible := seq(n, i => i == active);
      this.active, value, discreteSteps, updateTime := active, 0, 0, 0;
      this.wrapScroll, this.workspaceButtons := wrapScroll, workspaceButtons;
    }

    /** Exactly one workspace is visible. */
    ghost predicate Valid()
      reads this
    {
      active < |visible| && forall i :: 0 <= i < |visible| ==> (visible[i] <==> i == active)
    }

    /** `sent` is the workspace that the compositor is asked for, if any. */
    method WorkspaceNext(left: bool) returns (sent: int)
      requires Valid()
      modifies this`visible, this`active
      ensures Valid() && |visible| == |old(visible)|
      ensures active == Next(old(active), left, |visible|, wrapScroll)
      ensures forall i :: 0 <= i < |visible| ==> (visible[i] <==> i == active)
      ensures left && old(active) > 0 ==> active == old(active) - 1
      ensures !left && old(active) < |visible| - 1 ==> active == old(active) + 1
      ensures left && old(active) == 0 ==> active == if wrapScroll then |visible| - 1 else 0
      ensures !left && old(active) == |visible| - 1 ==> active == if wrapScroll then 0 else |visible| - 1
      ensures sent == if active == old(active) then -1 else active
    {
      var i := 0;
      while !visible[i]
        invariant i <= active
        decreases active - i
      {
        i := i + 1;
      }
      var next := if left then (if i == 0 then (if wrapScroll then |visible| - 1 else -1) else i - 1)
        else (if i == |visible| - 1 then (if wrapScroll then 0 else -1) else i + 1);
      sent := -1;
      if next != -1 && next != i {
        sent := next;
        visible := visible[next := true];
        visible := visible[i := false];
        active := next;
      }
    }

    /** `consumed`: a hotspot or a binding takes the click. */
    method ProcessDiscreteScroll(amount: int, consumed: bool)
      requires Valid()
      modifies this`visible, this`active
      ensures Valid() && |visible| == |old(visible)|
      ensures active == if consumed || amount == 0 || !workspaceButtons then old(active)
        else Next(old(active), amount < 0, |visible|, wrapScroll)
    {
      if consumed || amount == 0 || !workspaceButtons {
        return;
      }
      var sent := WorkspaceNext(amount < 0);
    }

    method ProcessContinuousScroll(consumed: nat -> bool) returns (clicks: nat)
      requires Valid()
      modifies this`visible, this`active, this`value
      ensures Valid() && |visible| == |old(visible)|
      ensures clicks == Clicks(old(value)) && value == Leftover(old(value))
      ensures active == Position(old(active), old(value) < 0, |visible|, wrapScroll, workspaceButtons, consumed, clicks)
    {
      hide Clicks, Leftover, Position, Next;
      clicks := 0;
      ghost var n, left := |visible|, value < 0;
      PositionStep(active, left, n, wrapScroll, workspaceButtons, consumed, 0);
      while (if value < 0 then -value else value) > THRESHOLD
        invariant Valid() && |visible| == n
        invariant clicks + Clicks(value) == Clicks(old(value)) && Leftover(value) == Leftover(old(value))
        invariant Abs(value) > THRESHOLD ==> left == (value < 0)
        invariant active == Position(old(active), left, n, wrapScroll, workspaceButtons, consumed, clicks)
        decreases if value < 0 then -value else value
      {
        ClicksStep(value);
        PositionStep(old(active), left, n, wrapScroll, workspaceButtons, consumed, clicks);
        if value > 0 {
          ProcessDiscreteScroll(THRESHOLD, consumed(clicks));
          value := value - THRESHOLD;
        } else {
          ProcessDiscreteScroll(-THRESHOLD, consumed(clicks));
          value := value + THRESHOLD;
        }
        clicks := clicks + 1;
      }
      ClicksEnd(value);
    }

    function Now(): Wheel
      reads this
    {
      Wheel(value, discreteSteps, updateTime)
    }

    /** wl_pointer_axis */
    method HandleAxis(time: nat, amount: int)
      requires time < WORD && updateTime < WORD
      modifies this`value, this`updateTime
      ensures Now() == Turned(old(Now()), Axis(time, amount))
    {
      if discreteSteps == 0 && (time - updateTime) % WORD > TIMEOUT {
        value := 0;
      }
      value := value + amount;
      updateTime := time;
    }

    /** wl_pointer_axis_discrete */
    method HandleAxisDiscrete(count: int)
      modifies this`discreteSteps
      ensures Now() == Turned(old(Now()), Discrete(count))
    {
      discreteSteps := discreteSteps + Abs(count);
    }

    /** wl_pointer_frame, for one axis. */
    method HandleFrame(consumed: nat -> bool) returns (clicks: nat)
      requires Valid()
      modifies this`visible, this`active, this`value, this`discreteSteps
      ensures Valid() && |visible| == |old(visible)|
      ensures Now() == Turned(old(Now()), Frame) && Sign(old(value)) * clicks == NetClicks(old(Now()), Frame)
      ensures active == Position(old(active), old(value) < 0, |visible|, wrapScroll,
                                 workspaceButtons && old(value) != 0, consumed, clicks)
      ensures workspaceButtons && (forall i :: !consumed(i)) ==>
        var to := old(active) + if old(value) < 0 then 0 - clicks else if old(value) > 0 then clicks else 0;
        active == if wrapScroll then Modulo(to, |visible|) else
          if to < 0 then 0 else if to >= |visible| then |visible| - 1 else to
      ensures old(discreteSteps) > 0 ==> clicks == old(discreteSteps) && value == 0 && discreteSteps == 0
    {
      ghost var left, start := value < 0, active;
      if discreteSteps > 0 {
        for step := 0 to discreteSteps
          invariant Valid() && |visible| == |old(visible)|
          invariant value == old(value) && discreteSteps == old(discreteSteps)
          invariant active == Position(old(active), value < 0, |visible|, wrapScroll,
                                       workspaceButtons && value != 0, consumed, step)
        {
          ProcessDiscreteScroll(value, consumed(step));
        }
        clicks := discreteSteps;
        value := 0;
        discreteSteps := 0;
      } else {
        assert value == 0 ==> Clicks(value) == 0 && Unconsumed(consumed, 0) == 0;
        clicks := ProcessContinuousScroll(consumed);
      }
      if forall i :: !consumed(i) {
        AllUnconsumed(consumed, clicks);
        AfterSteps(start, left, |visible|, wrapScroll, clicks);
        AfterSteps(start, left, |visible|, wrapScroll, 0);
      }
    }

    /** One continuous scroll that nothing consumes. */
    method Scroll(consumed: nat -> bool) returns (clicks: nat)
      requires Valid() && workspaceButtons && forall i :: !consumed(i)
      modifies this`visible, this`active, this`value
      ensures Valid() && |visible| == |old(visible)|
      ensures old(value) == (if old(value) < 0 then -10000 else 10000) * clicks + value && -10000 <= value <= 10000
      ensures var to := old(active) + if old(value) < 0 then 0 - clicks else clicks;
        active == if wrapScroll then Modulo(to, |visible|) else
          if to < 0 then 0 else if to >= |visible| then |visible| - 1 else to
    {
      clicks := ProcessContinuousScroll(consumed);
      AllUnconsumed(consumed, clicks);
      AfterSteps(old(active), old(value) < 0, |visible|, wrapScroll, clicks);
    }
  }
}
