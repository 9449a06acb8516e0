/** The session lock as a state machine over its events (sway/lock.c; new outputs come from sway/desktop/output.c
    602-604, and what may have input is decided in sway/input/seat.c 1067-1073). */
module LockSpec {
  import opened Common

  /** A lock surface is mapped once, and is unmapped only by its destruction. */
  datatype Surface = Surface(id: nat, mapped: bool)

  datatype LockOutput = LockOutput(output: nat, surface: Option<Surface>, red: bool)

  datatype Lock = Lock(client: nat, outputs: seq<LockOutput>, focused: Option<nat>, abandoned: bool)

  /** `outputs` are all outputs there are, enabled or not. */
  datatype State = State(lock: Option<Lock>, outputs: seq<nat>)

  datatype Event =
    | NewLock(client: nat)
    | Unlock
    | Abandon
    | NewSurface(output: nat, id: nat)
    | MapSurface(output: nat)
    | DestroySurface(output: nat)
    | NewOutput(output: nat)
    | DestroyOutput(output: nat)
    | DestroyManager

  function Index(outs: seq<LockOutput>, output: nat): (i: nat)
    ensures i <= |outs| && (i < |outs| ==> outs[i].output == output)
    ensures forall j :: 0 <= j < i ==> outs[j].output != output
  {
    if outs == [] then 0 else if outs[0].output == output then 0 else 1 + Index(outs[1..], output)
  }

  predicate IsMapped(o: LockOutput) {
    o.surface.Some? && o.surface.value.mapped
  }

  predicate MappedAs(o: LockOutput, id: nat) {
    IsMapped(o) && o.surface.value.id == id
  }

  predicate Attached(outs: seq<LockOutput>, id: nat) {
    exists i :: 0 <= i < |outs| && outs[i].surface.Some? && outs[i].surface.value.id == id
  }

  // ----- which events can come

  /** A listener is there only while the lock is live, or the surface attached. The protocol library rejects a
      second surface for an output, and surfaces and outputs are new when they are announced. */
  predicate Enabled(s: State, e: Event) {
    match e
    case NewLock(_) => true
    case Unlock => s.lock.Some? && !s.lock.value.abandoned
    case Abandon => s.lock.Some? && !s.lock.value.abandoned
    case NewSurface(output, id) =>
      && s.lock.Some? && !s.lock.value.abandoned
      && var outs := s.lock.value.outputs; var i := Index(outs, output);
      i < |outs| && outs[i].surface.None? && !Attached(outs, id)
    case MapSurface(output) =>
      && HasSurface(s, output)
      && var outs := s.lock.value.outputs; !IsMapped(outs[Index(outs, output)])
    case DestroySurface(output) => HasSurface(s, output)
    case NewOutput(output) => output !in s.outputs
    case DestroyOutput(output) => output in s.outputs
    case DestroyManager => true
  }

  predicate HasSurface(s: State, output: nat) {
    && s.lock.Some?
    && var outs := s.lock.value.outputs; var i := Index(outs, output);
    i < |outs| && outs[i].surface.Some?
  }

  // ----- what they do

  /** Focus moves only from the surface that goes away, to the first other mapped one. */
  function Refocused(l: Lock, i: nat): Lock
    requires i < |l.outputs|
  {
    if l.outputs[i].surface.Some? && l.focused == Some(l.outputs[i].surface.value.id)
    then l.(focused := FirstMapped(l.outputs, i, 0)) else l
  }

  function FirstMapped(outs: seq<LockOutput>, except: nat, from: nat): (r: Option<nat>)
    requires from <= |outs|
    ensures r.Some? ==> exists j :: from <= j < |outs| && j != except && MappedAs(outs[j], r.value)
    ensures r.None? ==> forall j :: from <= j < |outs| && j != except ==> !IsMapped(outs[j])
    decreases |outs| - from
  {
    if from == |outs| then None
    else if from != except && IsMapped(outs[from]) then Some(outs[from].surface.value.id)
    else FirstMapped(outs, except, from + 1)
  }

  function WithoutOutput(l: Lock, i: nat): Lock
    requires i < |l.outputs|
  {
    var r := Refocused(l, i); r.(outputs := r.outputs[..i] + r.outputs[i + 1..])
  }

  function Changed(outs: seq<LockOutput>, i: nat, surface: Option<Surface>): (r: seq<LockOutput>)
    requires i < |outs|
  {
    outs[i := outs[i].(surface := surface)]
  }

  function Painted(outs: seq<LockOutput>): (r: seq<LockOutput>)
    ensures |r| == |outs| && forall i :: 0 <= i < |outs| ==> r[i] == outs[i].(red := true)
  {
    if outs == [] then [] else [outs[0].(red := true)] + Painted(outs[1..])
  }

  /** Lock outputs go in front of the list, so they end in the opposite order. */
  function Covering(outputs: seq<nat>): (r: seq<LockOutput>)
    ensures |r| == |outputs|
    ensures forall i :: 0 <= i < |r| ==> r[i] == LockOutput(outputs[|outputs| - 1 - i], None, false)
  {
    if outputs == [] then [] else
      [LockOutput(outputs[|outputs| - 1], None, false)] + Covering(outputs[..|outputs| - 1])
  }

  function Step(s: State, e: Event): State
    requires Enabled(s, e)
  {
    match e
    case NewLock(client) =>
      if s.lock.Some? && !s.lock.value.abandoned then s
      else s.(lock := Some(Lock(client, Covering(s.outputs), None, false)))
    case Unlock => s.(lock := None)
    case Abandon =>
      s.(lock := Some(s.lock.value.(abandoned := true, outputs := Painted(s.lock.value.outputs))))
    case NewSurface(output, id) =>
      var l := s.lock.value; var i := Index(l.outputs, output);
      s.(lock := Some(l.(outputs := Changed(l.outputs, i, Some(Surface(id, false))))))
    case MapSurface(output) =>
      var l := s.lock.value; var i := Index(l.outputs, output); var id := l.outputs[i].surface.value.id;
      s.(lock := Some(l.(outputs := Changed(l.outputs, i, Some(Surface(id, true))),
                         focused := if l.focused.None? then Some(id) else l.focused)))
    case DestroySurface(output) =>
      var l := s.lock.value; var i := Index(l.outputs, output); var r := Refocused(l, i);
      s.(lock := Some(r.(outputs := Changed(r.outputs, i, None))))
    case NewOutput(output) =>
      State(if s.lock.None? then None else
              Some(s.lock.value.(outputs := [LockOutput(output, None, s.lock.value.abandoned)] + s.lock.value.outputs)),
            [output] + s.outputs)
    case DestroyOutput(output) =>
      State(if s.lock.None? || Index(s.lock.value.outputs, output) == |s.lock.value.outputs| then s.lock else
              Some(WithoutOutput(s.lock.value, Index(s.lock.value.outputs, output))),
            Without(s.outputs, output))
    case DestroyManager => s.(lock := None)
  }

  function Without(outputs: seq<nat>, output: nat): (r: seq<nat>)
    ensures forall o :: o in r <==> o in outputs && o != output
  {
    if outputs == [] then [] else
      (if outputs[0] == output then [] else [outputs[0]]) + Without(outputs[1..], output)
  }

  // ----- what every reachable state keeps

  predicate NoneTwice(outs: seq<LockOutput>) {
    forall i, j :: 0 <= i < j < |outs| ==> outs[i].output != outs[j].output && !SameSurface(outs[i], outs[j])
  }

  predicate SameSurface(a: LockOutput, b: LockOutput) {
    a.surface.Some? && b.surface.Some? && a.surface.value.id == b.surface.value.id
  }

  /** One lock output for each output, no surface twice. */
  predicate Covers(l: Lock, outputs: seq<nat>) {
    && NoneTwice(l.outputs)
    && (forall i :: 0 <= i < |l.outputs| ==> l.outputs[i].output in outputs)
    && (forall o :: o in outputs ==> Index(l.outputs, o) < |l.outputs|)
  }

  ghost function Mapped(outs: seq<LockOutput>): set<nat> {
    set i | 0 <= i < |outs| && IsMapped(outs[i]) :: outs[i].surface.value.id
  }

  /** Focus is on a mapped lock surface, and on nothing only if there is none. */
  ghost predicate FocusRight(outs: seq<LockOutput>, focused: Option<nat>) {
    match focused case Some(id) => id in Mapped(outs) case None => Mapped(outs) == {}
  }

  predicate Coloured(l: Lock) {
    forall i :: 0 <= i < |l.outputs| ==> l.outputs[i].red == l.abandoned
  }

  predicate Distinct(outputs: seq<nat>) {
    forall i, j :: 0 <= i < j < |outputs| ==> outputs[i] != outputs[j]
  }

  ghost predicate LockSafe(l: Lock, outputs: seq<nat>) {
    Covers(l, outputs) && Coloured(l) && FocusRight(l.outputs, l.focused)
  }

  ghost predicate Safe(s: State) {
    Distinct(s.outputs) && (s.lock.Some? ==> LockSafe(s.lock.value, s.outputs))
  }

  /** Same outputs in the same order, whatever has become of their surfaces. */
  lemma SameOutputs(a: seq<LockOutput>, b: seq<LockOutput>, output: nat)
    requires |a| == |b| && forall i :: 0 <= i < |a| ==> a[i].output == b[i].output
    ensures Index(a, output) == Index(b, output)
  {
  }

  lemma LockCovers(client: nat, outputs: seq<nat>)
    requires Distinct(outputs)
    ensures LockSafe(Lock(client, Covering(outputs), None, false), outputs)
  {
    var outs := Covering(outputs);
    forall o | o in outputs ensures Index(outs, o) < |outs| {
      var k :| 0 <= k < |outputs| && outputs[k] == o;
      assert outs[|outputs| - 1 - k].output == o;
    }
  }

  /** Two lists of lock outputs that differ in colour only. */
  lemma SameMapped(a: seq<LockOutput>, b: seq<LockOutput>)
    requires |a| == |b| && forall i :: 0 <= i < |a| ==> a[i].surface == b[i].surface
    ensures Mapped(a) == Mapped(b)
  {
    forall id | id in Mapped(a) ensures id in Mapped(b) {
      var i :| 0 <= i < |a| && IsMapped(a[i]) && a[i].surface.value.id == id;
      assert IsMapped(b[i]);
    }
    forall id | id in Mapped(b) ensures id in Mapped(a) {
      var i :| 0 <= i < |b| && IsMapped(b[i]) && b[i].surface.value.id == id;
      assert IsMapped(a[i]);
    }
  }

  lemma PaintedSafe(l: Lock, outputs: seq<nat>)
    requires LockSafe(l, outputs)
    ensures LockSafe(l.(abandoned := true, outputs := Painted(l.outputs)), outputs)
  {
    hide Mapped, Index;
    var outs := Painted(l.outputs);
    forall o | o in outputs ensures Index(outs, o) < |outs| {
      SameOutputs(l.outputs, outs, o);
    }
    SameMapped(outs, l.outputs);
  }

  predicate FreshId(outs: seq<LockOutput>, i: nat, surface: Option<Surface>) {
    surface.Some? ==>
      forall j :: 0 <= j < |outs| && j != i && outs[j].surface.Some? ==> outs[j].surface.value.id != surface.value.id
  }

  /** The surface of one output changes. */
  lemma ChangedCovers(l: Lock, outputs: seq<nat>, i: nat, surface: Option<Surface>)
    requires Covers(l, outputs) && Coloured(l) && i < |l.outputs| && FreshId(l.outputs, i, surface)
    ensures var r := l.(outputs := Changed(l.outputs, i, surface)); Covers(r, outputs) && Coloured(r)
  {
    hide Index;
    var outs := Changed(l.outputs, i, surface);
    forall o | o in outputs ensures Index(outs, o) < |outs| {
      SameOutputs(l.outputs, outs, o);
    }
  }

  /** The mapped surfaces of all outputs but the one at i. */
  ghost function OtherMapped(outs: seq<LockOutput>, i: nat): set<nat> {
    set j | 0 <= j < |outs| && j != i && IsMapped(outs[j]) :: outs[j].surface.value.id
  }

  function Own(surface: Option<Surface>): set<nat> {
    if surface.Some? && surface.value.mapped then {surface.value.id} else {}
  }

  lemma ChangedMapped(outs: seq<LockOutput>, i: nat, surface: Option<Surface>)
    requires i < |outs|
    ensures Mapped(Changed(outs, i, surface)) == OtherMapped(outs, i) + Own(surface)
    ensures Mapped(outs) == OtherMapped(outs, i) + Own(outs[i].surface)
  {
    var r := Changed(outs, i, surface);
    forall id | id in OtherMapped(outs, i) ensures id in Mapped(r) {
      var j :| 0 <= j < |outs| && j != i && IsMapped(outs[j]) && outs[j].surface.value.id == id;
      assert IsMapped(r[j]);
    }
    assert IsMapped(r[i]) <==> Own(surface) != {};
    assert IsMapped(outs[i]) <==> Own(outs[i].surface) != {};
  }

  lemma NewSurfaceSafe(l: Lock, outputs: seq<nat>, i: nat, id: nat)
    requires LockSafe(l, outputs) && i < |l.outputs| && l.outputs[i].surface.None? && !Attached(l.outputs, id)
    ensures LockSafe(l.(outputs := Changed(l.outputs, i, Some(Surface(id, false)))), outputs)
  {
    hide Covers, Coloured, Mapped, OtherMapped;
    ChangedCovers(l, outputs, i, Some(Surface(id, false)));
    ChangedMapped(l.outputs, i, Some(Surface(id, false)));
  }

  lemma FreshHere(l: Lock, outputs: seq<nat>, i: nat, surface: Option<Surface>)
    requires Covers(l, outputs) && i < |l.outputs|
    requires surface.Some? ==> l.outputs[i].surface.Some? && l.outputs[i].surface.value.id == surface.value.id
    ensures FreshId(l.outputs, i, surface)
  {
    hide Index;
  }

  lemma MapSafe(l: Lock, outputs: seq<nat>, i: nat, id: nat)
    requires LockSafe(l, outputs) && i < |l.outputs| && l.outputs[i].surface == Some(Surface(id, false))
    ensures LockSafe(l.(outputs := Changed(l.outputs, i, Some(Surface(id, true))),
                        focused := if l.focused.None? then Some(id) else l.focused), outputs)
  {
    hide Covers, Coloured, Mapped, OtherMapped, FreshId, Changed;
    FreshHere(l, outputs, i, Some(Surface(id, true)));
    ChangedCovers(l, outputs, i, Some(Surface(id, true)));
    ChangedMapped(l.outputs, i, Some(Surface(id, true)));
    var r := l.(outputs := Changed(l.outputs, i, Some(Surface(id, true))));
    SameLock(r, r.(focused := if l.focused.None? then Some(id) else l.focused), outputs);
  }

  lemma SameLock(l: Lock, r: Lock, outputs: seq<nat>)
    requires Covers(l, outputs) && Coloured(l) && r.outputs == l.outputs && r.abandoned == l.abandoned
    ensures Covers(r, outputs) && Coloured(r)
  {
  }

  /** Once the surface of output i is out of the question, focus is right for the others. */
  lemma RefocusedRight(l: Lock, i: nat)
    requires FocusRight(l.outputs, l.focused) && i < |l.outputs|
    ensures var r := Refocused(l, i);
      && r == l.(focused := r.focused)
      && match r.focused case Some(id) => id in OtherMapped(l.outputs, i) case None => OtherMapped(l.outputs, i) == {}
  {
    hide Mapped;
    ChangedMapped(l.outputs, i, None);
  }

  lemma DestroySurfaceSafe(l: Lock, outputs: seq<nat>, i: nat)
    requires LockSafe(l, outputs) && i < |l.outputs|
    ensures var r := Refocused(l, i); LockSafe(r.(outputs := Changed(r.outputs, i, None)), outputs)
  {
    hide Refocused, Mapped, Covers, Coloured, OtherMapped, Changed;
    RefocusedRight(l, i);
    var r := Refocused(l, i);
    SameLock(l, r, outputs);
    ChangedCovers(r, outputs, i, None);
    ChangedMapped(r.outputs, i, None);
  }

  lemma NewOutputSafe(l: Lock, outputs: seq<nat>, output: nat)
    requires LockSafe(l, outputs) && output !in outputs
    ensures LockSafe(l.(outputs := [LockOutput(output, None, l.abandoned)] + l.outputs), [output] + outputs)
  {
    hide Mapped;
    var o := LockOutput(output, None, l.abandoned);
    NewOutputCovers(l, outputs, o);
    NewOutputMapped(l.outputs, o);
  }

  lemma NewOutputMapped(outs: seq<LockOutput>, o: LockOutput)
    requires o.surface.None?
    ensures Mapped([o] + outs) == Mapped(outs)
  {
    var r := [o] + outs;
    forall id | id in Mapped(outs) ensures id in Mapped(r) {
      var j :| 0 <= j < |outs| && IsMapped(outs[j]) && outs[j].surface.value.id == id;
      assert IsMapped(r[j + 1]);
    }
  }

  lemma NewOutputCovers(l: Lock, outputs: seq<nat>, o: LockOutput)
    requires Covers(l, outputs) && Coloured(l) && o.output !in outputs && o.surface.None? && o.red == l.abandoned
    ensures var r := l.(outputs := [o] + l.outputs); Covers(r, [o.output] + outputs) && Coloured(r)
  {
    var outs := [o] + l.outputs;
    assert NoneTwice(outs) by {
      hide Index;
      assert forall j :: 1 <= j < |outs| ==> outs[j] == l.outputs[j - 1] && outs[j].output in outputs;
    }
    hide NoneTwice;
    assert outs[1..] == l.outputs;
  }

  lemma DestroyOutputSafe(l: Lock, outputs: seq<nat>, i: nat)
    requires LockSafe(l, outputs) && i < |l.outputs|
    ensures LockSafe(WithoutOutput(l, i), Without(outputs, l.outputs[i].output))
  {
    hide Refocused, Mapped, Covers, Coloured, OtherMapped;
    RefocusedRight(l, i);
    var r := Refocused(l, i);
    SameLock(l, r, outputs);
    RemovedCovers(r, outputs, i);
    RemovedMapped(r.outputs, i);
  }

  lemma RemovedMapped(outs: seq<LockOutput>, i: nat)
    requires i < |outs|
    ensures Mapped(outs[..i] + outs[i + 1..]) == OtherMapped(outs, i)
  {
    var r := outs[..i] + outs[i + 1..];
    assert forall j :: 0 <= j < |r| ==> r[j] == outs[if j < i then j else j + 1];
    forall id | id in OtherMapped(outs, i) ensures id in Mapped(r) {
      var j :| 0 <= j < |outs| && j != i && IsMapped(outs[j]) && outs[j].surface.value.id == id;
      assert IsMapped(r[if j < i then j else j - 1]);
    }
  }

  lemma RemovedCovers(l: Lock, outputs: seq<nat>, i: nat)
    requires Covers(l, outputs) && Coloured(l) && i < |l.outputs|
    ensures var r := l.(outputs := l.outputs[..i] + l.outputs[i + 1..]);
      Covers(r, Without(outputs, l.outputs[i].output)) && Coloured(r)
  {
    hide Index, NoneTwice;
    var outs := l.outputs[..i] + l.outputs[i + 1..];
    RemovedNoneTwice(l.outputs, i);
    assert forall j :: 0 <= j < |outs| ==> outs[j] == l.outputs[if j < i then j else j + 1];
    forall o | o in outputs && o != l.outputs[i].output ensures Index(outs, o) < |outs| {
      StillIndexed(l.outputs, i, o);
    }
  }

  lemma RemovedNoneTwice(outs: seq<LockOutput>, i: nat)
    requires NoneTwice(outs) && i < |outs|
    ensures NoneTwice(outs[..i] + outs[i + 1..])
    ensures var r := outs[..i] + outs[i + 1..]; forall k :: 0 <= k < |r| ==> r[k].output != outs[i].output
  {
    var r := outs[..i] + outs[i + 1..];
    assert forall k :: 0 <= k < |r| ==> r[k] == outs[if k < i then k else k + 1];
  }

  lemma StillIndexed(outs: seq<LockOutput>, i: nat, o: nat)
    requires i < |outs| && Index(outs, o) < |outs| && o != outs[i].output
    ensures Index(outs[..i] + outs[i + 1..], o) < |outs| - 1
  {
    hide Index;
    var j, rest := Index(outs, o), outs[..i] + outs[i + 1..];
    var k := if j < i then j else j - 1;
    assert rest[k] == outs[j];
    IndexAtMost(rest, o, k);
  }

  lemma {:induction false} IndexAtMost(outs: seq<LockOutput>, o: nat, k: nat)
    requires k < |outs| && outs[k].output == o
    ensures Index(outs, o) <= k
  {
  }

  lemma {:induction false} WithoutDistinct(outputs: seq<nat>, output: nat)
    requires Distinct(outputs)
    ensures Distinct(Without(outputs, output))
  {
    if outputs != [] {
      WithoutDistinct(outputs[1..], output);
      assert outputs[0] !in outputs[1..];
      assert forall k :: 0 <= k < |Without(outputs[1..], output)| ==> Without(outputs[1..], output)[k] in outputs[1..];
    }
  }

  /** Every event keeps the session safe. */
  lemma StepIsSafe(s: State, e: Event)
    requires Safe(s) && Enabled(s, e)
    ensures Safe(Step(s, e))
  {
    hide LockSafe, Refocused;
    match e
    case NewLock(client) => LockCovers(client, s.outputs);
    case Unlock =>
    case Abandon => PaintedSafe(s.lock.value, s.outputs);
    case NewSurface(output, id) => NewSurfaceSafe(s.lock.value, s.outputs, Index(s.lock.value.outputs, output), id);
    case MapSurface(output) =>
      var i := Index(s.lock.value.outputs, output);
      MapSafe(s.lock.value, s.outputs, i, s.lock.value.outputs[i].surface.value.id);
    case DestroySurface(output) => DestroySurfaceSafe(s.lock.value, s.outputs, Index(s.lock.value.outputs, output));
    case NewOutput(output) =>
      if s.lock.Some? {
        NewOutputSafe(s.lock.value, s.outputs, output);
      }
    case DestroyOutput(output) =>
      WithoutDistinct(s.outputs, output);
      if s.lock.Some? {
        assert Index(s.lock.value.outputs, output) < |s.lock.value.outputs| by { CoveredOutput(s, output); }
        DestroyOutputSafe(s.lock.value, s.outputs, Index(s.lock.value.outputs, output));
      }
    case DestroyManager =>
  }

  lemma CoveredOutput(s: State, output: nat)
    requires Safe(s) && s.lock.Some? && output in s.outputs
    ensures Index(s.lock.value.outputs, output) < |s.lock.value.outputs|
  {
  }

  // ----- runs

  predicate CanRun(s: State, events: seq<Event>)
    decreases |events|
  {
    events != [] ==> Enabled(s, events[0]) && CanRun(Step(s, events[0]), events[1..])
  }

  function Run(s: State, events: seq<Event>): State
    requires CanRun(s, events)
    decreases |events|
  {
    if events == [] then s else Run(Step(s, events[0]), events[1..])
  }

  /** In every state that can be reached: each output is covered by one lock output, red just when the lock is
      abandoned, and focus is on a mapped lock surface if there is one, and otherwise on nothing. */
  lemma {:induction false} RunIsSafe(s: State, events: seq<Event>)
    requires Safe(s) && CanRun(s, events)
    ensures Safe(Run(s, events))
    decreases |events|
  {
    hide Safe, Step, Enabled;
    if events != [] {
      StepIsSafe(s, events[0]);
      RunIsSafe(Step(s, events[0]), events[1..]);
    }
  }

  predicate LockedBy(s: State, client: nat, abandoned: bool) {
    s.lock.Some? && s.lock.value.client == client && s.lock.value.abandoned == abandoned
  }

  /** A live lock cannot be taken over: only its own unlock or abandonment, or the end of the manager, ends it. */
  lemma {:induction false} LiveLockStays(s: State, events: seq<Event>, client: nat)
    requires CanRun(s, events) && LockedBy(s, client, false)
    requires forall i :: 0 <= i < |events| ==> !events[i].Unlock? && !events[i].Abandon? && !events[i].DestroyManager?
    ensures LockedBy(Run(s, events), client, false)
    decreases |events|
  {
    if events != [] {
      LiveLockStays(Step(s, events[0]), events[1..], client);
    }
  }

  /** An abandoned lock is never unlocked; it stays until another client locks. */
  lemma {:induction false} AbandonedLockStays(s: State, events: seq<Event>, client: nat)
    requires CanRun(s, events) && LockedBy(s, client, true)
    requires forall i :: 0 <= i < |events| ==> !events[i].NewLock? && !events[i].DestroyManager?
    ensures LockedBy(Run(s, events), client, true)
    ensures forall i :: 0 <= i < |events| ==> !events[i].Unlock?
    decreases |events|
  {
    if events != [] {
      AbandonedLockStays(Step(s, events[0]), events[1..], client);
      assert forall i :: 1 <= i < |events| ==> events[i] == events[1..][i - 1];
    }
  }

  /** A locked session becomes unlocked by exactly two events. */
  lemma WhatUnlocks(s: State, e: Event)
    requires Enabled(s, e) && s.lock.Some?
    ensures Step(s, e).lock.None? <==> e.Unlock? || e.DestroyManager?
    ensures e.Unlock? ==> !s.lock.value.abandoned
    ensures var next := Step(s, e).lock;
      next.Some? && next.value.client != s.lock.value.client ==> e.NewLock? && s.lock.value.abandoned
  {
  }

  /** An output has one lock output. */
  lemma OnlyThere(s: State, output: nat)
    requires Safe(s) && s.lock.Some?
    ensures var outs := s.lock.value.outputs; var i := Index(outs, output);
      i < |outs| ==> forall j :: 0 <= j < |outs| ==> (outs[j].output == output <==> j == i)
  {
    hide Index;
  }

  lemma FocusIsMapped(s: State)
    requires Safe(s) && s.lock.Some?
    ensures var l := s.lock.value;
      && (l.focused == None <==>
          forall i :: 0 <= i < |l.outputs| ==> l.outputs[i].surface.None? || !l.outputs[i].surface.value.mapped)
      && (l.focused.Some? ==>
            exists i :: 0 <= i < |l.outputs| && l.outputs[i].surface == Some(Surface(l.focused.value, true)))
  {
    var l := s.lock.value;
    if l.focused.Some? {
      assert l.focused.value in Mapped(l.outputs);
      var i :| 0 <= i < |l.outputs| && IsMapped(l.outputs[i]) && l.outputs[i].surface.value.id == l.focused.value;
      assert l.outputs[i].surface == Some(Surface(l.focused.value, true));
    }
    MappedAreThere(l.outputs);
  }

  lemma MappedAreThere(outs: seq<LockOutput>)
    ensures forall i :: 0 <= i < |outs| && IsMapped(outs[i]) ==> outs[i].surface.value.id in Mapped(outs)
  {
  }

  lemma RefocusedKeeps(l: Lock, i: nat)
    requires i < |l.outputs|
    ensures var r := Refocused(l, i);
      && r.outputs == l.outputs && r.abandoned == l.abandoned && r.client == l.client
      && (l.outputs[i].surface.Some? && l.focused != Some(l.outputs[i].surface.value.id) ==> r.focused == l.focused)
  {
  }

  /** Locking an unlocked or abandoned session: the new lock is live, covers each output once, and has no surface and no
      focus yet. A live lock is left alone. */
  lemma LockingLocks(s: State, client: nat)
    requires Safe(s)
    ensures Step(s, NewLock(client)).outputs == s.outputs
    ensures var r := Step(s, NewLock(client));
      if s.lock.Some? && !s.lock.value.abandoned then r == s
      else
        && r.lock.Some? && r.lock.value.client == client && !r.lock.value.abandoned && r.lock.value.focused == None
        && |r.lock.value.outputs| == |s.outputs|
        && (forall i :: 0 <= i < |s.outputs| ==>
              r.lock.value.outputs[i].surface == None && !r.lock.value.outputs[i].red)
        && (forall o :: o in s.outputs <==> exists i :: 0 <= i < |s.outputs| && r.lock.value.outputs[i].output == o)
        && forall i, j :: 0 <= i < j < |s.outputs| ==> r.lock.value.outputs[i].output != r.lock.value.outputs[j].output
  {
    StepIsSafe(s, NewLock(client));
    if !(s.lock.Some? && !s.lock.value.abandoned) {
      var outs := Step(s, NewLock(client)).lock.value.outputs;
      forall o | o in s.outputs ensures exists i :: 0 <= i < |s.outputs| && outs[i].output == o {
        var k :| 0 <= k < |s.outputs| && s.outputs[k] == o;
        assert outs[|s.outputs| - 1 - k].output == o;
      }
    }
  }

  /** From then on, over every run without an unlock and the end of the manager, input is for the attached lock surfaces
      alone. */
  lemma {:induction false} InputWhileLocked(s: State, events: seq<Event>, id: nat)
    requires s.lock.Some? && CanRun(s, events)
    requires forall i :: 0 <= i < |events| ==> !events[i].Unlock? && !events[i].DestroyManager?
    ensures Run(s, events).lock.Some?
    ensures var r := Run(s, events);
      InputAllowed(r, id) <==>
      exists i :: 0 <= i < |r.lock.value.outputs| && r.lock.value.outputs[i].surface.Some?
        && r.lock.value.outputs[i].surface.value.id == id
    decreases |events|
  {
    hide InputAllowed, Attached;
    if events == [] {
      AllowedIfAttached(s, id);
    } else {
      WhatUnlocks(s, events[0]);
      assert forall i :: 0 <= i < |events| - 1 ==> events[1..][i] == events[i + 1];
      InputWhileLocked(Step(s, events[0]), events[1..], id);
    }
  }

  lemma AllowedIfAttached(s: State, id: nat)
    requires s.lock.Some?
    ensures InputAllowed(s, id) <==>
      exists i :: 0 <= i < |s.lock.value.outputs| && s.lock.value.outputs[i].surface.Some?
        && s.lock.value.outputs[i].surface.value.id == id
  {
  }

  /** Without a lock it is for all. */
  lemma InputWhileUnlocked(s: State, id: nat)
    ensures s.lock.None? ==> InputAllowed(s, id)
  {
  }

  /** seat_is_input_allowed */
  predicate InputAllowed(s: State, id: nat) {
    s.lock.Some? ==> Attached(s.lock.value.outputs, id)
  }

  /** Whatever has the focus of a locked session may have input. */
  lemma FocusMayHaveInput(s: State)
    requires Safe(s) && s.lock.Some? && s.lock.value.focused.Some?
    ensures InputAllowed(s, s.lock.value.focused.value)
  {
    var l := s.lock.value;
    assert l.focused.value in Mapped(l.outputs);
  }
}
