/** The handlers of sway/lock.c, on a lock object and its list of lock outputs. */
module SessionLock {
  import opened Common
  import opened LockSpec

  /** struct sway_session_lock */
  class SwayLock {
    const client: nat
    var outputs: seq<LockOutput>
    var focused: Option<nat>
    var abandoned: bool

    constructor (client: nat)
      ensures this.client == client && outputs == [] && focused == None && !abandoned
    {
      this.client, outputs, focused, abandoned := client, [], None, false;
    }

    function View(): Lock
      reads this
    {
      Lock(client, outputs, focused, abandoned)
    }

    method FindOutput(output: nat) returns (i: nat)
      ensures i == Index(outputs, output)
    {
      i := 0;
      while i < |outputs| && outputs[i].output != output
        invariant i <= |outputs|
        invariant forall j :: 0 <= j < i ==> outputs[j].output != output
      {
        i := i + 1;
      }
      FirstIndex(outputs, output, i);
    }

    /** refocus_output, for a lock output that has a surface. */
    method RefocusOutput(i: nat)
      requires i < |outputs| && outputs[i].surface.Some?
      modifies this`focused
      ensures View() == Refocused(old(View()), i)
    {
      if focused == Some(outputs[i].surface.value.id) {
        var nextFocus := None;
        var k := 0;
        while k < |outputs|
          invariant k <= |outputs|
          invariant nextFocus == None && FirstMapped(outputs, i, k) == FirstMapped(outputs, i, 0)
        {
          if k != i && outputs[k].surface.Some? && outputs[k].surface.value.mapped {
            nextFocus := Some(outputs[k].surface.value.id);
            break;
          }
          k := k + 1;
        }
        focused := nextFocus;
      }
    }

    /** sway_session_lock_output_destroy */
    method DestroyOutput(i: nat)
      requires i < |outputs|
      modifies this
      ensures View() == WithoutOutput(old(View()), i)
    {
      if outputs[i].surface.Some? {
        RefocusOutput(i);
      }
      outputs := outputs[..i] + outputs[i + 1..];
    }

    /** sway_session_lock_add_output */
    method AddOutput(output: nat)
      modifies this`outputs
      ensures outputs == [LockOutput(output, None, abandoned)] + old(outputs)
    {
      outputs := [LockOutput(output, None, abandoned)] + outputs;
    }
  }

  lemma FirstIndex(outs: seq<LockOutput>, output: nat, i: nat)
    requires i <= |outs| && (i < |outs| ==> outs[i].output == output)
    requires forall j :: 0 <= j < i ==> outs[j].output != output
    ensures Index(outs, output) == i
  {
  }

  class Server {
    var lock: SwayLock?          // session_lock.lock
    var allOutputs: seq<nat>     // root->all_outputs

    constructor ()
      ensures View() == State(None, []) && Safe(View())
    {
      lock, allOutputs := null, [];
    }

    function View(): State
      reads this, if lock == null then {} else {lock}
    {
      State(if lock == null then None else Some(lock.View()), allOutputs)
    }

    /** sway_session_lock_destroy: its outputs go one by one, and focus moves on each time. */
    method DestroyLock()
      requires lock != null
      modifies this`lock, lock
      ensures lock == null
    {
      while |lock.outputs| > 0
        invariant lock == old(lock)
        decreases |lock.outputs|
      {
        lock.DestroyOutput(0);
      }
      lock := null;
    }

    method HandleSessionLock(client: nat) returns (accepted: bool)
      requires Safe(View())
      modifies this`lock, if lock == null then {} else {lock}
      ensures View() == Step(old(View()), NewLock(client)) && Safe(View())
      ensures accepted <==> old(lock == null || lock.abandoned)
      ensures !accepted ==> lock == old(lock)
      ensures accepted ==>
        && lock != null && lock.client == client && !lock.abandoned && lock.focused == None
        && |lock.outputs| == |allOutputs|
        && (forall i :: 0 <= i < |lock.outputs| ==> lock.outputs[i].surface == None && !lock.outputs[i].red)
        && (forall o :: o in allOutputs <==> exists i :: 0 <= i < |lock.outputs| && lock.outputs[i].output == o)
    {
      hide Safe, Covering;
      StepIsSafe(View(), NewLock(client));
      LockingLocks(View(), client);
      if lock != null {
        if lock.abandoned {
          DestroyLock();
        } else {
          return false;
        }
      }
      lock := CreateLock(client);
      return true;
    }

    method CreateLock(client: nat) returns (created: SwayLock)
      ensures fresh(created) && created.View() == Lock(client, Covering(allOutputs), None, false)
    {
      created := new SwayLock(client);
      for k := 0 to |allOutputs|
        invariant fresh(created) && created.View() == Lock(client, Covering(allOutputs[..k]), None, false)
      {
        assert allOutputs[..k + 1][..k] == allOutputs[..k];
        created.AddOutput(allOutputs[k]);
      }
      assert allOutputs[..|allOutputs|] == allOutputs;
    }

    method HandleUnlock()
      requires Safe(View()) && Enabled(View(), Unlock)
      modifies this`lock, lock
      ensures View() == Step(old(View()), Unlock) && Safe(View())
      ensures lock == null
    {
      hide Safe;
      StepIsSafe(View(), Unlock);
      DestroyLock();
    }

    method HandleAbandon()
      requires Safe(View()) && Enabled(View(), Abandon)
      modifies lock
      ensures View() == Step(old(View()), Abandon) && Safe(View())
      ensures lock.abandoned && lock.focused == old(lock.focused) && |lock.outputs| == |old(lock.outputs)|
      ensures forall i :: 0 <= i < |lock.outputs| ==> lock.outputs[i] == old(lock.outputs)[i].(red := true)
    {
      hide Safe;
      StepIsSafe(View(), Abandon);
      ghost var before := lock.outputs;
      for k := 0 to |lock.outputs|
        invariant |lock.outputs| == |before| && lock.View() == old(lock.View()).(outputs := lock.outputs)
        invariant forall j :: 0 <= j < |before| ==>
          lock.outputs[j] == if j < k then before[j].(red := true) else before[j]
      {
        lock.outputs := lock.outputs[k := lock.outputs[k].(red := true)];
      }
      assert lock.outputs == Painted(before);
      lock.abandoned := true;
    }

    method HandleNewSurface(output: nat, id: nat)
      requires Safe(View()) && Enabled(View(), NewSurface(output, id))
      modifies lock
      ensures View() == Step(old(View()), NewSurface(output, id)) && Safe(View())
      ensures lock.focused == old(lock.focused) && lock.abandoned == old(lock.abandoned)
      ensures |lock.outputs| == |old(lock.outputs)|
      ensures forall i :: 0 <= i < |lock.outputs| ==>
        lock.outputs[i] == var o := old(lock.outputs)[i];
                           if o.output == output then o.(surface := Some(Surface(id, false))) else o
    {
      hide Safe, Index;
      StepIsSafe(View(), NewSurface(output, id));
      OnlyThere(View(), output);
      var i := lock.FindOutput(output);
      lock.outputs := Changed(lock.outputs, i, Some(Surface(id, false)));
    }

    /** The listener knows its lock output; here it is found by the output. */
    method HandleSurfaceMap(output: nat)
      requires Safe(View()) && Enabled(View(), MapSurface(output))
      modifies lock
      ensures View() == Step(old(View()), MapSurface(output)) && Safe(View())
      ensures lock.abandoned == old(lock.abandoned) && |lock.outputs| == |old(lock.outputs)|
      ensures forall i :: 0 <= i < |lock.outputs| ==>
        var o := old(lock.outputs)[i];
        if o.output != output then lock.outputs[i] == o
        else
          && o.surface.Some? && lock.outputs[i] == o.(surface := Some(Surface(o.surface.value.id, true)))
          && lock.focused == if old(lock.focused) == None then Some(o.surface.value.id) else old(lock.focused)
    {
      hide Safe, Index;
      StepIsSafe(View(), MapSurface(output));
      OnlyThere(View(), output);
      var i := lock.FindOutput(output);
      var id := lock.outputs[i].surface.value.id;
      lock.outputs := Changed(lock.outputs, i, Some(Surface(id, true)));
      if lock.focused == None {
        lock.focused := Some(id);
      }
    }

    method HandleSurfaceDestroy(output: nat)
      requires Safe(View()) && Enabled(View(), DestroySurface(output))
      modifies lock
      ensures View() == Step(old(View()), DestroySurface(output)) && Safe(View())
      ensures lock.abandoned == old(lock.abandoned) && |lock.outputs| == |old(lock.outputs)|
      ensures forall i :: 0 <= i < |lock.outputs| ==>
        var o := old(lock.outputs)[i];
        if o.output != output then lock.outputs[i] == o
        else
          && o.surface.Some? && lock.outputs[i] == o.(surface := None)
          && (old(lock.focused) != Some(o.surface.value.id) ==> lock.focused == old(lock.focused))
      ensures lock.focused == None <==>
        forall i :: 0 <= i < |lock.outputs| ==> lock.outputs[i].surface.None? || !lock.outputs[i].surface.value.mapped
      ensures lock.focused.Some? ==>
        exists i :: 0 <= i < |lock.outputs| && lock.outputs[i].surface == Some(Surface(lock.focused.value, true))
    {
      hide Safe, Index, Refocused;
      StepIsSafe(View(), DestroySurface(output));
      OnlyThere(View(), output);
      RefocusedKeeps(lock.View(), Index(lock.outputs, output));
      var i := lock.FindOutput(output);
      lock.RefocusOutput(i);
      lock.outputs := Changed(lock.outputs, i, None);
      FocusIsMapped(View());
    }

    method HandleNewOutput(output: nat)
      requires Safe(View()) && Enabled(View(), NewOutput(output))
      modifies this`allOutputs, if lock == null then {} else {lock}
      ensures View() == Step(old(View()), NewOutput(output)) && Safe(View())
      ensures allOutputs == [output] + old(allOutputs) && lock == old(lock)
      ensures lock != null ==>
        && lock.outputs == [LockOutput(output, None, lock.abandoned)] + old(lock.outputs)
        && lock.focused == old(lock.focused) && lock.abandoned == old(lock.abandoned)
    {
      hide Safe;
      StepIsSafe(View(), NewOutput(output));
      allOutputs := [output] + allOutputs;
      if lock != null {
        lock.AddOutput(output);
      }
    }

    /** The output goes, and the scene tree of its lock output with it. */
    method HandleOutputDestroy(output: nat)
      requires Safe(View()) && Enabled(View(), DestroyOutput(output))
      modifies this`allOutputs, if lock == null then {} else {lock}
      ensures View() == Step(old(View()), DestroyOutput(output)) && Safe(View())
    {
      hide Safe, Index, WithoutOutput;
      StepIsSafe(View(), DestroyOutput(output));
      if lock != null {
        var i := lock.FindOutput(output);
        if i < |lock.outputs| {
          lock.DestroyOutput(i);
        }
      }
      allOutputs := Without(allOutputs, output);
    }

    method HandleSessionLockDestroy()
      requires Safe(View())
      modifies this`lock, if lock == null then {} else {lock}
      ensures View() == Step(old(View()), DestroyManager) && Safe(View())
      ensures lock == null
    {
      hide Safe;
      StepIsSafe(View(), DestroyManager);
      if lock != null {
        DestroyLock();
      }
    }

    /** sway_session_lock_has_surface, as seat_is_input_allowed asks it. */
    method IsInputAllowed(id: nat) returns (allowed: bool)
      ensures allowed == InputAllowed(View(), id)
      ensures allowed <==>
        || lock == null
        || exists i ::
             0 <= i < |lock.outputs| && lock.outputs[i].surface.Some? && lock.outputs[i].surface.value.id == id
    {
      if lock == null {
        return true;
      }
      for k := 0 to |lock.outputs|
        invariant forall j :: 0 <= j < k ==> !(lock.outputs[j].surface.Some? && lock.outputs[j].surface.value.id == id)
      {
        if lock.outputs[k].surface.Some? && lock.outputs[k].surface.value.id == id {
          return true;
        }
      }
      return false;
    }
  }
}
