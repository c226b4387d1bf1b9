/**
 * Properties that relate several calls of the `FSM` class: undo/redo round
 * trips, the sticky error latch over any sequence of calls, what `trigger`
 * depends on, and when the active state stays a configured one.
 */
module FsmLaws {
  import opened Wrappers
  import opened StateConfig
  import opened Fsm

  /** The state-changing calls a client can make, arguments included. */
  datatype Call =
    | ChangeStateCall(target: Name)
    | TriggerCall(event: Name)
    | ResetCall
    | UndoCall
    | RedoCall
    | ClearHistoryCall

  /** The machine after one call, whether or not the call threw. */
  function Apply(m: Machine, call: Call): Machine {
    match call
    case ChangeStateCall(t) => ChangeState(m, t).1
    case TriggerCall(e) => Trigger(m, e).1
    case ResetCall => Reset(m)
    case UndoCall => Undo(m).1
    case RedoCall => Redo(m).1
    case ClearHistoryCall => ClearHistory(m)
  }

  /** The machine after a sequence of calls, first call first. */
  function Run(m: Machine, calls: seq<Call>): Machine
    decreases |calls|
  {
    if calls == [] then m else Run(Apply(m, calls[0]), calls[1..])
  }

  /** A trigger call of an event that no configured state defines. */
  predicate Unmatched(states: seq<Entry>, call: Call) {
    call.TriggerCall? && forall i :: 0 <= i < |states| ==> !Defines(states[i], call.event)
  }

  // ---------------------------------------------------------------- undo/redo

  /** After a successful `changeState`, `undo` succeeds once and restores the prior state. */
  lemma ChangeStateThenUndo(m: Machine, target: Name)
    requires Configured(m.states, target)
    ensures Undo(ChangeState(m, target).1).0
    ensures GetState(Undo(ChangeState(m, target).1).1) == GetState(m)
    ensures !Undo(Undo(ChangeState(m, target).1).1).0
  {
  }

  /** After a successful `trigger`, `undo` succeeds and restores the prior state. */
  lemma TriggerThenUndo(m: Machine, event: Name)
    requires Trigger(m, event).0.Pass?
    ensures Undo(Trigger(m, event).1).0
    ensures GetState(Undo(Trigger(m, event).1).1) == GetState(m)
  {
  }

  /** `undo` then `redo` returns to the state held just before the `undo`. */
  lemma UndoThenRedo(m: Machine)
    requires Undo(m).0
    ensures Redo(Undo(m).1).0
    ensures GetState(Redo(Undo(m).1).1) == GetState(m)
  {
  }

  /**
   * `redo` re-arms the undo slot with the state it moved to, so an immediate
   * `undo` reports success but leaves the active state where it is.
   */
  lemma RedoThenUndoStays(m: Machine)
    requires Redo(m).0
    ensures Undo(Redo(m).1).0
    ensures GetState(Undo(Redo(m).1).1) == GetState(Redo(m).1)
  {
  }

  /** `changeState` and `trigger` clear the redo slot even when they throw, so `redo` is then unavailable. */
  lemma NoRedoAfterChange(m: Machine, target: Name, event: Name)
    ensures Redo(ChangeState(m, target).1) == (false, ChangeState(m, target).1)
    ensures Redo(Trigger(m, event).1) == (false, Trigger(m, event).1)
  {
  }

  /** After `clearHistory` neither `undo` nor `redo` is available. */
  lemma ClearHistoryDisablesUndoRedo(m: Machine)
    ensures Undo(ClearHistory(m)) == (false, ClearHistory(m))
    ensures Redo(ClearHistory(m)) == (false, ClearHistory(m))
  {
  }

  /**
   * Only `undo` fills the redo slot, so while no `undo` is called an empty
   * redo slot stays empty and `redo` keeps returning false.
   */
  lemma {:induction false} RedoNeedsUndo(m: Machine, calls: seq<Call>)
    requires m.reHistory.None?
    requires forall k :: 0 <= k < |calls| ==> !calls[k].UndoCall?
    ensures Run(m, calls).reHistory.None?
    ensures !Redo(Run(m, calls)).0
    decreases |calls|
  {
    if calls != [] {
      assert forall k :: 0 <= k < |calls| - 1 ==> calls[1..][k] == calls[k + 1];
      RedoNeedsUndo(Apply(m, calls[0]), calls[1..]);
    }
  }

  /**
   * After a `changeState` or `trigger`, thrown or not, `redo` returns false
   * until an `undo` has been called.
   */
  lemma NoRedoUntilUndo(m: Machine, calls: seq<Call>)
    requires calls != [] && (calls[0].ChangeStateCall? || calls[0].TriggerCall?)
    requires forall k :: 0 < k < |calls| ==> !calls[k].UndoCall?
    ensures !Redo(Run(m, calls)).0
  {
    assert forall k :: 0 <= k < |calls| - 1 ==> calls[1..][k] == calls[k + 1];
    RedoNeedsUndo(Apply(m, calls[0]), calls[1..]);
  }

  // ---------------------------------------------------------------- getStates

  /**
   * `getStates(event)` lists exactly the configured names whose transitions
   * define `event`, in configuration order: an order-preserving subsequence
   * of `getStates()`, without repeats when the names are unique.
   */
  lemma GetStatesFilter(m: Machine, event: Name)
    ensures IsSubsequence(GetStates(m, Some(event)), GetStates(m, None))
    ensures forall x :: x in GetStates(m, Some(event)) <==>
              exists i :: 0 <= i < |m.states| && m.states[i].name == x && Defines(m.states[i], event)
    ensures UniqueNames(m.states) ==>
              forall a, b :: 0 <= a < b < |GetStates(m, Some(event))| ==>
                GetStates(m, Some(event))[a] != GetStates(m, Some(event))[b]
  {
    NamesDefiningIsSubsequence(m.states, event);
    forall i | 0 <= i < |m.states| && Defines(m.states[i], event) {
      NamesDefiningComplete(m.states, event, i);
    }
    if UniqueNames(m.states) {
      NamesDefiningUnique(m.states, event);
    }
  }

  // ------------------------------------------------------------------ trigger

  /**
   * Where `trigger` goes does not depend on the active state: two machines
   * that differ only in their active state and history end up in the same
   * state with the same outcome.
   */
  lemma TriggerIgnoresCurrent(m1: Machine, m2: Machine, event: Name)
    requires m1.states == m2.states && m1.isError == m2.isError
    ensures Trigger(m1, event).0 == Trigger(m2, event).0
    ensures Trigger(m1, event).0.Pass? ==> GetState(Trigger(m1, event).1) == GetState(Trigger(m2, event).1)
  {
  }

  /**
   * On an unlatched machine `trigger` succeeds exactly when `getStates(event)`
   * is non-empty, and it takes the transition of the first state listed there.
   */
  lemma TriggerFollowsGetStates(m: Machine, event: Name)
    requires !m.isError
    ensures Trigger(m, event).0.Pass? <==> GetStates(m, Some(event)) != []
    ensures Trigger(m, event).0.Pass? ==>
              exists i :: 0 <= i < |m.states| && Defines(m.states[i], event)
                          && m.states[i].name == GetStates(m, Some(event))[0]
                          && GetState(Trigger(m, event).1) == m.states[i].def.transitions[event]
  {
    FirstDefiningHeadsNamesDefining(m.states, event);
  }

  // -------------------------------------------------------------- the latch

  /** One call sets the latch exactly when it is a trigger no state defines; nothing clears it. */
  lemma ApplyLatch(m: Machine, call: Call)
    ensures Apply(m, call).isError <==> m.isError || Unmatched(m.states, call)
    ensures Apply(m, call).states == m.states
  {
  }

  /**
   * Over any sequence of calls the latch ends up set exactly when it was set
   * at the start or some call triggered an event no configured state defines.
   */
  lemma {:induction false} RunLatch(m: Machine, calls: seq<Call>)
    ensures Run(m, calls).states == m.states
    ensures Run(m, calls).isError <==>
              m.isError || exists k :: 0 <= k < |calls| && Unmatched(m.states, calls[k])
    decreases |calls|
  {
    if calls != [] {
      var m' := Apply(m, calls[0]);
      ApplyLatch(m, calls[0]);
      RunLatch(m', calls[1..]);
      assert forall k :: 0 <= k < |calls| - 1 ==> calls[1..][k] == calls[k + 1];
      if (exists k :: 0 <= k < |calls| && Unmatched(m.states, calls[k])) && !Unmatched(m.states, calls[0]) {
        var k :| 0 <= k < |calls| && Unmatched(m.states, calls[k]);
        assert Unmatched(m'.states, calls[1..][k - 1]);
      }
    }
  }

  /**
   * Once latched, whatever calls follow, every further `trigger` fails with
   * the machine already in error, and leaves the active state and undo slot alone.
   */
  lemma LatchIsSticky(m: Machine, calls: seq<Call>, event: Name)
    requires m.isError
    ensures Run(m, calls).isError
    ensures Trigger(Run(m, calls), event).0 == Fail(MachineInError)
    ensures GetState(Trigger(Run(m, calls), event).1) == GetState(Run(m, calls))
    ensures Trigger(Run(m, calls), event).1.history == Run(m, calls).history
  {
    RunLatch(m, calls);
  }

  // ------------------------------------------------- staying in configured states

  /** Every transition target and the reset state are configured names. */
  predicate Closed(states: seq<Entry>) {
    && Configured(states, ResetState)
    && forall i, e :: 0 <= i < |states| && e in states[i].def.transitions ==>
         Configured(states, states[i].def.transitions[e])
  }

  /** The active state and both history slots hold configured names. */
  predicate InConfiguredStates(m: Machine) {
    && Configured(m.states, m.current)
    && (m.history.Some? ==> Configured(m.states, m.history.value))
    && (m.reHistory.Some? ==> Configured(m.states, m.reHistory.value))
  }

  /** One call keeps a machine over a closed configuration within its configured states. */
  lemma ApplyStaysConfigured(m: Machine, call: Call)
    requires Closed(m.states) && InConfiguredStates(m)
    ensures InConfiguredStates(Apply(m, call))
  {
  }

  /**
   * Over a closed configuration, a machine that starts in a configured state
   * stays in configured states through any sequence of calls.
   */
  lemma {:induction false} RunStaysConfigured(m: Machine, calls: seq<Call>)
    requires Closed(m.states) && InConfiguredStates(m)
    ensures InConfiguredStates(Run(m, calls))
    decreases |calls|
  {
    if calls != [] {
      ApplyStaysConfigured(m, calls[0]);
      ApplyLatch(m, calls[0]);
      RunStaysConfigured(Apply(m, calls[0]), calls[1..]);
    }
  }

  /**
   * A machine built from a configuration whose initial state is configured
   * starts within its configured states, so `RunStaysConfigured` applies
   * from construction on.
   */
  lemma CreateStartsConfigured(c: Config)
    requires Configured(c.states, c.initial)
    ensures Create(Some(c)).Success?
    ensures InConfiguredStates(Create(Some(c)).value)
  {
  }

  /**
   * Without a closed configuration that fails: a successful `trigger` can
   * move to a target that is not a configured state.
   */
  lemma TriggerCanLeaveConfiguredStates()
    ensures var m := Machine([Entry("normal", StateDef(map["go" := "elsewhere"]))], "normal", None, None, false);
            && Trigger(m, "go").0.Pass?
            && !Configured(m.states, GetState(Trigger(m, "go").1))
  {
  }

  /** The pause/resume walk-through: construct, trigger, undo, redo. */
  lemma PauseResumeExample()
    ensures var states := [Entry("normal", StateDef(map["pause" := "busy"])),
                           Entry("busy", StateDef(map["resume" := "normal"]))];
            var c := Create(Some(Config("normal", states)));
            && c.Success? && GetState(c.value) == "normal"
            && var t := Trigger(c.value, "pause");
            && t.0.Pass? && GetState(t.1) == "busy"
            && var u := Undo(t.1);
            && u.0 && GetState(u.1) == "normal"
            && var r := Redo(u.1);
            && r.0 && GetState(r.1) == "busy"
  {
  }
}
