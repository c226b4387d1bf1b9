/**
 * The `FSM` class: a current state, a one-slot undo buffer (`history`), a
 * one-slot redo buffer (`reHistory`) and a sticky error latch (`isError`).
 * Each operation is a pure step from one machine value to the next; the ones
 * that may throw also return an `Outcome`.
 */
module Fsm {
  import opened Wrappers
  import opened StateConfig

  /** The reasons a call throws. The source throws a bare `Error` at each site. */
  datatype Error =
    | InvalidConfig   // constructed without a configuration
    | UnknownState    // `changeState` to a name that is not configured
    | NoTransition    // `trigger` of an event no state defines; latches the machine
    | MachineInError  // `trigger` after the latch is set

  /**
   * A machine. `states` is the configuration's state table, which no
   * operation changes; `current` is the active state, which the source
   * keeps in `config.initial`.
   */
  datatype Machine = Machine(
    states: seq<Entry>,
    current: Name,
    history: Option<Name>,
    reHistory: Option<Name>,
    isError: bool)

  /** The state name `reset` moves to, configured or not. */
  const ResetState: Name := "normal"

  /** The constructor: fails without a configuration, otherwise starts at its initial state with no history. */
  function Create(config: Option<Config>): (r: Result<Machine, Error>)
    ensures config.None? <==> r.Failure?
    ensures r.Failure? ==> r.error == InvalidConfig
    ensures r.Success? ==>
              && GetState(r.value) == config.value.initial
              && r.value.states == config.value.states
              && r.value.history.None? && r.value.reHistory.None?
              && !r.value.isError
  {
    match config
    case None => Failure(InvalidConfig)
    case Some(c) => Success(Machine(c.states, c.initial, None, None, false))
  }

  /** The active state. */
  function GetState(m: Machine): Name {
    m.current
  }

  /**
   * Goes to `target` if it is a configured state. The redo slot is cleared
   * before the lookup, so it is empty even when the call fails.
   */
  function ChangeState(m: Machine, target: Name): (r: (Outcome<Error>, Machine))
    ensures r.1.reHistory.None?
    ensures r.1.states == m.states && r.1.isError == m.isError
    ensures r.0.Pass? <==> Configured(m.states, target)
    ensures r.0.Pass? ==> r.1.current == target && r.1.history == Some(m.current)
    ensures r.0.Fail? ==> r.0.error == UnknownState && r.1.current == m.current && r.1.history == m.history
  {
    var cleared := m.(reHistory := None);
    if target in Names(m.states) then
      (Pass, cleared.(history := Some(m.current), current := target))
    else
      (Fail(UnknownState), cleared)
  }

  /**
   * Applies `event`. The redo slot is cleared first; a latched machine fails
   * at once. Otherwise the target is taken from the first state in key order
   * that defines `event` -- whichever state that is, not necessarily the
   * current one. When none defines it, the latch is set and the call fails.
   */
  function Trigger(m: Machine, event: Name): (r: (Outcome<Error>, Machine))
    ensures r.1.reHistory.None? && r.1.states == m.states
    ensures m.isError ==>
              r.0 == Fail(MachineInError) && r.1.isError
              && r.1.current == m.current && r.1.history == m.history
    ensures !m.isError && (forall i :: 0 <= i < |m.states| ==> !Defines(m.states[i], event)) ==>
              r.0 == Fail(NoTransition) && r.1.isError
              && r.1.current == m.current && r.1.history == m.history
    ensures !m.isError && r.0.Pass? ==> !r.1.isError && r.1.history == Some(m.current)
    ensures r.0.Pass? <==> !m.isError && exists i :: 0 <= i < |m.states| && Defines(m.states[i], event)
    ensures r.0.Pass? ==>
              exists i :: 0 <= i < |m.states| && Defines(m.states[i], event)
                          && (forall j :: 0 <= j < i ==> !Defines(m.states[j], event))
                          && r.1.current == m.states[i].def.transitions[event]
  {
    var cleared := m.(reHistory := None);
    if m.isError then
      (Fail(MachineInError), cleared)
    else
      match FirstDefining(m.states, event)
      case None =>
        (Fail(NoTransition), cleared.(isError := true))
      case Some(i) =>
        (Pass, cleared.(history := Some(m.current), current := m.states[i].def.transitions[event]))
  }

  /** Moves to `"normal"` whether or not such a state is configured; nothing else changes. */
  function Reset(m: Machine): (r: Machine)
    ensures GetState(r) == ResetState
    ensures r.states == m.states && r.history == m.history
    ensures r.reHistory == m.reHistory && r.isError == m.isError
  {
    m.(current := ResetState)
  }

  /**
   * With no event, all state names in key order; with an event, the names of
   * the states that define it, in the same order. Reads only.
   */
  function GetStates(m: Machine, event: Option<Name>): (r: seq<Name>)
    ensures event.None? ==> |r| == |m.states| && forall i :: 0 <= i < |r| ==> r[i] == m.states[i].name
    ensures event.Some? ==>
              forall k :: 0 <= k < |r| ==>
                exists i :: 0 <= i < |m.states| && m.states[i].name == r[k] && Defines(m.states[i], event.value)
  {
    match event
    case None => Names(m.states)
    case Some(e) =>
      var names := NamesDefining(m.states, e);
      assert forall k :: 0 <= k < |names| ==>
               exists i :: 0 <= i < |m.states| && m.states[i].name == names[k] && Defines(m.states[i], e);
      names
  }

  /**
   * Steps back to the undo slot. Without one, returns false and changes
   * nothing; otherwise the state left goes into the redo slot and the undo
   * slot is emptied.
   */
  function Undo(m: Machine): (r: (bool, Machine))
    ensures r.0 <==> m.history.Some?
    ensures !r.0 ==> r.1 == m
    ensures r.0 ==>
              && GetState(r.1) == m.history.value
              && r.1.history.None?
              && r.1.reHistory == Some(m.current)
              && r.1.states == m.states && r.1.isError == m.isError
  {
    match m.history
    case None => (false, m)
    case Some(h) => (true, m.(reHistory := Some(m.current), current := h, history := None))
  }

  /**
   * Steps forward to the redo slot. Without one, returns false and changes
   * nothing; otherwise the undo slot is set to the state just entered (not
   * the one left) and the redo slot is emptied.
   */
  function Redo(m: Machine): (r: (bool, Machine))
    ensures r.0 <==> m.reHistory.Some?
    ensures !r.0 ==> r.1 == m
    ensures r.0 ==>
              && GetState(r.1) == m.reHistory.value
              && r.1.history == Some(GetState(r.1))
              && r.1.reHistory.None?
              && r.1.states == m.states && r.1.isError == m.isError
  {
    match m.reHistory
    case None => (false, m)
    case Some(n) => (true, m.(current := n, history := Some(n), reHistory := None))
  }

  /** Empties both history slots; nothing else changes. */
  function ClearHistory(m: Machine): (r: Machine)
    ensures r.history.None? && r.reHistory.None?
    ensures r.states == m.states && r.current == m.current && r.isError == m.isError
  {
    m.(history := None, reHistory := None)
  }
}
