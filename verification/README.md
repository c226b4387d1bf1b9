# Finite-state machine: a Dafny model

This project models the `FSM` class of `src/fsm.js`, a small event-driven
state machine. A machine is built from a configuration
`{ initial, states: { <name>: { transitions: { <event>: <target> } } } }`.
It keeps:

- an active state,
- a one-slot undo buffer (`history`),
- a one-slot redo buffer (`reHistory`),
- a sticky error latch (`isError`).

It offers `getState`, `changeState`, `trigger`, `reset`, `getStates`, `undo`,
`redo` and `clearHistory`.

The model is functional. A `Machine` is an immutable record, and each call is
a pure function from one machine to the next. Calls that throw in the source
also return an `Outcome`: `Pass`, or `Fail` with the reason. The `states`
object is a sequence of `Entry(name, StateDef(transitions))` values in key
order, so the order in which the source's `for...in` loops visit the keys is
explicit.

Files:

- `wrappers.dfy` (module `Wrappers`): the `Option`, `Result` and `Outcome` types.
- `config.dfy` (module `StateConfig`): the configuration and the scans over its states.
- `fsm.dfy` (module `Fsm`): the machine and its eight operations.
- `laws.dfy` (module `FsmLaws`): properties that relate several calls, including over any sequence of calls.

The model keeps the source's quirks rather than correcting them:

- `trigger` takes the first state in key order whose transitions define the event, whichever state is active.
- `redo` sets the undo slot to the state it has just moved to.
- `reset` moves to the literal name `"normal"`, configured or not.

Two consequences of the code that the model makes explicit:

- The active state can leave the configured states. The code never checks `trigger` targets (src/fsm.js:52) or `"normal"` in `reset` (line 64). So the model proves that the active state stays configured only for a closed configuration (`FsmLaws.RunStaysConfigured`), and it exhibits the escape (`FsmLaws.TriggerCanLeaveConfiguredStates`).
- The code throws a bare `Error` at every site. The model's `Error` values name the throw sites: `InvalidConfig` (line 8), `UnknownState` (line 37), `MachineInError` (line 47) and `NoTransition` (line 57).

## Model

| member | source | states |
|---|---|---|
| `Fsm.Create` | src/fsm.js:6-22 | Without a configuration, construction fails. Otherwise the new machine's `getState()` is the configured initial state. Both history slots are empty and the latch is clear. |
| `Fsm.GetState` | src/fsm.js:20-22 | Returns the active state. |
| `Fsm.ChangeState` | src/fsm.js:28-38 | Succeeds exactly when the target is a configured state name. On success the target becomes active and the undo slot holds the prior state. On failure it throws `UnknownState` and keeps the active state and undo slot. The redo slot is empty either way. The latch is never touched. |
| `Fsm.Trigger` | src/fsm.js:44-58 | Always empties the redo slot. A latched machine fails with `MachineInError` and keeps the active state and undo slot. If no state defines the event, it latches and fails with `NoTransition`. Otherwise it succeeds. The new state is the target of the first state in key order that defines the event, and the undo slot holds the prior state. |
| `Fsm.Reset` | src/fsm.js:63-65 | The active state becomes `"normal"`. Both history slots and the latch are unchanged. |
| `Fsm.GetStates` | src/fsm.js:73-84 | With no event, lists every state name in key order. With an event, every listed name belongs to a state that defines it. |
| `Fsm.Undo` | src/fsm.js:91-101 | Returns true exactly when the undo slot is filled. With it empty, nothing changes. Otherwise the slot's state becomes active, the state left goes into the redo slot, and the undo slot is emptied. |
| `Fsm.Redo` | src/fsm.js:108-118 | Returns true exactly when the redo slot is filled. With it empty, nothing changes. Otherwise the slot's state becomes active, the undo slot is set to that same new state, and the redo slot is emptied. |
| `Fsm.ClearHistory` | src/fsm.js:123-126 | Empties both history slots. The active state, latch and configuration are unchanged. |
| `StateConfig.Names` | src/fsm.js:83 | `Object.keys(states)`: one name per state, position by position in key order. |
| `StateConfig.FirstDefining` | src/fsm.js:49-54 | The scan in `trigger`. It finds the first state in key order whose transitions define the event, with no earlier state defining it. It finds none exactly when no state defines the event. |
| `StateConfig.NamesDefining` | src/fsm.js:76-80 | The filtering loop of `getStates(event)`. Each name it pushes belongs to a state that defines the event. The result is no longer than the list of states. |
| `StateConfig.NamesDefiningComplete` | src/fsm.js:76-80 | Every state that defines the event has its name pushed. |
| `StateConfig.NamesDefiningIsSubsequence` | src/fsm.js:73-84 | The filtered names keep key order. They form an order-preserving subsequence of all names. |
| `StateConfig.FirstDefiningHeadsNamesDefining` | src/fsm.js:49-54 | The `trigger` scan finds a state exactly when the `getStates(event)` filter is non-empty. The state it finds is the first one listed. |
| `StateConfig.NamesDefiningUnique` | src/fsm.js:76-80 | Object keys are unique, so the filtered names have no repeats. |
| `FsmLaws.GetStatesFilter` | src/fsm.js:73-84 | `getStates(event)` contains a name exactly when some state of that name defines the event. It is an order-preserving subsequence of `getStates()`, and it has no repeats when names are unique. |
| `FsmLaws.ChangeStateThenUndo` | src/fsm.js:28-101 | After a successful `changeState`, `undo` returns true and restores the prior state. A second `undo` returns false. |
| `FsmLaws.TriggerThenUndo` | src/fsm.js:44-101 | After a successful `trigger`, `undo` returns true and restores the prior state. |
| `FsmLaws.UndoThenRedo` | src/fsm.js:91-118 | A successful `undo` followed by `redo` returns true and comes back to the state held just before the `undo`. |
| `FsmLaws.RedoThenUndoStays` | src/fsm.js:91-118 | After a successful `redo`, `undo` returns true but the active state does not change. |
| `FsmLaws.NoRedoAfterChange` | src/fsm.js:28-58 | After `changeState` or `trigger`, whether or not they threw, `redo` returns false and changes nothing. |
| `FsmLaws.ClearHistoryDisablesUndoRedo` | src/fsm.js:91-126 | After `clearHistory`, both `undo` and `redo` return false and change nothing. |
| `FsmLaws.RedoNeedsUndo` | src/fsm.js:29-125 | Starting with an empty redo slot, no sequence of calls without an `undo` fills it, so `redo` keeps returning false. Only `undo` (line 96) writes a name into the redo slot. |
| `FsmLaws.NoRedoUntilUndo` | src/fsm.js:28-58 | After a `changeState` or `trigger`, thrown or not, `redo` returns false after any further calls until an `undo` is made. |
| `FsmLaws.TriggerIgnoresCurrent` | src/fsm.js:49-54 | Two machines with the same configuration and latch get the same outcome from `trigger`. On success they reach the same state, whatever their active states were. |
| `FsmLaws.TriggerFollowsGetStates` | src/fsm.js:44-84 | On an unlatched machine, `trigger(event)` succeeds exactly when `getStates(event)` is non-empty. It follows the first listed state's transition. |
| `FsmLaws.ApplyLatch` | src/fsm.js:44-58 | One call sets the latch exactly when the machine was latched or the call triggers an event that no state defines. The configuration never changes. |
| `FsmLaws.RunLatch` | src/fsm.js:44-58 | Over any sequence of calls, the latch ends up set exactly when it started set or some call triggered an event no state defines. The configuration never changes. |
| `FsmLaws.LatchIsSticky` | src/fsm.js:45-48 | Once latched, after any further calls, every `trigger` fails with `MachineInError` and keeps the active state and undo slot. |
| `FsmLaws.ApplyStaysConfigured` | src/fsm.js:28-126 | Suppose every transition target and `"normal"` are configured. Then one call keeps the active state and both slots within the configured names. |
| `FsmLaws.RunStaysConfigured` | src/fsm.js:28-126 | Under the same closed-configuration condition, this holds over any sequence of calls. |
| `FsmLaws.CreateStartsConfigured` | src/fsm.js:6-22 | Construction from a configuration whose initial state is configured succeeds and starts within the configured states, with both slots empty. |
| `FsmLaws.TriggerCanLeaveConfiguredStates` | src/fsm.js:49-54 | Without that condition, a successful `trigger` can make an unconfigured name active. |
| `FsmLaws.PauseResumeExample` | src/fsm.js:6-118 | The walk-through with states `normal` (pause to busy) and `busy` (resume to normal). Start in `normal`. `trigger("pause")` reaches `busy`, `undo` returns to `normal`, and `redo` returns to `busy`. |

## Left out

- Shared configuration objects: the source stores the active state in `config.initial`, so two machines built from one configuration object would overwrite each other's state. Here the active state is a field of the machine, and sharing between machines is not modelled.
- JavaScript truthiness: an empty-string state name, event or target would read as absent in the source's `if` tests. Names and events are non-empty strings here, and the slots use `Option`.
- `getStates` with an absent or empty event: the source treats both as "no argument". The model's `Option` argument covers only the absent case, since names are non-empty.
- Prototype-chain lookups: `transitions[event]` in the source also finds inherited properties such as `toString`. The `for...in` loops over `config.states` (lines 30, 49 and 76) also visit inherited enumerable keys, while `Object.keys` (line 83) does not. The model looks only at the configuration's own states and transitions.
- Repeated state names: a configuration here may list a name twice, which a JavaScript object cannot. Such configurations are allowed but correspond to no source object. Only configurations with `UniqueNames` model the source. For example, `getStates()` on a repeated name lists it twice.
- Key order: JavaScript lists integer-like keys first, in numeric order. The model takes the sequence order of the entries as the key order.
- The contents of thrown `Error` objects, and `module.exports` (line 129).
- Calls that read only (`getState`, `getStates`) are not part of `FsmLaws.Call`, because they never change the machine.
