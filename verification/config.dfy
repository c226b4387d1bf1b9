/**
 * The configuration object a state machine is built from:
 * `{ initial, states: { <name>: { transitions: { <event>: <target> } } } }`.
 * The `states` object is modelled as a sequence of entries in key-iteration
 * order, so that every scan over its keys has an explicit, deterministic order.
 */
module StateConfig {
  import opened Wrappers

  /**
   * State and event names. They are non-empty: the source tests names for
   * truthiness, and an empty string would read as "absent" there.
   */
  type Name = s: string | |s| > 0 witness "?"

  /** One state definition: its outgoing transitions, event name to target state. */
  datatype StateDef = StateDef(transitions: map<Name, Name>)

  /** One `<name>: <definition>` property of the `states` object. */
  datatype Entry = Entry(name: Name, def: StateDef)

  /** The configuration; `states` lists the entries in key-iteration order. */
  datatype Config = Config(initial: Name, states: seq<Entry>)

  /** Object keys are unique: no name is listed twice. */
  predicate UniqueNames(states: seq<Entry>) {
    forall i, j :: 0 <= i < j < |states| ==> states[i].name != states[j].name
  }

  /** The entry has a transition for `event`. */
  predicate Defines(entry: Entry, event: Name) {
    event in entry.def.transitions
  }

  /** `name` is one of the configured state names. */
  predicate Configured(states: seq<Entry>, name: Name) {
    exists i :: 0 <= i < |states| && states[i].name == name
  }

  /** `a` is an order-preserving subsequence of `b`. */
  predicate IsSubsequence<T(==)>(a: seq<T>, b: seq<T>)
    decreases |b|
  {
    if b == [] then a == []
    else (a != [] && a[0] == b[0] && IsSubsequence(a[1..], b[1..])) || IsSubsequence(a, b[1..])
  }

  /** The state names in key order, as `Object.keys(states)` lists them. */
  function Names(states: seq<Entry>): (r: seq<Name>)
    ensures |r| == |states|
    ensures forall i :: 0 <= i < |states| ==> r[i] == states[i].name
  {
    if states == [] then [] else [states[0].name] + Names(states[1..])
  }

  /**
   * The position of the first entry, in key order, that has a transition
   * for `event`; `None` when no entry has one.
   */
  function FirstDefining(states: seq<Entry>, event: Name): (r: Option<nat>)
    ensures r.Some? ==> r.value < |states| && Defines(states[r.value], event)
    ensures r.Some? ==> forall j :: 0 <= j < r.value ==> !Defines(states[j], event)
    ensures r.None? <==> forall j :: 0 <= j < |states| ==> !Defines(states[j], event)
  {
    if states == [] then None
    else if Defines(states[0], event) then Some(0)
    else match FirstDefining(states[1..], event)
      case None => None
      case Some(k) => Some(k + 1)
  }

  /** The names, in key order, of the entries that have a transition for `event`. */
  function NamesDefining(states: seq<Entry>, event: Name): (r: seq<Name>)
    ensures |r| <= |states|
    ensures forall k :: 0 <= k < |r| ==>
              exists i :: 0 <= i < |states| && states[i].name == r[k] && Defines(states[i], event)
  {
    if states == [] then []
    else if Defines(states[0], event) then [states[0].name] + NamesDefining(states[1..], event)
    else NamesDefining(states[1..], event)
  }

  /** Every entry that has a transition for `event` contributes its name. */
  lemma {:induction false} NamesDefiningComplete(states: seq<Entry>, event: Name, i: nat)
    requires i < |states| && Defines(states[i], event)
    ensures states[i].name in NamesDefining(states, event)
  {
    if i > 0 {
      NamesDefiningComplete(states[1..], event, i - 1);
    }
  }

  /** The filtered names keep the configuration's order: a subsequence of all names. */
  lemma {:induction false} NamesDefiningIsSubsequence(states: seq<Entry>, event: Name)
    ensures IsSubsequence(NamesDefining(states, event), Names(states))
  {
    if states != [] {
      NamesDefiningIsSubsequence(states[1..], event);
      assert Names(states)[1..] == Names(states[1..]);
    }
  }

  /** The first filtered name is the entry `FirstDefining` picks, and it exists exactly when that one does. */
  lemma {:induction false} FirstDefiningHeadsNamesDefining(states: seq<Entry>, event: Name)
    ensures FirstDefining(states, event).None? <==> NamesDefining(states, event) == []
    ensures forall i :: 0 <= i < |states| && FirstDefining(states, event) == Some(i) ==>
              NamesDefining(states, event) != [] && NamesDefining(states, event)[0] == states[i].name
  {
    if states != [] && !Defines(states[0], event) {
      FirstDefiningHeadsNamesDefining(states[1..], event);
    }
  }

  /** With unique keys, the filtered names are unique too. */
  lemma {:induction false} NamesDefiningUnique(states: seq<Entry>, event: Name)
    requires UniqueNames(states)
    ensures forall a, b :: 0 <= a < b < |NamesDefining(states, event)| ==>
              NamesDefining(states, event)[a] != NamesDefining(states, event)[b]
  {
    if states != [] {
      var tail := states[1..];
      assert UniqueNames(tail) by {
        forall i, j | 0 <= i < j < |tail| ensures tail[i].name != tail[j].name {
          assert tail[i] == states[i + 1] && tail[j] == states[j + 1];
        }
      }
      NamesDefiningUnique(tail, event);
      if Defines(states[0], event) {
        var r := NamesDefining(states, event);
        forall k | 0 < k < |r| ensures r[0] != r[k] {
          assert r[k] == NamesDefining(tail, event)[k - 1];
          var i :| 0 <= i < |tail| && tail[i].name == r[k] && Defines(tail[i], event);
          assert tail[i] == states[i + 1];
        }
      }
    }
  }
}
