/** The shared runtime state the hooks and the render loop work on
    (`runtimeState`): the state slots, the effect slots, the effect log, the
    two slot cursors and the name of the component being rendered. */
module RuntimeState {
  import opened Js

  /** An effect slot: the effect callback, the deps it was registered with
      (None for a missing or null deps argument) and the cleanup the effect
      last returned, if that was a function. Callbacks are named by number. */
  datatype EffectRecord = EffectRecord(effect: nat, deps: Option<seq<Value>>, cleanup: Option<nat>)

  /** The `type` of a log entry: "cleanup" or "run". */
  datatype LogKind = CleanupRan | EffectRan

  /** An effect log entry without its timestamp: the kind, the slot index
      and a copy of the slot's deps (None for null). */
  datatype LogEntry = LogEntry(kind: LogKind, slot: nat, deps: Option<seq<Value>>)

  /** The outcome of a step that may throw a TypeError. */
  datatype Attempt<T> = Done(value: T) | TypeErrorRaised

  /** `s[i]` on a JS array: a slot past the end (a hole) reads as `hole`. */
  function At<T>(s: seq<T>, i: nat, hole: T): (r: T)
    ensures i < |s| ==> r == s[i]
    ensures i >= |s| ==> r == hole
  {
    if i < |s| then s[i] else hole
  }

  /** `s[i] = x` on a JS array: past the end the array grows to i + 1 and the
      slots in between are holes. */
  function Store<T>(s: seq<T>, i: nat, x: T, hole: T): (r: seq<T>)
    ensures |r| == if i < |s| then |s| else i + 1
    ensures At(r, i, hole) == x
    ensures forall j: nat :: j != i ==> At(r, j, hole) == At(s, j, hole)
  {
    if i < |s| then s[i := x]
    else
      var r := s + seq(i - |s|, _ => hole) + [x];
      assert forall j :: |s| <= j < i ==> r[j] == hole;
      r
  }

  class State {
    var hooks: seq<Value>
    var effects: seq<Option<EffectRecord>>
    var effectLog: seq<LogEntry>
    var hookIndex: nat
    var effectIndex: nat
    var currentComponentName: Value

    /** The state as the runtime starts: every list empty, both cursors at 0
        and no component name. */
    constructor()
      ensures hooks == [] && effects == [] && effectLog == []
      ensures hookIndex == 0 && effectIndex == 0 && currentComponentName == Null
    {
      hooks := [];
      effects := [];
      effectLog := [];
      hookIndex := 0;
      effectIndex := 0;
      currentComponentName := Null;
    }
  }
}
