/** hooks/useState.js and hooks/useEffect.js: slot arrays addressed by the
    cursors of the runtime state. */
module Hooks {
  import opened Js
  import opened RuntimeState
  import opened Scheduler

  /** The state slots after `hooks[i] = hooks[i] ?? initialValue`: slot i
      takes the initial value exactly when it reads as null or undefined,
      and no other slot changes. */
  function Initialized(hooks: seq<Value>, i: nat, init: Value): (r: seq<Value>)
    ensures At(r, i, Undefined) == if Nullish(At(hooks, i, Undefined)) then init else At(hooks, i, Undefined)
    ensures forall j: nat :: j != i ==> At(r, j, Undefined) == At(hooks, j, Undefined)
  {
    var current := At(hooks, i, Undefined);
    Store(hooks, i, if Nullish(current) then init else current, Undefined)
  }

  /** Once a slot holds a value that is neither null nor undefined, later
      initial values are ignored and the slots are left exactly as they were. */
  lemma InitializedKeeps(hooks: seq<Value>, i: nat, init: Value)
    requires !Nullish(At(hooks, i, Undefined))
    ensures Initialized(hooks, i, init) == hooks
  {
    assert i < |hooks|;
    assert hooks[i := hooks[i]] == hooks;
  }

  /** The first non-nullish initial value wins: initialising twice is
      initialising once. */
  lemma InitializedIdempotent(hooks: seq<Value>, i: nat, first: Value, second: Value)
    requires !Nullish(first)
    ensures Initialized(Initialized(hooks, i, first), i, second) == Initialized(hooks, i, first)
  {
    InitializedKeeps(Initialized(hooks, i, first), i, second);
  }

  /** `useState(initialValue)`: uses slot `hookIndex`, initialises it if it is
      null or undefined, advances the cursor by one, and returns the slot's
      content and the slot the setter writes. */
  method UseState(st: State, init: Value) returns (value: Value, slot: nat)
    modifies st
    ensures slot == old(st.hookIndex) && st.hookIndex == old(st.hookIndex) + 1
    ensures st.hooks == Initialized(old(st.hooks), slot, init)
    ensures value == At(st.hooks, slot, Undefined)
    ensures st.effects == old(st.effects) && st.effectIndex == old(st.effectIndex)
    ensures st.effectLog == old(st.effectLog) && st.currentComponentName == old(st.currentComponentName)
  {
    slot := st.hookIndex;
    var current := At(st.hooks, slot, Undefined);
    st.hooks := Store(st.hooks, slot, if Nullish(current) then init else current, Undefined);
    st.hookIndex := st.hookIndex + 1;
    value := At(st.hooks, slot, Undefined);
  }

  /** What `setState(value)` stores: `value(current)` when value is a
      function, `value` itself otherwise. `call` is what the function does. */
  function NextValue(current: Value, value: Value, call: Value -> Value): (r: Value)
    ensures value.Fn? ==> r == call(current)
    ensures !value.Fn? ==> r == value
  {
    if value.Fn? then call(current) else value
  }

  /** The setter of slot `slot`: writes that slot only, leaves both cursors
      and every other slot alone, then requests a render. */
  method SetState(st: State, sched: Scheduler, slot: nat, value: Value, call: Value -> Value)
    modifies st, sched
    ensures st.hooks == Store(old(st.hooks), slot, NextValue(At(old(st.hooks), slot, Undefined), value, call), Undefined)
    ensures st.hookIndex == old(st.hookIndex) && st.effects == old(st.effects) && st.effectIndex == old(st.effectIndex)
    ensures st.effectLog == old(st.effectLog) && st.currentComponentName == old(st.currentComponentName)
    ensures sched.scheduledRender == old(sched.scheduledRender)
    ensures sched.requests == old(sched.requests) + Requested(old(sched.scheduledRender))
  {
    st.hooks := Store(st.hooks, slot, NextValue(At(st.hooks, slot, Undefined), value, call), Undefined);
    sched.ScheduleRender();
  }

  /** A value set through the setter is what the next pass's `useState` at
      that slot returns, whatever initial value it passes, unless the value
      stored is null or undefined, in which case the initial value returns. */
  lemma SetThenUse(hooks: seq<Value>, slot: nat, value: Value, call: Value -> Value, init: Value)
    ensures var stored := NextValue(At(hooks, slot, Undefined), value, call);
            At(Initialized(Store(hooks, slot, stored, Undefined), slot, init), slot, Undefined)
              == if Nullish(stored) then init else stored
  {
  }

  /** Two functional updates compose: the second sees what the first stored. */
  lemma SetterComposes(hooks: seq<Value>, slot: nat, f: Value, g: Value, callF: Value -> Value, callG: Value -> Value)
    requires f.Fn? && g.Fn?
    ensures var once := Store(hooks, slot, NextValue(At(hooks, slot, Undefined), f, callF), Undefined);
            var twice := Store(once, slot, NextValue(At(once, slot, Undefined), g, callG), Undefined);
            At(twice, slot, Undefined) == callG(callF(At(hooks, slot, Undefined)))
  {
  }

  /** `deps.some((dep, k) => !Object.is(dep, oldDeps[k]))` from index k on:
      reading an element of missing old deps throws, an index past the old
      deps reads undefined, and the scan stops at the first difference. */
  function DepsDiffer(deps: seq<Value>, oldDeps: Option<seq<Value>>, k: nat): Attempt<bool>
    decreases |deps| - k
  {
    if k >= |deps| then Done(false)
    else if oldDeps.None? then TypeErrorRaised
    else if deps[k] != At(oldDeps.value, k, Undefined) then Done(true)
    else DepsDiffer(deps, oldDeps, k + 1)
  }

  /** The dependency check throws exactly when there are old deps missing
      and new deps to compare; otherwise it finds a change exactly when some
      new dep differs from the old dep at its index. */
  lemma {:induction false} DepsDifferMeans(deps: seq<Value>, oldDeps: Option<seq<Value>>, k: nat)
    ensures oldDeps.None? ==> (DepsDiffer(deps, oldDeps, k).TypeErrorRaised? <==> k < |deps|)
    ensures oldDeps.None? && k >= |deps| ==> DepsDiffer(deps, oldDeps, k) == Done(false)
    ensures oldDeps.Some? ==>
              DepsDiffer(deps, oldDeps, k)
                == Done(exists j :: k <= j < |deps| && deps[j] != At(oldDeps.value, j, Undefined))
    decreases |deps| - k
  {
    if k < |deps| && oldDeps.Some? && deps[k] == At(oldDeps.value, k, Undefined) {
      DepsDifferMeans(deps, oldDeps, k + 1);
      if exists j :: k <= j < |deps| && deps[j] != At(oldDeps.value, j, Undefined) {
        var j :| k <= j < |deps| && deps[j] != At(oldDeps.value, j, Undefined);
        assert j != k;
      }
    }
  }

  /** Some new dep is not `Object.is` the old dep at its index. */
  predicate SomeDepDiffers(deps: seq<Value>, oldDeps: seq<Value>)
  {
    exists j :: 0 <= j < |deps| && deps[j] != At(oldDeps, j, Undefined)
  }

  /** `hasChanged`: true when there is no previous record or no deps;
      otherwise the dependency check. */
  function HasChanged(prev: Option<EffectRecord>, deps: Option<seq<Value>>): Attempt<bool>
  {
    if prev.Some? && deps.Some? then DepsDiffer(deps.value, prev.value.deps, 0) else Done(true)
  }

  /** The record a replacement stores: the new effect and deps, and the
      previous record's cleanup. */
  function Replacement(prev: Option<EffectRecord>, effect: nat, deps: Option<seq<Value>>): EffectRecord
  {
    EffectRecord(effect, deps, if prev.Some? then prev.value.cleanup else None)
  }

  /** The effect slots after `useEffect(effect, deps)` at slot i. */
  function EffectsAfterUse(effects: seq<Option<EffectRecord>>, i: nat, effect: nat, deps: Option<seq<Value>>)
    : (r: Attempt<seq<Option<EffectRecord>>>)
    ensures r.TypeErrorRaised? <==> HasChanged(At(effects, i, None), deps).TypeErrorRaised?
    ensures HasChanged(At(effects, i, None), deps) == Done(true) ==>
              r.Done? && At(r.value, i, None) == Some(Replacement(At(effects, i, None), effect, deps))
              && forall j: nat :: j != i ==> At(r.value, j, None) == At(effects, j, None)
    ensures HasChanged(At(effects, i, None), deps) == Done(false) ==> r == Done(effects)
  {
    var prev := At(effects, i, None);
    match HasChanged(prev, deps)
    case TypeErrorRaised => TypeErrorRaised
    case Done(changed) =>
      if changed then Done(Store(effects, i, Some(Replacement(prev, effect, deps)), None)) else Done(effects)
  }

  /** When the slot is replaced: always with no previous record or no deps;
      with both, exactly when some new dep differs from the recorded one at
      its index; and it throws when the previous record has no deps and
      there are new deps to compare. */
  lemma UseEffectReplaces(effects: seq<Option<EffectRecord>>, i: nat, effect: nat, deps: Option<seq<Value>>)
    ensures var prev := At(effects, i, None);
            var r := EffectsAfterUse(effects, i, effect, deps);
            (prev.None? || deps.None? ==> r.Done? && At(r.value, i, None) == Some(Replacement(prev, effect, deps)))
            && (prev.Some? && deps.Some? && prev.value.deps.None? ==> (r.TypeErrorRaised? <==> |deps.value| > 0))
            && (prev.Some? && deps.Some? && prev.value.deps.Some? ==>
                  r.Done?
                  && (SomeDepDiffers(deps.value, prev.value.deps.value) ==>
                        At(r.value, i, None) == Some(Replacement(prev, effect, deps)))
                  && (!SomeDepDiffers(deps.value, prev.value.deps.value) ==> r.value == effects))
  {
    var prev := At(effects, i, None);
    if prev.Some? && deps.Some? {
      DepsDifferMeans(deps.value, prev.value.deps, 0);
    }
  }

  /** An empty deps array never replaces a slot after its first record. */
  lemma EmptyDepsKeep(effects: seq<Option<EffectRecord>>, i: nat, effect: nat)
    requires At(effects, i, None).Some?
    ensures EffectsAfterUse(effects, i, effect, Some([])) == Done(effects)
  {
  }

  /** `useEffect(effect, deps)`: uses slot `effectIndex`, replaces the record
      when the deps changed (carrying the old cleanup forward) and advances
      the cursor by one; the effect itself is not invoked here. A throw in
      the dependency check leaves every slot and the cursor as they were. */
  method UseEffect(st: State, effect: nat, deps: Option<seq<Value>>) returns (threw: bool)
    modifies st
    ensures threw <==> EffectsAfterUse(old(st.effects), old(st.effectIndex), effect, deps).TypeErrorRaised?
    ensures threw ==> st.effects == old(st.effects) && st.effectIndex == old(st.effectIndex)
    ensures !threw ==> st.effects == EffectsAfterUse(old(st.effects), old(st.effectIndex), effect, deps).value
    ensures !threw ==> st.effectIndex == old(st.effectIndex) + 1
    ensures st.hooks == old(st.hooks) && st.hookIndex == old(st.hookIndex)
    ensures st.effectLog == old(st.effectLog) && st.currentComponentName == old(st.currentComponentName)
  {
    var currentIndex := st.effectIndex;
    var prev := At(st.effects, currentIndex, None);
    var hasChanged := HasChanged(prev, deps);
    if hasChanged.TypeErrorRaised? {
      return true;
    }
    if hasChanged.value {
      st.effects := Store(st.effects, currentIndex, Some(Replacement(prev, effect, deps)), None);
    }
    st.effectIndex := st.effectIndex + 1;
    threw := false;
  }
}
