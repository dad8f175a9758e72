/** runtime/createRoot.js: a root owns a container, the tree it last
    rendered and the app it renders; each render pass resets the slot
    cursors, calls the app, mounts or diffs, records the new tree and runs
    the effects. */
module Root {
  import opened Js
  import opened Element
  import opened Host
  import opened Mount
  import opened Reconcile
  import opened ReconcileProofs
  import opened RuntimeState
  import opened Scheduler
  import opened Hooks

  /** A hook call the app makes while it renders. */
  datatype HookCall =
    | StateCall(init: Value)
    | EffectCall(effect: nat, deps: Option<seq<Value>>)

  /** What calling the app does on one pass: its hook calls, in order, and
      the tree it returns, or None when it throws after those calls. */
  datatype Pass = Pass(calls: seq<HookCall>, result: Option<VNode>)

  /** How a render pass ends. */
  datatype Status = Completed | ComponentThrew | PatchThrew(fault: Fault)

  /** The slot arrays and cursors of the runtime state. */
  datatype Slots = Slots(hooks: seq<Value>, effects: seq<Option<EffectRecord>>, hookIndex: nat, effectIndex: nat)

  /** The slots after the hook calls from k on, and whether a call threw;
      a throw stops the app and keeps what the earlier calls did. */
  datatype Called = Called(slots: Slots, threw: bool)

  function CallsFrom(s: Slots, calls: seq<HookCall>, k: nat): Called
    decreases |calls| - k
  {
    if k >= |calls| then Called(s, false)
    else match calls[k]
      case StateCall(init) =>
        CallsFrom(s.(hooks := Initialized(s.hooks, s.hookIndex, init), hookIndex := s.hookIndex + 1), calls, k + 1)
      case EffectCall(f, deps) =>
        match EffectsAfterUse(s.effects, s.effectIndex, f, deps)
        case TypeErrorRaised => Called(s, true)
        case Done(e) => CallsFrom(s.(effects := e, effectIndex := s.effectIndex + 1), calls, k + 1)
  }

  function StateCalls(calls: seq<HookCall>, k: nat): nat
    decreases |calls| - k
  {
    if k >= |calls| then 0 else (if calls[k].StateCall? then 1 else 0) + StateCalls(calls, k + 1)
  }

  function EffectCalls(calls: seq<HookCall>, k: nat): nat
    decreases |calls| - k
  {
    if k >= |calls| then 0 else (if calls[k].EffectCall? then 1 else 0) + EffectCalls(calls, k + 1)
  }

  /** Each hook call advances its own cursor by exactly one: after an app
      that does not throw, each cursor has moved by the number of calls of
      its kind. */
  lemma {:induction false} CallsAdvanceCursors(s: Slots, calls: seq<HookCall>, k: nat)
    requires k <= |calls|
    ensures var c := CallsFrom(s, calls, k);
            !c.threw ==>
              c.slots.hookIndex == s.hookIndex + StateCalls(calls, k)
              && c.slots.effectIndex == s.effectIndex + EffectCalls(calls, k)
    decreases |calls| - k
  {
    if k < |calls| {
      match calls[k]
      case StateCall(init) =>
        CallsAdvanceCursors(s.(hooks := Initialized(s.hooks, s.hookIndex, init), hookIndex := s.hookIndex + 1), calls, k + 1);
      case EffectCall(f, deps) =>
        match EffectsAfterUse(s.effects, s.effectIndex, f, deps)
        case TypeErrorRaised =>
        case Done(e) =>
          CallsAdvanceCursors(s.(effects := e, effectIndex := s.effectIndex + 1), calls, k + 1);
    }
  }

  /** No tree yet: `oldVDOM == null` holds for null and undefined. */
  predicate NoTree(v: VNode)
  {
    v.NullNode? || v.UndefinedNode?
  }

  /** Lines 17-21: with no previous tree, append the mount of the new one to
      the container (a text container refuses it); otherwise diff the two
      trees at index 0 of the container. */
  function Patch(container: HostNode, oldTree: VNode, newTree: VNode): (r: Outcome)
    ensures NoTree(oldTree) && container.HostElem? ==>
              r.fault.None? && r.host.HostElem? && r.host.children == container.children + [Render(newTree)]
    ensures NoTree(oldTree) && container.HostText? ==> r == Outcome(container, [], Some(HierarchyRequestError))
    ensures !NoTree(oldTree) ==> r == DiffSpec(container, oldTree, newTree, 0)
  {
    if NoTree(oldTree) then
      if container.HostText? then Outcome(container, [], Some(HierarchyRequestError))
      else Outcome(AppendChild(container, Render(newTree)), [Insert(|container.children|)], None)
    else DiffSpec(container, oldTree, newTree, 0)
  }

  /** What a root and the runtime state hold between passes. */
  datatype RootView = RootView(container: HostNode, tree: VNode, slots: Slots, log: seq<LogEntry>)

  /** One render pass: reset the cursors, call the app, then (if it returned)
      mount or diff; only after that succeeds is the tree recorded and are
      the effects run. A throw anywhere ends the pass where it happens. */
  function RenderPass(v: RootView, pass: Pass, results: nat -> Value): (RootView, Status)
  {
    var c := CallsFrom(v.slots.(hookIndex := 0, effectIndex := 0), pass.calls, 0);
    if c.threw || pass.result.None? then (v.(slots := c.slots), ComponentThrew)
    else
      var out := Patch(v.container, v.tree, pass.result.value);
      if out.fault.Some? then (v.(container := out.host, slots := c.slots), PatchThrew(out.fault.value))
      else
        (RootView(out.host, pass.result.value, c.slots.(effects := AfterPass(c.slots.effects, results)),
                  v.log + PassLog(c.slots.effects, 0)),
         Completed)
  }

  /** Both cursors start every pass at 0: after a pass whose app returned,
      they count that pass's calls, whatever they were before. */
  lemma PassResetsCursors(v: RootView, pass: Pass, results: nat -> Value)
    requires RenderPass(v, pass, results).1 != ComponentThrew
    ensures RenderPass(v, pass, results).0.slots.hookIndex == StateCalls(pass.calls, 0)
    ensures RenderPass(v, pass, results).0.slots.effectIndex == EffectCalls(pass.calls, 0)
  {
    CallsAdvanceCursors(v.slots.(hookIndex := 0, effectIndex := 0), pass.calls, 0);
  }

  /** A throwing app leaves the container, the recorded tree and the effect
      log untouched. */
  lemma ThrowLeavesTree(v: RootView, pass: Pass, results: nat -> Value)
    requires RenderPass(v, pass, results).1 == ComponentThrew
    ensures var r := RenderPass(v, pass, results).0;
            r.container == v.container && r.tree == v.tree && r.log == v.log
  {
  }

  /** A mount or diff that throws leaves the recorded tree and the effect log
      untouched, so no effect runs; the hook slots keep what the app's calls
      stored, and the container keeps the host changes made before the throw. */
  lemma PatchThrowKeepsTree(v: RootView, pass: Pass, results: nat -> Value)
    requires RenderPass(v, pass, results).1.PatchThrew?
    ensures pass.result.Some?
    ensures var r := RenderPass(v, pass, results).0;
            var out := Patch(v.container, v.tree, pass.result.value);
            r.tree == v.tree && r.log == v.log
            && r.slots == CallsFrom(v.slots.(hookIndex := 0, effectIndex := 0), pass.calls, 0).slots
            && r.container == out.host
            && out.fault == Some(RenderPass(v, pass, results).1.fault)
  {
  }

  /** The first pass into an element container appends the mount of the
      app's tree after the container's children, which read back as that tree. */
  lemma FirstPassMounts(v: RootView, pass: Pass, results: nat -> Value)
    requires NoTree(v.tree) && v.container.HostElem?
    requires pass.result.Some? && !CallsFrom(v.slots.(hookIndex := 0, effectIndex := 0), pass.calls, 0).threw
    ensures var (r, status) := RenderPass(v, pass, results);
            status == Completed && r.tree == pass.result.value && r.container.HostElem?
            && r.container.children[..|v.container.children|] == v.container.children
            && |r.container.children| == |v.container.children| + 1
            && Unmount(r.container.children[|v.container.children|]) == Normalize(pass.result.value)
  {
    MountThenRead(pass.result.value);
  }

  /** Rendering the same tree again changes nothing in the container: the
      diff against an identical tree makes no host call. */
  lemma RerenderSameTree(v: RootView, pass: Pass, results: nat -> Value)
    requires !NoTree(v.tree) && Diffable(v.tree) && ChildAt(v.container, 0) == Some(Render(v.tree))
    requires pass.result == Some(v.tree) && !CallsFrom(v.slots.(hookIndex := 0, effectIndex := 0), pass.calls, 0).threw
    ensures RenderPass(v, pass, results).1 == Completed
    ensures RenderPass(v, pass, results).0.container == v.container
    ensures RenderPass(v, pass, results).0.tree == v.tree
  {
    DiffIdentical(v.container, v.tree, 0);
  }

  /** Every completed pass runs every non-empty effect slot once, in slot
      order, whether or not its deps changed on this pass. */
  lemma PassRunsEffects(v: RootView, pass: Pass, results: nat -> Value)
    requires RenderPass(v, pass, results).1 == Completed
    ensures var c := CallsFrom(v.slots.(hookIndex := 0, effectIndex := 0), pass.calls, 0);
            var r := RenderPass(v, pass, results).0;
            r.log[..|v.log|] == v.log
            && SlotsOf(r.log[|v.log|..], EffectRan) == FilledFrom(c.slots.effects, 0, false)
  {
    var c := CallsFrom(v.slots.(hookIndex := 0, effectIndex := 0), pass.calls, 0);
    var r := RenderPass(v, pass, results).0;
    assert r.log[|v.log|..] == PassLog(c.slots.effects, 0);
    PassRunsEverySlot(c.slots.effects, 0);
  }

  /** An effect registered with empty deps runs on every pass, not just the
      first: the second pass keeps the record and still runs it. */
  lemma EmptyDepsRunEveryPass(v: RootView, f: nat, tree: VNode, results: nat -> Value)
    requires v.slots.effects == [] && NoTree(v.tree) && v.container.HostElem? && v.container.children == []
    requires Diffable(tree) && !NoTree(tree)
    ensures var pass := Pass([EffectCall(f, Some([]))], Some(tree));
            var (r1, s1) := RenderPass(v, pass, results);
            var (r2, s2) := RenderPass(r1, pass, results);
            s1 == Completed && s2 == Completed
            && SlotsOf(r1.log[|v.log|..], EffectRan) == [0]
            && SlotsOf(r2.log[|r1.log|..], EffectRan) == [0]
  {
    var pass := Pass([EffectCall(f, Some([]))], Some(tree));
    var s0 := v.slots.(hookIndex := 0, effectIndex := 0);
    var e1 := Store(s0.effects, 0, Some(Replacement(None, f, Some([]))), None);
    assert EffectsAfterUse(s0.effects, 0, f, Some([])) == Done(e1);
    assert CallsFrom(s0, pass.calls, 0) == Called(s0.(effects := e1, effectIndex := 1), false);
    var (r1, s1) := RenderPass(v, pass, results);
    PassRunsEffects(v, pass, results);
    assert FilledFrom(e1, 0, false) == [0];
    var s1slots := r1.slots.(hookIndex := 0, effectIndex := 0);
    var e1r := AfterPass(e1, results);
    assert r1.slots.effects == e1r;
    EmptyDepsKeep(e1r, 0, f);
    assert CallsFrom(s1slots, pass.calls, 0) == Called(s1slots.(effects := e1r, effectIndex := 1), false);
    assert ChildAt(r1.container, 0) == Some(Render(tree));
    RerenderSameTree(r1, pass, results);
    var (r2, s2) := RenderPass(r1, pass, results);
    PassRunsEffects(r1, pass, results);
    assert FilledFrom(e1r, 0, false) == [0];
  }

  class Root {
    const id: nat
    var container: HostNode
    var oldVDOM: VNode
    var currentApp: Option<nat>

    function View(st: State): RootView
      reads this, st
    {
      RootView(container, oldVDOM, Slots(st.hooks, st.effects, st.hookIndex, st.effectIndex), st.effectLog)
    }

    /** `createRoot(container)`: no tree, no app, and this root's callback
        registered with the scheduler. */
    constructor(id: nat, container: HostNode, sched: Scheduler)
      modifies sched
      ensures this.id == id && this.container == container && oldVDOM == NullNode && currentApp.None?
      ensures sched.scheduledRender == Some(id) && sched.requests == old(sched.requests)
    {
      this.id := id;
      this.container := container;
      oldVDOM := NullNode;
      currentApp := None;
      new;
      sched.SetRender(id);
    }

    /** The app's hook calls, made through the hooks against the runtime state. */
    method CallApp(st: State, calls: seq<HookCall>) returns (threw: bool)
      modifies st
      ensures Slots(st.hooks, st.effects, st.hookIndex, st.effectIndex)
           == CallsFrom(old(Slots(st.hooks, st.effects, st.hookIndex, st.effectIndex)), calls, 0).slots
      ensures threw == CallsFrom(old(Slots(st.hooks, st.effects, st.hookIndex, st.effectIndex)), calls, 0).threw
      ensures st.effectLog == old(st.effectLog) && st.currentComponentName == old(st.currentComponentName)
    {
      ghost var start := Slots(st.hooks, st.effects, st.hookIndex, st.effectIndex);
      var k := 0;
      threw := false;
      while k < |calls|
        invariant k <= |calls|
        invariant CallsFrom(Slots(st.hooks, st.effects, st.hookIndex, st.effectIndex), calls, k) == CallsFrom(start, calls, 0)
        invariant st.effectLog == old(st.effectLog) && st.currentComponentName == old(st.currentComponentName)
        decreases |calls| - k
      {
        match calls[k] {
          case StateCall(init) =>
            var _, _ := UseState(st, init);
          case EffectCall(f, deps) =>
            threw := UseEffect(st, f, deps);
            if threw {
              return;
            }
        }
        k := k + 1;
      }
    }

    /** `renderRoot()` with the app behaving as `pass` and each effect `f`
        returning `results(f)`. */
    method RenderRoot(st: State, pass: Pass, results: nat -> Value) returns (status: Status)
      modifies this, st
      ensures (View(st), status) == RenderPass(old(View(st)), pass, results)
      ensures currentApp == old(currentApp) && st.currentComponentName == old(st.currentComponentName)
    {
      st.hookIndex := 0;
      st.effectIndex := 0;
      var threw := CallApp(st, pass.calls);
      if threw || pass.result.None? {
        return ComponentThrew;
      }
      var newVDOM := pass.result.value;
      if oldVDOM.NullNode? || oldVDOM.UndefinedNode? {
        if container.HostText? {
          return PatchThrew(HierarchyRequestError);
        }
        container := AppendChild(container, Mount.Render(newVDOM));
      } else {
        var out := Diff(container, oldVDOM, newVDOM, 0);
        container := out.host;
        if out.fault.Some? {
          return PatchThrew(out.fault.value);
        }
      }
      oldVDOM := newVDOM;
      RunEffects(st, results);
      status := Completed;
    }

    /** `render(App)`: store the app, then run one pass at once. */
    method Render(st: State, app: nat, pass: Pass, results: nat -> Value) returns (status: Status)
      modifies this, st
      ensures currentApp == Some(app) && st.currentComponentName == old(st.currentComponentName)
      ensures (View(st), status) == RenderPass(old(View(st)), pass, results)
    {
      currentApp := Some(app);
      status := RenderRoot(st, pass, results);
    }

    /** The callback registered with the scheduler: a pass when an app has
        been set, nothing at all before. */
    method ScheduledCallback(st: State, pass: Pass, results: nat -> Value) returns (status: Option<Status>)
      modifies this, st
      ensures old(currentApp).None? ==> status.None? && View(st) == old(View(st))
      ensures old(currentApp).Some? ==> status.Some? && (View(st), status.value) == RenderPass(old(View(st)), pass, results)
      ensures currentApp == old(currentApp) && st.currentComponentName == old(st.currentComponentName)
    {
      if currentApp.None? {
        return None;
      }
      var s := RenderRoot(st, pass, results);
      status := Some(s);
    }
  }
}
