# Virtual DOM core in Dafny

This project models the core of a small JavaScript virtual-DOM runtime.

- **createElement** builds virtual nodes.
- **render** mounts a virtual tree as a fresh host (DOM) subtree.
- **diff** reconciles an old virtual tree against a new one, with keyed and positional children, by calling into the host.
- **useState** and **useEffect** keep per-call-site slots in a shared runtime state.
- **The scheduler** holds the registered render callback and runs the effect pass.
- **createRoot** ties one container to an app: each render pass resets the hook cursors, calls the app, mounts or diffs, records the tree and runs the effects.

Modules:

| file | module | models |
|---|---|---|
| js.dfy | Js | JavaScript values, truthiness, nullishness, and the conversion of keys to property names (integers in decimal) |
| element.dfy | Element | virtual nodes, `typeof`, the children list the mount and the diff derive from `props.children`, and `createElement` |
| host.dfy | Host | the host tree as a value, and the DOM calls the core makes (`insertBefore`, `appendChild`, `removeChild`, `replaceChild`, `textContent`) |
| mount.dfy | Mount | `render`, and the read-back of a host tree as a virtual tree |
| keyed.dfy | Keyed | `keyMap`: a key table in `Object.keys` order, and the loop that builds it |
| reconcile.dfy | Reconcile | `diff`: its five cases as functions, plus the imperative child walk and leftover removal, proved equal to them |
| reconcile_proofs.dfy | ReconcileProofs | what diff does in each case, and that diffing a tree against itself changes nothing |
| reconcile_examples.dfy | ReconcileExamples | two concrete keyed diffs worked out in full |
| runtime_state.dfy | RuntimeState | the shared runtime state: hook slots, effect slots, effect log and cursors |
| scheduler.dfy | Scheduler | `setRender`, `scheduleRender`, and the effect pass `runEffects` |
| hooks.dfy | Hooks | `useState`, its setter, and `useEffect` |
| root.dfy | Root | `createRoot`: one render pass as a function, the root as a class, and its methods proved against that function |

A diff produces an `Outcome`, which holds three things:

- the parent after the diff;
- the mutating host calls, in order;
- the exception, if one was thrown.

A thrown diff keeps the mutations made before the throw, as the source does.

Behaviour of the code worth knowing:

- **Rotating keyed children.** Rotating the keyed children `a b c` to `c a b` moves two nodes, not one, and leaves the host order `b a c` (`ReconcileExamples.RotationMisorders`).
- **Leftover removal.** The leftover keyed children are removed at their original old indices, and those indices are never adjusted. A removal can therefore target the wrong node, or an index that no longer exists, which throws (`ReconcileExamples.StaleIndexThrows`).
- **Effects on every pass.** `runEffects` runs every registered effect on every pass, whatever its deps. The deps only decide whether `useEffect` replaces the stored record. An effect with `[]` deps therefore runs on every pass, not once (`Root.EmptyDepsRunEveryPass`).
- **Identical trees.** Diffing a tree against itself is a no-op even when it contains `""` or `0` leaves. Null and undefined nodes make the diff throw, and duplicate sibling keys break it.

## Model

| member | source | states |
|---|---|---|
| Element.CreateElement | core/createElement.js:3-17 | the node has the given type; its props are the given props (none when null) with `children` replaced by the rest arguments; it carries the current component name exactly when that name is truthy |
| Element.Present | core/diff.js:18-29 | JavaScript truthiness of a virtual node; no contract of its own: `ReconcileProofs.DiffAdds` and `DiffRemoves` state what it selects |
| Element.JsType | core/diff.js:32-35 | `typeof` of a virtual node (null is "object"); no contract of its own: `ReconcileProofs.DiffReplaces` states the replacement it selects |
| Element.ChildSeq | core/diff.js:49-55 | an array of children is used as it is; any other value becomes a one-element list exactly when it is truthy and the empty list otherwise (also the mount's list, render.js:14-28) |
| Element.KeyName | core/diff.js:6-7 | `child?.props?.key` when not null or undefined, as a property name; no contract of its own: `Keyed.KeyTableHolds` and `Element.CreatedKey` state how it is used |
| Js.PropertyName | core/diff.js:8 | the property name a key becomes; no contract of its own: `Js.NumberKeysAreArrayIndices` states it for numeric keys |
| Js.NumberKeysAreArrayIndices | core/diff.js:8 | a numeric key from 0 to 2^32 - 2 becomes an array-index name with that value, which Object.keys lists first |
| Js.ArrayIndexInjective | core/diff.js:8 | two different array-index names have different values, so the numeric order of index keys is strict |
| Mount.Render | core/render.js:1-31 | null, undefined and false mount as empty text; strings and numbers mount as their text; an element mounts with its tag, every prop except `children`, and one host child per child |
| Mount.HostProps | core/render.js:16-20 | the host props are exactly the props other than `children`, with their values |
| Mount.RenderChildren | core/render.js:22-28 | host child i is the mount of virtual child i, in order, for an array child list and for a single truthy child |
| Mount.MountThenRead | core/render.js:1-31 | reading a mounted tree back gives the normalised virtual tree, so the mount keeps shape, tags, props and leaf text |
| Mount.ReadThenMount | core/render.js:1-31 | every host tree without a `children` prop is the mount of its own reading: the mount is onto |
| Host.ChildAt | core/diff.js:15 | `childNodes[index]` exists exactly when the parent is an element with more than `index` children |
| Host.InsertChild | core/diff.js:20-21 | insert before the child at the index, or append past the end; the other children keep their order |
| Host.RemoveChild | core/diff.js:27 | the child at the index is gone and the children after it shift down by one |
| Host.ReplaceChild | core/diff.js:36 | only the child at the index changes |
| Host.MoveChildToEnd | core/diff.js:69-70 | the child at the index moves to the end and the others close the gap, in order |
| Host.SetTextContent | core/diff.js:43 | a text node takes the new text; an element loses its children for one text child (none for "") |
| Keyed.Consume | core/diff.js:74 | the consumed name then reads as null and no other name changes |
| Keyed.InsertName | core/diff.js:8 | a new name joins the property list once; the list keeps the Object.keys order (array-index names first, in strictly ascending value); the other names stay in insertion order with the new one last |
| Keyed.AddEntry | core/diff.js:8 | the table stays coherent and in Object.keys order, the name maps to the new entry, a name seen before keeps its place, and a new non-index name goes after the other non-index names |
| Keyed.BuildFrom | core/diff.js:5-10 | each remaining child adds its key entry; the table stays coherent and in Object.keys order (`Keyed.BuildFromHolds` states what it holds) |
| Keyed.KeyTableOf | core/diff.js:3-12 | the table keyMap returns is coherent and lists its names in Object.keys order, the order the leftover removal visits them (`Keyed.KeyTableHolds` states its entries) |
| Keyed.KeyMap | core/diff.js:3-12 | the loop builds exactly the key table specified child by child |
| Keyed.KeyTableHolds | core/diff.js:3-12 | the table holds exactly the non-null keys, each filed under the last child carrying it and that child's index |
| Keyed.KeyTableDistinct | core/diff.js:3-12 | with distinct sibling keys, every keyed child is found under its own key with its own index |
| Reconcile.DiffSpec | core/diff.js:14-47 | the cases of diff in the source's order; its own contract: where the parent has no child at the index, only an insertion changes it; `ReconcileProofs.DiffAdds`, `DiffRemoves`, `DiffReplaces` and `DiffLeaves` state each case, and `Reconcile.Diff` is proved equal to it |
| Reconcile.ElementCase | core/diff.js:48-87 | two elements of one tag: walk the children, then remove leftovers; with no host child at the index the parent is unchanged; `ReconcileProofs.ElementKeepsShell` and `DiffIdentical` state the rest |
| Reconcile.WalkFrom | core/diff.js:60-79 | no contract of its own: `ReconcileProofs.WalkConsumes` and `WalkKeepsShell` state what the forEach over the new children does, and `Reconcile.DiffChildren` is proved equal to it |
| Reconcile.Step | core/diff.js:61-78 | no contract of its own: `ReconcileProofs.StepKeyed` and `StepPositional` state its two branches |
| Reconcile.LeftoversFrom | core/diff.js:81-87 | the leftover pass never changes the table; `ReconcileProofs.LeftoversRemove` states the calls it makes, the host tree it leaves (`ReconcileProofs.RemoveEach` of the held indices) and when it throws |
| Reconcile.Diff | core/diff.js:14-88 | the imperative diff computes exactly the case-by-case specification: the same host, calls and exception |
| Reconcile.DiffChildren | core/diff.js:48-87 | the forEach over the new children, then the leftover removal, computes the element case of the specification |
| Reconcile.RemoveLeftovers | core/diff.js:81-87 | the loop over the table's names computes the specified leftover removal |
| ReconcileProofs.DiffAdds | core/diff.js:18-23 | an absent old node and a present new one insert the mount of the new node at the index (or append); the count grows by one; the others keep their order; a text parent throws |
| ReconcileProofs.DiffRemoves | core/diff.js:26-29 | a present old node and an absent new one remove exactly the child at the index; with no child there the call throws |
| ReconcileProofs.DiffReplaces | core/diff.js:32-38 | a different typeof or tag replaces the child at the index by a fresh mount of the new node, and every other child is kept |
| ReconcileProofs.DiffLeaves | core/diff.js:41-46 | equal leaves change nothing; different ones set the text content of the child at the index and touch no other child: a text child reads back as the new leaf, an element child loses all its children for one text child; with no child there the call throws |
| ReconcileProofs.DiffIdentical | core/diff.js:14-88 | diffing a tree against itself over its own mount makes no host call, throws nothing, and leaves the parent unchanged |
| ReconcileProofs.DiffKeepsShell | core/diff.js:14-88 | diff never changes the tag or props of the parent it is called on; a text parent is left exactly as it was |
| ReconcileProofs.ElementKeepsShell | core/diff.js:48-87 | two elements of one tag keep the host element's old tag and props: the new props are never applied |
| ReconcileProofs.StepKeyed | core/diff.js:63-74 | a held key is diffed at the old index, and a throw from that diff ends the step; the child is then moved to the end exactly when that index is below `lastIndex`, which throws TypeError when no child is there; without a throw `lastIndex` becomes the maximum and the entry is consumed, and the no-move branch reads no host child |
| ReconcileProofs.StepPositional | core/diff.js:75-77 | an unkeyed or unmatched child is diffed against the old child at its own index, with the table and `lastIndex` unchanged |
| ReconcileProofs.WalkConsumes | core/diff.js:60-79 | the walk only consumes entries, so each old keyed child is claimed at most once |
| ReconcileProofs.LeftoversRemove | core/diff.js:81-87 | each entry still held removes the host child at its original old index, in key order, with no index adjusted: the host tree left is `RemoveEach` of those indices, and the pass throws TypeError exactly when one of them names no child by then |
| ReconcileProofs.RemoveEach | core/diff.js:81-87 | `removeChild(childNodes[i])` for each index in turn; when every index names a child, one child goes per index |
| ReconcileExamples.StaleIndexThrows | core/diff.js:81-87 | removing two keyed children removes the first and then throws on the stale index of the second |
| ReconcileExamples.RotationMisorders | core/diff.js:60-79 | rotating `a b c` to `c a b` moves two nodes and leaves the host order `b a c` |
| RuntimeState.At | hooks/useState.js:7 | reading a slot past the end of a JS array gives undefined |
| RuntimeState.Store | hooks/useState.js:7 | writing a slot past the end grows the array with holes; only that slot changes |
| Hooks.Initialized | hooks/useState.js:7 | a slot takes the initial value exactly when it reads as null or undefined; no other slot changes |
| Hooks.InitializedKeeps | hooks/useState.js:7 | once a slot holds a non-nullish value, later initial values leave the slots unchanged |
| Hooks.InitializedIdempotent | hooks/useState.js:7 | when the first initial value is neither null nor undefined, initialising twice is initialising once (a nullish first value lets the second one in) |
| Hooks.UseState | hooks/useState.js:4-20 | uses the slot at the cursor, initialises it, advances the cursor by one, and returns that slot's value |
| Hooks.NextValue | hooks/useState.js:10-13 | a function argument is applied to the current value; any other value is stored as it is |
| Hooks.SetState | hooks/useState.js:9-15 | writes its own slot only, leaves the cursors alone, and makes one render request exactly when a callback is registered |
| Hooks.SetThenUse | hooks/useState.js:7-13 | a set value is what the next `useState` at that slot returns, unless it is nullish |
| Hooks.SetterComposes | hooks/useState.js:10-13 | two functional updates compose |
| Hooks.DepsDifferMeans | hooks/useEffect.js:10-12 | the deps check throws exactly when the old deps are missing and there are new deps; otherwise it is true exactly when some dep differs at its index |
| Hooks.DepsDiffer | hooks/useEffect.js:10-12 | the `deps.some` scan; no contract of its own: `Hooks.DepsDifferMeans` states it |
| Hooks.HasChanged | hooks/useEffect.js:7-13 | `hasChanged`; no contract of its own: `Hooks.UseEffectReplaces` states it for all three branches |
| Hooks.Replacement | hooks/useEffect.js:16-20 | the new record; no contract of its own: `Hooks.EffectsAfterUse` states that it carries the old cleanup |
| Hooks.EffectsAfterUse | hooks/useEffect.js:3-24 | the slot is replaced exactly when the deps check says changed, keeping the old cleanup; otherwise it is untouched; a throw leaves it as it was |
| Hooks.UseEffectReplaces | hooks/useEffect.js:7-21 | the record is replaced always with no old record or no deps, exactly when a dep differs otherwise, and the call throws with null old deps |
| Hooks.EmptyDepsKeep | hooks/useEffect.js:9-21 | `[]` deps never replace an existing record |
| Hooks.UseEffect | hooks/useEffect.js:3-24 | the method updates the slots as specified and advances the effect cursor by one unless the check throws |
| Scheduler.Scheduler.SetRender | runtime/scheduler.js:5-7 | the new callback replaces any earlier one |
| Scheduler.Scheduler.ScheduleRender | runtime/scheduler.js:9-13 | one request to the registered callback, none when there is none |
| Scheduler.Requested | runtime/scheduler.js:9-13 | exactly one request when a callback is registered, none otherwise |
| Scheduler.CleanupOf | runtime/scheduler.js:36 | the returned value is kept as the cleanup exactly when it is a function |
| Scheduler.RanSlot | runtime/scheduler.js:17-36 | an empty slot stays empty; a filled one keeps its effect and deps and takes what the effect returned as cleanup |
| Scheduler.AfterPass | runtime/scheduler.js:16-37 | every slot is transformed by its run, and the length is unchanged |
| Scheduler.SlotLog | runtime/scheduler.js:19-35 | one slot's log entries; no contract of its own: `Scheduler.PassLogShape` states their shape |
| Scheduler.PassLog | runtime/scheduler.js:16-37 | the log one pass appends; no contract of its own: `Scheduler.PassRunsEverySlot`, `PassLogLength` and `PassLogShape` state it |
| Scheduler.RunEffects | runtime/scheduler.js:15-38 | the loop leaves the slots and the log as specified slot by slot, and changes nothing else |
| Scheduler.PassRunsEverySlot | runtime/scheduler.js:15-38 | every non-empty slot runs once per pass in ascending order, whatever its deps; exactly the slots holding a cleanup run it |
| Scheduler.PassLogLength | runtime/scheduler.js:15-38 | the log grows by one or two entries per non-empty slot |
| Scheduler.PassLogShape | runtime/scheduler.js:19-35 | each entry names a non-empty slot and its deps, and a cleanup entry is immediately followed by that slot's run entry |
| Root.CallsFrom | runtime/createRoot.js:15 | the app's hook calls in order, stopping at a throw; no contract of its own: `Root.Root.CallApp` is proved equal to it and `Root.CallsAdvanceCursors` states its cursors |
| Root.RenderPass | runtime/createRoot.js:10-25 | one render pass; no contract of its own: `Root.Root.RenderRoot` is proved equal to it, and `Root.PassResetsCursors`, `ThrowLeavesTree`, `PatchThrowKeepsTree`, `FirstPassMounts`, `RerenderSameTree`, `PassRunsEffects` and `EmptyDepsRunEveryPass` state what it does |
| Root.CallsAdvanceCursors | runtime/createRoot.js:12-15 | each hook call advances its own cursor by one |
| Root.Patch | runtime/createRoot.js:17-21 | with no previous tree the mount is appended to the container; otherwise the trees are diffed at index 0 |
| Root.PassResetsCursors | runtime/createRoot.js:12-13 | after a pass the cursors count that pass's calls, whatever they were before |
| Root.ThrowLeavesTree | runtime/createRoot.js:15 | a throwing app leaves the container, the recorded tree and the log unchanged |
| Root.PatchThrowKeepsTree | runtime/createRoot.js:17-24 | a mount or diff that throws leaves the recorded tree and the effect log unchanged, so no effect runs; the hook slots keep what the app's calls stored, and the container keeps the host changes made before the throw, with the fault the patch raised |
| Root.FirstPassMounts | runtime/createRoot.js:17-18 | the first pass appends the app's mounted tree after the container's children and records the tree |
| Root.RerenderSameTree | runtime/createRoot.js:19-23 | re-rendering the same tree leaves the container unchanged |
| Root.PassRunsEffects | runtime/createRoot.js:24 | every completed pass runs every non-empty effect slot once, in slot order |
| Root.EmptyDepsRunEveryPass | runtime/createRoot.js:10-25 | an effect with `[]` deps runs on the first pass and again on the second |
| Root.Root.constructor | runtime/createRoot.js:6-8 | no tree, no app, and this root's callback registered with the scheduler |
| Root.Root.CallApp | runtime/createRoot.js:15 | the app's hook calls, made in order, stop at the first throw |
| Root.Root.RenderRoot | runtime/createRoot.js:10-25 | the method leaves the root and the runtime state as the specified render pass does |
| Root.Root.Render | runtime/createRoot.js:32-35 | stores the app, then runs one pass; the current component name is unchanged |
| Root.Root.ScheduledCallback | runtime/createRoot.js:27-29 | does nothing before an app is set; afterwards, runs one pass; the app and the current component name are unchanged |

## Left out

- Floating-point numbers, NaN and -0: numbers are integers, so `Object.is` is plain value equality and numeric text is integer decimal.
- `true` and nested arrays as children: `true` is not a virtual node here, and a child list holds nodes, not arrays.
- Keys given as functions or objects: their property names are not modelled beyond a placeholder, and prototype names such as `toString` are treated like any other key.
- Effect log timestamps (`performance.now()`) are dropped from log entries.
- What user callbacks do (effects, cleanups, setter functions, components) is given as parameters. Effects are named by number, `results(f)` is what effect `f` returns, and an app is the `Pass` it makes: its hook calls and the tree it returns. Callbacks that throw, and side effects they have on the runtime, are not modelled beyond a component that throws.
- Re-entrant rendering: `scheduleRender` records a request to the registered callback instead of running it inside the setter. `Root.Root.ScheduledCallback` is the pass such a request runs.
- A component whose hook calls depend on the values it reads: each pass's calls are given, not computed from the state.
- Deps that are truthy but not arrays are not modelled: deps are a sequence or absent.
- The module that defines the shared runtime state (runtime/runtimeState.js) is not part of this model. Its fields are taken from their uses, and `currentComponentName` is a parameter of `Element.CreateElement`.
- The DOM is a value, not a mutable graph: node identity, aliasing and a node living in two places are not modelled. A child diffed in place is written back into its parent.
- The visualizer, change logs and the app entry files are not part of this model.
