/** `diff(parent, oldNode, newNode, index)` of core/diff.js. The functions
    below specify it case by case; the method `Diff` at the end is the
    imperative walk, proved to compute exactly what they specify. */
module Reconcile {
  import opened Js
  import opened Element
  import opened Host
  import opened Mount
  import opened Keyed

  /** The exceptions diff can raise: a TypeError when a DOM call receives
      undefined where a node is due, or a property of null or undefined is
      read; a HierarchyRequestError when a node is inserted into a text node. */
  datatype Fault = TypeError | HierarchyRequestError

  /** One mutating call into the host adapter, with the child index it targets
      within the parent it is called on. */
  datatype HostOp =
    | Insert(at: nat)
    | Remove(at: nat)
    | Replace(at: nat)
    | SetText(at: nat)
    | MoveToEnd(from: nat)

  /** The parent after a diff, the mutating calls made, in order, and the
      exception if one was thrown. A thrown diff keeps the mutations it made
      before the throw: nothing is rolled back. */
  datatype Outcome = Outcome(host: HostNode, ops: seq<HostOp>, fault: Option<Fault>)

  /** The variables of the child walk: the live element `existingDOM` (None when
      undefined), the calls made so far, `lastIndex`, `oldKeyed`, and the
      exception that stopped the walk, if any. */
  datatype Walk = Walk(dom: Option<HostNode>, ops: seq<HostOp>, lastIndex: nat, table: KeyTable, fault: Option<Fault>)

  /** `oldChildren[i]`, undefined past the end. */
  function OldAt(kids: seq<VNode>, i: nat): VNode
  {
    if i < |kids| then kids[i] else UndefinedNode
  }

  function Max(a: nat, b: nat): nat
  {
    if a < b then b else a
  }

  function Threw(parent: HostNode, f: Fault): Outcome
  {
    Outcome(parent, [], Some(f))
  }

  /** Writes a child that was changed in place back into its parent. */
  function PutChild(parent: HostNode, index: nat, child: HostNode): HostNode
  {
    if parent.HostElem? && index < |parent.children| then ReplaceChild(parent, index, child) else parent
  }

  /** The five cases of diff, tried in the source's order. Where the parent
      has no child at `index` (a text parent has none), only an insertion can
      change it: every other case leaves it as it was. */
  function DiffSpec(parent: HostNode, oldNode: VNode, newNode: VNode, index: nat): (r: Outcome)
    ensures ChildAt(parent, index).None? && (Present(oldNode) || !Present(newNode)) ==> r.host == parent
    ensures parent.HostText? ==> r.host == parent
    decreases Size(newNode), 1, 0
  {
    var existing := ChildAt(parent, index);
    if !Present(oldNode) && Present(newNode) then
      // insertBefore(render(newNode), childNodes[index] || null)
      if parent.HostText? then Threw(parent, HierarchyRequestError)
      else Outcome(InsertChild(parent, index, Render(newNode)), [Insert(index)], None)
    else if Present(oldNode) && !Present(newNode) then
      // removeChild(existingDOM)
      if existing.None? then Threw(parent, TypeError)
      else Outcome(RemoveChild(parent, index), [Remove(index)], None)
    else if JsType(oldNode) != JsType(newNode) || (oldNode.ElemNode? && newNode.ElemNode? && oldNode.tag != newNode.tag) then
      // replaceChild(render(newNode), existingDOM)
      if existing.None? then Threw(parent, TypeError)
      else Outcome(ReplaceChild(parent, index, Render(newNode)), [Replace(index)], None)
    else if oldNode.NullNode? then
      // both null: reading `oldNode.type` throws
      Threw(parent, TypeError)
    else if newNode.StrNode? || newNode.NumNode? then
      // existingDOM.textContent = newNode, only when the values differ
      if newNode == oldNode then Outcome(parent, [], None)
      else if existing.None? then Threw(parent, TypeError)
      else Outcome(ReplaceChild(parent, index, SetTextContent(existing.value, LeafText(newNode))), [SetText(index)], None)
    else if newNode.UndefinedNode? then
      // both undefined: reading `oldNode.props` throws
      Threw(parent, TypeError)
    else if newNode.FalseNode? then
      // both false: no props, so no children to walk
      Outcome(parent, [], None)
    else
      ElementCase(parent, oldNode, newNode, index)
  }

  /** Two elements of one tag: walk the new children against the old ones,
      then remove the keyed old children no new child claimed. */
  function ElementCase(parent: HostNode, oldNode: VNode, newNode: VNode, index: nat): (r: Outcome)
    requires oldNode.ElemNode? && newNode.ElemNode?
    ensures ChildAt(parent, index).None? ==> r.host == parent
    decreases Size(newNode), 0, 0
  {
    var oldKids := ChildSeq(oldNode.children);
    var newKids := ChildSeq(newNode.children);
    ChildSeqSmaller(newNode);
    var w := WalkFrom(oldKids, newKids, Walk(ChildAt(parent, index), [], 0, KeyTableOf(oldKids), None), 0);
    var e := LeftoversFrom(w, 0);
    Outcome(if e.dom.Some? then PutChild(parent, index, e.dom.value) else parent, e.ops, e.fault)
  }

  /** The iterations i .. |newKids| - 1 of the forEach over the new children,
      stopping at the first exception. */
  function WalkFrom(oldKids: seq<VNode>, newKids: seq<VNode>, w: Walk, i: nat): Walk
    requires i <= |newKids|
    decreases SeqSize(newKids), 4, |newKids| - i
  {
    if i == |newKids| || w.fault.Some? then w
    else WalkFrom(oldKids, newKids, Step(oldKids, newKids, w, i), i + 1)
  }

  /** One iteration: a new child whose key the table still holds is diffed
      against that old child at its old index, moved to the end when that
      index is below `lastIndex`, and its entry consumed; any other new child
      is diffed against the old child at its own index. */
  function Step(oldKids: seq<VNode>, newKids: seq<VNode>, w: Walk, i: nat): Walk
    requires i < |newKids| && w.fault.None?
    decreases SeqSize(newKids), 3, 0
  {
    var kid := newKids[i];
    SeqSizeBound(newKids, i);
    var key := KeyName(kid);
    if key.Some? && Lookup(w.table, key.value).Some? then
      var m := Lookup(w.table, key.value).value;
      var w1 := Descend(w, m.child, kid, m.index);
      if w1.fault.Some? then w1
      else
        var w2 := if m.index < w1.lastIndex then MoveStep(w1, m.index) else w1;
        if w2.fault.Some? then w2
        else w2.(lastIndex := Max(m.index, w2.lastIndex), table := Consume(w2.table, key.value))
    else
      Descend(w, OldAt(oldKids, i), kid, i)
  }

  /** The recursive call `diff(existingDOM, o, n, at)`. */
  function Descend(w: Walk, o: VNode, n: VNode, at: nat): (r: Walk)
    ensures r.table == w.table && r.lastIndex == w.lastIndex
    decreases Size(n), 2, 0
  {
    match w.dom
    case None => w.(fault := Some(TypeError))
    case Some(h) =>
      var out := DiffSpec(h, o, n, at);
      w.(dom := Some(out.host), ops := w.ops + out.ops, fault := out.fault)
  }

  /** `existingDOM.appendChild(existingDOM.childNodes[at])` */
  function MoveStep(w: Walk, at: nat): (r: Walk)
    ensures r.table == w.table && r.lastIndex == w.lastIndex
  {
    match w.dom
    case None => w.(fault := Some(TypeError))
    case Some(h) =>
      if ChildAt(h, at).Some? then w.(dom := Some(MoveChildToEnd(h, at)), ops := w.ops + [MoveToEnd(at)])
      else w.(fault := Some(TypeError))
  }

  /** `existingDOM.removeChild(existingDOM.childNodes[at])` */
  function RemoveStep(w: Walk, at: nat): (r: Walk)
    ensures r.table == w.table && r.lastIndex == w.lastIndex
  {
    match w.dom
    case None => w.(fault := Some(TypeError))
    case Some(h) =>
      if ChildAt(h, at).Some? then w.(dom := Some(RemoveChild(h, at)), ops := w.ops + [Remove(at)])
      else w.(fault := Some(TypeError))
  }

  /** The forEach over Object.keys(oldKeyed) from position j: every entry
      still held is removed at its original old index. */
  function LeftoversFrom(w: Walk, j: nat): (r: Walk)
    ensures r.table == w.table
    decreases |w.table.order| - j
  {
    if j >= |w.table.order| || w.fault.Some? then w
    else
      match Lookup(w.table, w.table.order[j])
      case None => LeftoversFrom(w, j + 1)
      case Some(m) => LeftoversFrom(RemoveStep(w, m.index), j + 1)
  }

  /** diff as the source runs it: the same case split, then the forEach over
      the new children and the forEach over the table's names as loops. */
  method Diff(parent: HostNode, oldNode: VNode, newNode: VNode, index: nat) returns (out: Outcome)
    ensures out == DiffSpec(parent, oldNode, newNode, index)
    decreases Size(newNode), 1
  {
    var existingDOM := ChildAt(parent, index);
    if !Present(oldNode) && Present(newNode) {
      if parent.HostText? {
        return Threw(parent, HierarchyRequestError);
      }
      return Outcome(InsertChild(parent, index, Render(newNode)), [Insert(index)], None);
    }
    if Present(oldNode) && !Present(newNode) {
      if existingDOM.None? {
        return Threw(parent, TypeError);
      }
      return Outcome(RemoveChild(parent, index), [Remove(index)], None);
    }
    if JsType(oldNode) != JsType(newNode) || (oldNode.ElemNode? && newNode.ElemNode? && oldNode.tag != newNode.tag) {
      if existingDOM.None? {
        return Threw(parent, TypeError);
      }
      return Outcome(ReplaceChild(parent, index, Render(newNode)), [Replace(index)], None);
    }
    if oldNode.NullNode? {
      return Threw(parent, TypeError);
    }
    if newNode.StrNode? || newNode.NumNode? {
      if newNode != oldNode {
        if existingDOM.None? {
          return Threw(parent, TypeError);
        }
        var text := SetTextContent(existingDOM.value, LeafText(newNode));
        return Outcome(ReplaceChild(parent, index, text), [SetText(index)], None);
      }
      return Outcome(parent, [], None);
    }
    if newNode.UndefinedNode? {
      return Threw(parent, TypeError);
    }
    if newNode.FalseNode? {
      return Outcome(parent, [], None);
    }
    out := DiffChildren(parent, oldNode, newNode, index);
  }

  /** The children diff of two elements with the same tag. */
  method DiffChildren(parent: HostNode, oldNode: VNode, newNode: VNode, index: nat) returns (out: Outcome)
    requires oldNode.ElemNode? && newNode.ElemNode?
    ensures out == ElementCase(parent, oldNode, newNode, index)
    decreases Size(newNode), 0
  {
    var existingDOM := ChildAt(parent, index);
    var oldChildren := ChildSeq(oldNode.children);
    var newChildren := ChildSeq(newNode.children);
    var oldKeyed := KeyMap(oldChildren);
    var dom := existingDOM;
    var ops: seq<HostOp> := [];
    var lastIndex: nat := 0;
    var fault: Option<Fault> := None;
    ghost var start := Walk(existingDOM, [], 0, oldKeyed, None);
    var newIndex := 0;
    while newIndex < |newChildren| && fault.None?
      invariant newIndex <= |newChildren|
      invariant WalkFrom(oldChildren, newChildren, Walk(dom, ops, lastIndex, oldKeyed, fault), newIndex)
             == WalkFrom(oldChildren, newChildren, start, 0)
      decreases |newChildren| - newIndex
    {
      ghost var before := Walk(dom, ops, lastIndex, oldKeyed, fault);
      var newChild := newChildren[newIndex];
      ChildSmaller(newNode, newIndex);
      var key := KeyName(newChild);
      var found := if key.Some? then Lookup(oldKeyed, key.value) else None;
      if found.Some? {
        var oldIndex := found.value.index;
        if dom.None? {
          fault := Some(TypeError);
        } else {
          var sub := Diff(dom.value, found.value.child, newChild, oldIndex);
          dom, ops, fault := Some(sub.host), ops + sub.ops, sub.fault;
        }
        if fault.None? && oldIndex < lastIndex {
          if ChildAt(dom.value, oldIndex).None? {
            fault := Some(TypeError);
          } else {
            dom, ops := Some(MoveChildToEnd(dom.value, oldIndex)), ops + [MoveToEnd(oldIndex)];
          }
        }
        if fault.None? {
          lastIndex := Max(oldIndex, lastIndex);
          oldKeyed := Consume(oldKeyed, key.value);
        }
      } else {
        if dom.None? {
          fault := Some(TypeError);
        } else {
          var sub := Diff(dom.value, OldAt(oldChildren, newIndex), newChild, newIndex);
          dom, ops, fault := Some(sub.host), ops + sub.ops, sub.fault;
        }
      }
      assert Walk(dom, ops, lastIndex, oldKeyed, fault) == Step(oldChildren, newChildren, before, newIndex);
      newIndex := newIndex + 1;
    }
    var walked := Walk(dom, ops, lastIndex, oldKeyed, fault);
    assert walked == WalkFrom(oldChildren, newChildren, start, 0);

    var e := RemoveLeftovers(walked);
    out := Outcome(if e.dom.Some? then PutChild(parent, index, e.dom.value) else parent, e.ops, e.fault);
  }

  /** The forEach over Object.keys(oldKeyed) after the walk. */
  method RemoveLeftovers(w: Walk) returns (r: Walk)
    ensures r == LeftoversFrom(w, 0)
  {
    var oldKeyed := w.table;
    var dom, ops, fault := w.dom, w.ops, w.fault;
    var names := oldKeyed.order;
    var j := 0;
    while j < |names| && fault.None?
      invariant j <= |names|
      invariant LeftoversFrom(Walk(dom, ops, w.lastIndex, oldKeyed, fault), j) == LeftoversFrom(w, 0)
      decreases |names| - j
    {
      var entry := Lookup(oldKeyed, names[j]);
      if entry.Some? {
        if dom.None? || ChildAt(dom.value, entry.value.index).None? {
          fault := Some(TypeError);
        } else {
          dom, ops := Some(RemoveChild(dom.value, entry.value.index)), ops + [Remove(entry.value.index)];
        }
      }
      j := j + 1;
    }
    r := Walk(dom, ops, w.lastIndex, oldKeyed, fault);
  }
}
