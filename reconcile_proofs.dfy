/** What diff promises, proved about its specification in module Reconcile. */
module ReconcileProofs {
  import opened Js
  import opened Element
  import opened Host
  import opened Mount
  import opened Keyed
  import opened Reconcile

  /** A tree diff accepts against itself: no node is null or undefined (diff
      throws on those) and the keys of every child list are distinct. */
  ghost predicate Diffable(v: VNode)
    decreases Size(v), 0
  {
    !v.NullNode? && !v.UndefinedNode?
    && (v.ElemNode? ==>
          (ChildSeqSmaller(v);
           DistinctKeys(ChildSeq(v.children)) && DiffableAll(ChildSeq(v.children))))
  }

  ghost predicate DiffableAll(kids: seq<VNode>)
    decreases SeqSize(kids), 1
  {
    kids != [] ==> (SeqSizeBound(kids, 0); Diffable(kids[0]) && DiffableAll(kids[1..]))
  }

  lemma {:induction false} DiffableAt(kids: seq<VNode>, i: nat)
    requires DiffableAll(kids) && i < |kids|
    ensures Diffable(kids[i])
  {
    if i > 0 {
      DiffableAt(kids[1..], i - 1);
    }
  }

  /** The key table after the walk has visited the first i new children of an
      identical child list: the entries of those children are consumed, the
      others still hold their own child. */
  ghost predicate ConsumedUpTo(kids: seq<VNode>, i: nat, t: KeyTable)
  {
    (forall name :: name in t.entries <==> NamedBefore(kids, |kids|, name))
    && (forall j :: 0 <= j < |kids| && KeyName(kids[j]).Some? ==>
          Lookup(t, KeyName(kids[j]).value) == if j < i then None else Some(Match(kids[j], j)))
  }

  lemma InitialTable(kids: seq<VNode>)
    requires DistinctKeys(kids)
    ensures ConsumedUpTo(kids, 0, KeyTableOf(kids))
  {
    KeyTableHolds(kids);
    forall j | 0 <= j < |kids| && KeyName(kids[j]).Some?
      ensures Lookup(KeyTableOf(kids), KeyName(kids[j]).value) == Some(Match(kids[j], j))
    {
      KeyTableDistinct(kids, j);
    }
  }

  /** Diffing a tree against itself, where the host child at `index` is its
      mount, makes no host call, throws nothing and leaves the parent as it
      was: keyed matches arrive in increasing index order, so nothing moves,
      and every key is consumed, so nothing is left over to remove. */
  lemma {:induction false} DiffIdentical(parent: HostNode, v: VNode, index: nat)
    requires Diffable(v) && ChildAt(parent, index) == Some(Render(v))
    ensures DiffSpec(parent, v, v, index) == Outcome(parent, [], None)
    decreases Size(v), 2, 0
  {
    if v.ElemNode? {
      ElementIdentical(parent, v, index);
    }
  }

  lemma {:induction false} ElementIdentical(parent: HostNode, v: VNode, index: nat)
    requires v.ElemNode? && Diffable(v) && ChildAt(parent, index) == Some(Render(v))
    ensures ElementCase(parent, v, v, index) == Outcome(parent, [], None)
    decreases Size(v), 1, 0
  {
    var kids := ChildSeq(v.children);
    var h := Render(v);
    InitialTable(kids);
    var start := Walk(Some(h), [], 0, KeyTableOf(kids), None);
    WalkIdentical(v, start, 0);
    var w := WalkFrom(kids, kids, start, 0);
    LeftoversUntouched(w, 0);
    assert parent.children[index := h] == parent.children;
  }

  lemma {:induction false} WalkIdentical(v: VNode, w: Walk, i: nat)
    requires v.ElemNode? && Diffable(v) && i <= |ChildSeq(v.children)|
    requires w.dom == Some(Render(v)) && w.ops == [] && w.fault.None? && w.lastIndex <= i
    requires ConsumedUpTo(ChildSeq(v.children), i, w.table)
    ensures var r := WalkFrom(ChildSeq(v.children), ChildSeq(v.children), w, i);
            r.dom == w.dom && r.ops == [] && r.fault.None?
            && ConsumedUpTo(ChildSeq(v.children), |ChildSeq(v.children)|, r.table)
    decreases Size(v), 0, |ChildSeq(v.children)| - i, 1
  {
    var kids := ChildSeq(v.children);
    if i < |kids| {
      StepIdentical(v, w, i);
      WalkIdentical(v, Step(kids, kids, w, i), i + 1);
    }
  }

  /** One step of the walk over identical child lists changes neither the
      host nor the operations, and consumes the child's own key. */
  lemma {:induction false} StepIdentical(v: VNode, w: Walk, i: nat)
    requires v.ElemNode? && Diffable(v) && i < |ChildSeq(v.children)|
    requires w.dom == Some(Render(v)) && w.ops == [] && w.fault.None? && w.lastIndex <= i
    requires ConsumedUpTo(ChildSeq(v.children), i, w.table)
    ensures var s := Step(ChildSeq(v.children), ChildSeq(v.children), w, i);
            s.dom == w.dom && s.ops == [] && s.fault.None? && s.lastIndex <= i + 1
            && ConsumedUpTo(ChildSeq(v.children), i + 1, s.table)
    decreases Size(v), 0, |ChildSeq(v.children)| - i, 0
  {
    var kids := ChildSeq(v.children);
    ChildSmaller(v, i);
    RenderChildren(v);
    DiffableAt(kids, i);
    DescendIdentical(w, kids[i], i);
    var key := KeyName(kids[i]);
    if key.Some? {
      assert Lookup(w.table, key.value) == Some(Match(kids[i], i));
      ConsumedStep(kids, i, w.table);
    } else {
      assert Step(kids, kids, w, i) == Descend(w, kids[i], kids[i], i);
    }
  }

  /** Consuming the key of child i extends the consumed prefix by one. */
  lemma ConsumedStep(kids: seq<VNode>, i: nat, t: KeyTable)
    requires DistinctKeys(kids) && i < |kids| && KeyName(kids[i]).Some? && ConsumedUpTo(kids, i, t)
    ensures KeyName(kids[i]).value in t.entries
    ensures ConsumedUpTo(kids, i + 1, Consume(t, KeyName(kids[i]).value))
  {
    var key := KeyName(kids[i]).value;
    assert NamedBefore(kids, |kids|, key);
    var r := Consume(t, key);
    forall j | 0 <= j < |kids| && KeyName(kids[j]).Some?
      ensures Lookup(r, KeyName(kids[j]).value) == if j < i + 1 then None else Some(Match(kids[j], j))
    {
      if j != i {
        assert KeyName(kids[j]).value != key by {
          if j < i {
            assert KeyName(kids[j]) != KeyName(kids[i]);
          } else {
            assert KeyName(kids[i]) != KeyName(kids[j]);
          }
        }
      }
    }
  }

  /** The recursive diff of a child against itself leaves the walk as it was. */
  lemma {:induction false} DescendIdentical(w: Walk, n: VNode, at: nat)
    requires Diffable(n) && w.dom.Some? && ChildAt(w.dom.value, at) == Some(Render(n)) && w.fault.None?
    ensures Descend(w, n, n, at) == w
    decreases Size(n), 3, 0
  {
    DiffIdentical(w.dom.value, n, at);
    assert w.ops + [] == w.ops;
  }

  /** With every entry consumed, the leftover pass removes nothing. */
  lemma {:induction false} LeftoversUntouched(w: Walk, j: nat)
    requires forall k :: 0 <= k < |w.table.order| ==> Lookup(w.table, w.table.order[k]).None?
    ensures LeftoversFrom(w, j) == w
    decreases |w.table.order| - j
  {
    if j < |w.table.order| && w.fault.None? {
      LeftoversUntouched(w, j + 1);
    }
  }

  /** Add: an absent old node and a present new one insert the mount of the
      new node before the child at `index`, or at the end when there is none;
      the child count grows by one and every other child keeps its order. A
      text parent refuses the insertion. */
  lemma DiffAdds(parent: HostNode, oldNode: VNode, newNode: VNode, index: nat)
    requires !Present(oldNode) && Present(newNode)
    ensures parent.HostText? ==> DiffSpec(parent, oldNode, newNode, index) == Outcome(parent, [], Some(HierarchyRequestError))
    ensures parent.HostElem? ==>
              var r := DiffSpec(parent, oldNode, newNode, index);
              var at := if index < |parent.children| then index else |parent.children|;
              r.fault.None? && r.ops == [Insert(index)] && r.host.HostElem?
              && |r.host.children| == |parent.children| + 1
              && Unmount(r.host.children[at]) == Normalize(newNode)
              && r.host.children[..at] == parent.children[..at]
              && r.host.children[at + 1..] == parent.children[at..]
  {
    MountThenRead(newNode);
  }

  /** Remove: a present old node and an absent new one (so `""` and `0` as new
      nodes) remove the child at `index`; with no child there the call throws. */
  lemma DiffRemoves(parent: HostNode, oldNode: VNode, newNode: VNode, index: nat)
    requires Present(oldNode) && !Present(newNode)
    ensures index >= ChildCount(parent) ==> DiffSpec(parent, oldNode, newNode, index) == Outcome(parent, [], Some(TypeError))
    ensures index < ChildCount(parent) ==>
              var r := DiffSpec(parent, oldNode, newNode, index);
              r.fault.None? && r.ops == [Remove(index)] && r.host.HostElem?
              && r.host.children == parent.children[..index] + parent.children[index + 1..]
  {
  }

  /** Replace: nodes of different JS types, or elements of different tags,
      replace the child at `index` by a fresh mount of the new node; nothing
      of the old child is reused and the child count is unchanged. */
  lemma DiffReplaces(parent: HostNode, oldNode: VNode, newNode: VNode, index: nat)
    requires Present(oldNode) == Present(newNode)
    requires JsType(oldNode) != JsType(newNode) || (oldNode.ElemNode? && newNode.ElemNode? && oldNode.tag != newNode.tag)
    ensures index >= ChildCount(parent) ==> DiffSpec(parent, oldNode, newNode, index) == Outcome(parent, [], Some(TypeError))
    ensures index < ChildCount(parent) ==>
              var r := DiffSpec(parent, oldNode, newNode, index);
              r.fault.None? && r.ops == [Replace(index)] && r.host.HostElem?
              && |r.host.children| == |parent.children|
              && Unmount(r.host.children[index]) == Normalize(newNode)
              && forall j :: 0 <= j < |parent.children| && j != index ==> r.host.children[j] == parent.children[j]
  {
    MountThenRead(newNode);
  }

  /** Two leaves of one JS type: equal values change nothing; different ones
      set the text content of the child at `index` and touch no other child.
      A text child then reads back as the new leaf; an element child loses
      all its children for one text child (none for ""). */
  lemma DiffLeaves(parent: HostNode, oldNode: VNode, newNode: VNode, index: nat)
    requires (oldNode.StrNode? && newNode.StrNode?) || (oldNode.NumNode? && newNode.NumNode?)
    requires Present(oldNode) == Present(newNode)
    ensures newNode == oldNode ==> DiffSpec(parent, oldNode, newNode, index) == Outcome(parent, [], None)
    ensures newNode != oldNode && index >= ChildCount(parent) ==>
              DiffSpec(parent, oldNode, newNode, index) == Outcome(parent, [], Some(TypeError))
    ensures newNode != oldNode && index < ChildCount(parent) ==>
              var r := DiffSpec(parent, oldNode, newNode, index);
              r.fault.None? && r.ops == [SetText(index)] && r.host.HostElem?
              && |r.host.children| == |parent.children|
              && (forall j :: 0 <= j < |parent.children| && j != index ==> r.host.children[j] == parent.children[j])
              && r.host.children[index] == SetTextContent(parent.children[index], LeafText(newNode))
              && (parent.children[index].HostText? ==> Unmount(r.host.children[index]) == Normalize(newNode))
  {
  }

  /** A keyed new child whose key the table still holds: it is diffed against
      that old child at the old index, and a throw there ends the step; the
      host child there is then moved to the end exactly when the old index is
      below `lastIndex`, which throws when no such child exists; `lastIndex`
      becomes the larger of the two and the entry is consumed. */
  lemma StepKeyed(oldKids: seq<VNode>, newKids: seq<VNode>, w: Walk, i: nat)
    requires i < |newKids| && w.fault.None?
    requires KeyName(newKids[i]).Some? && Lookup(w.table, KeyName(newKids[i]).value).Some?
    ensures var m := Lookup(w.table, KeyName(newKids[i]).value).value;
            var w1 := Descend(w, m.child, newKids[i], m.index);
            (w1.fault.None? ==> w1.dom.Some?)
            && (w1.fault.Some? ==> Step(oldKids, newKids, w, i) == w1)
    ensures var m := Lookup(w.table, KeyName(newKids[i]).value).value;
            var w1 := Descend(w, m.child, newKids[i], m.index);
            w1.fault.None? && w1.dom.Some? && m.index < w.lastIndex && ChildAt(w1.dom.value, m.index).None? ==>
              Step(oldKids, newKids, w, i).fault == Some(TypeError)
    ensures var name := KeyName(newKids[i]).value;
            var m := Lookup(w.table, name).value;
            var w1 := Descend(w, m.child, newKids[i], m.index);
            var s := Step(oldKids, newKids, w, i);
            w1.fault.None? && w1.dom.Some? && (m.index >= w.lastIndex || ChildAt(w1.dom.value, m.index).Some?) ==>
              s.fault.None?
              && s.lastIndex == Max(m.index, w.lastIndex)
              && s.table == Consume(w.table, name)
              && ChildCount(s.dom.value) == ChildCount(w1.dom.value)
              && (m.index < w.lastIndex ==> s.ops == w1.ops + [MoveToEnd(m.index)] && s.dom == Some(MoveChildToEnd(w1.dom.value, m.index)))
              && (m.index >= w.lastIndex ==> s.ops == w1.ops && s.dom == w1.dom)
  {
  }

  /** Any other new child (no key, or a key the table no longer holds) is
      diffed positionally against the old child at its own index. */
  lemma StepPositional(oldKids: seq<VNode>, newKids: seq<VNode>, w: Walk, i: nat)
    requires i < |newKids| && w.fault.None?
    requires KeyName(newKids[i]).None? || Lookup(w.table, KeyName(newKids[i]).value).None?
    ensures Step(oldKids, newKids, w, i) == Descend(w, OldAt(oldKids, i), newKids[i], i)
    ensures Step(oldKids, newKids, w, i).table == w.table && Step(oldKids, newKids, w, i).lastIndex == w.lastIndex
  {
  }

  /** The walk only ever consumes entries: each name keeps its entry or loses
      it, and no consumed entry comes back, so an old child is claimed at most once. */
  lemma {:induction false} WalkConsumes(oldKids: seq<VNode>, newKids: seq<VNode>, w: Walk, i: nat)
    requires i <= |newKids|
    ensures var r := WalkFrom(oldKids, newKids, w, i);
            r.table.order == w.table.order
            && forall name :: Lookup(r.table, name) == Lookup(w.table, name) || Lookup(r.table, name).None?
    decreases |newKids| - i
  {
    if i < |newKids| && w.fault.None? {
      var s := Step(oldKids, newKids, w, i);
      WalkConsumes(oldKids, newKids, s, i + 1);
    }
  }

  /** The old indices of the entries still held, in Object.keys order from j. */
  function LiveIndices(t: KeyTable, j: nat): seq<nat>
    decreases |t.order| - j
  {
    if j >= |t.order| then []
    else match Lookup(t, t.order[j])
      case None => LiveIndices(t, j + 1)
      case Some(m) => [m.index] + LiveIndices(t, j + 1)
  }

  function RemovesOf(indices: seq<nat>): (r: seq<HostOp>)
    ensures |r| == |indices|
    ensures forall k :: 0 <= k < |r| ==> r[k] == Remove(indices[k])
  {
    if indices == [] then [] else [Remove(indices[0])] + RemovesOf(indices[1..])
  }

  /** `removeChild(childNodes[i])` for each index in turn, none adjusted for
      the removals before it; None once an index names no child. */
  function RemoveEach(h: HostNode, indices: seq<nat>): (r: Option<HostNode>)
    ensures r.Some? ==> ChildCount(r.value) + |indices| == ChildCount(h)
    decreases |indices|
  {
    if indices == [] then Some(h)
    else if ChildAt(h, indices[0]).None? then None
    else RemoveEach(RemoveChild(h, indices[0]), indices[1..])
  }

  /** Leftover removal: it removes the host child at each held entry's
      original old index, in key order, with the indices never adjusted for
      the removals made before; it throws exactly when one of those indices
      names no child by then. */
  lemma {:induction false} LeftoversRemove(w: Walk, j: nat)
    requires w.dom.Some?
    ensures var r := LeftoversFrom(w, j);
            r.fault.None? ==>
              w.fault.None? && r.dom.Some?
              && r.ops == w.ops + RemovesOf(LiveIndices(w.table, j))
              && ChildCount(r.dom.value) + |LiveIndices(w.table, j)| == ChildCount(w.dom.value)
    ensures var r := LeftoversFrom(w, j);
            w.fault.None? ==>
              (r.fault.None? <==> RemoveEach(w.dom.value, LiveIndices(w.table, j)).Some?)
              && (r.fault.None? ==> r.dom == RemoveEach(w.dom.value, LiveIndices(w.table, j)))
              && (r.fault.Some? ==> r.fault == Some(TypeError))
    decreases |w.table.order| - j
  {
    if j < |w.table.order| && w.fault.None? {
      match Lookup(w.table, w.table.order[j])
      case None =>
        LeftoversRemove(w, j + 1);
      case Some(m) =>
        var w1 := RemoveStep(w, m.index);
        LiveRemoves(w, j, m);
        var rest := LiveIndices(w.table, j + 1);
        assert ([m.index] + rest)[1..] == rest;
        if w1.fault.None? {
          RemoveStepFacts(w, m.index);
          LeftoversRemove(w1, j + 1);
        } else {
          assert LeftoversFrom(w1, j + 1) == w1;
        }
    }
  }

  /** A removal that throws nothing appends one call and removes one child. */
  lemma RemoveStepFacts(w: Walk, at: nat)
    requires w.dom.Some? && RemoveStep(w, at).fault.None?
    ensures var w1 := RemoveStep(w, at);
            w1.dom.Some? && w1.ops == w.ops + [Remove(at)] && ChildCount(w1.dom.value) + 1 == ChildCount(w.dom.value)
  {
  }

  /** The calls the rest of the pass makes after a removal at m.index. */
  lemma LiveRemoves(w: Walk, j: nat, m: Match)
    requires j < |w.table.order| && Lookup(w.table, w.table.order[j]) == Some(m)
    ensures LiveIndices(w.table, j) == [m.index] + LiveIndices(w.table, j + 1)
    ensures w.ops + RemovesOf(LiveIndices(w.table, j))
         == (w.ops + [Remove(m.index)]) + RemovesOf(LiveIndices(w.table, j + 1))
  {
    var rest := LiveIndices(w.table, j + 1);
    assert ([m.index] + rest)[1..] == rest;
  }

  /** The same node, or elements with the same tag and props: what diff can
      change inside a host node without patching the node itself. */
  predicate SameShell(a: HostNode, b: HostNode)
  {
    (a.HostText? && a == b) || (a.HostElem? && b.HostElem? && a.tag == b.tag && a.props == b.props)
  }

  /** Diff never patches the node it is called on: the parent keeps its tag
      and props (a text parent is left as it is), and when both nodes are
      elements of one tag the host child at `index` keeps its tag and props
      too, so the new element's props are never applied. */
  lemma {:induction false} DiffKeepsShell(parent: HostNode, oldNode: VNode, newNode: VNode, index: nat)
    ensures SameShell(parent, DiffSpec(parent, oldNode, newNode, index).host)
    decreases Size(newNode), 1, 0
  {
    var existing := ChildAt(parent, index);
    if !Present(oldNode) && Present(newNode) {
    } else if Present(oldNode) && !Present(newNode) {
    } else if JsType(oldNode) != JsType(newNode) || (oldNode.ElemNode? && newNode.ElemNode? && oldNode.tag != newNode.tag) {
    } else if oldNode.NullNode? || newNode.StrNode? || newNode.NumNode? || newNode.UndefinedNode? || newNode.FalseNode? {
    } else {
      ElementKeepsShell(parent, oldNode, newNode, index);
    }
  }

  lemma {:induction false} ElementKeepsShell(parent: HostNode, oldNode: VNode, newNode: VNode, index: nat)
    requires oldNode.ElemNode? && newNode.ElemNode?
    ensures var r := ElementCase(parent, oldNode, newNode, index).host;
            SameShell(parent, r)
            && (ChildAt(parent, index).Some? ==>
                  ChildAt(r, index).Some? && SameShell(ChildAt(parent, index).value, ChildAt(r, index).value))
    decreases Size(newNode), 0, 0
  {
    var oldKids := ChildSeq(oldNode.children);
    var newKids := ChildSeq(newNode.children);
    ChildSeqSmaller(newNode);
    var start := Walk(ChildAt(parent, index), [], 0, KeyTableOf(oldKids), None);
    WalkKeepsShell(oldKids, newKids, start, 0);
    var w := WalkFrom(oldKids, newKids, start, 0);
    LeftoversKeepShell(w, 0);
  }

  lemma {:induction false} WalkKeepsShell(oldKids: seq<VNode>, newKids: seq<VNode>, w: Walk, i: nat)
    requires i <= |newKids|
    ensures var r := WalkFrom(oldKids, newKids, w, i);
            (w.dom.None? ==> r.dom.None?) && (w.dom.Some? ==> r.dom.Some? && SameShell(w.dom.value, r.dom.value))
    decreases SeqSize(newKids), 4, |newKids| - i
  {
    if i < |newKids| && w.fault.None? {
      StepKeepsShell(oldKids, newKids, w, i);
      WalkKeepsShell(oldKids, newKids, Step(oldKids, newKids, w, i), i + 1);
    }
  }

  lemma {:induction false} StepKeepsShell(oldKids: seq<VNode>, newKids: seq<VNode>, w: Walk, i: nat)
    requires i < |newKids| && w.fault.None?
    ensures var s := Step(oldKids, newKids, w, i);
            (w.dom.None? ==> s.dom.None?) && (w.dom.Some? ==> s.dom.Some? && SameShell(w.dom.value, s.dom.value))
    decreases SeqSize(newKids), 3, 0
  {
    var kid := newKids[i];
    SeqSizeBound(newKids, i);
    var key := KeyName(kid);
    if w.dom.Some? {
      if key.Some? && Lookup(w.table, key.value).Some? {
        var m := Lookup(w.table, key.value).value;
        DiffKeepsShell(w.dom.value, m.child, kid, m.index);
      } else {
        DiffKeepsShell(w.dom.value, OldAt(oldKids, i), kid, i);
      }
    }
  }

  lemma {:induction false} LeftoversKeepShell(w: Walk, j: nat)
    ensures var r := LeftoversFrom(w, j);
            (w.dom.None? ==> r.dom.None?) && (w.dom.Some? ==> r.dom.Some? && SameShell(w.dom.value, r.dom.value))
    decreases |w.table.order| - j
  {
    if j < |w.table.order| && w.fault.None? {
      match Lookup(w.table, w.table.order[j])
      case None => LeftoversKeepShell(w, j + 1);
      case Some(m) => LeftoversKeepShell(RemoveStep(w, m.index), j + 1);
    }
  }
}
