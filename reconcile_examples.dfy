/** Two keyed child lists on which diff, as written, does not bring the host
    in line with the new tree: leftover removal by stale indices, and a
    rotation that leaves the host children in the wrong order. */
module ReconcileExamples {
  import opened Js
  import opened Element
  import opened Host
  import opened Mount
  import opened Keyed
  import opened Reconcile
  import opened ReconcileProofs

  /** `<li key={key}>{text}</li>` */
  function Item(key: string, text: string): VNode
  {
    ElemNode("li", map["key" := Str(key)], ChildArray([StrNode(text)]), None)
  }

  /** `<ul>{kids}</ul>` */
  function List(kids: seq<VNode>): VNode
  {
    ElemNode("ul", map[], ChildArray(kids), None)
  }

  /** An item diffed against itself changes nothing, whatever element now sits
      at the index it is diffed at: only its text is compared, and it is equal. */
  lemma ItemUnchanged(h: HostNode, key: string, text: string, at: nat)
    requires ChildAt(h, at).Some? && ChildAt(h, at).value.HostElem?
    ensures DiffSpec(h, Item(key, text), Item(key, text), at) == Outcome(h, [], None)
  {
    var v := Item(key, text);
    var e := ChildAt(h, at).value;
    var kids := [StrNode(text)];
    assert ChildSeq(v.children) == kids;
    var start := Walk(Some(e), [], 0, KeyTableOf(kids), None);
    assert AddChild(EmptyTable, kids, 0) == EmptyTable;
    assert BuildFrom(kids, 1, EmptyTable) == EmptyTable;
    assert DiffSpec(e, StrNode(text), StrNode(text), 0) == Outcome(e, [], None);
    assert Step(kids, kids, start, 0) == start;
    assert WalkFrom(kids, kids, start, 0) == start;
    assert LeftoversFrom(start, 0) == start;
    assert h.children[at := e] == h.children;
  }

  /** A fresh name that is not an array index goes to the end of the table. */
  lemma AddFresh(t: KeyTable, kids: seq<VNode>, i: nat, name: string)
    requires Coherent(t) && i < |kids| && KeyName(kids[i]) == Some(name)
    requires name !in t.entries && |name| == 1 && !IsDigit(name[0])
    ensures AddChild(t, kids, i) == KeyTable(t.order + [name], t.entries[name := Some(Match(kids[i], i))])
  {
    assert !IsArrayIndex(name);
  }

  lemma KeyTableOfTwo(kids: seq<VNode>)
    requires |kids| == 2 && KeyName(kids[0]) == Some("a") && KeyName(kids[1]) == Some("b")
    ensures KeyTableOf(kids) == KeyTable(["a", "b"], map["a" := Some(Match(kids[0], 0)), "b" := Some(Match(kids[1], 1))])
  {
    AddFresh(EmptyTable, kids, 0, "a");
    var t1 := AddChild(EmptyTable, kids, 0);
    AddFresh(t1, kids, 1, "b");
    var t2 := AddChild(t1, kids, 1);
    assert KeyTableOf(kids) == BuildFrom(kids, 1, t1) == BuildFrom(kids, 2, t2) == t2;
  }

  lemma KeyTableOfThree(kids: seq<VNode>)
    requires |kids| == 3 && KeyName(kids[0]) == Some("a") && KeyName(kids[1]) == Some("b") && KeyName(kids[2]) == Some("c")
    ensures KeyTableOf(kids)
         == KeyTable(["a", "b", "c"], map["a" := Some(Match(kids[0], 0)), "b" := Some(Match(kids[1], 1)), "c" := Some(Match(kids[2], 2))])
  {
    AddFresh(EmptyTable, kids, 0, "a");
    var t1 := AddChild(EmptyTable, kids, 0);
    AddFresh(t1, kids, 1, "b");
    var t2 := AddChild(t1, kids, 1);
    assert t2 == KeyTable(["a", "b"], map["a" := Some(Match(kids[0], 0)), "b" := Some(Match(kids[1], 1))]);
    AddFresh(t2, kids, 2, "c");
    var t3 := AddChild(t2, kids, 2);
    assert BuildFrom(kids, 3, t3) == t3;
    assert BuildFrom(kids, 2, t2) == t3;
    assert BuildFrom(kids, 1, t1) == t3;
    assert KeyTableOf(kids) == BuildFrom(kids, 1, t1);
  }

  /** Two lists are diffed by walking their children. */
  lemma ListsWalk(parent: HostNode, oldKids: seq<VNode>, newKids: seq<VNode>)
    ensures DiffSpec(parent, List(oldKids), List(newKids), 0) == ElementCase(parent, List(oldKids), List(newKids), 0)
  {
  }

  /** Two lists inside a one-child parent: the outcome is the walk and the
      leftover pass over the list's host element, written back at index 0. */
  lemma ListsOutcome(h: HostNode, oldKids: seq<VNode>, newKids: seq<VNode>, e: Walk)
    requires h.HostElem?
    requires e == LeftoversFrom(WalkFrom(oldKids, newKids, Walk(Some(h), [], 0, KeyTableOf(oldKids), None), 0), 0)
    requires e.dom.Some?
    ensures DiffSpec(HostElem("div", map[], [h]), List(oldKids), List(newKids), 0)
         == Outcome(HostElem("div", map[], [e.dom.value]), e.ops, e.fault)
  {
    var parent := HostElem("div", map[], [h]);
    ListsWalk(parent, oldKids, newKids);
    assert ChildSeq(List(oldKids).children) == oldKids;
    assert ChildSeq(List(newKids).children) == newKids;
    assert ChildAt(parent, 0) == Some(h);
    assert PutChild(parent, 0, e.dom.value) == HostElem("div", map[], [e.dom.value]);
  }

  lemma RenderList(kids: seq<VNode>)
    requires 2 <= |kids| <= 3
    ensures |kids| == 2 ==> Render(List(kids)) == HostElem("ul", map[], [Render(kids[0]), Render(kids[1])])
    ensures |kids| == 3 ==> Render(List(kids)) == HostElem("ul", map[], [Render(kids[0]), Render(kids[1]), Render(kids[2])])
  {
    assert HostProps(map[]) == map[];
    RenderChildren(List(kids));
  }

  /** Old `<ul><li key="a"/><li key="b"/></ul>`, new `<ul></ul>`: the first
      leftover removal shifts the second child down to index 0, so removing it
      at its old index 1 finds no child and throws, leaving one stale child. */
  lemma StaleIndexThrows()
    ensures var a := Item("a", "A");
            var b := Item("b", "B");
            var parent := HostElem("div", map[], [Render(List([a, b]))]);
            DiffSpec(parent, List([a, b]), List([]), 0)
              == Outcome(HostElem("div", map[], [HostElem("ul", map[], [Render(b)])]), [Remove(0)], Some(TypeError))
  {
    var a := Item("a", "A");
    var b := Item("b", "B");
    var kids := [a, b];
    var parent := HostElem("div", map[], [Render(List(kids))]);
    var h := Render(List(kids));
    RenderList(kids);
    KeyTableOfTwo(kids);
    var t := KeyTableOf(kids);
    var start := Walk(Some(h), [], 0, t, None);
    assert WalkFrom(kids, [], start, 0) == start;
    var w1 := start.(dom := Some(HostElem("ul", map[], [Render(b)])), ops := [Remove(0)]);
    assert [Render(a), Render(b)][..0] + [Render(a), Render(b)][1..] == [Render(b)];
    assert RemoveStep(start, 0) == w1;
    assert LeftoversFrom(start, 0) == LeftoversFrom(w1, 1);
    assert Lookup(w1.table, w1.table.order[1]) == Some(Match(b, 1));
    assert RemoveStep(w1, 1) == w1.(fault := Some(TypeError));
    assert LeftoversFrom(w1, 1) == LeftoversFrom(w1.(fault := Some(TypeError)), 2) == w1.(fault := Some(TypeError));
    ListsOutcome(h, kids, [], w1.(fault := Some(TypeError)));
  }

  /** Old children keyed a, b, c; new children c, a, b. The walk claims c at
      index 2, then moves a (index 0 < 2) to the end, then moves the child now
      at index 1, which is c and not b: two moves, and the host reads b, a, c
      where the new tree says c, a, b. */
  lemma RotationMisorders()
    ensures var a := Item("a", "A");
            var b := Item("b", "B");
            var c := Item("c", "C");
            var parent := HostElem("div", map[], [Render(List([a, b, c]))]);
            DiffSpec(parent, List([a, b, c]), List([c, a, b]), 0)
              == Outcome(HostElem("div", map[], [HostElem("ul", map[], [Render(b), Render(a), Render(c)])]),
                         [MoveToEnd(0), MoveToEnd(1)], None)
  {
    var a := Item("a", "A");
    var b := Item("b", "B");
    var c := Item("c", "C");
    var oldKids := [a, b, c];
    var newKids := [c, a, b];
    var parent := HostElem("div", map[], [Render(List(oldKids))]);
    var h := Render(List(oldKids));
    RenderList(oldKids);
    KeyTableOfThree(oldKids);
    var t := KeyTableOf(oldKids);
    var w0 := Walk(Some(h), [], 0, t, None);
    var w3 := RotationWalk(a, b, c, h, t);
    assert WalkFrom(oldKids, newKids, w0, 0) == w3;
    LeftoversUntouched(w3, 0);
    ListsOutcome(h, oldKids, newKids, w3);
  }

  /** The three steps of the rotation walk. */
  lemma RotationWalk(a: VNode, b: VNode, c: VNode, h: HostNode, t: KeyTable) returns (w3: Walk)
    requires a == Item("a", "A") && b == Item("b", "B") && c == Item("c", "C")
    requires h == HostElem("ul", map[], [Render(a), Render(b), Render(c)])
    requires t == KeyTable(["a", "b", "c"], map["a" := Some(Match(a, 0)), "b" := Some(Match(b, 1)), "c" := Some(Match(c, 2))])
    ensures WalkFrom([a, b, c], [c, a, b], Walk(Some(h), [], 0, t, None), 0) == w3
    ensures w3.dom == Some(HostElem("ul", map[], [Render(b), Render(a), Render(c)]))
    ensures w3.ops == [MoveToEnd(0), MoveToEnd(1)] && w3.fault.None?
    ensures forall k :: 0 <= k < |w3.table.order| ==> Lookup(w3.table, w3.table.order[k]).None?
  {
    var w0 := Walk(Some(h), [], 0, t, None);
    var w1 := RotationFirst(a, b, c, h, t);
    var h2 := HostElem("ul", map[], [Render(b), Render(c), Render(a)]);
    var w2 := RotationSecond(a, b, c, h, t, w1);
    w3 := RotationThird(a, b, c, h2, t, w2);
    WalkOfThree([a, b, c], [c, a, b], w0, w1, w2, w3);
    AllConsumed(a, b, c, t);
  }

  /** Consuming c, a and b empties the table of the three items. */
  lemma AllConsumed(a: VNode, b: VNode, c: VNode, t: KeyTable)
    requires t == KeyTable(["a", "b", "c"], map["a" := Some(Match(a, 0)), "b" := Some(Match(b, 1)), "c" := Some(Match(c, 2))])
    ensures var r := Consume(Consume(Consume(t, "c"), "a"), "b");
            forall k :: 0 <= k < |r.order| ==> Lookup(r, r.order[k]).None?
  {
    var r := Consume(Consume(Consume(t, "c"), "a"), "b");
    assert r.order == ["a", "b", "c"];
    forall k | 0 <= k < |r.order|
      ensures Lookup(r, r.order[k]).None?
    {
      assert r.order[k] == "a" || r.order[k] == "b" || r.order[k] == "c";
    }
  }

  /** c is found at 2, not below lastIndex 0: nothing moves. */
  lemma RotationFirst(a: VNode, b: VNode, c: VNode, h: HostNode, t: KeyTable) returns (w1: Walk)
    requires a == Item("a", "A") && b == Item("b", "B") && c == Item("c", "C")
    requires h == HostElem("ul", map[], [Render(a), Render(b), Render(c)])
    requires t == KeyTable(["a", "b", "c"], map["a" := Some(Match(a, 0)), "b" := Some(Match(b, 1)), "c" := Some(Match(c, 2))])
    ensures w1 == Step([a, b, c], [c, a, b], Walk(Some(h), [], 0, t, None), 0)
    ensures w1 == Walk(Some(h), [], 2, Consume(t, "c"), None)
  {
    assert Lookup(t, "c") == Some(Match(c, 2));
    assert ChildAt(h, 2) == Some(Render(c)) && Render(c).HostElem?;
    w1 := KeyedStep([a, b, c], [c, a, b], Walk(Some(h), [], 0, t, None), 0, "c", "C", 2);
  }

  /** a is found at 0, below lastIndex 2: the host child at 0 moves to the end. */
  lemma RotationSecond(a: VNode, b: VNode, c: VNode, h: HostNode, t: KeyTable, w1: Walk) returns (w2: Walk)
    requires a == Item("a", "A") && b == Item("b", "B") && c == Item("c", "C")
    requires h == HostElem("ul", map[], [Render(a), Render(b), Render(c)])
    requires t == KeyTable(["a", "b", "c"], map["a" := Some(Match(a, 0)), "b" := Some(Match(b, 1)), "c" := Some(Match(c, 2))])
    requires w1 == Walk(Some(h), [], 2, Consume(t, "c"), None)
    ensures w2 == Step([a, b, c], [c, a, b], w1, 1)
    ensures w2 == Walk(Some(HostElem("ul", map[], [Render(b), Render(c), Render(a)])), [MoveToEnd(0)], 2,
                       Consume(Consume(t, "c"), "a"), None)
  {
    assert Lookup(w1.table, "a") == Some(Match(a, 0));
    assert ChildAt(h, 0) == Some(Render(a)) && Render(a).HostElem?;
    w2 := KeyedStep([a, b, c], [c, a, b], w1, 1, "a", "A", 0);
    assert MoveChildToEnd(h, 0).children == [Render(b), Render(c), Render(a)];
  }

  /** b is found at 1, where c now sits, below lastIndex 2: c moves to the end. */
  lemma RotationThird(a: VNode, b: VNode, c: VNode, h2: HostNode, t: KeyTable, w2: Walk) returns (w3: Walk)
    requires a == Item("a", "A") && b == Item("b", "B") && c == Item("c", "C")
    requires h2 == HostElem("ul", map[], [Render(b), Render(c), Render(a)])
    requires t == KeyTable(["a", "b", "c"], map["a" := Some(Match(a, 0)), "b" := Some(Match(b, 1)), "c" := Some(Match(c, 2))])
    requires w2 == Walk(Some(h2), [MoveToEnd(0)], 2, Consume(Consume(t, "c"), "a"), None)
    ensures w3 == Step([a, b, c], [c, a, b], w2, 2)
    ensures w3 == Walk(Some(HostElem("ul", map[], [Render(b), Render(a), Render(c)])), [MoveToEnd(0), MoveToEnd(1)], 2,
                       Consume(Consume(Consume(t, "c"), "a"), "b"), None)
  {
    assert Lookup(w2.table, "b") == Some(Match(b, 1));
    assert ChildAt(h2, 1) == Some(Render(c)) && Render(c).HostElem?;
    w3 := KeyedStep([a, b, c], [c, a, b], w2, 2, "b", "B", 1);
    assert MoveChildToEnd(h2, 1).children == [Render(b), Render(a), Render(c)];
  }

  lemma WalkOfThree(oldKids: seq<VNode>, newKids: seq<VNode>, w0: Walk, w1: Walk, w2: Walk, w3: Walk)
    requires |newKids| == 3 && w0.fault.None? && w1.fault.None? && w2.fault.None?
    requires Step(oldKids, newKids, w0, 0) == w1 && Step(oldKids, newKids, w1, 1) == w2 && Step(oldKids, newKids, w2, 2) == w3
    ensures WalkFrom(oldKids, newKids, w0, 0) == w3
  {
    WalkOn(oldKids, newKids, w0, 0);
    WalkOn(oldKids, newKids, w1, 1);
    WalkOn(oldKids, newKids, w2, 2);
  }

  lemma WalkOn(oldKids: seq<VNode>, newKids: seq<VNode>, w: Walk, i: nat)
    requires i < |newKids| && w.fault.None?
    ensures WalkFrom(oldKids, newKids, w, i) == WalkFrom(oldKids, newKids, Step(oldKids, newKids, w, i), i + 1)
  {
  }

  /** A new item whose key is still held, at old index `at`, over a host
      element of items: nothing inside changes; the host child at `at` moves
      to the end exactly when `at` is below lastIndex. */
  lemma KeyedStep(oldKids: seq<VNode>, newKids: seq<VNode>, w: Walk, i: nat, key: string, text: string, at: nat)
      returns (s: Walk)
    requires i < |newKids| && newKids[i] == Item(key, text) && w.fault.None?
    requires Lookup(w.table, key) == Some(Match(Item(key, text), at))
    requires w.dom.Some? && ChildAt(w.dom.value, at).Some? && ChildAt(w.dom.value, at).value.HostElem?
    ensures s == Step(oldKids, newKids, w, i)
    ensures s.fault.None? && s.table == Consume(w.table, key) && s.lastIndex == Max(at, w.lastIndex)
    ensures at < w.lastIndex ==> s.dom == Some(MoveChildToEnd(w.dom.value, at)) && s.ops == w.ops + [MoveToEnd(at)]
    ensures at >= w.lastIndex ==> s.dom == w.dom && s.ops == w.ops
  {
    assert KeyName(Item(key, text)) == Some(key);
    ItemUnchanged(w.dom.value, key, text, at);
    assert w.ops + [] == w.ops;
    s := Step(oldKids, newKids, w, i);
  }
}
