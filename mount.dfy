/** `render(vnode)` of core/render.js: building a fresh host subtree for a
    virtual tree. It touches only the nodes it creates, so it is a function
    from a virtual node to a host node. */
module Mount {
  import opened Js
  import opened Element
  import opened Host

  /** The text a leaf shows: a string as it is, a number in decimal. */
  function LeafText(v: VNode): string
    requires v.StrNode? || v.NumNode?
  {
    if v.StrNode? then v.s else IntToString(v.n)
  }

  /** Every prop except `children`, as the for-in loop assigns them. */
  function HostProps(props: map<string, Value>): (r: map<string, Value>)
    ensures forall k :: k in r <==> k in props && k != "children"
    ensures forall k :: k in r ==> r[k] == props[k]
  {
    props - {"children"}
  }

  function Render(v: VNode): (r: HostNode)
    ensures (v.NullNode? || v.UndefinedNode? || v.FalseNode?) ==> r == HostText("")
    ensures (v.StrNode? || v.NumNode?) ==> r == HostText(LeafText(v))
    ensures v.ElemNode? ==> r.HostElem? && r.tag == v.tag && r.props == HostProps(v.props)
    ensures v.ElemNode? ==> |r.children| == |ChildSeq(v.children)|
    decreases Size(v), 0
  {
    match v
    case NullNode => HostText("")
    case UndefinedNode => HostText("")
    case FalseNode => HostText("")
    case StrNode(s) => HostText(s)
    case NumNode(n) => HostText(IntToString(n))
    case ElemNode(tag, props, children, _) =>
      ChildSeqSmaller(v);
      HostElem(tag, HostProps(props), RenderAll(ChildSeq(children)))
  }

  /** Mount each child in order: one host child per virtual child. */
  function RenderAll(kids: seq<VNode>): (r: seq<HostNode>)
    ensures |r| == |kids|
    decreases SeqSize(kids), 1
  {
    if kids == [] then []
    else
      SeqSizeBound(kids, 0);
      [Render(kids[0])] + RenderAll(kids[1..])
  }

  lemma {:induction false} RenderAllAt(kids: seq<VNode>, i: nat)
    requires i < |kids|
    ensures RenderAll(kids)[i] == Render(kids[i])
  {
    if i > 0 {
      RenderAllAt(kids[1..], i - 1);
    }
  }

  /** An element mounts as one host child per virtual child, in order, each
      the mount of that child. */
  lemma RenderChildren(v: VNode)
    requires v.ElemNode?
    ensures forall i :: 0 <= i < |ChildSeq(v.children)| ==>
              Render(v).children[i] == Render(ChildSeq(v.children)[i])
  {
    forall i | 0 <= i < |ChildSeq(v.children)|
      ensures Render(v).children[i] == Render(ChildSeq(v.children)[i])
    {
      RenderAllAt(ChildSeq(v.children), i);
    }
  }

  /** The canonical virtual tree of a mounted tree: leaves become strings,
      children become arrays, props lose `children`, component names vanish. */
  function Normalize(v: VNode): (r: VNode)
    decreases Size(v), 0
  {
    match v
    case NullNode => StrNode("")
    case UndefinedNode => StrNode("")
    case FalseNode => StrNode("")
    case StrNode(s) => v
    case NumNode(n) => StrNode(IntToString(n))
    case ElemNode(tag, props, children, _) =>
      ChildSeqSmaller(v);
      ElemNode(tag, HostProps(props), ChildArray(NormalizeAll(ChildSeq(children))), None)
  }

  function NormalizeAll(kids: seq<VNode>): (r: seq<VNode>)
    ensures |r| == |kids|
    decreases SeqSize(kids), 1
  {
    if kids == [] then []
    else
      SeqSizeBound(kids, 0);
      [Normalize(kids[0])] + NormalizeAll(kids[1..])
  }

  /** Reads a host tree back as a virtual tree. */
  function Unmount(h: HostNode): VNode
  {
    match h
    case HostText(t) => StrNode(t)
    case HostElem(tag, props, kids) => ElemNode(tag, props, ChildArray(UnmountAll(kids)), None)
  }

  function UnmountAll(hs: seq<HostNode>): (r: seq<VNode>)
    ensures |r| == |hs|
  {
    if hs == [] then [] else [Unmount(hs[0])] + UnmountAll(hs[1..])
  }

  /** Mounting keeps shape, tags, props and leaf text: reading the mounted
      tree back gives the normalised virtual tree. */
  lemma {:induction false} MountThenRead(v: VNode)
    ensures Unmount(Render(v)) == Normalize(v)
    decreases Size(v), 0
  {
    match v
    case ElemNode(tag, props, children, _) =>
      ChildSeqSmaller(v);
      MountThenReadAll(ChildSeq(children));
    case _ =>
  }

  lemma {:induction false} MountThenReadAll(kids: seq<VNode>)
    ensures UnmountAll(RenderAll(kids)) == NormalizeAll(kids)
    decreases SeqSize(kids), 1
  {
    if kids != [] {
      SeqSizeBound(kids, 0);
      MountThenRead(kids[0]);
      assert RenderAll(kids)[1..] == RenderAll(kids[1..]);
      MountThenReadAll(kids[1..]);
    }
  }

  /** No host prop is ever called `children`. */
  predicate NoChildrenProp(h: HostNode)
  {
    match h
    case HostText(_) => true
    case HostElem(_, props, kids) => "children" !in props && forall i :: 0 <= i < |kids| ==> NoChildrenProp(kids[i])
  }

  /** Every host tree without a `children` prop is the mount of its reading. */
  lemma {:induction false} ReadThenMount(h: HostNode)
    requires NoChildrenProp(h)
    ensures Render(Unmount(h)) == h
  {
    match h
    case HostText(_) =>
    case HostElem(tag, props, kids) =>
      var v := Unmount(h);
      var r := Render(v);
      assert ChildSeq(v.children) == UnmountAll(kids);
      forall i | 0 <= i < |kids|
        ensures r.children[i] == kids[i]
      {
        UnmountAllAt(kids, i);
        RenderAllAt(UnmountAll(kids), i);
        ReadThenMount(kids[i]);
      }
      assert HostProps(props) == props;
  }

  lemma {:induction false} UnmountAllAt(hs: seq<HostNode>, i: nat)
    requires i < |hs|
    ensures UnmountAll(hs)[i] == Unmount(hs[i])
  {
    if i > 0 {
      UnmountAllAt(hs[1..], i - 1);
    }
  }
}
