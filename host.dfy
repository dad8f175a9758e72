/** The host tree (the DOM as the runtime uses it) and the adapter calls the
    mount and the reconciler make on it, with their index semantics. */
module Host {
  import opened Js

  /** A host node: a text node, or an element with the properties assigned to
      it and its child list (`childNodes`). */
  datatype HostNode =
    | HostText(text: string)
    | HostElem(tag: string, props: map<string, Value>, children: seq<HostNode>)

  /** `parent.childNodes[i]`; a text node has no children. */
  function ChildAt(parent: HostNode, i: nat): (r: Option<HostNode>)
    ensures r.Some? <==> parent.HostElem? && i < |parent.children|
    ensures r.Some? ==> r.value == parent.children[i]
  {
    if parent.HostElem? && i < |parent.children| then Some(parent.children[i]) else None
  }

  function ChildCount(n: HostNode): nat
  {
    if n.HostElem? then |n.children| else 0
  }

  /** `parent.insertBefore(node, parent.childNodes[i] || null)`: insert before
      the child at i, or append when there is none. */
  function InsertChild(parent: HostNode, i: nat, node: HostNode): (r: HostNode)
    requires parent.HostElem?
    ensures r.HostElem? && r.tag == parent.tag && r.props == parent.props
    ensures |r.children| == |parent.children| + 1
    ensures i < |parent.children| ==> r.children == parent.children[..i] + [node] + parent.children[i..]
    ensures i >= |parent.children| ==> r.children == parent.children + [node]
  {
    var ch := parent.children;
    parent.(children := if i < |ch| then ch[..i] + [node] + ch[i..] else ch + [node])
  }

  /** `parent.appendChild(node)` for a node not yet in the tree. */
  function AppendChild(parent: HostNode, node: HostNode): (r: HostNode)
    requires parent.HostElem?
    ensures r.HostElem? && r.children == parent.children + [node]
  {
    InsertChild(parent, |parent.children|, node)
  }

  /** `parent.removeChild(parent.childNodes[i])` */
  function RemoveChild(parent: HostNode, i: nat): (r: HostNode)
    requires parent.HostElem? && i < |parent.children|
    ensures r.HostElem? && r.tag == parent.tag && r.props == parent.props
    ensures |r.children| == |parent.children| - 1
    ensures forall j :: 0 <= j < i ==> r.children[j] == parent.children[j]
    ensures forall j :: i <= j < |r.children| ==> r.children[j] == parent.children[j + 1]
  {
    parent.(children := parent.children[..i] + parent.children[i + 1..])
  }

  /** `parent.replaceChild(node, parent.childNodes[i])`; also the write-back of
      a child that was changed in place. */
  function ReplaceChild(parent: HostNode, i: nat, node: HostNode): (r: HostNode)
    requires parent.HostElem? && i < |parent.children|
    ensures r.HostElem? && r.tag == parent.tag && r.props == parent.props
    ensures r.children == parent.children[i := node]
  {
    parent.(children := parent.children[i := node])
  }

  /** `parent.appendChild(parent.childNodes[i])`: move the child at i to the end. */
  function MoveChildToEnd(parent: HostNode, i: nat): (r: HostNode)
    requires parent.HostElem? && i < |parent.children|
    ensures r.HostElem? && r.tag == parent.tag && r.props == parent.props
    ensures |r.children| == |parent.children|
    ensures r.children[|r.children| - 1] == parent.children[i]
    ensures forall j :: 0 <= j < i ==> r.children[j] == parent.children[j]
    ensures forall j :: i <= j < |r.children| - 1 ==> r.children[j] == parent.children[j + 1]
  {
    parent.(children := parent.children[..i] + parent.children[i + 1..] + [parent.children[i]])
  }

  /** `node.textContent = text`: a text node takes the new text; an element
      loses all its children and gets one text child, or none for "". */
  function SetTextContent(node: HostNode, text: string): (r: HostNode)
    ensures node.HostText? ==> r == HostText(text)
    ensures node.HostElem? ==> r.HostElem? && r.tag == node.tag && r.props == node.props
    ensures node.HostElem? ==> r.children == if text == "" then [] else [HostText(text)]
  {
    match node
    case HostText(_) => HostText(text)
    case HostElem(tag, props, _) => HostElem(tag, props, if text == "" then [] else [HostText(text)])
  }
}
