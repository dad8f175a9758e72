/** The virtual tree (core/createElement.js): what a component returns and
    what the reconciler compares from one pass to the next. */
module Element {
  import opened Js

  /** A virtual node. `null`, `undefined` and `false` are kept apart because
      the reconciler treats them differently; numbers are integers. */
  datatype VNode =
    | NullNode
    | UndefinedNode
    | FalseNode
    | StrNode(s: string)
    | NumNode(n: int)
    | ElemNode(tag: string, props: map<string, Value>, children: Children, componentName: Option<Value>)

  /** `props.children` of an element: an array, or one value that is not an
      array. A missing `children` (or missing props) is `ChildValue(UndefinedNode)`.
      `props` holds the other entries of the props object. */
  datatype Children =
    | ChildArray(items: seq<VNode>)
    | ChildValue(item: VNode)

  /** JavaScript truthiness of a virtual node: "absent" in the reconciler. */
  predicate Present(v: VNode)
  {
    match v
    case NullNode => false
    case UndefinedNode => false
    case FalseNode => false
    case StrNode(s) => s != ""
    case NumNode(n) => n != 0
    case ElemNode(_, _, _, _) => true
  }

  /** `typeof v` */
  function JsType(v: VNode): string
  {
    match v
    case NullNode => "object"
    case UndefinedNode => "undefined"
    case FalseNode => "boolean"
    case StrNode(_) => "string"
    case NumNode(_) => "number"
    case ElemNode(_, _, _, _) => "object"
  }

  /** The child list both the mount and the reconciler derive from
      `props.children`: an array as it is; any other value as a one-element
      list when truthy and as the empty list otherwise. */
  function ChildSeq(c: Children): (r: seq<VNode>)
    ensures c.ChildArray? ==> r == c.items
    ensures c.ChildValue? ==> (r == [c.item] <==> Present(c.item)) && (r == [] <==> !Present(c.item))
  {
    match c
    case ChildArray(items) => items
    case ChildValue(item) => if Present(item) then [item] else []
  }

  /** `child?.props?.key` when it is not null or undefined, converted to the
      property name under which the key table files it. */
  function KeyName(v: VNode): Option<string>
  {
    if v.ElemNode? && "key" in v.props && !Nullish(v.props["key"]) then
      Some(PropertyName(v.props["key"]))
    else
      None
  }

  /** Number of virtual nodes in a tree; the termination measure of the
      recursive mount and diff. */
  function Size(v: VNode): nat
    decreases v, 1
  {
    match v
    case ElemNode(_, _, children, _) => 1 + ChildrenSize(children)
    case _ => 1
  }

  function ChildrenSize(c: Children): nat
    decreases c, 0
  {
    match c
    case ChildArray(items) => SeqSize(items)
    case ChildValue(item) => Size(item)
  }

  function SeqSize(s: seq<VNode>): nat
    decreases s, 0
  {
    if s == [] then 0 else Size(s[0]) + SeqSize(s[1..])
  }

  lemma {:induction false} SeqSizeBound(s: seq<VNode>, i: nat)
    requires i < |s|
    ensures Size(s[i]) <= SeqSize(s)
  {
    if i > 0 {
      SeqSizeBound(s[1..], i - 1);
    }
  }

  /** The children of an element are together smaller than the element. */
  lemma ChildSeqSmaller(v: VNode)
    requires v.ElemNode?
    ensures SeqSize(ChildSeq(v.children)) < Size(v)
  {
  }

  lemma ChildSmaller(v: VNode, i: nat)
    requires v.ElemNode? && i < |ChildSeq(v.children)|
    ensures Size(ChildSeq(v.children)[i]) < Size(v)
  {
    SeqSizeBound(ChildSeq(v.children), i);
  }

  /** `createElement(type, props, ...children)`: an element of tag `tag` whose
      props are those given (none when `props` is null) with `children`
      replaced by the rest arguments, tagged with the current component's name
      when that name is truthy. */
  function CreateElement(tag: string, props: Option<map<string, Value>>, children: seq<VNode>,
                         currentComponentName: Value): (r: VNode)
    ensures r.ElemNode? && r.tag == tag
    ensures r.children == ChildArray(children)
    ensures props.None? ==> r.props == map[]
    ensures props.Some? ==> forall k :: k in r.props <==> k in props.value && k != "children"
    ensures props.Some? ==> forall k :: k in r.props ==> r.props[k] == props.value[k]
    ensures r.componentName.Some? <==> Truthy(currentComponentName)
    ensures r.componentName.Some? ==> r.componentName.value == currentComponentName
  {
    var given := match props case None => map[] case Some(p) => p;
    ElemNode(tag, given - {"children"}, ChildArray(children),
             if Truthy(currentComponentName) then Some(currentComponentName) else None)
  }

  /** The key of a created element is the `key` prop it was given. */
  lemma CreatedKey(tag: string, props: map<string, Value>, children: seq<VNode>, name: Value)
    ensures KeyName(CreateElement(tag, Some(props), children, name))
            == if "key" in props && !Nullish(props["key"]) then Some(PropertyName(props["key"])) else None
  {
  }
}
