/** `keyMap` of core/diff.js: the table from key to old child that the keyed
    child walk consults and consumes. */
module Keyed {
  import opened Js
  import opened Element

  /** An entry of the table: an old child and its index among the old children. */
  datatype Match = Match(child: VNode, index: nat)

  /** A plain object used as a dictionary. `order` is the order in which
      Object.keys lists the names; `entries` maps each name to its entry, or
      to None once the walk has set it to null. */
  datatype KeyTable = KeyTable(order: seq<string>, entries: map<string, Option<Match>>)

  const EmptyTable := KeyTable([], map[])

  predicate Distinct(s: seq<string>)
  {
    forall i, j :: 0 <= i < j < |s| ==> s[i] != s[j]
  }

  /** The names listed are exactly the names held, each once. */
  ghost predicate Coherent(t: KeyTable)
  {
    (forall x :: x in t.order <==> x in t.entries) && Distinct(t.order)
  }

  /** `oldKeyed[name]`, where null and a missing name both read as None. */
  function Lookup(t: KeyTable, name: string): Option<Match>
  {
    if name in t.entries then t.entries[name] else None
  }

  /** `oldKeyed[name] = null` for a name the table holds. */
  function Consume(t: KeyTable, name: string): (r: KeyTable)
    requires name in t.entries
    ensures r.order == t.order && r.entries.Keys == t.entries.Keys
    ensures Lookup(r, name).None?
    ensures forall x :: x != name ==> Lookup(r, x) == Lookup(t, x)
  {
    t.(entries := t.entries[name := None])
  }

  /** Object.keys order among the names listed: every array-index name comes
      after array-index names only, each smaller in value. */
  predicate KeysOrder(s: seq<string>)
  {
    forall i, j :: 0 <= i < j < |s| && IsArrayIndex(s[j]) ==> IsArrayIndex(s[i]) && DecimalValue(s[i]) < DecimalValue(s[j])
  }

  /** The names that are not array indices, in the order listed. */
  function NonIndex(s: seq<string>): seq<string>
  {
    if s == [] then [] else (if IsArrayIndex(s[0]) then [] else [s[0]]) + NonIndex(s[1..])
  }

  lemma {:induction false} NonIndexAppend(a: seq<string>, b: seq<string>)
    ensures NonIndex(a + b) == NonIndex(a) + NonIndex(b)
  {
    if a == [] {
      assert a + b == b;
    } else {
      assert (a + b)[0] == a[0] && (a + b)[1..] == a[1..] + b;
      NonIndexAppend(a[1..], b);
    }
  }

  /** Where a new name goes in Object.keys order: an array-index name among
      the array-index names that lead the list, in ascending numeric order;
      any other name at the end, after the other such names in insertion
      order. */
  function InsertName(order: seq<string>, name: string): (r: seq<string>)
    ensures |r| == |order| + 1
    ensures forall x :: x in r <==> x in order || x == name
    ensures name !in order && Distinct(order) ==> Distinct(r)
    ensures name !in order && KeysOrder(order) ==> KeysOrder(r)
    ensures NonIndex(r) == NonIndex(order) + (if IsArrayIndex(name) then [] else [name])
  {
    if !IsArrayIndex(name) then
      AtEnd(order, name);
      order + [name]
    else if order == [] || !IsArrayIndex(order[0]) || DecimalValue(name) < DecimalValue(order[0]) then
      AtFront(order, name);
      [name] + order
    else
      var rest := InsertName(order[1..], name);
      AfterFirst(order, name, rest);
      [order[0]] + rest
  }

  /** A name that is not an array index goes last. */
  lemma AtEnd(order: seq<string>, name: string)
    requires !IsArrayIndex(name)
    ensures name !in order && Distinct(order) ==> Distinct(order + [name])
    ensures KeysOrder(order) ==> KeysOrder(order + [name])
    ensures NonIndex(order + [name]) == NonIndex(order) + [name]
  {
    NonIndexAppend(order, [name]);
    assert NonIndex([name]) == [name] by { assert [name][1..] == []; }
    var r := order + [name];
    if KeysOrder(order) {
      forall i, j | 0 <= i < j < |r| && IsArrayIndex(r[j])
        ensures IsArrayIndex(r[i]) && DecimalValue(r[i]) < DecimalValue(r[j])
      {
        assert r[i] == order[i] && r[j] == order[j];
      }
    }
  }

  /** An index name goes first when no index name leads or it is smaller. */
  lemma AtFront(order: seq<string>, name: string)
    requires IsArrayIndex(name)
    requires order == [] || !IsArrayIndex(order[0]) || DecimalValue(name) < DecimalValue(order[0])
    ensures name !in order && Distinct(order) ==> Distinct([name] + order)
    ensures name !in order && KeysOrder(order) ==> KeysOrder([name] + order)
    ensures NonIndex([name] + order) == NonIndex(order)
  {
    assert ([name] + order)[1..] == order;
    if name !in order && KeysOrder(order) {
      FrontOrdered(order, name);
    }
  }

  /** An index name at least the leading index name goes into the rest. */
  lemma AfterFirst(order: seq<string>, name: string, rest: seq<string>)
    requires |order| >= 1 && IsArrayIndex(order[0]) && IsArrayIndex(name)
    requires DecimalValue(order[0]) <= DecimalValue(name)
    requires |rest| == |order|
    requires forall x :: x in rest <==> x in order[1..] || x == name
    requires name !in order[1..] && Distinct(order[1..]) ==> Distinct(rest)
    requires name !in order[1..] && KeysOrder(order[1..]) ==> KeysOrder(rest)
    requires NonIndex(rest) == NonIndex(order[1..])
    ensures forall x :: x in [order[0]] + rest <==> x in order || x == name
    ensures name !in order && Distinct(order) ==> Distinct([order[0]] + rest)
    ensures name !in order && KeysOrder(order) ==> KeysOrder([order[0]] + rest)
    ensures NonIndex([order[0]] + rest) == NonIndex(order)
  {
    assert order == [order[0]] + order[1..];
    assert ([order[0]] + rest)[1..] == rest;
    if name !in order && Distinct(order) {
      TailDistinct(order);
      ConsDistinct(order[0], rest);
    }
    if name !in order && KeysOrder(order) {
      TailOrdered(order);
      if DecimalValue(order[0]) == DecimalValue(name) {
        ArrayIndexInjective(order[0], name);
      }
      AfterFirstOrdered(order, name, rest);
    }
  }

  lemma TailDistinct(s: seq<string>)
    requires |s| >= 1 && Distinct(s)
    ensures Distinct(s[1..]) && s[0] !in s[1..]
  {
    forall i, j | 0 <= i < j < |s[1..]|
      ensures s[1..][i] != s[1..][j]
    {
      assert s[1..][i] == s[i + 1] && s[1..][j] == s[j + 1];
    }
  }

  lemma ConsDistinct(x: string, rest: seq<string>)
    requires x !in rest && Distinct(rest)
    ensures Distinct([x] + rest)
  {
    var r := [x] + rest;
    forall i, j | 0 <= i < j < |r|
      ensures r[i] != r[j]
    {
      assert r[j] == rest[j - 1];
      if i > 0 {
        assert r[i] == rest[i - 1];
      }
    }
  }

  lemma TailOrdered(s: seq<string>)
    requires |s| >= 1 && KeysOrder(s)
    ensures KeysOrder(s[1..])
  {
    forall i, j | 0 <= i < j < |s[1..]| && IsArrayIndex(s[1..][j])
      ensures IsArrayIndex(s[1..][i]) && DecimalValue(s[1..][i]) < DecimalValue(s[1..][j])
    {
      assert s[1..][i] == s[i + 1] && s[1..][j] == s[j + 1];
    }
  }

  /** A name smaller than the leading index name, or put before a list with
      no index names, keeps the order. */
  lemma FrontOrdered(order: seq<string>, name: string)
    requires IsArrayIndex(name) && KeysOrder(order)
    requires order == [] || !IsArrayIndex(order[0]) || DecimalValue(name) < DecimalValue(order[0])
    ensures KeysOrder([name] + order)
  {
    var r := [name] + order;
    forall i, j | 0 <= i < j < |r| && IsArrayIndex(r[j])
      ensures IsArrayIndex(r[i]) && DecimalValue(r[i]) < DecimalValue(r[j])
    {
      assert r[j] == order[j - 1];
      if i > 0 {
        assert r[i] == order[i - 1];
      } else if j - 1 > 0 {
        assert IsArrayIndex(order[0]) && DecimalValue(order[0]) < DecimalValue(order[j - 1]);
      }
    }
  }

  /** The leading index name stays first when a larger name goes into the rest. */
  lemma AfterFirstOrdered(order: seq<string>, name: string, rest: seq<string>)
    requires |order| >= 1 && IsArrayIndex(order[0]) && IsArrayIndex(name)
    requires DecimalValue(order[0]) < DecimalValue(name) && KeysOrder(order) && KeysOrder(rest)
    requires forall x :: x in rest <==> x in order[1..] || x == name
    ensures KeysOrder([order[0]] + rest)
  {
    var r := [order[0]] + rest;
    forall i, j | 0 <= i < j < |r| && IsArrayIndex(r[j])
      ensures IsArrayIndex(r[i]) && DecimalValue(r[i]) < DecimalValue(r[j])
    {
      assert r[j] == rest[j - 1];
      if i > 0 {
        assert r[i] == rest[i - 1];
      } else {
        assert rest[j - 1] in rest;
        if rest[j - 1] != name {
          var k :| 0 <= k < |order[1..]| && order[1..][k] == rest[j - 1];
          assert order[k + 1] == rest[j - 1];
        }
      }
    }
  }

  /** `map[key] = { child, index }`: a name seen before keeps its place and
      takes the later child. */
  function AddEntry(t: KeyTable, name: string, m: Match): (r: KeyTable)
    requires Coherent(t)
    ensures Coherent(r)
    ensures r.entries == t.entries[name := Some(m)]
    ensures name in t.entries ==> r.order == t.order
    ensures KeysOrder(t.order) ==> KeysOrder(r.order)
    ensures NonIndex(r.order) == NonIndex(t.order) + (if name in t.entries || IsArrayIndex(name) then [] else [name])
  {
    KeyTable(if name in t.entries then t.order else InsertName(t.order, name),
             t.entries[name := Some(m)])
  }

  /** One iteration of the forEach in keyMap. */
  function AddChild(t: KeyTable, kids: seq<VNode>, i: nat): (r: KeyTable)
    requires Coherent(t) && i < |kids|
    ensures Coherent(r)
    ensures KeysOrder(t.order) ==> KeysOrder(r.order)
  {
    match KeyName(kids[i])
    case None => t
    case Some(name) => AddEntry(t, name, Match(kids[i], i))
  }

  /** The table after the iterations i .. |kids| - 1, starting from t. */
  function BuildFrom(kids: seq<VNode>, i: nat, t: KeyTable): (r: KeyTable)
    requires Coherent(t) && i <= |kids|
    ensures Coherent(r)
    ensures KeysOrder(t.order) ==> KeysOrder(r.order)
    decreases |kids| - i
  {
    if i == |kids| then t else BuildFrom(kids, i + 1, AddChild(t, kids, i))
  }

  /** The table keyMap returns for the old children. */
  function KeyTableOf(kids: seq<VNode>): (r: KeyTable)
    ensures Coherent(r)
    ensures KeysOrder(r.order)
  {
    BuildFrom(kids, 0, EmptyTable)
  }

  method KeyMap(kids: seq<VNode>) returns (t: KeyTable)
    ensures t == KeyTableOf(kids)
  {
    t := EmptyTable;
    var i := 0;
    while i < |kids|
      invariant i <= |kids| && Coherent(t)
      invariant BuildFrom(kids, i, t) == KeyTableOf(kids)
      decreases |kids| - i
    {
      var key := KeyName(kids[i]);
      if key.Some? {
        t := AddEntry(t, key.value, Match(kids[i], i));
      }
      i := i + 1;
    }
  }

  /** Some child among the first n carries the name. */
  ghost predicate NamedBefore(kids: seq<VNode>, n: nat, name: string)
    requires n <= |kids|
  {
    exists j :: 0 <= j < n && KeyName(kids[j]) == Some(name)
  }

  /** j is the last child among the first n that carries its name. */
  ghost predicate LastNamed(kids: seq<VNode>, n: nat, j: nat)
    requires j < n <= |kids|
  {
    KeyName(kids[j]).Some? && forall k :: j < k < n ==> KeyName(kids[k]) != KeyName(kids[j])
  }

  /** What the table holds after the first n children: exactly their names,
      each filed under the last child carrying it, none consumed. */
  ghost predicate HoldsPrefix(kids: seq<VNode>, n: nat, t: KeyTable)
    requires n <= |kids|
  {
    (forall name :: name in t.entries <==> NamedBefore(kids, n, name))
    && (forall name :: name in t.entries ==> t.entries[name].Some?)
    && (forall j :: 0 <= j < n && LastNamed(kids, n, j) ==>
          t.entries[KeyName(kids[j]).value] == Some(Match(kids[j], j)))
  }

  lemma AddChildHolds(kids: seq<VNode>, i: nat, t: KeyTable)
    requires Coherent(t) && i < |kids| && HoldsPrefix(kids, i, t)
    ensures HoldsPrefix(kids, i + 1, AddChild(t, kids, i))
  {
    var r := AddChild(t, kids, i);
    forall name
      ensures name in r.entries <==> NamedBefore(kids, i + 1, name)
    {
      if NamedBefore(kids, i + 1, name) && !NamedBefore(kids, i, name) {
        var j :| 0 <= j < i + 1 && KeyName(kids[j]) == Some(name);
        assert j == i;
      }
      if name in r.entries && name !in t.entries {
        assert KeyName(kids[i]) == Some(name);
      }
    }
    forall j | 0 <= j < i + 1 && LastNamed(kids, i + 1, j)
      ensures r.entries[KeyName(kids[j]).value] == Some(Match(kids[j], j))
    {
      LastNamedStep(kids, i, t, j);
    }
  }

  lemma LastNamedStep(kids: seq<VNode>, i: nat, t: KeyTable, j: nat)
    requires Coherent(t) && i < |kids| && HoldsPrefix(kids, i, t)
    requires j <= i && LastNamed(kids, i + 1, j)
    ensures AddChild(t, kids, i).entries[KeyName(kids[j]).value] == Some(Match(kids[j], j))
  {
    if j < i {
      assert LastNamed(kids, i, j);
      assert KeyName(kids[i]) != KeyName(kids[j]);
      assert NamedBefore(kids, i, KeyName(kids[j]).value);
    }
  }

  lemma {:induction false} BuildFromHolds(kids: seq<VNode>, i: nat, t: KeyTable)
    requires Coherent(t) && i <= |kids| && HoldsPrefix(kids, i, t)
    ensures HoldsPrefix(kids, |kids|, BuildFrom(kids, i, t))
    decreases |kids| - i
  {
    if i < |kids| {
      AddChildHolds(kids, i, t);
      BuildFromHolds(kids, i + 1, AddChild(t, kids, i));
    }
  }

  /** keyMap files every non-null key under its name, with the last old child
      that carries it and that child's index; no other name is present and
      no entry starts out consumed. */
  lemma KeyTableHolds(kids: seq<VNode>)
    ensures HoldsPrefix(kids, |kids|, KeyTableOf(kids))
  {
    BuildFromHolds(kids, 0, EmptyTable);
  }

  /** Sibling keys are pairwise distinct. */
  predicate DistinctKeys(kids: seq<VNode>)
  {
    forall i, j :: 0 <= i < j < |kids| && KeyName(kids[i]).Some? ==> KeyName(kids[i]) != KeyName(kids[j])
  }

  /** With distinct keys, every keyed child is found under its own name. */
  lemma KeyTableDistinct(kids: seq<VNode>, j: nat)
    requires DistinctKeys(kids) && j < |kids| && KeyName(kids[j]).Some?
    ensures Lookup(KeyTableOf(kids), KeyName(kids[j]).value) == Some(Match(kids[j], j))
  {
    KeyTableHolds(kids);
    assert LastNamed(kids, |kids|, j);
    assert NamedBefore(kids, |kids|, KeyName(kids[j]).value);
  }
}
