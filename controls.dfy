/** The control tree that `forEachControlIn` walks: a form control (leaf), a form
    group (children addressed by name) or a form array (children addressed by
    position). Every node carries the identity of the control object, because the
    coordinator invokes methods on groups and arrays as well as on leaves. */
module Controls {
  import opened Wrappers
  import opened PropertyOrder
  import opened Sequences

  /** The identity of one control object. */
  type NodeId = nat

  /** The lifecycle methods the coordinator may invoke by name: the `Methods`
      type of src/app/shared/forms-util.ts:12-22. */
  datatype Method =
    | MarkAsDirty
    | MarkAsTouched
    | UpdateValueAndValidity
    | Disable
    | Enable
    | MarkAsUntouched
    | MarkAsPristine
    | MarkAsPending

  datatype Control =
    | Leaf(id: NodeId)                          // a control without a `controls` property
    | Group(id: NodeId, fields: seq<Field>)     // `controls` is an object; fields in creation order
    | Array(id: NodeId, items: seq<Control>)    // `controls` is an array

  datatype Field = Field(name: string, control: Control)

  function Names(fields: seq<Field>): (r: seq<string>)
    ensures |r| == |fields| && forall j :: 0 <= j < |fields| ==> r[j] == fields[j].name
  {
    if fields == [] then [] else Names(fields[..|fields| - 1]) + [fields[|fields| - 1].name]
  }

  function Values(fields: seq<Field>): (r: seq<Control>)
    ensures |r| == |fields| && forall j :: 0 <= j < |fields| ==> r[j] == fields[j].control
  {
    if fields == [] then [] else Values(fields[..|fields| - 1]) + [fields[|fields| - 1].control]
  }

  /** The value of property `name` of a group's `controls` object: the last field
      created under that name. */
  function Lookup(fields: seq<Field>, name: string): (r: Control)
    requires name in Names(fields)
    ensures exists j :: 0 <= j < |fields| && fields[j].name == name && r == fields[j].control
  {
    var init := fields[..|fields| - 1];
    if fields[|fields| - 1].name == name then fields[|fields| - 1].control
    else
      assert name in Names(init) by {
        var j :| 0 <= j < |fields| && Names(fields)[j] == name;
        assert Names(init)[j] == name;
      }
      Lookup(init, name)
  }

  /** `controls[name]` is the control of the last field created under `name`. */
  lemma {:induction false} LookupIsLast(fields: seq<Field>, name: string)
    requires name in Names(fields)
    ensures exists j :: 0 <= j < |fields| && fields[j].name == name && Lookup(fields, name) == fields[j].control
                        && forall k :: j < k < |fields| ==> fields[k].name != name
  {
    var n := |fields| - 1;
    if fields[n].name != name {
      var init := fields[..n];
      assert name in Names(init) by {
        var j :| 0 <= j < |fields| && Names(fields)[j] == name;
        assert Names(init)[j] == name;
      }
      LookupIsLast(init, name);
      var j :| 0 <= j < |init| && init[j].name == name && Lookup(init, name) == init[j].control
               && forall k :: j < k < |init| ==> init[k].name != name;
      assert fields[j] == init[j];
      forall k | j < k < |fields| ensures fields[k].name != name {
        if k < n { assert fields[k] == init[k]; }
      }
    }
  }

  /** A group's children: its keys in own-property-name order, each mapped to
      the control stored under it (`getOwnPropertyNames(...).map(name => controls[name])`). */
  function GroupChildren(fields: seq<Field>): (r: seq<Control>)
    ensures |r| == |fields|
    ensures forall i :: 0 <= i < |r| ==>
              var key := OwnPropertyNames(Names(fields))[i];
              key in Names(fields) && r[i] == Lookup(fields, key)
  {
    OwnPropertyNamesMembers(Names(fields));
    assert AllNamed(fields, OwnPropertyNames(Names(fields)));
    LookupAll(fields, OwnPropertyNames(Names(fields)))
  }

  /** Every key is the name of some field. */
  predicate AllNamed(fields: seq<Field>, keys: seq<string>)
  {
    forall i :: 0 <= i < |keys| ==> keys[i] in Names(fields)
  }

  /** `keys.map(name => controls[name])` for keys the group has. */
  function LookupAll(fields: seq<Field>, keys: seq<string>): (r: seq<Control>)
    requires AllNamed(fields, keys)
    ensures |r| == |keys|
    ensures forall i :: 0 <= i < |keys| ==> keys[i] in Names(fields) && r[i] == Lookup(fields, keys[i])
  {
    if keys == [] then []
    else
      var n := |keys| - 1;
      var name := keys[n];
      assert name in Names(fields);
      NamedPrefix(fields, keys);
      var r := LookupAll(fields, keys[..n]) + [Lookup(fields, name)];
      assert forall i :: 0 <= i < n ==> keys[..n][i] == keys[i];
      r
  }

  lemma NamedPrefix(fields: seq<Field>, keys: seq<string>)
    requires AllNamed(fields, keys) && keys != []
    ensures AllNamed(fields, keys[..|keys| - 1])
  {
    var init := keys[..|keys| - 1];
    forall i | 0 <= i < |init| ensures init[i] in Names(fields) {
      assert init[i] == keys[i];
    }
  }

  /** The immediate children of a node, in the order the source enumerates them:
      an array's own element order, a group's children as above, none for a leaf. */
  function Kids(c: Control): (r: seq<Control>)
    ensures forall i :: 0 <= i < |r| ==> r[i] < c
  {
    match c
    case Leaf(_) => []
    case Array(_, items) => items
    case Group(_, fields) =>
      var r := GroupChildren(fields);
      assert forall i :: 0 <= i < |r| ==> r[i] < c by {
        forall i | 0 <= i < |r| ensures r[i] < c {
          var key := OwnPropertyNames(Names(fields))[i];
          var j :| 0 <= j < |fields| && fields[j].name == key && r[i] == fields[j].control;
          assert fields[j] in fields;
        }
      }
      r
  }

  /** The child list `forEachControlIn(form)` works on
      (src/app/shared/forms-util.ts:30-35): empty when the form is null or has no
      `controls`; otherwise its immediate children. */
  function ChildList(form: Option<Control>): (r: seq<Control>)
    ensures form.None? ==> r == []
    ensures form.Some? && form.value.Leaf? ==> r == []
    ensures form.Some? && form.value.Array? ==> r == form.value.items
    ensures form.Some? && form.value.Group? ==>
              |r| == |form.value.fields| &&
              forall i :: 0 <= i < |r| ==>
                var key := OwnPropertyNames(Names(form.value.fields))[i];
                key in Names(form.value.fields) && r[i] == Lookup(form.value.fields, key)
  {
    match form
    case None => []
    case Some(c) => Kids(c)
  }

  /** The number of nodes in a tree; the measure every traversal decreases. */
  function Size(c: Control): (r: nat)
    ensures r >= 1
    decreases c, 1, 0
  {
    1 + SizeUnder(Kids(c), c)
  }

  function SizeUnder(cs: seq<Control>, ghost parent: Control): nat
    requires forall i :: 0 <= i < |cs| ==> cs[i] < parent
    decreases parent, 0, |cs|
  {
    if cs == [] then 0 else SizeUnder(cs[..|cs| - 1], parent) + Size(cs[|cs| - 1])
  }

  function SizeAll(cs: seq<Control>): nat
  {
    if cs == [] then 0 else SizeAll(cs[..|cs| - 1]) + Size(cs[|cs| - 1])
  }

  lemma {:induction false} SizeUnderAll(cs: seq<Control>, parent: Control)
    requires forall i :: 0 <= i < |cs| ==> cs[i] < parent
    ensures SizeUnder(cs, parent) == SizeAll(cs)
  {
    if cs != [] { SizeUnderAll(cs[..|cs| - 1], parent); }
  }

  /** The children of a node are smaller, together, than the node. */
  lemma KidsSmaller(c: Control)
    ensures SizeAll(Kids(c)) < Size(c)
  {
    SizeUnderAll(Kids(c), c);
  }

  /** The identities of every node below the roots `cs` (the roots included), in
      depth-first pre-order: each node before its children, siblings left to
      right. */
  function Descendants(cs: seq<Control>): seq<NodeId>
    decreases SizeAll(cs)
  {
    if cs == [] then []
    else
      var c := cs[|cs| - 1];
      KidsSmaller(c);
      Descendants(cs[..|cs| - 1]) + [c.id] + Descendants(Kids(c))
  }

  /** Every node of the tree rooted at `c`, `c` first. */
  function AllIds(c: Control): seq<NodeId>
  {
    [c.id] + Descendants(Kids(c))
  }

  predicate Distinct<T(==)>(s: seq<T>)
  {
    forall i, j :: 0 <= i < j < |s| ==> s[i] != s[j]
  }

  /** A tree: no control object occurs twice under `c`. */
  predicate IsTree(c: Control)
  {
    Distinct(AllIds(c))
  }

  /** Every field of a group with distinct names is reached by its child list,
      at the position of its name in own-property-name order. */
  lemma GroupChildrenCoverFields(fields: seq<Field>)
    requires Distinct(Names(fields))
    ensures |GroupChildren(fields)| == |fields|
    ensures forall j :: 0 <= j < |fields| ==>
              exists i :: 0 <= i < |fields| &&
                OwnPropertyNames(Names(fields))[i] == fields[j].name &&
                GroupChildren(fields)[i] == fields[j].control
  {
    var names := Names(fields);
    var keys := OwnPropertyNames(names);
    var r := GroupChildren(fields);
    OwnPropertyNamesMembers(names);
    forall j | 0 <= j < |fields|
      ensures exists i :: 0 <= i < |fields| && keys[i] == fields[j].name && r[i] == fields[j].control
    {
      assert names[j] == fields[j].name;
      var i :| 0 <= i < |keys| && keys[i] == names[j];
      LookupUnique(fields, j);
      assert r[i] == Lookup(fields, names[j]);
    }
  }

  /** No field of the group is named by an array index. */
  predicate NoArrayIndexNames(fields: seq<Field>)
  {
    forall j :: 0 <= j < |fields| ==> !IsArrayIndex(fields[j].name)
  }

  /** A group none of whose field names is an array index enumerates its
      children in field creation order. */
  lemma GroupChildrenInCreationOrder(fields: seq<Field>)
    requires Distinct(Names(fields))
    requires NoArrayIndexNames(fields)
    ensures GroupChildren(fields) == Values(fields)
  {
    NamesNotIndices(fields);
    NoIndexKeysKeepOrder(Names(fields));
    ChildrenInKeyOrder(fields);
  }

  lemma NamesNotIndices(fields: seq<Field>)
    requires NoArrayIndexNames(fields)
    ensures forall j :: 0 <= j < |Names(fields)| ==> !IsArrayIndex(Names(fields)[j])
  {
  }

  lemma ChildrenInKeyOrder(fields: seq<Field>)
    requires Distinct(Names(fields))
    requires OwnPropertyNames(Names(fields)) == Names(fields)
    ensures GroupChildren(fields) == Values(fields)
  {
    var r := GroupChildren(fields);
    forall i | 0 <= i < |fields| ensures r[i] == fields[i].control {
      LookupUnique(fields, i);
    }
  }

  /** In a group with distinct names, the key of a field looks up that field. */
  lemma {:induction false} LookupUnique(fields: seq<Field>, i: nat)
    requires Distinct(Names(fields)) && i < |fields|
    ensures fields[i].name in Names(fields) && Lookup(fields, fields[i].name) == fields[i].control
  {
    var names := Names(fields);
    assert names[i] == fields[i].name;
    var n := |fields| - 1;
    if i < n {
      var init := fields[..n];
      assert names[n] != names[i];
      assert Names(init) == names[..n];
      LookupUnique(init, i);
    }
  }

  lemma {:induction false} DescendantsAppend(a: seq<Control>, b: seq<Control>)
    ensures Descendants(a + b) == Descendants(a) + Descendants(b)
    decreases |b|
  {
    if b == [] {
      assert a + b == a;
    } else {
      var n := |b| - 1;
      var c := b[n];
      assert (a + b)[..|a + b| - 1] == a + b[..n];
      assert (a + b)[|a + b| - 1] == c;
      DescendantsLast(a + b);
      DescendantsLast(b);
      DescendantsAppend(a, b[..n]);
      var below := [c.id] + Descendants(Kids(c));
      AppendAssoc(Descendants(a), Descendants(b[..n]), below);
    }
  }

  lemma DescendantsLast(cs: seq<Control>)
    requires cs != []
    ensures Descendants(cs) == Descendants(cs[..|cs| - 1]) + ([cs[|cs| - 1].id] + Descendants(Kids(cs[|cs| - 1])))
  {
  }

  /** The nodes below the i-th child, and the nodes below its left siblings,
      are all among the nodes below the whole child list. */
  lemma DescendantsOfChild(cs: seq<Control>, i: nat)
    requires i < |cs|
    ensures Descendants(cs[..i + 1]) == Descendants(cs[..i]) + [cs[i].id] + Descendants(Kids(cs[i]))
    ensures forall n :: n in Descendants(cs[..i + 1]) ==> n in Descendants(cs)
  {
    var pre := cs[..i + 1];
    assert pre[..i] == cs[..i] && pre[i] == cs[i];
    DescendantsPrefix(cs, i + 1);
  }

  /** The i-th child and everything below it are among the nodes below the
      whole child list. */
  lemma ChildWithin(cs: seq<Control>, i: nat)
    requires i < |cs|
    ensures cs[i].id in Descendants(cs)
    ensures forall n :: n in Descendants(Kids(cs[i])) ==> n in Descendants(cs)
  {
    DescendantsOfChild(cs, i);
    InMiddle(Descendants(cs[..i]), cs[i].id, Descendants(Kids(cs[i])));
  }

  lemma DescendantsPrefix(cs: seq<Control>, i: nat)
    requires i <= |cs|
    ensures forall n :: n in Descendants(cs[..i]) ==> n in Descendants(cs)
  {
    var pre, post := cs[..i], cs[i..];
    assert cs == pre + post;
    DescendantsAppend(pre, post);
  }

  /** A child is no larger than the child list it belongs to. */
  lemma {:induction false} SizeAllBelow(cs: seq<Control>, i: nat)
    requires i < |cs|
    ensures Size(cs[i]) <= SizeAll(cs)
  {
    if i < |cs| - 1 {
      SizeAllBelow(cs[..|cs| - 1], i);
    }
  }
}
