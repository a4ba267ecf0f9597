/** What `composer.call(...methods)` invokes directly
    (src/app/shared/forms-util.ts:38-54), as a trace of invocations. */
module Traversal {
  import opened Wrappers
  import opened Controls

  /** One invocation `c[m]()` of a lifecycle method on one control. */
  datatype Invocation = Invocation(id: NodeId, op: Method)

  /** `methods.forEach(m => c[m]())` on one control: each method once, in
      argument order. */
  function Apply(id: NodeId, ms: seq<Method>): (r: seq<Invocation>)
    ensures |r| == |ms|
    ensures forall j :: 0 <= j < |ms| ==> r[j] == Invocation(id, ms[j])
  {
    if ms == [] then [] else Apply(id, ms[..|ms| - 1]) + [Invocation(id, ms[|ms| - 1])]
  }

  /** The invocations made by `call(...ms)` on a composer over the child list
      `cs`: for each child in turn, every method on the child, then (when the
      child is a group or an array) `call(...ms)` on the composer over the
      child's own children, before the next sibling. */
  function CallTrace(cs: seq<Control>, ms: seq<Method>): seq<Invocation>
    decreases SizeAll(cs)
  {
    if cs == [] then []
    else
      var c := cs[|cs| - 1];
      KidsSmaller(c);
      CallTrace(cs[..|cs| - 1], ms) + Apply(c.id, ms)
        + (if !c.Leaf? then CallTrace(Kids(c), ms) else [])
  }

  /** The reference order: every method, in argument order, on each of the
      nodes `ns` in turn. */
  function PerNode(ns: seq<NodeId>, ms: seq<Method>): (r: seq<Invocation>)
  {
    if ns == [] then [] else PerNode(ns[..|ns| - 1], ms) + Apply(ns[|ns| - 1], ms)
  }

  lemma {:induction false} PerNodeLength(ns: seq<NodeId>, ms: seq<Method>)
    ensures |PerNode(ns, ms)| == |ns| * |ms|
  {
    if ns != [] {
      PerNodeLength(ns[..|ns| - 1], ms);
      assert |ns| * |ms| == (|ns| - 1) * |ms| + |ms|;
    }
  }

  lemma {:induction false} PerNodeAppend(a: seq<NodeId>, b: seq<NodeId>, ms: seq<Method>)
    ensures PerNode(a + b, ms) == PerNode(a, ms) + PerNode(b, ms)
    decreases |b|
  {
    if b == [] {
      assert a + b == a;
    } else {
      var n := |b| - 1;
      assert (a + b)[..|a + b| - 1] == a + b[..n];
      PerNodeAppend(a, b[..n], ms);
      assert PerNode(b, ms) == PerNode(b[..n], ms) + Apply(b[n], ms);
    }
  }

  /** `call` visits the nodes below the composer in depth-first pre-order,
      applying all the methods to each node before moving on. */
  lemma {:induction false} CallTraceIsPreOrder(cs: seq<Control>, ms: seq<Method>)
    ensures CallTrace(cs, ms) == PerNode(Descendants(cs), ms)
    decreases SizeAll(cs)
  {
    if cs != [] {
      var init, c := cs[..|cs| - 1], cs[|cs| - 1];
      KidsSmaller(c);
      CallTraceIsPreOrder(init, ms);
      CallTraceIsPreOrder(Kids(c), ms);
      PerNodeAppend(Descendants(init) + [c.id], Descendants(Kids(c)), ms);
      PerNodeAppend(Descendants(init), [c.id], ms);
      assert PerNode([c.id], ms) == PerNode([], ms) + Apply(c.id, ms);
      if c.Leaf? {
        assert Kids(c) == [];
      }
    }
  }

  /** With a single method, the reference order is that method on each node. */
  lemma {:induction false} PerNodeSingle(ns: seq<NodeId>, m: Method)
    ensures |PerNode(ns, [m])| == |ns|
    ensures forall k :: 0 <= k < |ns| ==> PerNode(ns, [m])[k] == Invocation(ns[k], m)
  {
    if ns != [] {
      PerNodeSingle(ns[..|ns| - 1], m);
    }
  }

  lemma {:induction false} PerNodeWithin(ns: seq<NodeId>, ms: seq<Method>)
    ensures forall k :: 0 <= k < |PerNode(ns, ms)| ==> PerNode(ns, ms)[k].id in ns && PerNode(ns, ms)[k].op in ms
  {
    if ns != [] {
      var n := |ns| - 1;
      PerNodeWithin(ns[..n], ms);
      forall k | 0 <= k < |PerNode(ns, ms)|
        ensures PerNode(ns, ms)[k].id in ns && PerNode(ns, ms)[k].op in ms
      {
        if k >= |PerNode(ns[..n], ms)| {
          var j := k - |PerNode(ns[..n], ms)|;
          assert PerNode(ns, ms)[k] == Apply(ns[n], ms)[j];
        } else {
          assert PerNode(ns, ms)[k] == PerNode(ns[..n], ms)[k];
          assert ns[..n] <= ns;
        }
      }
    }
  }

  /** `call(...ms)` makes one invocation per (node, method) pair. */
  lemma CallTraceLength(cs: seq<Control>, ms: seq<Method>)
    ensures |CallTrace(cs, ms)| == |Descendants(cs)| * |ms|
  {
    CallTraceIsPreOrder(cs, ms);
    PerNodeLength(Descendants(cs), ms);
  }

  /** `call` touches nothing outside the subtree and invokes only the methods
      it was given. */
  lemma CallTraceWithin(cs: seq<Control>, ms: seq<Method>)
    ensures forall k :: 0 <= k < |CallTrace(cs, ms)| ==>
              CallTrace(cs, ms)[k].id in Descendants(cs) && CallTrace(cs, ms)[k].op in ms
  {
    CallTraceIsPreOrder(cs, ms);
    PerNodeWithin(Descendants(cs), ms);
  }

  /** With a single method, `call(m)` invokes `m` on the nodes of the subtree
      in pre-order, one invocation per node. */
  lemma CallOneMethod(cs: seq<Control>, m: Method)
    ensures |CallTrace(cs, [m])| == |Descendants(cs)|
    ensures forall k :: 0 <= k < |Descendants(cs)| ==> CallTrace(cs, [m])[k] == Invocation(Descendants(cs)[k], m)
  {
    CallTraceIsPreOrder(cs, [m]);
    PerNodeSingle(Descendants(cs), m);
  }

  /** In a tree (no control shared), `call(m)` invokes `m` exactly once on every
      node below the composer, groups and arrays included, and on nothing else. */
  lemma CallVisitsEachNodeOnce(cs: seq<Control>, m: Method)
    requires Distinct(Descendants(cs))
    ensures forall n :: Invocation(n, m) in CallTrace(cs, [m]) <==> n in Descendants(cs)
    ensures Distinct(CallTrace(cs, [m]))
  {
    CallOneMethod(cs, m);
    var r, d := CallTrace(cs, [m]), Descendants(cs);
    forall n ensures Invocation(n, m) in r <==> n in d {
      if Invocation(n, m) in r {
        var k :| 0 <= k < |r| && r[k] == Invocation(n, m);
        assert d[k] == n;
      }
      if n in d {
        var k :| 0 <= k < |d| && d[k] == n;
        assert r[k] == Invocation(n, m);
      }
    }
    forall i, j | 0 <= i < j < |r| ensures r[i] != r[j] {
      assert d[i] != d[j];
    }
  }

  /** The control handed to `forEachControlIn` never receives a call itself. */
  lemma RootNeverCalled(form: Control, ms: seq<Method>)
    requires IsTree(form)
    ensures var cs := ChildList(Some(form));
            forall k :: 0 <= k < |CallTrace(cs, ms)| ==> CallTrace(cs, ms)[k].id != form.id
  {
    CallTraceWithin(Kids(form), ms);
    HeadNotInTail(form.id, Descendants(Kids(form)));
  }

  lemma HeadNotInTail(id: NodeId, d: seq<NodeId>)
    requires Distinct([id] + d)
    ensures id !in d
  {
    var s := [id] + d;
    assert s[0] == id;
    forall i | 0 <= i < |d| ensures d[i] != id {
      assert s[i + 1] == d[i];
      assert s[0] != s[i + 1];
    }
  }

  lemma CallTraceStep(cs: seq<Control>, ms: seq<Method>, i: nat)
    requires i < |cs|
    ensures CallTrace(cs[..i + 1], ms)
         == CallTrace(cs[..i], ms) + Apply(cs[i].id, ms) + (if !cs[i].Leaf? then CallTrace(Kids(cs[i]), ms) else [])
  {
    assert cs[..i + 1][..i] == cs[..i];
  }

  lemma ApplyStep(id: NodeId, ms: seq<Method>, j: nat)
    requires j < |ms|
    ensures Apply(id, ms[..j + 1]) == Apply(id, ms[..j]) + [Invocation(id, ms[j])]
  {
  }
}
