/** The links the composer installs on a target control
    (src/app/shared/forms-util.ts:55-86) and what a lifecycle method does once it
    has been wrapped.

    The source reassigns the target's `markAsDirty`, `markAsPristine`,
    `markAsTouched` and `markAsUntouched` with closures that first run the method
    they replaced and then propagate into the composer's subtree. Here each
    target keeps the list of links installed on it, oldest first; running a
    method on a control runs the control's own (original) method and then every
    link that reacts to that method, in installation order, which is the order
    the stacked closures run in. Each propagation is a `call(m)` on the link's
    composer, and each control that `call` reaches runs its method the same way,
    so links installed below are honoured too. */
module Propagation {
  import opened Wrappers
  import opened Controls
  import opened Traversal
  import opened Sequences

  /** The object `forEachControlIn(form)` returns: every operation works on the
      child list it was built with. */
  datatype Composer = Composer(controls: seq<Control>)

  function ForEachControlIn(form: Option<Control>): Composer
  {
    Composer(ChildList(form))
  }

  /** The identity of a `comingFromBelow` callback. */
  type GuardId = nat

  datatype Link =
    | DirtyLink(composer: Composer)                            // markAsDirtySimultaneouslyWith
    | TouchedLink(composer: Composer, guard: Option<GuardId>)  // markAsTouchedSimultaneouslyWith

  /** Whether the wrapper of link `l`, run as method `m` of its target,
      propagates `m` into the composer's subtree. `raised` is the set of
      `comingFromBelow` callbacks that answer true. */
  predicate Fires(l: Link, m: Method, raised: set<GuardId>)
  {
    match l
    case DirtyLink(_) => m == MarkAsDirty || m == MarkAsPristine
    case TouchedLink(_, g) => m == MarkAsUntouched || (m == MarkAsTouched && (g.None? || g.value !in raised))
  }

  /** The invocations the wrappers in `ls` make directly when their target runs
      `m`: `call(m)` on each firing link's composer, oldest link first. */
  function LinkCalls(ls: seq<Link>, m: Method, raised: set<GuardId>): seq<Invocation>
  {
    if ls == [] then []
    else
      var l := ls[|ls| - 1];
      LinkCalls(ls[..|ls| - 1], m, raised)
        + (if Fires(l, m, raised) then CallTrace(l.composer.controls, [m]) else [])
  }

  /** The links installed on each target, oldest first. */
  type Links = map<NodeId, seq<Link>>

  function LinksOf(links: Links, id: NodeId): seq<Link>
  {
    if id in links then links[id] else []
  }

  /** Acyclic installation is witnessed by a rank: every control below a link's
      composer ranks lower than the link's target. */
  ghost predicate LinkBelow(rank: NodeId -> nat, l: Link, t: NodeId)
  {
    AllBelow(rank, Descendants(l.composer.controls), rank(t))
  }

  ghost predicate AllBelow(rank: NodeId -> nat, ns: seq<NodeId>, bound: nat)
  {
    forall n :: n in ns ==> rank(n) < bound
  }

  ghost predicate Acyclic(links: Links, rank: NodeId -> nat)
  {
    forall t, i :: t in links && 0 <= i < |links[t]| ==> LinkBelow(rank, links[t][i], t)
  }

  ghost predicate Below(rank: NodeId -> nat, tr: seq<Invocation>, bound: nat)
  {
    forall i :: 0 <= i < |tr| ==> rank(tr[i].id) < bound
  }

  lemma {:induction false} LinkCallsBelow(rank: NodeId -> nat, ls: seq<Link>, m: Method, raised: set<GuardId>, t: NodeId)
    requires forall i :: 0 <= i < |ls| ==> LinkBelow(rank, ls[i], t)
    ensures Below(rank, LinkCalls(ls, m, raised), rank(t))
  {
    if ls != [] {
      var l := ls[|ls| - 1];
      LinkCallsBelow(rank, ls[..|ls| - 1], m, raised, t);
      CallTraceWithin(l.composer.controls, [m]);
      assert LinkBelow(rank, l, t);
    }
  }

  lemma LinksOfBelow(links: Links, rank: NodeId -> nat, t: NodeId)
    requires Acyclic(links, rank)
    ensures forall i :: 0 <= i < |LinksOf(links, t)| ==> LinkBelow(rank, LinksOf(links, t)[i], t)
  {
  }

  lemma LinkCallsStep(ls: seq<Link>, i: nat, m: Method, raised: set<GuardId>)
    requires i < |ls|
    ensures LinkCalls(ls[..i + 1], m, raised)
         == LinkCalls(ls[..i], m, raised) + (if Fires(ls[i], m, raised) then CallTrace(ls[i].composer.controls, [m]) else [])
  {
    assert ls[..i + 1][..i] == ls[..i];
  }

  lemma CallTraceBelow(rank: NodeId -> nat, cs: seq<Control>, ms: seq<Method>, bound: nat)
    requires AllBelow(rank, Descendants(cs), bound)
    ensures Below(rank, CallTrace(cs, ms), bound)
  {
    CallTraceWithin(cs, ms);
  }

  /** The control `cs[i]` and everything below it rank under any bound on the
      whole child list. */
  lemma ChildBelow(rank: NodeId -> nat, cs: seq<Control>, i: nat, bound: nat)
    requires i < |cs| && AllBelow(rank, Descendants(cs), bound)
    ensures rank(cs[i].id) < bound
    ensures AllBelow(rank, Descendants(Kids(cs[i])), bound)
  {
    ChildWithin(cs, i);
  }

  /** Every original method run caused by running method `m` on control `id`:
      the control's own method, then the propagation of each firing link. */
  ghost function Dispatch(links: Links, rank: NodeId -> nat, raised: set<GuardId>, id: NodeId, m: Method): seq<Invocation>
    requires Acyclic(links, rank)
    decreases rank(id), 1, 0
  {
    LinksOfBelow(links, rank, id);
    LinkCallsBelow(rank, LinksOf(links, id), m, raised, id);
    [Invocation(id, m)] + Expand(links, rank, raised, LinkCalls(LinksOf(links, id), m, raised), rank(id))
  }

  /** Every original method run caused by making the invocations `tr` in turn. */
  ghost function Expand(links: Links, rank: NodeId -> nat, raised: set<GuardId>, tr: seq<Invocation>, bound: nat): seq<Invocation>
    requires Acyclic(links, rank) && Below(rank, tr, bound)
    decreases bound, 0, |tr|
  {
    if tr == [] then []
    else
      var last := tr[|tr| - 1];
      Expand(links, rank, raised, tr[..|tr| - 1], bound) + Dispatch(links, rank, raised, last.id, last.op)
  }

  lemma {:induction false} ExpandAppend(links: Links, rank: NodeId -> nat, raised: set<GuardId>, a: seq<Invocation>, b: seq<Invocation>, bound: nat)
    requires Acyclic(links, rank) && Below(rank, a, bound) && Below(rank, b, bound)
    ensures Below(rank, a + b, bound)
    ensures Expand(links, rank, raised, a + b, bound)
         == Expand(links, rank, raised, a, bound) + Expand(links, rank, raised, b, bound)
    decreases |b|
  {
    assert Below(rank, a + b, bound) by {
      forall i | 0 <= i < |a + b| ensures rank((a + b)[i].id) < bound {
        if i >= |a| { assert (a + b)[i] == b[i - |a|]; }
      }
    }
    if b == [] {
      assert a + b == a;
    } else {
      var n := |b| - 1;
      assert (a + b)[..|a + b| - 1] == a + b[..n];
      assert (a + b)[|a + b| - 1] == b[n];
      ExpandAppend(links, rank, raised, a, b[..n], bound);
    }
  }

  lemma ExpandSnoc(links: Links, rank: NodeId -> nat, raised: set<GuardId>, tr: seq<Invocation>, inv: Invocation, bound: nat)
    requires Acyclic(links, rank) && Below(rank, tr, bound) && rank(inv.id) < bound
    ensures Below(rank, tr + [inv], bound)
    ensures Expand(links, rank, raised, tr + [inv], bound)
         == Expand(links, rank, raised, tr, bound) + Dispatch(links, rank, raised, inv.id, inv.op)
  {
    assert (tr + [inv])[..|tr|] == tr;
    assert Below(rank, tr + [inv], bound) by {
      forall i | 0 <= i < |tr + [inv]| ensures rank((tr + [inv])[i].id) < bound {
        if i < |tr| { assert (tr + [inv])[i] == tr[i]; }
      }
    }
  }

  /** The trace of `call(...ms)` over the child list `cs`, with every
      invocation run through the links of the control it reaches. */
  ghost function CallEffect(links: Links, rank: NodeId -> nat, raised: set<GuardId>, cs: seq<Control>, ms: seq<Method>): seq<Invocation>
    requires Acyclic(links, rank)
  {
    var bound := RankBound(rank, Descendants(cs));
    CallTraceBelow(rank, cs, ms, bound);
    Expand(links, rank, raised, CallTrace(cs, ms), bound)
  }

  /** `call()` with no methods, or on a composer with no children, runs
      nothing. */
  lemma CallWithNothingRunsNothing(links: Links, rank: NodeId -> nat, raised: set<GuardId>, cs: seq<Control>, ms: seq<Method>)
    requires Acyclic(links, rank)
    ensures cs == [] || ms == [] ==> CallEffect(links, rank, raised, cs, ms) == []
  {
    CallTraceLength(cs, ms);
  }

  /** A number above the rank of every node in `ns`. */
  ghost function RankBound(rank: NodeId -> nat, ns: seq<NodeId>): (r: nat)
    ensures AllBelow(rank, ns, r)
  {
    if ns == [] then 0
    else
      var b := RankBound(rank, ns[..|ns| - 1]);
      var top := if rank(ns[|ns| - 1]) < b then b else rank(ns[|ns| - 1]) + 1;
      assert forall n :: n in ns ==> n in ns[..|ns| - 1] || n == ns[|ns| - 1];
      top
  }

  /** Per-control interaction state: which controls are dirty and which are
      touched. */
  datatype Flags = Flags(dirty: set<NodeId>, touched: set<NodeId>)

  /** The effect of a control's own (original) method on its own flags. The other
      four methods leave these flags alone. */
  function Step(f: Flags, inv: Invocation): Flags
  {
    match inv.op
    case MarkAsDirty => f.(dirty := f.dirty + {inv.id})
    case MarkAsPristine => f.(dirty := f.dirty - {inv.id})
    case MarkAsTouched => f.(touched := f.touched + {inv.id})
    case MarkAsUntouched => f.(touched := f.touched - {inv.id})
    case _ => f
  }

  function Run(f: Flags, tr: seq<Invocation>): Flags
  {
    if tr == [] then f else Step(Run(f, tr[..|tr| - 1]), tr[|tr| - 1])
  }

  lemma {:induction false} RunAppend(f: Flags, a: seq<Invocation>, b: seq<Invocation>)
    ensures Run(f, a + b) == Run(Run(f, a), b)
    decreases |b|
  {
    if b == [] {
      assert a + b == a;
    } else {
      var n := |b| - 1;
      assert (a + b)[..|a + b| - 1] == a + b[..n];
      assert (a + b)[|a + b| - 1] == b[n];
      RunAppend(f, a, b[..n]);
    }
  }

  /** Installing a link whose composer lies below its target keeps the links
      acyclic. */
  lemma InstallKeepsAcyclic(links: Links, rank: NodeId -> nat, t: NodeId, l: Link)
    requires Acyclic(links, rank) && LinkBelow(rank, l, t)
    ensures Acyclic(links[t := LinksOf(links, t) + [l]], rank)
  {
    var links' := links[t := LinksOf(links, t) + [l]];
    forall u, i | u in links' && 0 <= i < |links'[u]| ensures LinkBelow(rank, links'[u][i], u) {
      if u == t && i == |LinksOf(links, t)| {
        assert links'[u][i] == l;
      } else if u == t {
        assert links'[u][i] == LinksOf(links, t)[i];
      }
    }
  }

  /** Two link tables that agree on every control ranking under `bound`. */
  ghost predicate AgreeBelow(links: Links, links': Links, rank: NodeId -> nat, bound: nat)
  {
    forall n :: rank(n) < bound ==> LinksOf(links, n) == LinksOf(links', n)
  }

  /** Running a method only consults the links of controls ranking no higher
      than the one it starts on. */
  lemma {:induction false} DispatchLocal(links: Links, links': Links, rank: NodeId -> nat, raised: set<GuardId>, id: NodeId, m: Method, bound: nat)
    requires Acyclic(links, rank) && Acyclic(links', rank)
    requires rank(id) < bound && AgreeBelow(links, links', rank, bound)
    ensures Dispatch(links, rank, raised, id, m) == Dispatch(links', rank, raised, id, m)
    decreases rank(id), 1, 0
  {
    LinksOfBelow(links, rank, id);
    LinkCallsBelow(rank, LinksOf(links, id), m, raised, id);
    assert LinksOf(links, id) == LinksOf(links', id);
    ExpandLocal(links, links', rank, raised, LinkCalls(LinksOf(links, id), m, raised), rank(id), bound);
  }

  lemma {:induction false} ExpandLocal(links: Links, links': Links, rank: NodeId -> nat, raised: set<GuardId>, tr: seq<Invocation>, b: nat, bound: nat)
    requires Acyclic(links, rank) && Acyclic(links', rank)
    requires Below(rank, tr, b) && b <= bound && AgreeBelow(links, links', rank, bound)
    ensures Expand(links, rank, raised, tr, b) == Expand(links', rank, raised, tr, b)
    decreases b, 0, |tr|
  {
    if tr != [] {
      var last := tr[|tr| - 1];
      ExpandLocal(links, links', rank, raised, tr[..|tr| - 1], b, bound);
      DispatchLocal(links, links', rank, raised, last.id, last.op, bound);
    }
  }

  /** Installing link `l` on control `t`: running `m` on `t` first does exactly
      what it did before (the previous behaviour), then, when `l` fires for
      `m`, the propagation of `m` over `l`'s composer. Links installed
      repeatedly therefore stack, oldest first. */
  lemma InstallLinkDispatch(links: Links, rank: NodeId -> nat, raised: set<GuardId>, t: NodeId, l: Link, m: Method)
    requires Acyclic(links, rank) && LinkBelow(rank, l, t)
    ensures Acyclic(links[t := LinksOf(links, t) + [l]], rank)
    ensures Below(rank, CallTrace(l.composer.controls, [m]), rank(t))
    ensures Dispatch(links[t := LinksOf(links, t) + [l]], rank, raised, t, m)
         == Dispatch(links, rank, raised, t, m)
            + (if Fires(l, m, raised) then Expand(links, rank, raised, CallTrace(l.composer.controls, [m]), rank(t)) else [])
  {
    InstallKeepsAcyclic(links, rank, t, l);
    var links' := links[t := LinksOf(links, t) + [l]];
    var ls := LinksOf(links, t);
    var ls' := LinksOf(links', t);
    assert ls' == ls + [l] && ls'[..|ls'| - 1] == ls;
    var fired := if Fires(l, m, raised) then CallTrace(l.composer.controls, [m]) else [];
    assert LinkCalls(ls', m, raised) == LinkCalls(ls, m, raised) + fired;
    LinksOfBelow(links, rank, t);
    LinkCallsBelow(rank, ls, m, raised, t);
    CallTraceBelow(rank, l.composer.controls, [m], rank(t));
    assert Below(rank, fired, rank(t));
    ExpandAppend(links', rank, raised, LinkCalls(ls, m, raised), fired, rank(t));
    InstallAgreesBelow(links, rank, t, l);
    ExpandLocal(links, links', rank, raised, LinkCalls(ls, m, raised), rank(t), rank(t));
    ExpandLocal(links, links', rank, raised, fired, rank(t), rank(t));
    var before := Expand(links, rank, raised, LinkCalls(ls, m, raised), rank(t));
    var after := Expand(links, rank, raised, fired, rank(t));
    assert Dispatch(links, rank, raised, t, m) == [Invocation(t, m)] + before;
    assert Dispatch(links', rank, raised, t, m) == [Invocation(t, m)] + (before + after);
    AppendAssoc([Invocation(t, m)], before, after);
  }

  lemma InstallAgreesBelow(links: Links, rank: NodeId -> nat, t: NodeId, l: Link)
    ensures AgreeBelow(links, links[t := LinksOf(links, t) + [l]], rank, rank(t))
  {
  }

  /** The controls an invocation trace reaches. */
  function Reached(tr: seq<Invocation>): set<NodeId>
  {
    set i | 0 <= i < |tr| :: tr[i].id
  }

  /** Every invocation in `tr` runs method `m`. */
  predicate Uniform(tr: seq<Invocation>, m: Method)
  {
    forall i :: 0 <= i < |tr| ==> tr[i].op == m
  }

  lemma ReachedAppend(a: seq<Invocation>, b: seq<Invocation>)
    ensures Reached(a + b) == Reached(a) + Reached(b)
  {
    forall n | n in Reached(a + b) ensures n in Reached(a) + Reached(b) {
      var i :| 0 <= i < |a + b| && (a + b)[i].id == n;
      if i >= |a| { assert b[i - |a|] == (a + b)[i]; }
    }
    forall n | n in Reached(a) ensures n in Reached(a + b) {
      var i :| 0 <= i < |a| && a[i].id == n;
      assert (a + b)[i] == a[i];
    }
    forall n | n in Reached(b) ensures n in Reached(a + b) {
      var i :| 0 <= i < |b| && b[i].id == n;
      assert (a + b)[|a| + i] == b[i];
    }
  }

  lemma UniformAppend(a: seq<Invocation>, b: seq<Invocation>, m: Method)
    requires Uniform(a, m) && Uniform(b, m)
    ensures Uniform(a + b, m)
  {
    forall i | 0 <= i < |a + b| ensures (a + b)[i].op == m {
      if i >= |a| { assert (a + b)[i] == b[i - |a|]; }
    }
  }

  /** A trace that runs one method throughout changes only that method's flag:
      marking dirty or touched adds every reached control, marking pristine or
      untouched removes every reached control, and the other methods change no
      flag. */
  lemma {:induction false} RunUniform(f: Flags, tr: seq<Invocation>, m: Method)
    requires Uniform(tr, m)
    ensures m == MarkAsDirty ==> Run(f, tr) == f.(dirty := f.dirty + Reached(tr))
    ensures m == MarkAsPristine ==> Run(f, tr) == f.(dirty := f.dirty - Reached(tr))
    ensures m == MarkAsTouched ==> Run(f, tr) == f.(touched := f.touched + Reached(tr))
    ensures m == MarkAsUntouched ==> Run(f, tr) == f.(touched := f.touched - Reached(tr))
    ensures !(m == MarkAsDirty || m == MarkAsPristine || m == MarkAsTouched || m == MarkAsUntouched) ==> Run(f, tr) == f
    decreases |tr|
  {
    if tr != [] {
      var init, last := tr[..|tr| - 1], tr[|tr| - 1];
      assert tr == init + [last];
      RunUniform(f, init, m);
      ReachedAppend(init, [last]);
      assert Reached([last]) == {last.id};
    }
  }

  lemma {:induction false} LinkCallsUniform(ls: seq<Link>, m: Method, raised: set<GuardId>)
    ensures Uniform(LinkCalls(ls, m, raised), m)
  {
    if ls != [] {
      var l := ls[|ls| - 1];
      LinkCallsUniform(ls[..|ls| - 1], m, raised);
      CallTraceWithin(l.composer.controls, [m]);
      UniformAppend(LinkCalls(ls[..|ls| - 1], m, raised), if Fires(l, m, raised) then CallTrace(l.composer.controls, [m]) else [], m);
    }
  }

  /** Running `m` on a control makes every control it reaches run `m` too:
      each link propagates the very method that triggered it. */
  lemma {:induction false} DispatchUniform(links: Links, rank: NodeId -> nat, raised: set<GuardId>, id: NodeId, m: Method)
    requires Acyclic(links, rank)
    ensures Uniform(Dispatch(links, rank, raised, id, m), m)
    decreases rank(id), 1, 0
  {
    LinksOfBelow(links, rank, id);
    var calls := LinkCalls(LinksOf(links, id), m, raised);
    LinkCallsBelow(rank, LinksOf(links, id), m, raised, id);
    LinkCallsUniform(LinksOf(links, id), m, raised);
    ExpandUniform(links, rank, raised, calls, rank(id), m);
    UniformAppend([Invocation(id, m)], Expand(links, rank, raised, calls, rank(id)), m);
  }

  lemma {:induction false} ExpandUniform(links: Links, rank: NodeId -> nat, raised: set<GuardId>, tr: seq<Invocation>, b: nat, m: Method)
    requires Acyclic(links, rank) && Below(rank, tr, b) && Uniform(tr, m)
    ensures Uniform(Expand(links, rank, raised, tr, b), m)
    decreases b, 0, |tr|
  {
    if tr != [] {
      var last := tr[|tr| - 1];
      ExpandUniform(links, rank, raised, tr[..|tr| - 1], b, m);
      DispatchUniform(links, rank, raised, last.id, last.op);
      UniformAppend(Expand(links, rank, raised, tr[..|tr| - 1], b), Dispatch(links, rank, raised, last.id, last.op), m);
    }
  }

  /** Expanding a trace keeps every invocation of it: the controls it names
      still run their own method. */
  lemma {:induction false} ExpandReaches(links: Links, rank: NodeId -> nat, raised: set<GuardId>, tr: seq<Invocation>, b: nat)
    requires Acyclic(links, rank) && Below(rank, tr, b)
    ensures Reached(tr) <= Reached(Expand(links, rank, raised, tr, b))
    decreases |tr|
  {
    if tr != [] {
      var init, last := tr[..|tr| - 1], tr[|tr| - 1];
      assert tr == init + [last];
      ExpandReaches(links, rank, raised, init, b);
      ReachedAppend(init, [last]);
      var d := Dispatch(links, rank, raised, last.id, last.op);
      assert d[0] == last;
      ReachedAppend(Expand(links, rank, raised, init, b), d);
    }
  }

  /** The controls a one-method `call` reaches are exactly those below the
      composer. */
  lemma CallReaches(cs: seq<Control>, m: Method)
    ensures Reached(CallTrace(cs, [m])) == set n | n in Descendants(cs)
  {
    CallOneMethod(cs, m);
    var tr, d := CallTrace(cs, [m]), Descendants(cs);
    forall n | n in d ensures n in Reached(tr) {
      var k :| 0 <= k < |d| && d[k] == n;
      assert tr[k].id == n;
    }
  }

  lemma {:induction false} LinkCallsReach(ls: seq<Link>, k: nat, m: Method, raised: set<GuardId>)
    requires k < |ls| && Fires(ls[k], m, raised)
    ensures Reached(CallTrace(ls[k].composer.controls, [m])) <= Reached(LinkCalls(ls, m, raised))
  {
    var init, l := ls[..|ls| - 1], ls[|ls| - 1];
    var fired := if Fires(l, m, raised) then CallTrace(l.composer.controls, [m]) else [];
    ReachedAppend(LinkCalls(init, m, raised), fired);
    if k < |ls| - 1 {
      assert init[k] == ls[k];
      LinkCallsReach(init, k, m, raised);
    }
  }

  /** When a link installed on `t` fires for `m`, running `m` on `t` reaches `t`
      and every control below the link's composer. */
  lemma FiringLinkReaches(links: Links, rank: NodeId -> nat, raised: set<GuardId>, t: NodeId, l: Link, m: Method)
    requires Acyclic(links, rank) && l in LinksOf(links, t) && Fires(l, m, raised)
    ensures t in Reached(Dispatch(links, rank, raised, t, m))
    ensures forall n :: n in Descendants(l.composer.controls) ==> n in Reached(Dispatch(links, rank, raised, t, m))
  {
    var ls := LinksOf(links, t);
    var k :| 0 <= k < |ls| && ls[k] == l;
    LinksOfBelow(links, rank, t);
    LinkCallsBelow(rank, ls, m, raised, t);
    var calls := LinkCalls(ls, m, raised);
    LinkCallsReach(ls, k, m, raised);
    CallReaches(l.composer.controls, m);
    ExpandReaches(links, rank, raised, calls, rank(t));
    var d := Dispatch(links, rank, raised, t, m);
    assert d == [Invocation(t, m)] + Expand(links, rank, raised, calls, rank(t));
    ReachedAppend([Invocation(t, m)], Expand(links, rank, raised, calls, rank(t)));
    assert [Invocation(t, m)][0].id == t;
  }

  /** A control with no links runs only its own method. */
  lemma NoLinksDispatch(links: Links, rank: NodeId -> nat, raised: set<GuardId>, id: NodeId, m: Method)
    requires Acyclic(links, rank) && LinksOf(links, id) == []
    ensures Dispatch(links, rank, raised, id, m) == [Invocation(id, m)]
  {
    assert LinkCalls(LinksOf(links, id), m, raised) == [];
  }

  /** With `markAsDirtySimultaneouslyWith(t)` installed, `t.markAsDirty()` leaves
      `t` and every control below the composer dirty, `t.markAsPristine()`
      leaves all of them pristine, and neither changes which controls are
      touched. */
  lemma DirtyLinkPropagates(links: Links, rank: NodeId -> nat, raised: set<GuardId>, t: NodeId, composer: Composer, f: Flags, m: Method)
    requires Acyclic(links, rank) && DirtyLink(composer) in LinksOf(links, t)
    requires m == MarkAsDirty || m == MarkAsPristine
    ensures Run(f, Dispatch(links, rank, raised, t, m)).touched == f.touched
    ensures m == MarkAsDirty ==>
              var r := Run(f, Dispatch(links, rank, raised, t, m));
              t in r.dirty && forall n :: n in Descendants(composer.controls) ==> n in r.dirty
    ensures m == MarkAsPristine ==>
              var r := Run(f, Dispatch(links, rank, raised, t, m));
              t !in r.dirty && forall n :: n in Descendants(composer.controls) ==> n !in r.dirty
  {
    FiringLinkReaches(links, rank, raised, t, DirtyLink(composer), m);
    DispatchUniform(links, rank, raised, t, m);
    RunUniform(f, Dispatch(links, rank, raised, t, m), m);
  }

  /** With `markAsTouchedSimultaneouslyWith(t, guard)` installed,
      `t.markAsUntouched()` always, and `t.markAsTouched()` when the guard is
      absent or answers false, carries the method to `t` and every control below
      the composer; neither changes which controls are dirty. */
  lemma TouchedLinkPropagates(links: Links, rank: NodeId -> nat, raised: set<GuardId>, t: NodeId, composer: Composer, guard: Option<GuardId>, f: Flags, m: Method)
    requires Acyclic(links, rank) && TouchedLink(composer, guard) in LinksOf(links, t)
    requires m == MarkAsUntouched || (m == MarkAsTouched && (guard.None? || guard.value !in raised))
    ensures Run(f, Dispatch(links, rank, raised, t, m)).dirty == f.dirty
    ensures m == MarkAsTouched ==>
              var r := Run(f, Dispatch(links, rank, raised, t, m));
              t in r.touched && forall n :: n in Descendants(composer.controls) ==> n in r.touched
    ensures m == MarkAsUntouched ==>
              var r := Run(f, Dispatch(links, rank, raised, t, m));
              t !in r.touched && forall n :: n in Descendants(composer.controls) ==> n !in r.touched
  {
    FiringLinkReaches(links, rank, raised, t, TouchedLink(composer, guard), m);
    DispatchUniform(links, rank, raised, t, m);
    RunUniform(f, Dispatch(links, rank, raised, t, m), m);
  }

  /** A touched link whose guard answers true adds nothing to
      `markAsTouched`, yet still propagates `markAsUntouched`. */
  lemma GuardSuppressesTouched(links: Links, rank: NodeId -> nat, raised: set<GuardId>, t: NodeId, composer: Composer, guard: GuardId)
    requires Acyclic(links, rank) && LinkBelow(rank, TouchedLink(composer, Some(guard)), t)
    requires guard in raised
    ensures Acyclic(links[t := LinksOf(links, t) + [TouchedLink(composer, Some(guard))]], rank)
    ensures Dispatch(links[t := LinksOf(links, t) + [TouchedLink(composer, Some(guard))]], rank, raised, t, MarkAsTouched)
         == Dispatch(links, rank, raised, t, MarkAsTouched)
    ensures Below(rank, CallTrace(composer.controls, [MarkAsUntouched]), rank(t))
    ensures Dispatch(links[t := LinksOf(links, t) + [TouchedLink(composer, Some(guard))]], rank, raised, t, MarkAsUntouched)
         == Dispatch(links, rank, raised, t, MarkAsUntouched)
            + Expand(links, rank, raised, CallTrace(composer.controls, [MarkAsUntouched]), rank(t))
  {
    InstallLinkDispatch(links, rank, raised, t, TouchedLink(composer, Some(guard)), MarkAsTouched);
    InstallLinkDispatch(links, rank, raised, t, TouchedLink(composer, Some(guard)), MarkAsUntouched);
  }

  /** `call(m)` carries `m` to every control below the composer: after it they
      are all dirty (markAsDirty), pristine (markAsPristine), touched
      (markAsTouched) or untouched (markAsUntouched). */
  lemma CallMarksSubtree(links: Links, rank: NodeId -> nat, raised: set<GuardId>, cs: seq<Control>, f: Flags, m: Method)
    requires Acyclic(links, rank)
    ensures var r := Run(f, CallEffect(links, rank, raised, cs, [m]));
            (m == MarkAsDirty ==> forall n :: n in Descendants(cs) ==> n in r.dirty)
            && (m == MarkAsPristine ==> forall n :: n in Descendants(cs) ==> n !in r.dirty)
            && (m == MarkAsTouched ==> forall n :: n in Descendants(cs) ==> n in r.touched)
            && (m == MarkAsUntouched ==> forall n :: n in Descendants(cs) ==> n !in r.touched)
  {
    var bound := RankBound(rank, Descendants(cs));
    var tr := CallTrace(cs, [m]);
    CallTraceBelow(rank, cs, [m], bound);
    CallTraceWithin(cs, [m]);
    assert Uniform(tr, m);
    ExpandUniform(links, rank, raised, tr, bound, m);
    ExpandReaches(links, rank, raised, tr, bound);
    CallReaches(cs, m);
    RunUniform(f, Expand(links, rank, raised, tr, bound), m);
  }
}
