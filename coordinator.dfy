/** The composite control coordinator (src/app/shared/forms-util.ts:29-104) as
    state that its operations update in place: per-control flags, a log of every
    original lifecycle method run, the links installed on each control's method
    slots, and each control's validator. */
module Coordinator {
  import opened Wrappers
  import opened Controls
  import opened Traversal
  import opened Errors
  import opened Propagation
  import opened Sequences

  /** A control's validator: the one it was built with, or the composition
      `Validators.compose([previous, added])` made by `addValidatorsTo`. */
  datatype Validator = Original | Composed(previous: Validator, added: Composer)

  function ValidatorOf(validators: map<NodeId, Validator>, id: NodeId): Validator
  {
    if id in validators then validators[id] else Original
  }

  /** The aggregating validators composed into `v`, oldest first. */
  function AddedValidators(v: Validator): seq<Composer>
  {
    match v
    case Original => []
    case Composed(previous, added) => AddedValidators(previous) + [added]
  }

  /** The `errors` of the composer's immediate children, in child-list order;
      `errors` holds the controls whose errors are non-null. */
  function ChildErrors<V>(composer: Composer, errors: map<NodeId, ErrorMap<V>>): seq<Option<ErrorMap<V>>>
  {
    var cs := composer.controls;
    seq(|cs|, i requires 0 <= i < |cs| => if cs[i].id in errors then Some(errors[cs[i].id]) else None)
  }

  /** What the validator added by `addValidatorsTo` returns when evaluated. */
  function ChildrenValidator<V>(composer: Composer, errors: map<NodeId, ErrorMap<V>>): Option<ErrorMap<V>>
  {
    AggregateErrors(ChildErrors(composer, errors))
  }

  /** The results of the functions composed into `v`, in composition order: the
      original validator's result `own`, then each added validator's. */
  function ValidatorResults<V>(v: Validator, own: Option<ErrorMap<V>>, errors: map<NodeId, ErrorMap<V>>): (r: seq<Option<ErrorMap<V>>>)
    ensures |r| == |AddedValidators(v)| + 1 && r[0] == own
    ensures forall i :: 0 <= i < |AddedValidators(v)| ==> r[i + 1] == ChildrenValidator(AddedValidators(v)[i], errors)
  {
    match v
    case Original => [own]
    case Composed(previous, added) => ValidatorResults(previous, own, errors) + [ChildrenValidator(added, errors)]
  }

  /** The added validator returns null exactly when no immediate child has
      errors; otherwise its keys are those of the children's errors, each with
      the value from the last child in child-list order that has it. */
  lemma ChildrenValidatorMeaning<V>(composer: Composer, errors: map<NodeId, ErrorMap<V>>)
    ensures ChildrenValidator(composer, errors).None? <==> forall i :: 0 <= i < |composer.controls| ==> composer.controls[i].id !in errors
    ensures ChildrenValidator(composer, errors).Some? ==>
      (forall k :: k in ChildrenValidator(composer, errors).value <==>
        exists i :: 0 <= i < |composer.controls| && composer.controls[i].id in errors && k in errors[composer.controls[i].id])
    ensures ChildrenValidator(composer, errors).Some? ==>
      (forall i, k ::
        (0 <= i < |composer.controls| && composer.controls[i].id in errors && k in errors[composer.controls[i].id] &&
         forall j :: i < j < |composer.controls| ==> composer.controls[j].id !in errors || k !in errors[composer.controls[j].id])
        ==> ChildrenValidator(composer, errors).value[k] == errors[composer.controls[i].id][k])
  {
    var cs, es := composer.controls, ChildErrors(composer, errors);
    assert |es| == |cs| && forall i :: 0 <= i < |es| ==> es[i] == if cs[i].id in errors then Some(errors[cs[i].id]) else None;
    var r := ChildrenValidator(composer, errors);
    if r.Some? {
      assert r.value == MergeErrors(es);
      forall k ensures k in r.value <==> exists i :: 0 <= i < |cs| && cs[i].id in errors && k in errors[cs[i].id] {
        ChildErrorKey(composer, errors, k);
      }
      forall i, k | 0 <= i < |cs| && cs[i].id in errors && k in errors[cs[i].id] &&
          (forall j :: i < j < |cs| ==> cs[j].id !in errors || k !in errors[cs[j].id])
        ensures r.value[k] == errors[cs[i].id][k]
      {
        ChildErrorLastWins(composer, errors, i, k);
      }
    }
  }

  lemma ChildErrorKey<V>(composer: Composer, errors: map<NodeId, ErrorMap<V>>, k: string)
    ensures k in MergeErrors(ChildErrors(composer, errors))
        <==> exists i :: 0 <= i < |composer.controls| && composer.controls[i].id in errors && k in errors[composer.controls[i].id]
  {
    var cs, es := composer.controls, ChildErrors(composer, errors);
    assert |es| == |cs| && forall i :: 0 <= i < |es| ==> es[i] == if cs[i].id in errors then Some(errors[cs[i].id]) else None;
    MergeKeys(es, k);
    if k in MergeErrors(es) {
      var i :| 0 <= i < |es| && es[i].Some? && k in es[i].value;
      assert cs[i].id in errors && k in errors[cs[i].id];
    }
    if exists i :: 0 <= i < |cs| && cs[i].id in errors && k in errors[cs[i].id] {
      var i :| 0 <= i < |cs| && cs[i].id in errors && k in errors[cs[i].id];
      assert es[i].Some? && k in es[i].value;
    }
  }

  lemma ChildErrorLastWins<V>(composer: Composer, errors: map<NodeId, ErrorMap<V>>, i: nat, k: string)
    requires i < |composer.controls| && composer.controls[i].id in errors && k in errors[composer.controls[i].id]
    requires forall j :: i < j < |composer.controls| ==> composer.controls[j].id !in errors || k !in errors[composer.controls[j].id]
    ensures k in MergeErrors(ChildErrors(composer, errors))
    ensures MergeErrors(ChildErrors(composer, errors))[k] == errors[composer.controls[i].id][k]
  {
    var cs, es := composer.controls, ChildErrors(composer, errors);
    assert |es| == |cs| && forall i :: 0 <= i < |es| ==> es[i] == if cs[i].id in errors then Some(errors[cs[i].id]) else None;
    forall j | i < j < |es| ensures es[j].None? || k !in es[j].value {
    }
    MergeLastWins(es, i, k);
  }

  /** The added validator looks only at the composer's immediate children: two
      error snapshots that agree on them, whatever they say about any other
      control (grandchildren included), give the same result. */
  lemma ChildrenValidatorShallow<V>(composer: Composer, errors: map<NodeId, ErrorMap<V>>, errors': map<NodeId, ErrorMap<V>>)
    requires forall i :: 0 <= i < |composer.controls| ==>
               (composer.controls[i].id in errors <==> composer.controls[i].id in errors')
    requires forall i :: 0 <= i < |composer.controls| && composer.controls[i].id in errors ==>
               errors[composer.controls[i].id] == errors'[composer.controls[i].id]
    ensures ChildrenValidator(composer, errors) == ChildrenValidator(composer, errors')
  {
    assert ChildErrors(composer, errors) == ChildErrors(composer, errors');
  }

  /** `addValidatorsTo` composes rather than replaces: the control's validator
      still runs every function it ran before, in the same order, and then the
      children-errors validator; every other control's validator is unchanged. */
  lemma AddValidatorComposes<V>(validators: map<NodeId, Validator>, id: NodeId, composer: Composer, own: Option<ErrorMap<V>>, errors: map<NodeId, ErrorMap<V>>)
    ensures var validators' := validators[id := Composed(ValidatorOf(validators, id), composer)];
            ValidatorResults(ValidatorOf(validators', id), own, errors)
              == ValidatorResults(ValidatorOf(validators, id), own, errors) + [ChildrenValidator(composer, errors)]
            && forall n :: n != id ==> ValidatorOf(validators', n) == ValidatorOf(validators, n)
  {
  }

  class Forms {
    /** Which controls are dirty and which are touched. */
    var flags: Flags
    /** Every original lifecycle method run so far, in order. */
    var log: seq<Invocation>
    /** The links installed on each control, oldest first. */
    var links: Links
    /** Each control's validator; controls not mentioned keep their original one. */
    var validators: map<NodeId, Validator>
    /** A rank witnessing that the installed links form no cycle. */
    ghost const rank: NodeId -> nat

    ghost predicate Valid()
      reads this
    {
      Acyclic(links, rank)
    }

    /** Controls as the form-building code creates them: pristine, untouched,
        nothing linked, original validators. */
    constructor (ghost rank: NodeId -> nat)
      ensures Valid() && this.rank == rank
      ensures flags == Flags({}, {}) && log == [] && links == map[] && validators == map[]
    {
      this.rank := rank;
      flags := Flags({}, {});
      log := [];
      links := map[];
      validators := map[];
    }

    /** `c[m]()`: the control's original method, then the wrappers installed on
        its method slot, oldest first. */
    method Invoke(id: NodeId, m: Method, raised: set<GuardId>)
      requires Valid()
      modifies this`flags, this`log
      ensures Valid()
      ensures log == old(log) + Dispatch(links, rank, raised, id, m)
      ensures flags == Run(old(flags), Dispatch(links, rank, raised, id, m))
      decreases rank(id), 2, 0
    {
      log := log + [Invocation(id, m)];
      flags := Step(flags, Invocation(id, m));
      LinksOfBelow(links, rank, id);
      Propagate(id, LinksOf(links, id), m, raised);
      LinkCallsBelow(rank, LinksOf(links, id), m, raised, id);
      ghost var fired := Expand(links, rank, raised, LinkCalls(LinksOf(links, id), m, raised), rank(id));
      assert [Invocation(id, m)][..0] == [];
      RunAppend(old(flags), [Invocation(id, m)], fired);
      AppendAssoc(old(log), [Invocation(id, m)], fired);
    }

    /** The wrappers stacked on control `id`'s method slot for `m`, oldest first:
        each firing one runs `call(m)` on its composer
        (src/app/shared/forms-util.ts:58-61, 63-66, 73-78, 80-83). */
    method Propagate(id: NodeId, ls: seq<Link>, m: Method, raised: set<GuardId>)
      requires Valid()
      requires forall i :: 0 <= i < |ls| ==> LinkBelow(rank, ls[i], id)
      modifies this`flags, this`log
      ensures Valid()
      ensures Below(rank, LinkCalls(ls, m, raised), rank(id))
      ensures log == old(log) + Expand(links, rank, raised, LinkCalls(ls, m, raised), rank(id))
      ensures flags == Run(old(flags), Expand(links, rank, raised, LinkCalls(ls, m, raised), rank(id)))
      decreases rank(id), 1, 0
    {
      ghost var start := flags;
      ghost var done: seq<Invocation> := [];
      assert ls[..0] == [];
      for i := 0 to |ls|
        invariant Below(rank, LinkCalls(ls[..i], m, raised), rank(id))
        invariant done == Expand(links, rank, raised, LinkCalls(ls[..i], m, raised), rank(id))
        invariant log == old(log) + done
        invariant flags == Run(start, done)
      {
        ghost var prev := LinkCalls(ls[..i], m, raised);
        LinkCallsStep(ls, i, m, raised);
        var l := ls[i];
        if Fires(l, m, raised) {
          // the wrapper's `composer.call(m)`
          ghost var calls := CallTrace(l.composer.controls, [m]);
          assert LinkBelow(rank, l, id);
          CallUnder(l.composer.controls, [m], raised, rank(id));
          ghost var fired := Expand(links, rank, raised, calls, rank(id));
          AppendAssoc(old(log), done, fired);
          ExpandAppend(links, rank, raised, prev, calls, rank(id));
          RunAppend(start, done, fired);
          done := done + fired;
        } else {
          assert LinkCalls(ls[..i + 1], m, raised) == prev;
        }
      }
      assert ls[..|ls|] == ls;
    }

    /** `methods.forEach(m => c[m]())` on the control `id`
        (src/app/shared/forms-util.ts:41-45): each method in argument order, each
        run through the control's links. */
    method InvokeAll(id: NodeId, ms: seq<Method>, raised: set<GuardId>, ghost bound: nat)
      requires Valid() && rank(id) < bound
      modifies this`flags, this`log
      ensures Valid()
      ensures Below(rank, Apply(id, ms), bound)
      ensures log == old(log) + Expand(links, rank, raised, Apply(id, ms), bound)
      ensures flags == Run(old(flags), Expand(links, rank, raised, Apply(id, ms), bound))
      decreases rank(id), 3, 0
    {
      ghost var start := flags;
      ghost var done: seq<Invocation> := [];
      for j := 0 to |ms|
        invariant Below(rank, Apply(id, ms[..j]), bound)
        invariant done == Expand(links, rank, raised, Apply(id, ms[..j]), bound)
        invariant log == old(log) + done && flags == Run(start, done)
      {
        ApplyStep(id, ms, j);
        ExpandSnoc(links, rank, raised, Apply(id, ms[..j]), Invocation(id, ms[j]), bound);
        ghost var effect := Dispatch(links, rank, raised, id, ms[j]);
        Invoke(id, ms[j], raised);
        AppendAssoc(old(log), done, effect);
        RunAppend(start, done, effect);
        done := done + effect;
      }
      assert ms[..|ms|] == ms;
    }

    /** `call(...ms)` on a composer over the child list `cs`
        (src/app/shared/forms-util.ts:39-53), every control below it ranking
        under `bound`. */
    method CallUnder(cs: seq<Control>, ms: seq<Method>, raised: set<GuardId>, ghost bound: nat)
      requires Valid()
      requires AllBelow(rank, Descendants(cs), bound)
      modifies this`flags, this`log
      ensures Valid()
      ensures Below(rank, CallTrace(cs, ms), bound)
      ensures log == old(log) + Expand(links, rank, raised, CallTrace(cs, ms), bound)
      ensures flags == Run(old(flags), Expand(links, rank, raised, CallTrace(cs, ms), bound))
      decreases bound, 0, SizeAll(cs)
    {
      ghost var start := flags;
      ghost var done: seq<Invocation> := [];
      for i := 0 to |cs|
        invariant Below(rank, CallTrace(cs[..i], ms), bound)
        invariant done == Expand(links, rank, raised, CallTrace(cs[..i], ms), bound)
        invariant log == old(log) + done && flags == Run(start, done)
      {
        var c := cs[i];
        ghost var tr := CallTrace(cs[..i], ms);
        ChildBelow(rank, cs, i, bound);
        CallTraceStep(cs, ms, i);
        ghost var own := Expand(links, rank, raised, Apply(c.id, ms), bound);
        InvokeAll(c.id, ms, raised, bound);
        ExpandAppend(links, rank, raised, tr, Apply(c.id, ms), bound);
        AppendAssoc(old(log), done, own);
        RunAppend(start, done, own);
        done := done + own;
        if !c.Leaf? {
          // forEachControlIn(c).call(...ms)
          KidsSmaller(c);
          SizeAllBelow(cs, i);
          CallUnder(Kids(c), ms, raised, bound);
          ghost var below := Expand(links, rank, raised, CallTrace(Kids(c), ms), bound);
          ExpandAppend(links, rank, raised, tr + Apply(c.id, ms), CallTrace(Kids(c), ms), bound);
          AppendAssoc(old(log), done, below);
          RunAppend(start, done, below);
          done := done + below;
          assert CallTrace(cs[..i + 1], ms) == (tr + Apply(c.id, ms)) + CallTrace(Kids(c), ms);
        } else {
          assert CallTrace(cs[..i + 1], ms) == tr + Apply(c.id, ms);
        }
      }
      assert cs[..|cs|] == cs;
    }

    /** `composer.call(...ms)`: every method, in argument order, on every control
        below the composer in pre-order, each run through its links; returns the
        composer for chaining. */
    method Call(composer: Composer, ms: seq<Method>, raised: set<GuardId>) returns (r: Composer)
      requires Valid()
      modifies this`flags, this`log
      ensures Valid()
      ensures r == composer
      ensures log == old(log) + CallEffect(links, rank, raised, composer.controls, ms)
      ensures flags == Run(old(flags), CallEffect(links, rank, raised, composer.controls, ms))
      ensures composer.controls == [] || ms == [] ==> log == old(log) && flags == old(flags)
    {
      CallUnder(composer.controls, ms, raised, RankBound(rank, Descendants(composer.controls)));
      CallTraceLength(composer.controls, ms);
      r := composer;
    }

    /** `markAsDirtySimultaneouslyWith(c)`: from now on `c.markAsDirty()` and
        `c.markAsPristine()` also run `call` of the same method on this composer;
        a null `c` changes nothing. The link must not close a cycle. */
    method MarkAsDirtySimultaneouslyWith(composer: Composer, c: Option<Control>) returns (r: Composer)
      requires Valid()
      requires c.Some? ==> LinkBelow(rank, DirtyLink(composer), c.value.id)
      modifies this`links
      ensures Valid() && r == composer
      ensures c.None? ==> links == old(links)
      ensures c.Some? ==> links == old(links)[c.value.id := LinksOf(old(links), c.value.id) + [DirtyLink(composer)]]
    {
      if c.Some? {
        InstallKeepsAcyclic(links, rank, c.value.id, DirtyLink(composer));
        links := links[c.value.id := LinksOf(links, c.value.id) + [DirtyLink(composer)]];
      }
      r := composer;
    }

    /** `markAsTouchedSimultaneouslyWith(c, comingFromBelow)`: from now on
        `c.markAsTouched()` also runs `call('markAsTouched')` on this composer
        unless the guard is present and answers true, and `c.markAsUntouched()`
        always runs `call('markAsUntouched')`; a null `c` changes nothing. */
    method MarkAsTouchedSimultaneouslyWith(composer: Composer, c: Option<Control>, comingFromBelow: Option<GuardId>) returns (r: Composer)
      requires Valid()
      requires c.Some? ==> LinkBelow(rank, TouchedLink(composer, comingFromBelow), c.value.id)
      modifies this`links
      ensures Valid() && r == composer
      ensures c.None? ==> links == old(links)
      ensures c.Some? ==> links == old(links)[c.value.id := LinksOf(old(links), c.value.id) + [TouchedLink(composer, comingFromBelow)]]
    {
      if c.Some? {
        InstallKeepsAcyclic(links, rank, c.value.id, TouchedLink(composer, comingFromBelow));
        links := links[c.value.id := LinksOf(links, c.value.id) + [TouchedLink(composer, comingFromBelow)]];
      }
      r := composer;
    }

    /** `addValidatorsTo(ctrl)`: composes the children-errors validator onto
        `ctrl`'s current one; a null `ctrl` changes nothing. */
    method AddValidatorsTo(composer: Composer, ctrl: Option<Control>) returns (r: Composer)
      requires Valid()
      modifies this`validators
      ensures Valid() && r == composer
      ensures ctrl.None? ==> validators == old(validators)
      ensures ctrl.Some? ==> validators == old(validators)[ctrl.value.id := Composed(ValidatorOf(old(validators), ctrl.value.id), composer)]
    {
      if ctrl.Some? {
        validators := validators[ctrl.value.id := Composed(ValidatorOf(validators, ctrl.value.id), composer)];
      }
      r := composer;
    }
  }
}
