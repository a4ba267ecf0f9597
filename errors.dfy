/** The validator that `addValidatorsTo` installs
    (src/app/shared/forms-util.ts:91-96): a shallow, left-to-right merge of the
    immediate children's error objects, or null when no child has errors. */
module Errors {
  import opened Wrappers

  /** A control's validation errors: error code to detail. */
  type ErrorMap<V> = map<string, V>

  /** The keys an object spread `...e` contributes: none for null. */
  function Spread<V>(e: Option<ErrorMap<V>>): ErrorMap<V>
  {
    if e.None? then map[] else e.value
  }

  /** `reduce((e, next) => ({ ...e, ...next.errors }), {})` over the children's
      errors, first child first. */
  function MergeErrors<V>(es: seq<Option<ErrorMap<V>>>): ErrorMap<V>
  {
    if es == [] then map[] else MergeErrors(es[..|es| - 1]) + Spread(es[|es| - 1])
  }

  /** Whether some child has non-null errors (`some(c => c.errors != null)`). */
  predicate AnyErrors<V>(es: seq<Option<ErrorMap<V>>>)
  {
    exists i :: 0 <= i < |es| && es[i].Some?
  }

  /** The result of the installed validator: null exactly when no child has
      errors, otherwise the merged error object. */
  function AggregateErrors<V>(es: seq<Option<ErrorMap<V>>>): (r: Option<ErrorMap<V>>)
    ensures r.None? <==> forall i :: 0 <= i < |es| ==> es[i].None?
  {
    if AnyErrors(es) then Some(MergeErrors(es)) else None
  }

  /** A key is in the merge exactly when some child's errors have it. */
  lemma {:induction false} MergeKeys<V>(es: seq<Option<ErrorMap<V>>>, k: string)
    ensures k in MergeErrors(es) <==> exists i :: 0 <= i < |es| && es[i].Some? && k in es[i].value
  {
    if es != [] {
      var n := |es| - 1;
      MergeKeys(es[..n], k);
      if k in MergeErrors(es[..n]) {
        var i :| 0 <= i < n && es[..n][i].Some? && k in es[..n][i].value;
        assert es[i] == es[..n][i];
      }
      if exists i :: 0 <= i < |es| && es[i].Some? && k in es[i].value {
        var i :| 0 <= i < |es| && es[i].Some? && k in es[i].value;
        if i < n {
          assert es[..n][i] == es[i];
        }
      }
    }
  }

  /** Later children override earlier ones: the merged value of a key is the one
      in the last child whose errors have that key. */
  lemma {:induction false} MergeLastWins<V>(es: seq<Option<ErrorMap<V>>>, i: nat, k: string)
    requires i < |es| && es[i].Some? && k in es[i].value
    requires forall j :: i < j < |es| ==> es[j].None? || k !in es[j].value
    ensures k in MergeErrors(es) && MergeErrors(es)[k] == es[i].value[k]
  {
    var n := |es| - 1;
    if i < n {
      forall j | i < j < n ensures es[..n][j].None? || k !in es[..n][j].value {
        assert es[..n][j] == es[j];
      }
      assert es[..n][i] == es[i];
      MergeLastWins(es[..n], i, k);
    }
  }

  /** Everything the installed validator returns: null when no child has errors;
      otherwise an object whose keys are those of all the children's errors, each
      with the value from the last child that has it. */
  lemma AggregateErrorsMeaning<V>(es: seq<Option<ErrorMap<V>>>)
    ensures AggregateErrors(es).None? <==> !AnyErrors(es)
    ensures AggregateErrors(es).Some? ==>
      (forall k :: k in AggregateErrors(es).value <==>
        exists i :: 0 <= i < |es| && es[i].Some? && k in es[i].value)
    ensures AggregateErrors(es).Some? ==>
      (forall i, k ::
        (0 <= i < |es| && es[i].Some? && k in es[i].value &&
         forall j :: i < j < |es| ==> es[j].None? || k !in es[j].value)
        ==> AggregateErrors(es).value[k] == es[i].value[k])
  {
    forall k {
      MergeKeys(es, k);
    }
    forall i, k | 0 <= i < |es| && es[i].Some? && k in es[i].value &&
        (forall j :: i < j < |es| ==> es[j].None? || k !in es[j].value)
      ensures k in MergeErrors(es) && MergeErrors(es)[k] == es[i].value[k]
    {
      MergeLastWins(es, i, k);
    }
  }

  /** One child required and empty, another valid: the validator reports the
      required error. */
  lemma RequiredChildReported(detail: bool)
    ensures AggregateErrors([Some(map["required" := detail]), None]) == Some(map["required" := detail])
  {
    var es: seq<Option<ErrorMap<bool>>> := [Some(map["required" := detail]), None];
    assert es[..1] == [es[0]] && es[..1][..0] == [];
    assert MergeErrors(es[..1]) == map[] + map["required" := detail];
    assert MergeErrors(es) == MergeErrors(es[..1]) + map[];
    assert MergeErrors(es) == map["required" := detail];
    assert AnyErrors(es);
  }
}
