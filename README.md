# Composite form-control coordinator, modelled in Dafny

The model covers `forEachControlIn` in `src/app/shared/forms-util.ts`. This helper
takes an Angular form group or form array and returns a *composer*. A composer
has four operations:

- `call(...methods)` runs the named lifecycle methods on every control below the form.
  The order is pre-order: each child gets all the methods, then its own subtree,
  then the next sibling.
- `markAsDirtySimultaneouslyWith(c)` links another control `c`. When `c` is marked
  dirty or pristine, the same happens to the form's subtree.
- `markAsTouchedSimultaneouslyWith(c, comingFromBelow)` links `c` the same way for
  touched and untouched. A guard callback can suppress the touched propagation.
- `addValidatorsTo(ctrl)` composes a validator onto `ctrl`. That validator
  merges the errors of the form's immediate children.

## Modules

- `PropertyOrder` (`property_order.dfy`): the order in which JavaScript's
  `Object.getOwnPropertyNames` lists a group's control names. Names that are
  array indices come first, ascending by value; all other names follow in
  creation order. This is the OrdinaryOwnPropertyKeys rule of the ECMAScript
  language specification.
- `Controls` (`controls.dfy`): the control tree (leaf, group, array), each node
  carrying the identity of its control object. Also the child list
  `forEachControlIn` builds, and the pre-order list of descendants.
- `Traversal` (`traversal.dfy`): the invocations `call` makes directly. They form
  a trace, proved equal to a reference definition: the pre-order descendants
  times the methods.
- `Propagation` (`propagation.dfy`): the links the two `...SimultaneouslyWith`
  operations install. Each is a replaced method slot that first runs the method
  it replaced, then propagates.
  - `Dispatch` and `Expand` give the full trace of original methods that one
    invocation causes, following links through any depth.
  - `Step` and `Run` give the resulting dirty and touched flags.
  - A ghost rank on controls bounds the recursion. Every control below a link's
    composer ranks below the link's target, whichever methods the link reacts to.
- `Errors` (`errors.dfy`): the validator closure that `addValidatorsTo` installs.
- `Coordinator` (`coordinator.dfy`): the class `Forms` holds the mutable state:
  - the flags
  - the log of original methods run
  - the links installed on each control
  - each control's validator

  Its methods `Call`, `Invoke`, `Propagate`, `InvokeAll`, `MarkAsDirtySimultaneouslyWith`,
  `MarkAsTouchedSimultaneouslyWith` and `AddValidatorsTo` update this state in
  place. `CallUnder`, `InvokeAll`, `Invoke` and `Propagate` are loops and mutual recursion, proved
  equal to the trace functions above.

## Model

| member | source | states |
|---|---|---|
| PropertyOrder.SortIndices | src/app/shared/forms-util.ts:34 | array-index names come out ascending by numeric value, as a permutation of the input |
| PropertyOrder.OwnPropertyNames | src/app/shared/forms-util.ts:34 | the names listed are exactly the group's names: same multiset, same length |
| PropertyOrder.OwnPropertyNamesOrder | src/app/shared/forms-util.ts:34 | array-index names come first and ascending; the others follow in creation order |
| PropertyOrder.NoIndexKeysKeepOrder | src/app/shared/forms-util.ts:34 | with no array-index names, the order is creation order |
| Controls.Lookup | src/app/shared/forms-util.ts:34 | `controls[name]` is the control of a field with that name |
| Controls.LookupIsLast | src/app/shared/forms-util.ts:34 | `controls[name]` is the control of the last field created under that name |
| Controls.GroupChildren | src/app/shared/forms-util.ts:34 | a group's child list has one entry per field; entry i is the control stored under the i-th name in own-property order |
| Controls.LookupAll | src/app/shared/forms-util.ts:34 | the i-th result is the control stored under the i-th name |
| Controls.ChildList | src/app/shared/forms-util.ts:30-35 | empty for null and for a control without `controls`; an array's items in order; a group's controls in own-property order |
| Controls.GroupChildrenCoverFields | src/app/shared/forms-util.ts:34 | with distinct names, every field's control appears at the position of its name |
| Controls.GroupChildrenInCreationOrder | src/app/shared/forms-util.ts:34 | with distinct names that are not array indices, a group's child list is its controls in creation order |
| Controls.Kids | src/app/shared/forms-util.ts:48-49 | every child of a group or array is structurally smaller than it, so the recursion terminates |
| Traversal.Apply | src/app/shared/forms-util.ts:41-45 | each method once on the control, in argument order |
| Traversal.CallTrace | src/app/shared/forms-util.ts:38-54 | the invocations `call` makes directly: for each child, its methods, then the recursive call on its own children; its meaning is stated by CallTraceIsPreOrder and the lemmas below |
| Traversal.CallTraceIsPreOrder | src/app/shared/forms-util.ts:38-54 | `call` invokes every control below the composer in pre-order, each with all the methods in argument order |
| Traversal.CallTraceLength | src/app/shared/forms-util.ts:38-54 | `call` makes (number of descendants) × (number of methods) invocations |
| Traversal.CallTraceWithin | src/app/shared/forms-util.ts:38-54 | `call` reaches nothing outside the composer's subtree and runs no method outside its arguments |
| Traversal.CallOneMethod | src/app/shared/forms-util.ts:38-54 | for one method, the k-th invocation is on the k-th descendant in pre-order |
| Traversal.CallVisitsEachNodeOnce | src/app/shared/forms-util.ts:38-54 | in a tree, each descendant, groups and arrays included, is invoked, and no invocation repeats |
| Traversal.RootNeverCalled | src/app/shared/forms-util.ts:29-54 | in a tree, `call` over the child list `forEachControlIn(form)` is built with never invokes the form itself |
| Propagation.ForEachControlIn | src/app/shared/forms-util.ts:29-35 | the composer is built over the child list of `form` (`Controls.ChildList`); its properties are those of ChildList and the operations below |
| Propagation.Fires | src/app/shared/forms-util.ts:55-86 | a dirty link reacts to markAsDirty and markAsPristine; a touched link reacts to markAsUntouched always, and to markAsTouched when the guard is absent or answers false (line 75); see GuardSuppressesTouched |
| Propagation.LinkCalls | src/app/shared/forms-util.ts:55-86 | the invocations the stacked wrappers make directly, oldest first: `call(m)` on each firing link's composer; see InstallLinkDispatch |
| Propagation.Dispatch | src/app/shared/forms-util.ts:55-86 | everything running `m` on a control causes: its original method, then each firing link's propagation, followed through any depth; see InstallLinkDispatch, DispatchUniform, DirtyLinkPropagates |
| Propagation.CallWithNothingRunsNothing | src/app/shared/forms-util.ts:38-54 | `call()` with no methods, or over no children, runs nothing |
| Propagation.NoLinksDispatch | src/app/shared/forms-util.ts:42-44 | a control with no links runs only its own method |
| Propagation.InstallLinkDispatch | src/app/shared/forms-util.ts:55-86 | after a link is installed, the method first does exactly what it did before, then propagates when the link reacts to it; installing keeps the links acyclic, and repeated links stack oldest first |
| Propagation.DispatchUniform | src/app/shared/forms-util.ts:55-86 | every link propagates the very method that triggered it, at any depth |
| Propagation.DirtyLinkPropagates | src/app/shared/forms-util.ts:55-69 | with a dirty link on t, `t.markAsDirty()` leaves t and every control below the composer dirty; `t.markAsPristine()` leaves them all pristine; touched is unchanged |
| Propagation.TouchedLinkPropagates | src/app/shared/forms-util.ts:70-86 | with a touched link on t, `markAsUntouched` always, and `markAsTouched` when the guard is absent or false, reaches t and every control below the composer; dirty is unchanged |
| Propagation.GuardSuppressesTouched | src/app/shared/forms-util.ts:70-86 | a touched link whose guard answers true adds nothing to `markAsTouched`, yet still propagates `markAsUntouched` |
| Propagation.CallMarksSubtree | src/app/shared/forms-util.ts:38-54 | after `call(m)` for one of the four marking methods, every control below the composer carries m's flag value |
| Errors.Spread | src/app/shared/forms-util.ts:93 | `...next.errors` contributes no keys for null errors, else the errors object; see MergeKeys |
| Errors.MergeErrors | src/app/shared/forms-util.ts:93 | the reduce over the children, first child first; its keys and values are stated by MergeKeys and MergeLastWins |
| Errors.AggregateErrors | src/app/shared/forms-util.ts:93-95 | the validator returns null exactly when every child's errors are null |
| Errors.MergeKeys | src/app/shared/forms-util.ts:93 | a key is in the merged errors exactly when some child's errors contain it |
| Errors.MergeLastWins | src/app/shared/forms-util.ts:93 | a merged key carries the value from the last child that has it |
| Errors.AggregateErrorsMeaning | src/app/shared/forms-util.ts:91-96 | null iff no child has errors; otherwise the union of the keys, later children winning |
| Errors.RequiredChildReported | src/app/shared/forms-util.ts:91-96 | one child failing `required` and one valid child: the validator reports `required` |
| Coordinator.ChildrenValidator | src/app/shared/forms-util.ts:91-96 | the closure `addValidatorsTo` installs, evaluated on the children's errors; stated by ChildrenValidatorMeaning and ChildrenValidatorShallow |
| Coordinator.ChildrenValidatorMeaning | src/app/shared/forms-util.ts:91-96 | the added validator is null iff no immediate child has errors; otherwise keys from all children with errors, the last child winning |
| Coordinator.ChildrenValidatorShallow | src/app/shared/forms-util.ts:93-95 | the added validator depends only on the immediate children's errors, not grandchildren or any other control |
| Coordinator.ValidatorResults | src/app/shared/forms-util.ts:89-97 | a validator runs the original function first, then each added children validator in the order they were added |
| Coordinator.AddValidatorComposes | src/app/shared/forms-util.ts:87-100 | `addValidatorsTo` keeps every function the validator ran before and appends the children validator; other controls are unchanged |
| Coordinator.Forms.Invoke | src/app/shared/forms-util.ts:42-44 | running a method on a control logs and applies exactly `Dispatch`: the control's own method, then the propagation of every firing link, oldest link first |
| Coordinator.Forms.Propagate | src/app/shared/forms-util.ts:55-86 | the wrappers stacked on a method slot run oldest first; each firing one logs and applies exactly the expansion of its `call(m)` |
| Coordinator.Forms.InvokeAll | src/app/shared/forms-util.ts:41-45 | each method in argument order on one control, each run through its links: exactly the expansion of those invocations |
| Coordinator.Forms.CallUnder | src/app/shared/forms-util.ts:39-52 | the nested loops and recursion of `call` log and apply exactly the expansion of the pre-order call trace |
| Coordinator.Forms.Call | src/app/shared/forms-util.ts:38-54 | returns the same composer, so calls chain; the state changes by the call's effect; nothing changes with no children or no methods |
| Coordinator.Forms.MarkAsDirtySimultaneouslyWith | src/app/shared/forms-util.ts:55-69 | appends a dirty link to c's links and keeps them acyclic; a null c changes nothing; returns the composer |
| Coordinator.Forms.MarkAsTouchedSimultaneouslyWith | src/app/shared/forms-util.ts:70-86 | appends a guarded touched link to c's links and keeps them acyclic; a null c changes nothing; returns the composer |
| Coordinator.Forms.AddValidatorsTo | src/app/shared/forms-util.ts:87-100 | composes the children validator onto ctrl's current validator; a null ctrl changes nothing; returns the composer |

## Left out

- Angular's own effects are reduced to the state this code relies on.
  - `Propagation.Step`: a control's original method changes only its own dirty or
    touched flag. Angular's propagation to ancestors (`markAsDirty` and
    `markAsTouched` bubbling to the parent) is not modelled, nor is the effect of
    `markAsPristine`/`markAsUntouched` on the children. Those are Angular
    internals, not this file's code. In Angular, bubbling calls the parent's
    method slot, which may hold a wrapper. So a link whose target is an
    ancestor of its composer's controls recurses without end in the program,
    for example `forEachControlIn(g).markAsDirtySimultaneouslyWith(g)`. The
    rank accepts such a link, so the bound the rank gives holds of the model
    only.
  - `updateValueAndValidity`, `disable`, `enable` and `markAsPending` appear only
    in the invocation log.
- `Validators.compose`'s merge of the results is Angular-internal, and so is the
  null-validator case. `Coordinator.ValidatorResults` lists the composed
  functions' results in order instead of merging them.
- `Propagation.InstallLinkDispatch`: the wrappers take no arguments (lines 58, 63,
  73, 80) and call the method they replaced with none (lines 59, 64, 74, 81), so
  a caller's options (`onlySelf`, `emitEvent`) are dropped once a control is
  linked. `Method` carries no options, so the model covers only calls without
  arguments, and "does exactly what it did before" is meant for those.
- The `comingFromBelow` guard is an opaque callback. The model fixes which
  guards answer true for the whole of one top-level invocation. The source asks
  the guard each time, and its answer could change during a cascade.
- The runtime check that `c[m]` is a function (line 42) always passes for the
  typed method names, so every invocation is made. The guard at line 39 is
  always true, because the child list is always an array.
- `Propagation.Acyclic`: every link must point to a composer whose controls rank
  below the link's target, with one rank per control for both kinds of link. A
  cycle made of links of one kind would make the source recurse without end. A
  cycle that mixes kinds is also excluded, although the source runs it. An
  example is a dirty link on t1 whose composer holds t2, plus a touched link on
  t2 whose composer holds t1. Dirty wrappers sit only on
  `markAsDirty`/`markAsPristine` (lines 58-66) and touched wrappers only on
  `markAsTouched`/`markAsUntouched` (lines 73-83), so such a cycle never closes.
- `Propagation.ForEachControlIn`: the structure below the form is fixed once
  `forEachControlIn` runs, and the composer holds it as a value. The source
  differs in three ways, none of them modelled:
  - For an array, it keeps the live `form.controls` array (line 33), so later
    `push`/`removeAt` are seen by `call`, by the installed wrappers and by the
    validator (lines 93-95).
  - For a group, it takes a snapshot of the controls at that moment (line 34).
  - It enumerates every level below the first again on each `call` (line 49).

  So the model does not capture changes made with `setControl`,
  `push`/`removeAt` after the composer is built, or aliasing of the array.
- `Coordinator.ChildrenValidator`: the children's `errors` properties are read
  at evaluation time. The model takes them as a snapshot parameter.
- The typed-form wrappers (`TypedFormGroup`, `TypedFormArray`), the factory
  helpers, the demo components and the UI code in the rest of the repository are
  not part of this model.
- `Controls.ChildList`: a group's field names are distinct, as the keys of a
  JavaScript object are. The properties about a group's order
  (`GroupChildrenCoverFields`, `GroupChildrenInCreationOrder`) require it. With a
  repeated name the model would list that key twice.
- Control names are sequences of characters. UTF-16 code units and property
  attributes other than names play no part.
