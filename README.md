# super-assign: the deep merge, modelled and proved in Dafny

This project models `assignWithOptions` from super-assign, a configurable
deep merge for JavaScript objects. It also models the option presets around
it: `ASSIGN_DELETE`, `ASSIGN_DEFAULT_OPTIONS`, `getCustomAssign`, `assign` and
`assignCopy`.

The merge takes its arguments in order, sources after a target. For each key
of each source it applies a rule chain:

1. an ignored key is skipped;
2. the target itself, or an ignored value, is skipped;
3. the deletion marker deletes the key;
4. an array is stored as a shallow copy;
5. functions, DOM elements, `null`, primitives and symbols are stored by
   reference (plain objects too, in shallow mode);
6. a plain object is merged recursively into `target[key]`. A `{}` is put
   there first when `target[key]` is `undefined`.

In copy mode the target is a fresh `{}` and every argument is a source.

## Structure

- `values.dfy` (`Wrappers`, `JsValues`) holds the JavaScript values and the
  object store.
  - Plain objects and arrays live in the store, keyed by address, so `===`
    on objects is address equality.
  - A plain object keeps its keys in insertion order.
  - `Object.keys`, property reads, `{}`, `slice()`, assignment and `delete`
    are written as functions on the store.
- `options.dfy` (`Options`) holds the option record, the defaults, the
  deletion marker and `getCustomAssign`. The latter is modelled as an
  override of the defaults by a partial record.
- `merge.dfy` (`Merge`) states the merge as mutually recursive functions, one
  per level of the routine:
  - the call;
  - the loop over the sources;
  - one source;
  - the loop over its keys;
  - the rule chain for one key;
  - the recursive step.

  A `Run` threads the store through these. A fault stops the remaining steps
  the way a thrown exception would.
- `engine.dfy` (`Engine`) is the routine as the source writes it: a class
  `Heap` whose fields are updated in place, with the two nested loops and the
  recursive call. Each method is proved to end in exactly the run that
  `Merge` describes.
- `evolution.dfy`, `frames.dfy` and `effects.dfy` hold what a merge does to
  the store as a whole:
  - which objects it may write;
  - what one key's step leaves at that key and at the others.
- `outcomes.dfy`, `properties.dfy` and `deep.dfy` hold the library's promises,
  stated on whole calls.
- `completion.dfy` (`Completion`) states when a merge runs to the end without
  a fault. A value "fits" a depth when the objects it reaches nest no deeper
  than that depth and none of them is one the merge writes to.

Two things in the source depend on the host:

- The call stack becomes a `depth` parameter. Running out of it is the
  `StackExhausted` fault, which is what a cyclic input leads to.
- The host failure on writing to a non-object target becomes a fault value,
  `UnsupportedTarget`.

Rule 2 compares the value with the target object itself (`value === target`,
src/index.ts:298). It does not compare it with the value already at
`target[key]`.

## Model

| member | source | states |
|---|---|---|
| `Options.Override` | src/index.ts:27-30 | `{ ...base, ...p }`: each field supplied in `p`, an explicit `undefined` included, replaces the base field; each field not supplied keeps the base one |
| `Options.CustomAssignOptions` | src/index.ts:19-31 | `getCustomAssign(p)` binds options in which every field `p` supplies, an explicit `undefined` included, is taken from `p`, and every other field has its default: ignore only `undefined`, no ignored keys, delete on `ASSIGN_DELETE`, in place, deep |
| `Options.PresetsAreDefaults` | src/index.ts:33-35 | `assign` uses exactly the default options; `assignCopy` differs from them only in `returnCopy` |
| `Options.DefaultBehaviour` | src/index.ts:17-24 | under the defaults a value is ignored if and only if it is `undefined`; no key is ignored; deletion is on; the merge is deep and in place |
| `Options.ExplicitUndefinedOverrides` | src/index.ts:19-30 | supplying `ignoreValues: undefined` ignores no value at all, and `deleteValue: undefined` switches deletion off, rather than falling back to the defaults |
| `Options.OverrideNothing` | src/index.ts:27-30 | an empty partial record leaves the options as they were |
| `JsValues.NatToStringInjective` | src/index.ts:292 | different array or string indices get different key spellings |
| `JsValues.OwnKeysDistinct` | src/index.ts:292 | `Object.keys` of any value lists no key twice |
| `JsValues.Without` | src/index.ts:303 | a key list after `delete` holds exactly the other keys and stays free of duplicates; deleting a key that is not there leaves the list as it was |
| `JsValues.WithoutKeepsOrder` | src/index.ts:303 | in a key list without duplicates, deleting the key at position `i` leaves the keys before it and after it, in their order |
| `Engine.Heap.NewObject` | src/index.ts:327 | `{}` takes the next free address and is empty |
| `Engine.Heap.NewArray` | src/index.ts:308 | `value.slice()` makes a new array at the next free address with the same elements |
| `Engine.Heap.Put` | src/index.ts:323 | `target[key] = v` on a plain object sets the property, appending a new key last; nothing else changes |
| `Engine.Heap.Remove` | src/index.ts:303 | `delete target[key]` removes the property and its key; nothing else changes |
| `Engine.Heap.AssignWithOptions` | src/index.ts:275-339 | the nested loops over sources and keys end in exactly the store, fault and returned target that `Merge.Assign` gives for the same arguments and starting store |
| `Engine.Heap.AssignKey` | src/index.ts:293-334 | the rule chain, with its recursive call, ends in exactly the run that `Merge.Key` gives |
| `Evolution.AssignEvolves` | src/index.ts:275-339 | in every mode a valid store stays valid and objects are only added; no array is ever written to; plain objects stay plain; the returned target refers to an existing object |
| `Frames.AssignTouchesOnlyTarget` | src/index.ts:281-333 | in copy mode and in shallow mode every object but the target is left as it was; the target is a new object in copy mode and the first argument otherwise |
| `Frames.AssignStaysInScope` | src/index.ts:325-333 | in deep in-place mode every write stays inside any closed scope that holds the target; objects outside it are left as they were; the first argument is returned |
| `Effects.KeyAtTarget` | src/index.ts:293-334 | one key's rule chain: an ignored key or value changes nothing there; the marker deletes; an array becomes a new copy with the same elements; reference values are stored as they are; a plain object leaves the nested object (the existing one in place, a new one otherwise); no other key and no out-of-scope object changes; a step that faults is always rule 6, so rules 1–5 never fault on a plain target |
| `Outcomes.KeysAtTarget` | src/index.ts:292-335 | the keys of one source, in order: each listed key ends with its rule's full effect (an ignored one keeps what it had, the marker deletes, an array becomes a new copy, a reference value is stored, a plain object leaves the existing nested object in place or a new one where the key was `undefined`); each key not listed keeps its value or its absence |
| `Outcomes.SourceAtTarget` | src/index.ts:284-335 | one source: each key it lists ends with its rule's full effect, the existing nested object kept in place; the keys it supplies get their outcome; all other keys keep what they had; `null` and `undefined` sources change nothing |
| `Outcomes.SourcesAtTarget` | src/index.ts:283-336 | all sources in order: each key of the target ends as the last source that supplies it decides; a key no source supplies keeps what it had |
| `Properties.EmptyMergeInPlace` | src/index.ts:281-338 | in place, with no sources or only `null`/`undefined` sources, the merge returns its first argument and changes nothing |
| `Properties.EmptyMergeCopy` | src/index.ts:281-338 | in copy mode, with nothing to merge, the result is one new empty object and nothing else changes |
| `Properties.MergeInPlace` | src/index.ts:275-339 | in place, into a confined target with stable sources: the first argument is returned; each key ends as its last supplier decides; no object out of scope except the target changes |
| `Properties.MergeCopy` | src/index.ts:281-333 | in copy mode: a new object is returned; each of its keys ends as its last supplier decides; every object that existed before, the first argument included, is left as it was |
| `Properties.MergeOutcomes` | src/index.ts:275-339 | either mode: the returned target is the merged object, and each of its keys ends as the last supplier decides |
| `Properties.LastWriteWins` | src/index.ts:312-323 | where the last supplier of a key supplies a primitive, symbol, function, element or `null` (in shallow mode also a plain object), the result holds that very value |
| `Properties.ArraysCopied` | src/index.ts:307-309 | where the last supplier of a key supplies an array, the result holds a new array, absent before the call, with the same elements, and the source array is unchanged |
| `Properties.DeleteRemoves` | src/index.ts:302-305 | where the last supplier of a key supplies the deletion marker, the key is absent from the result |
| `Properties.NoMarkerNoDelete` | src/index.ts:302 | with `deleteValue` undefined, every key some source supplies is present in the result |
| `Properties.UnsuppliedUntouched` | src/index.ts:292-300 | a key no source supplies keeps its value, or its absence |
| `Properties.IgnoredKeyUntouched` | src/index.ts:294 | a key in `ignoreKeys` keeps what it had, whatever the sources hold |
| `Properties.IgnoredValuesUntouched` | src/index.ts:298-305 | where every source that lists a key holds an ignored value, or the target itself, there (`null`, `undefined` and sources not listing the key are passed over), that key keeps what it had; an ignored deletion marker deletes nothing, because ignoring is checked first |
| `Properties.UndefinedKeptWithoutIgnoreValues` | src/index.ts:298-323 | with `ignoreValues: undefined`, a source listing a key with the value `undefined` leaves that key present and `undefined` when no later source lists it |
| `Properties.ShallowMergeSucceeds` | src/index.ts:312-323 | in shallow mode a merge into a plain object always completes, and its result does not depend on how deep the call stack may go: it never recurses |
| `Properties.ShallowByReference` | src/index.ts:312-323 | in shallow mode a plain object from the last supplier replaces the key by reference |
| `Properties.AssignCopyLeavesInputs` | src/index.ts:35 | `assignCopy` returns a new object and leaves every existing object, its arguments and their nested objects included, as it was |
| `Properties.AssignReturnsTarget` | src/index.ts:33 | `assign` returns its first argument itself |
| `DeepMerge.DeepMergeInPlace` | src/index.ts:325-333 | deep in place: the step completes when the incoming object merges into `target[k]` as into a tree, or holds no plain object and the stack has room; once it completes, the key holds the nested object that was there, or a new `{}` where it was `undefined`, and that object's keys end as the incoming object decides, the others keeping what they had |
| `DeepMerge.DeepKeepsSiblings` | src/index.ts:325-333 | deep in place: the step completes under the same conditions, and keys of the existing nested object that the incoming object does not list keep their values or their absence |
| `DeepMerge.NestedDeleteRemoves` | src/index.ts:302-333 | the step completes under the same conditions, and the deletion marker inside a nested incoming object removes that key from the nested target object |
| `DeepMerge.DeepMergeCopy` | src/index.ts:325-333 | deep copy mode: the key ends up holding a new object merged from what was there and the incoming object; no other object changes |
| `Completion.CopyAssignCompletes` | src/index.ts:281-333 | copy mode: when every argument fits the call stack, the call completes without a fault, and the new object it returns fits as well |
| `Completion.CopyMergeCompletes` | src/index.ts:281-333 | copy mode, on arguments that fit the call stack: the merge never faults, neither on the stack nor on a nested target |
| `Completion.AssignCopyCompletes` | src/index.ts:35 | `assignCopy` on arguments that fit the call stack never faults |
| `Completion.FreshAssignCompletes` | src/index.ts:325-333 | deep in place, merging a source into an object that has none of its keys: when the source fits the call stack and does not reach that object, the call completes |
| `DeepMerge.MergeIntoAbsentField` | src/index.ts:326-333 | merging a plain object in place into a key that is `undefined` completes when the incoming object fits the call stack and does not reach the target; the key then holds a new object whose keys end as the incoming object decides |
| `Completion.FlatMergeCompletes` | src/index.ts:283-323 | in place into a plain object, with sources that hold no plain object: the merge always completes, and its result does not depend on how deep the call stack may go |
| `Completion.TreeAssignCompletes` | src/index.ts:281-333 | deep in place, one source into a plain object: when the source fits the call stack without reaching the target's objects, and every existing object it descends into is plain, does not reach back to its parent and shares no object with its siblings, the call completes and writes only to the target's objects and new ones |
| `Completion.CompatibleKept` | src/index.ts:325-333 | whether a source merges into an object as into a tree depends only on the objects the two reach: writes elsewhere keep it |
| `Completion.DescendCompletes` | src/index.ts:325-333 | rule 6 in place completes when `target[k]` is `undefined` and the incoming object fits without reaching the target, or when `target[k]` is a plain object the incoming object merges into as into a tree |
| `Completion.FlatDescendCompletes` | src/index.ts:325-333 | rule 6 in place, with an incoming object that holds no plain object and a `target[k]` that is `undefined` or plain, completes whenever the stack has room for one nested call |

## Left out

- The `Assign` overloads and the `Extend` type (src/index.ts:37-271) are compile-time types only. They are not modelled.
- The `checkDom` test and `instanceof Element` (src/index.ts:273, 317) depend on the host. A DOM element is a value `Element(id)`, always stored by reference.
- The `bind` plumbing and the ten-argument limit are not modelled. Arguments are a sequence of any length.
- `Object.keys` orders integer-like keys of plain objects first. The model uses insertion order for every key.
- `includes` uses SameValueZero, which matters only for `NaN`. Numbers are integers here, with plain equality.
- Inherited and non-enumerable properties, getters, setters and symbol-keyed properties are not modelled. So are own properties of functions and DOM elements: as sources they have no keys. The consequence that matters most for a deep merge: for a key such as `__proto__` or `toString`, `target[key]` (src/index.ts:326) is the inherited object, not `undefined`, so the source's rule 6 descends into `Object.prototype` or a built-in function, while the model puts a fresh `{}` there.
- Strings as sources give their index keys and one-character values. JavaScript indexes a string by UTF-16 code units, while a Dafny `char` is a Unicode scalar value. So the keys and values agree with `Object.keys` only for text in the Basic Multilingual Plane. Other primitives give no keys.
- Writing into a target that is not a plain object is not modelled. This covers a non-object first argument, and an existing `null`, primitive, array or function at a key that rule 6 descends into. The model stops with `UnsupportedTarget` and keeps the writes made before that point. The host differs by case. Writing to `null` throws. In strict mode, assigning to a number, boolean, string or symbol throws, while `delete` on a number, boolean or symbol target does nothing and the merge goes on. An array or a function takes the write as an ordinary property.
- Stack overflow on cyclic structures becomes `StackExhausted` once the `depth` budget is used up. The model does not bound the real stack size.
- `Properties.MergeOutcomes`: for a plain-object value merged deeply, it states only that the key is present afterwards. The contents of the nested object are stated one key at a time: in place by `DeepMerge.DeepMergeInPlace`, in copy mode by `DeepMerge.DeepMergeCopy`.
- `Properties.MergeInPlace`: for a plain-object value merged deeply, it states only that the key is present afterwards, not what the nested object holds.
- `Properties.MergeInPlace`: it assumes that no source is the target or lies inside the target's scope. Its corollaries assume the same. A call in which a source aliases a part of the target is covered only by `Evolution.AssignEvolves` and `Engine.Heap.AssignWithOptions`.
- `Properties.MergeCopy`: for a plain-object value merged deeply, it states only that the key holds a new object afterwards, not what that object holds.
- `Outcomes.SourcesAtTarget`: for a plain-object value merged deeply, it states only that the key is present afterwards, holding a new object in copy mode, not what the nested object holds. `Outcomes.KeysAtTarget` and `Outcomes.SourceAtTarget` state in addition that an existing nested object stays in place.
- `DeepMerge.DeepMergeInPlace`: for an existing nested object, it assumes that object is confined in a scope of its own and that the incoming object lies outside that scope. It covers a single key's step, not a whole call. It proves that the step completes only when the incoming object merges into `target[k]` as into a tree (`Completion.Descendable`) or holds no plain object. It does not prove completion when the incoming object reaches into the target's objects, or when objects below `target[k]` are shared between keys or reach back up.
- `DeepMerge.DeepKeepsSiblings`: it has the same assumptions as `DeepMerge.DeepMergeInPlace`, and proves completion under the same conditions only.
- `DeepMerge.NestedDeleteRemoves`: it has the same assumptions as `DeepMerge.DeepMergeInPlace`, and proves completion under the same conditions only.
- Outcome lemmas hold only when the run completes without a fault. Completion is proved for shallow mode (`Properties.ShallowMergeSucceeds`), for copy mode on arguments that fit (`Completion.CopyMergeCompletes`), for an in-place merge into a key that is `undefined` (`DeepMerge.MergeIntoAbsentField`), for in-place sources without nested plain objects (`Completion.FlatMergeCompletes`), and for one in-place source into a tree-shaped target (`Completion.TreeAssignCompletes`). It is not proved for a merge with several in-place sources of which any holds a plain object (e.g. the five-source call of tests/index.spec.ts:41-57), nor for one source into a target whose nested objects are shared or cyclic, nor for a source that reaches into the target's objects. Such a merge faults with `UnsupportedTarget` when it meets a non-object at a key it descends into.
