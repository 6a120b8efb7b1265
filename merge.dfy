/**
 * The merge `assignWithOptions` as pure functions over the store.
 *
 * Each function follows one level of the routine: the whole call
 * (`Assign`), the loop over the sources (`Sources`), one source (`Source`),
 * the loop over that source's keys (`Keys`) and the rule chain for one key
 * (`Key`). A `Run` carries the store through the steps; once a step faults,
 * the remaining steps leave the run as it is, as a thrown exception would.
 *
 * `depth` is how many nested calls the call stack still has room for; it is
 * what bounds the recursion on cyclic inputs.
 */
module Merge {
  import opened Wrappers
  import opened JsValues
  import opened Options

  datatype Fault =
    | NoFault
      /** the merge would write to a target that is not a plain object */
    | UnsupportedTarget
      /** the nesting went deeper than the call stack allows */
    | StackExhausted

  datatype Run = Run(store: Store, fault: Fault) {
    predicate Ok() { fault == NoFault }
  }

  /** Rules 1 and 2 of the chain: the key or the value is skipped. */
  predicate Skipped(o: AssignOptions, target: Value, key: string, value: Value)
  {
    Includes(o.ignoreKeys, Str(key)) || value == target || Includes(o.ignoreValues, value)
  }

  /** Rule 3: the value is the deletion marker. */
  predicate Deletes(o: AssignOptions, value: Value)
  {
    o.deleteValue != Undefined && o.deleteValue == value
  }

  /** Rule 5: functions, elements, null and primitives, or anything in shallow mode. */
  predicate ByReference(o: AssignOptions, value: Value)
  {
    o.shallow || !value.Ref?
  }

  /** The first argument the call mutates: a fresh `{}` in copy mode. */
  function Target(o: AssignOptions, args: seq<Value>, st: Store): (r: (Store, Value))
  {
    if o.returnCopy then AllocPlain(st)
    else (st, if |args| > 0 then args[0] else Undefined)
  }

  /** The arguments the call merges in: all of them in copy mode, all but the first otherwise. */
  function SourceArgs(o: AssignOptions, args: seq<Value>): (srcs: seq<Value>)
  {
    if o.returnCopy then args else if |args| == 0 then [] else args[1..]
  }

  /** `assignWithOptions(o, ...args)`: the run it ends in and the target it returns. */
  function Assign(o: AssignOptions, args: seq<Value>, depth: nat, st: Store): (r: (Run, Value))
    decreases depth, 3, 0
  {
    var (st1, target) := Target(o, args, st);
    (Sources(o, target, SourceArgs(o, args), depth, Run(st1, NoFault)), target)
  }

  function Sources(o: AssignOptions, target: Value, srcs: seq<Value>, depth: nat, run: Run): (r: Run)
    decreases depth, 2, |srcs|
  {
    if srcs == [] || !run.Ok() then run
    else Sources(o, target, srcs[1..], depth, Source(o, target, srcs[0], depth, run))
  }

  /** One source; `null` and `undefined` sources are passed over. */
  function Source(o: AssignOptions, target: Value, src: Value, depth: nat, run: Run): (r: Run)
    decreases depth, 2, 0
  {
    if !run.Ok() || src == Undefined || src == Null then run
    else Keys(o, target, src, OwnKeys(run.store, src), depth, run)
  }

  /** The keys of one source, listed once before the loop; each value is read when its turn comes. */
  function Keys(o: AssignOptions, target: Value, src: Value, keys: seq<string>, depth: nat, run: Run): (r: Run)
    decreases depth, 1, |keys|
  {
    if keys == [] || !run.Ok() then run
    else
      var run1 := Key(o, target, keys[0], Get(run.store, src, keys[0]), depth, run);
      Keys(o, target, src, keys[1..], depth, run1)
  }

  /** The rule chain for one key of a source, carrying the value `value`. */
  function Key(o: AssignOptions, target: Value, key: string, value: Value, depth: nat, run: Run): (r: Run)
    decreases depth, 0, 1
  {
    var st := run.store;
    if !run.Ok() || Skipped(o, target, key, value) then run
    else if !IsPlain(st, target) then Run(st, UnsupportedTarget)
    else if Deletes(o, value) then Run(DeleteProp(st, target.addr, key), NoFault)
    else if IsArray(st, value) then
      var (st1, copy) := AllocArray(st, st.cells[value.addr].elems);
      Run(SetProp(st1, target.addr, key, copy), NoFault)
    else if ByReference(o, value) then Run(SetProp(st, target.addr, key, value), NoFault)
    else Descend(o, target.addr, key, value, depth, st)
  }

  /** Rule 6: merge `value` into the object at `target[key]` with a nested call. */
  function Descend(o: AssignOptions, a: Addr, key: string, value: Value, depth: nat, st: Store): (r: Run)
    decreases depth, 0, 0
  {
    var (st1, existing) := Nested(st, a, key);
    if depth == 0 then Run(st1, StackExhausted)
    else
      var (run2, merged) := Assign(o, [existing, value], depth - 1, st1);
      if !run2.Ok() then run2
      else Run(SetProp(run2.store, a, key, merged), NoFault)
  }

  /** `target[key]`, after a fresh `{}` has been put there where it was `undefined`. */
  function Nested(st: Store, a: Addr, key: string): (r: (Store, Value))
  {
    if Prop(st, a, key) == Undefined then
      var (st1, empty) := AllocPlain(st);
      (SetProp(st1, a, key, empty), empty)
    else (st, Prop(st, a, key))
  }

  /** `assign`: the default in-place merge. */
  function AssignDefault(args: seq<Value>, depth: nat, st: Store): (r: (Run, Value))
  {
    Assign(AssignPresetOptions, args, depth, st)
  }

  /** `assignCopy`: the default merge into a fresh object. */
  function AssignCopy(args: seq<Value>, depth: nat, st: Store): (r: (Run, Value))
  {
    Assign(AssignCopyPresetOptions, args, depth, st)
  }
}
