/**
 * The merge configuration and its presets: the default options, the
 * deletion marker, `getCustomAssign` as an override of the defaults, and the
 * two ready-made merges `assign` and `assignCopy`.
 */
module Options {
  import opened Wrappers
  import opened JsValues

  /**
   * `ignoreValues` and `ignoreKeys` are `None` when the option is
   * `undefined`; `deleteValue` is `Undefined` when no deletion marker is set.
   */
  datatype AssignOptions = AssignOptions(
    ignoreValues: Option<seq<Value>>,
    ignoreKeys: Option<seq<Value>>,
    deleteValue: Value,
    returnCopy: bool,
    shallow: bool)

  /**
   * A partial options object: `None` when the field is not supplied at all,
   * `Some(x)` when it is supplied with the value `x` (an explicit `undefined`
   * included). A boolean field supplied as `undefined` is written `Some(false)`,
   * which is how the merge reads it.
   */
  datatype PartialOptions = PartialOptions(
    ignoreValues: Option<Option<seq<Value>>>,
    ignoreKeys: Option<Option<seq<Value>>>,
    deleteValue: Option<Value>,
    returnCopy: Option<bool>,
    shallow: Option<bool>)

  /** `ASSIGN_DELETE`: the symbol no user-made symbol equals (user symbols have ids above 0). */
  const AssignDelete: Value := Symbol(0)

  /** `ASSIGN_DEFAULT_OPTIONS` */
  const DefaultOptions: AssignOptions :=
    AssignOptions(Some([Undefined]), None, AssignDelete, false, false)

  /** `{}` as a partial options object. */
  const NoOverrides: PartialOptions := PartialOptions(None, None, None, None, None)

  /** `list?.includes(v)`, with plain equality standing for SameValueZero. */
  predicate Includes(list: Option<seq<Value>>, v: Value)
  {
    list.Some? && v in list.value
  }

  function Pick<T>(supplied: Option<T>, default: T): (r: T)
  {
    if supplied.Some? then supplied.value else default
  }

  /** `{ ...base, ...p }`: every supplied field replaces the base one. */
  function Override(base: AssignOptions, p: PartialOptions): (r: AssignOptions)
    ensures p.ignoreValues.Some? ==> r.ignoreValues == p.ignoreValues.value
    ensures p.ignoreValues.None? ==> r.ignoreValues == base.ignoreValues
    ensures p.ignoreKeys.Some? ==> r.ignoreKeys == p.ignoreKeys.value
    ensures p.ignoreKeys.None? ==> r.ignoreKeys == base.ignoreKeys
    ensures p.deleteValue.Some? ==> r.deleteValue == p.deleteValue.value
    ensures p.deleteValue.None? ==> r.deleteValue == base.deleteValue
    ensures p.returnCopy.Some? ==> r.returnCopy == p.returnCopy.value
    ensures p.returnCopy.None? ==> r.returnCopy == base.returnCopy
    ensures p.shallow.Some? ==> r.shallow == p.shallow.value
    ensures p.shallow.None? ==> r.shallow == base.shallow
  {
    AssignOptions(
      Pick(p.ignoreValues, base.ignoreValues),
      Pick(p.ignoreKeys, base.ignoreKeys),
      Pick(p.deleteValue, base.deleteValue),
      Pick(p.returnCopy, base.returnCopy),
      Pick(p.shallow, base.shallow))
  }

  /** The options `getCustomAssign(p)` binds its merge to. */
  function CustomAssignOptions(p: PartialOptions): (r: AssignOptions)
    ensures r.ignoreValues == (if p.ignoreValues.Some? then p.ignoreValues.value else Some([Undefined]))
    ensures r.ignoreKeys == (if p.ignoreKeys.Some? then p.ignoreKeys.value else None)
    ensures r.deleteValue == (if p.deleteValue.Some? then p.deleteValue.value else AssignDelete)
    ensures r.returnCopy == (p.returnCopy.Some? && p.returnCopy.value)
    ensures r.shallow == (p.shallow.Some? && p.shallow.value)
  {
    Override(DefaultOptions, p)
  }

  /** The options of `assign`. */
  const AssignPresetOptions: AssignOptions := CustomAssignOptions(NoOverrides)

  /** The options of `assignCopy`. */
  const AssignCopyPresetOptions: AssignOptions :=
    CustomAssignOptions(PartialOptions(None, None, None, Some(true), None))

  /** An empty override changes nothing. */
  lemma OverrideNothing(base: AssignOptions)
    ensures Override(base, NoOverrides) == base
  {
  }

  /** `assign` merges with exactly the default options; `assignCopy` differs only in `returnCopy`. */
  lemma PresetsAreDefaults()
    ensures AssignPresetOptions == DefaultOptions
    ensures AssignCopyPresetOptions == DefaultOptions.(returnCopy := true)
  {
  }

  /**
   * The defaults ignore only `undefined`, ignore no key, delete on the
   * marker, and merge deeply in place.
   */
  lemma DefaultBehaviour(v: Value, k: Value)
    ensures Includes(DefaultOptions.ignoreValues, v) <==> v == Undefined
    ensures !Includes(DefaultOptions.ignoreKeys, k)
    ensures DefaultOptions.deleteValue != Undefined
    ensures !DefaultOptions.returnCopy && !DefaultOptions.shallow
  {
  }

  /**
   * Supplying `ignoreValues: undefined` or `deleteValue: undefined` switches
   * the feature off, rather than falling back to the default.
   */
  lemma ExplicitUndefinedOverrides(p: PartialOptions, v: Value)
    requires p.ignoreValues == Some(None) && p.deleteValue == Some(Undefined)
    ensures !Includes(CustomAssignOptions(p).ignoreValues, v)
    ensures CustomAssignOptions(p).deleteValue == Undefined
  {
  }
}
