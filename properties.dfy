/**
 * The properties the library promises of `assign`, `assignCopy` and the
 * merges `getCustomAssign` makes, stated on whole calls.
 */
module Properties {
  import opened Wrappers
  import opened JsValues
  import opened Options
  import opened Merge
  import opened Evolution
  import opened Frames
  import opened Effects
  import opened Outcomes

  /** Merging nothing, or only `null` and `undefined`, leaves the run as it is. */
  lemma {:induction false} NothingToMerge(o: AssignOptions, target: Value, srcs: seq<Value>, depth: nat, run: Run)
    requires forall i :: 0 <= i < |srcs| ==> srcs[i] == Undefined || srcs[i] == Null
    ensures Sources(o, target, srcs, depth, run) == run
    decreases |srcs|
  {
    if srcs != [] && run.Ok() {
      assert Source(o, target, srcs[0], depth, run) == run;
      NothingToMerge(o, target, srcs[1..], depth, run);
    }
  }

  /** In place, an empty merge returns its first argument and changes nothing. */
  lemma EmptyMergeInPlace(o: AssignOptions, args: seq<Value>, depth: nat, st: Store)
    requires !o.returnCopy
    requires forall i :: 1 <= i < |args| ==> args[i] == Undefined || args[i] == Null
    ensures Assign(o, args, depth, st) == (Run(st, NoFault), if |args| > 0 then args[0] else Undefined)
  {
    NothingToMerge(o, Target(o, args, st).1, SourceArgs(o, args), depth, Run(st, NoFault));
  }

  /** In copy mode, an empty merge returns a new empty object and changes nothing else. */
  lemma EmptyMergeCopy(o: AssignOptions, args: seq<Value>, depth: nat, st: Store)
    requires o.returnCopy
    requires forall i :: 0 <= i < |args| ==> args[i] == Undefined || args[i] == Null
    ensures Assign(o, args, depth, st).0 == Run(Store(st.cells[st.next := Plain([], map[])], st.next + 1), NoFault)
    ensures Assign(o, args, depth, st).1 == Ref(st.next)
  {
    NothingToMerge(o, Target(o, args, st).1, SourceArgs(o, args), depth, Run(AllocPlain(st).0, NoFault));
  }

  /**
   * In place, into a confined target with stable sources: the first
   * argument comes back, every key ends as its last supplier decides, and no
   * object out of scope but the target changes.
   */
  lemma MergeInPlace(o: AssignOptions, args: seq<Value>, depth: nat, st: Store, s: set<Addr>, n: Addr)
    requires !o.returnCopy && |args| > 0
    requires Confined(o, st, args[0], s, n) && AllStable(st, args[1..], s, n, args[0].addr)
    ensures Assign(o, args, depth, st).1 == args[0]
    ensures Evolves(st, Assign(o, args, depth, st).0.store)
    ensures Untouched(st, Assign(o, args, depth, st).0.store, s, n, args[0].addr)
    ensures Assign(o, args, depth, st).0.Ok() ==>
              forall k :: LastOutcome(o, args[0].addr, k, args[1..], st, Assign(o, args, depth, st).0.store)
  {
    assert Target(o, args, st) == (st, args[0]) && SourceArgs(o, args) == args[1..];
    SourcesAtTarget(o, args[0].addr, args[1..], depth, st, s, n);
  }

  /** Measured from before the new target existed, the outcomes are the same. */
  lemma FreshBaseline(o: AssignOptions, z: Addr, k: string, srcs: seq<Value>, srcs1: seq<Value>, st: Store, st1: Store, st2: Store)
    requires st.Valid() && z !in st.cells && !HasProp(st1, z, k) && Prop(st1, z, k) == Undefined && Evolves(st, st1)
    requires LastValue(o, z, st1, srcs1, k) == LastValue(o, z, st, srcs, k)
    requires LastOutcome(o, z, k, srcs1, st1, st2)
    ensures LastOutcome(o, z, k, srcs, st, st2)
  {
    if LastValue(o, z, st, srcs, k).Some? {
      LastValueAllocated(o, z, st, srcs, k);
      OutcomeFromEarlier(o, z, k, LastValue(o, z, st, srcs, k).value, st, st1, st2);
    }
  }

  /**
   * In copy mode: a new object comes back, every key of it ends as its last
   * supplier decides, and no object that existed before changes.
   */
  lemma MergeCopy(o: AssignOptions, args: seq<Value>, depth: nat, st: Store)
    requires o.returnCopy && st.Valid() && AllAllocated(st, args)
    ensures Assign(o, args, depth, st).1 == Ref(st.next) && st.next !in st.cells
    ensures Evolves(st, Assign(o, args, depth, st).0.store)
    ensures IsPlain(Assign(o, args, depth, st).0.store, Ref(st.next))
    ensures forall a :: a in st.cells ==> Assign(o, args, depth, st).0.store.cells[a] == st.cells[a]
    ensures Assign(o, args, depth, st).0.Ok() ==>
              forall k :: LastOutcome(o, st.next, k, args, st, Assign(o, args, depth, st).0.store)
  {
    var z := st.next;
    var st1 := AllocPlain(st).0;
    var r := Assign(o, args, depth, st).0;
    AllocPlainValid(st);
    AssignEvolves(o, args, depth, st);
    AssignTouchesOnlyTarget(o, args, depth, st);
    assert Target(o, args, st) == (st1, Ref(z)) && SourceArgs(o, args) == args;
    assert AllStable(st, args, {}, z + 1, z) by {
      forall i | 0 <= i < |args| ensures Stable(st, args[i], {}, z + 1, z) {
        assert Allocated(st, args[i]);
      }
    }
    assert Untouched(st, st1, {}, z + 1, z);
    AllStableAfter(st, st1, args, {}, z + 1, z);
    SourcesAtTarget(o, z, args, depth, st1, {}, z + 1);
    if r.Ok() {
      forall k ensures LastOutcome(o, z, k, args, st, r.store) {
        LastValueAfter(o, z, st, st1, args, k, {}, z + 1);
        FreshBaseline(o, z, k, args, args, st, st1, r.store);
      }
    }
  }

  /**
   * What a call needs for its outcome to be stated key by key: in copy mode
   * a valid store; in place a confined target and stable sources.
   */
  ghost predicate Ready(o: AssignOptions, args: seq<Value>, st: Store, s: set<Addr>, n: Addr)
  {
    if o.returnCopy then st.Valid() && AllAllocated(st, args)
    else |args| > 0 && Confined(o, st, args[0], s, n) && AllStable(st, args[1..], s, n, args[0].addr)
  }

  /** The object the call merges into: the new one in copy mode, the first argument otherwise. */
  ghost function TargetOf(o: AssignOptions, args: seq<Value>, st: Store): (c: Addr)
    requires o.returnCopy || (|args| > 0 && args[0].Ref?)
  {
    if o.returnCopy then st.next else args[0].addr
  }

  /** Either mode: the outcome at every key is decided by the last source that supplies it. */
  lemma MergeOutcomes(o: AssignOptions, args: seq<Value>, depth: nat, st: Store, s: set<Addr>, n: Addr)
    requires Ready(o, args, st, s, n)
    ensures Assign(o, args, depth, st).1 == Ref(TargetOf(o, args, st))
    ensures Evolves(st, Assign(o, args, depth, st).0.store)
    ensures Assign(o, args, depth, st).0.Ok() ==>
              forall k :: LastOutcome(o, TargetOf(o, args, st), k, SourceArgs(o, args), st, Assign(o, args, depth, st).0.store)
  {
    if o.returnCopy {
      MergeCopy(o, args, depth, st);
    } else {
      MergeInPlace(o, args, depth, st, s, n);
    }
  }

  /**
   * Last write wins, by reference: where the last source to supply `k`
   * supplies a primitive, symbol, function, element or `null` (any
   * non-array object too, in shallow mode), the result holds that very value.
   */
  lemma LastWriteWins(o: AssignOptions, args: seq<Value>, depth: nat, st: Store, s: set<Addr>, n: Addr, k: string, i: nat)
    requires Ready(o, args, st, s, n)
    requires i < |SourceArgs(o, args)| && Supplies(o, TargetOf(o, args, st), st, SourceArgs(o, args)[i], k)
    requires forall j :: i < j < |SourceArgs(o, args)| ==> !Supplies(o, TargetOf(o, args, st), st, SourceArgs(o, args)[j], k)
    requires ByReference(o, Get(st, SourceArgs(o, args)[i], k))
    requires !Deletes(o, Get(st, SourceArgs(o, args)[i], k)) && !IsArray(st, Get(st, SourceArgs(o, args)[i], k))
    ensures Assign(o, args, depth, st).0.Ok() ==>
              && HasProp(Assign(o, args, depth, st).0.store, TargetOf(o, args, st), k)
              && Prop(Assign(o, args, depth, st).0.store, TargetOf(o, args, st), k) == Get(st, SourceArgs(o, args)[i], k)
  {
    MergeOutcomes(o, args, depth, st, s, n);
    LastValueAt(o, TargetOf(o, args, st), st, SourceArgs(o, args), k, i);
    var r := Assign(o, args, depth, st).0;
    if r.Ok() {
      assert LastOutcome(o, TargetOf(o, args, st), k, SourceArgs(o, args), st, r.store);
    }
  }

  /**
   * Arrays are copied, never merged: where the last supplier of `k` supplies
   * an array, the result holds a new array with the same elements, and the
   * source array is as it was.
   */
  lemma ArraysCopied(o: AssignOptions, args: seq<Value>, depth: nat, st: Store, s: set<Addr>, n: Addr, k: string, i: nat)
    requires Ready(o, args, st, s, n)
    requires i < |SourceArgs(o, args)| && Supplies(o, TargetOf(o, args, st), st, SourceArgs(o, args)[i], k)
    requires forall j :: i < j < |SourceArgs(o, args)| ==> !Supplies(o, TargetOf(o, args, st), st, SourceArgs(o, args)[j], k)
    requires IsArray(st, Get(st, SourceArgs(o, args)[i], k)) && !Deletes(o, Get(st, SourceArgs(o, args)[i], k))
    ensures var st1 := Assign(o, args, depth, st).0.store;
            var v := Get(st, SourceArgs(o, args)[i], k);
            && v.addr in st1.cells && st1.cells[v.addr] == st.cells[v.addr]
            && (Assign(o, args, depth, st).0.Ok() ==>
                  && HasProp(st1, TargetOf(o, args, st), k)
                  && IsArray(st1, Prop(st1, TargetOf(o, args, st), k))
                  && Prop(st1, TargetOf(o, args, st), k) != v
                  && Prop(st1, TargetOf(o, args, st), k).addr !in st.cells
                  && st1.cells[Prop(st1, TargetOf(o, args, st), k).addr].elems == st.cells[v.addr].elems)
  {
    MergeOutcomes(o, args, depth, st, s, n);
    LastValueAt(o, TargetOf(o, args, st), st, SourceArgs(o, args), k, i);
    var r := Assign(o, args, depth, st).0;
    if r.Ok() {
      assert LastOutcome(o, TargetOf(o, args, st), k, SourceArgs(o, args), st, r.store);
    }
  }

  /** The deletion marker removes the key, where the last supplier of `k` supplies it. */
  lemma DeleteRemoves(o: AssignOptions, args: seq<Value>, depth: nat, st: Store, s: set<Addr>, n: Addr, k: string, i: nat)
    requires Ready(o, args, st, s, n)
    requires i < |SourceArgs(o, args)| && Supplies(o, TargetOf(o, args, st), st, SourceArgs(o, args)[i], k)
    requires forall j :: i < j < |SourceArgs(o, args)| ==> !Supplies(o, TargetOf(o, args, st), st, SourceArgs(o, args)[j], k)
    requires Get(st, SourceArgs(o, args)[i], k) == o.deleteValue != Undefined
    ensures Assign(o, args, depth, st).0.Ok() ==>
              !HasProp(Assign(o, args, depth, st).0.store, TargetOf(o, args, st), k)
  {
    MergeOutcomes(o, args, depth, st, s, n);
    LastValueAt(o, TargetOf(o, args, st), st, SourceArgs(o, args), k, i);
    var r := Assign(o, args, depth, st).0;
    if r.Ok() {
      assert LastOutcome(o, TargetOf(o, args, st), k, SourceArgs(o, args), st, r.store);
    }
  }

  /** Some source supplies `key`, so one of them is the last to. */
  lemma {:induction false} SupplierExists(o: AssignOptions, c: Addr, st: Store, srcs: seq<Value>, key: string, i: nat)
    requires i < |srcs| && Supplies(o, c, st, srcs[i], key)
    ensures LastValue(o, c, st, srcs, key).Some?
    decreases |srcs|
  {
    if i > 0 {
      SupplierExists(o, c, st, srcs[1..], key, i - 1);
    }
  }

  /** With no deletion marker (`deleteValue: undefined`), a key some source supplies is always present. */
  lemma NoMarkerNoDelete(o: AssignOptions, args: seq<Value>, depth: nat, st: Store, s: set<Addr>, n: Addr, k: string, i: nat)
    requires Ready(o, args, st, s, n) && o.deleteValue == Undefined
    requires i < |SourceArgs(o, args)| && Supplies(o, TargetOf(o, args, st), st, SourceArgs(o, args)[i], k)
    ensures Assign(o, args, depth, st).0.Ok() ==>
              HasProp(Assign(o, args, depth, st).0.store, TargetOf(o, args, st), k)
  {
    MergeOutcomes(o, args, depth, st, s, n);
    SupplierExists(o, TargetOf(o, args, st), st, SourceArgs(o, args), k, i);
    var r := Assign(o, args, depth, st).0;
    if r.Ok() {
      assert LastOutcome(o, TargetOf(o, args, st), k, SourceArgs(o, args), st, r.store);
    }
  }

  /** A key no source supplies keeps what it had, present or absent. */
  lemma UnsuppliedUntouched(o: AssignOptions, args: seq<Value>, depth: nat, st: Store, s: set<Addr>, n: Addr, k: string)
    requires Ready(o, args, st, s, n)
    requires forall j :: 0 <= j < |SourceArgs(o, args)| ==> !Supplies(o, TargetOf(o, args, st), st, SourceArgs(o, args)[j], k)
    ensures Assign(o, args, depth, st).0.Ok() ==>
              SameProp(st, Assign(o, args, depth, st).0.store, TargetOf(o, args, st), k)
  {
    MergeOutcomes(o, args, depth, st, s, n);
    NoSupplier(o, TargetOf(o, args, st), st, SourceArgs(o, args), k);
    var r := Assign(o, args, depth, st).0;
    if r.Ok() {
      assert LastOutcome(o, TargetOf(o, args, st), k, SourceArgs(o, args), st, r.store);
    }
  }

  /** A key in `ignoreKeys` is left alone, whatever the sources hold for it. */
  lemma IgnoredKeyUntouched(o: AssignOptions, args: seq<Value>, depth: nat, st: Store, s: set<Addr>, n: Addr, k: string)
    requires Ready(o, args, st, s, n) && Includes(o.ignoreKeys, Str(k))
    ensures Assign(o, args, depth, st).0.Ok() ==>
              SameProp(st, Assign(o, args, depth, st).0.store, TargetOf(o, args, st), k)
  {
    UnsuppliedUntouched(o, args, depth, st, s, n, k);
  }

  /**
   * A key for which every source that lists it holds an ignored value (or
   * the target itself) is left alone; the deletion marker among the ignored values
   * deletes nothing, since ignoring comes first.
   */
  lemma IgnoredValuesUntouched(o: AssignOptions, args: seq<Value>, depth: nat, st: Store, s: set<Addr>, n: Addr, k: string)
    requires Ready(o, args, st, s, n)
    requires forall j :: (0 <= j < |SourceArgs(o, args)| && SourceArgs(o, args)[j] != Undefined && SourceArgs(o, args)[j] != Null
                          && k in OwnKeys(st, SourceArgs(o, args)[j])) ==>
               var v := Get(st, SourceArgs(o, args)[j], k);
               Includes(o.ignoreValues, v) || v == Ref(TargetOf(o, args, st))
    ensures Assign(o, args, depth, st).0.Ok() ==>
              SameProp(st, Assign(o, args, depth, st).0.store, TargetOf(o, args, st), k)
  {
    UnsuppliedUntouched(o, args, depth, st, s, n, k);
  }

  /**
   * With `ignoreValues: undefined` nothing is ignored by value: the last
   * source listing `k` (with `k` not an ignored key) decides it, even with
   * `undefined`, which the result then holds as a present key.
   */
  lemma UndefinedKeptWithoutIgnoreValues(o: AssignOptions, args: seq<Value>, depth: nat, st: Store, s: set<Addr>, n: Addr, k: string, i: nat)
    requires Ready(o, args, st, s, n) && o.ignoreValues == None && !Includes(o.ignoreKeys, Str(k))
    requires i < |SourceArgs(o, args)|
    requires SourceArgs(o, args)[i] != Undefined && SourceArgs(o, args)[i] != Null
    requires k in OwnKeys(st, SourceArgs(o, args)[i]) && Get(st, SourceArgs(o, args)[i], k) == Undefined
    requires forall j :: i < j < |SourceArgs(o, args)| ==> k !in OwnKeys(st, SourceArgs(o, args)[j])
    ensures Assign(o, args, depth, st).0.Ok() ==>
              && HasProp(Assign(o, args, depth, st).0.store, TargetOf(o, args, st), k)
              && Prop(Assign(o, args, depth, st).0.store, TargetOf(o, args, st), k) == Undefined
  {
    LastWriteWins(o, args, depth, st, s, n, k, i);
  }

  /** Shallow mode, one key: the step never fails on a plain target and never recurses. */
  lemma ShallowKey(o: AssignOptions, t: Value, key: string, value: Value, depth: nat, st: Store)
    requires o.shallow && IsPlain(st, t)
    ensures Key(o, t, key, value, depth, Run(st, NoFault)).Ok()
    ensures Key(o, t, key, value, depth, Run(st, NoFault)) == Key(o, t, key, value, 0, Run(st, NoFault))
  {
  }

  lemma {:induction false} ShallowKeys(o: AssignOptions, t: Value, src: Value, keys: seq<string>, depth: nat, st: Store)
    requires o.shallow && st.Valid() && IsPlain(st, t)
    ensures Keys(o, t, src, keys, depth, Run(st, NoFault)).Ok()
    ensures Keys(o, t, src, keys, depth, Run(st, NoFault)) == Keys(o, t, src, keys, 0, Run(st, NoFault))
    decreases |keys|
  {
    if keys != [] {
      var value := Get(st, src, keys[0]);
      GetAllocated(st, src, keys[0]);
      ShallowKey(o, t, keys[0], value, depth, st);
      KeyEvolves(o, t, keys[0], value, depth, Run(st, NoFault));
      var run1 := Key(o, t, keys[0], value, depth, Run(st, NoFault));
      assert run1 == Run(run1.store, NoFault);
      ShallowKeys(o, t, src, keys[1..], depth, run1.store);
    }
  }

  lemma {:induction false} ShallowSources(o: AssignOptions, t: Value, srcs: seq<Value>, depth: nat, st: Store)
    requires o.shallow && st.Valid() && IsPlain(st, t)
    ensures Sources(o, t, srcs, depth, Run(st, NoFault)).Ok()
    ensures Sources(o, t, srcs, depth, Run(st, NoFault)) == Sources(o, t, srcs, 0, Run(st, NoFault))
    decreases |srcs|
  {
    if srcs != [] {
      var run1 := Source(o, t, srcs[0], depth, Run(st, NoFault));
      if srcs[0] != Undefined && srcs[0] != Null {
        ShallowKeys(o, t, srcs[0], OwnKeys(st, srcs[0]), depth, st);
      }
      SourceEvolves(o, t, srcs[0], depth, Run(st, NoFault));
      assert run1 == Run(run1.store, NoFault);
      ShallowSources(o, t, srcs[1..], depth, run1.store);
    }
  }

  /**
   * Shallow mode: a merge into a plain object (a new one in copy mode)
   * always completes, whatever the call stack allows, since it never
   * descends into a nested object.
   */
  lemma ShallowMergeSucceeds(o: AssignOptions, args: seq<Value>, depth: nat, st: Store)
    requires o.shallow && st.Valid()
    requires o.returnCopy || (|args| > 0 && IsPlain(st, args[0]))
    ensures Assign(o, args, depth, st).0.Ok()
    ensures Assign(o, args, depth, st) == Assign(o, args, 0, st)
  {
    var (st1, t) := Target(o, args, st);
    if o.returnCopy {
      AllocPlainValid(st);
    }
    ShallowSources(o, t, SourceArgs(o, args), depth, st1);
  }

  /**
   * Shallow mode assigns by reference: where the last supplier of `k`
   * supplies a plain object, the result holds that very object.
   */
  lemma ShallowByReference(o: AssignOptions, args: seq<Value>, depth: nat, st: Store, s: set<Addr>, n: Addr, k: string, i: nat)
    requires o.shallow && Ready(o, args, st, s, n)
    requires i < |SourceArgs(o, args)| && Supplies(o, TargetOf(o, args, st), st, SourceArgs(o, args)[i], k)
    requires forall j :: i < j < |SourceArgs(o, args)| ==> !Supplies(o, TargetOf(o, args, st), st, SourceArgs(o, args)[j], k)
    requires IsPlain(st, Get(st, SourceArgs(o, args)[i], k)) && !Deletes(o, Get(st, SourceArgs(o, args)[i], k))
    ensures Assign(o, args, depth, st).0.Ok()
    ensures HasProp(Assign(o, args, depth, st).0.store, TargetOf(o, args, st), k)
    ensures Prop(Assign(o, args, depth, st).0.store, TargetOf(o, args, st), k) == Get(st, SourceArgs(o, args)[i], k)
  {
    ShallowMergeSucceeds(o, args, depth, st);
    LastWriteWins(o, args, depth, st, s, n, k, i);
  }

  /**
   * `assignCopy` returns a new object and leaves every object that existed
   * before, its arguments and all they hold included, as it was.
   */
  lemma AssignCopyLeavesInputs(args: seq<Value>, depth: nat, st: Store)
    requires st.Valid() && AllAllocated(st, args)
    ensures AssignCopy(args, depth, st).1 == Ref(st.next) && st.next !in st.cells
    ensures forall a :: a in st.cells ==>
              a in AssignCopy(args, depth, st).0.store.cells && AssignCopy(args, depth, st).0.store.cells[a] == st.cells[a]
  {
    PresetsAreDefaults();
    MergeCopy(AssignCopyPresetOptions, args, depth, st);
  }

  /** `assign` returns its first argument itself. */
  lemma AssignReturnsTarget(args: seq<Value>, depth: nat, st: Store)
    requires |args| > 0
    ensures AssignDefault(args, depth, st).1 == args[0]
  {
    PresetsAreDefaults();
  }
}
