/**
 * What a whole merge leaves at each key of its target: the outcome is
 * decided by the last source that supplies the key, and a key no source
 * supplies keeps what it had.
 *
 * The sources are read from objects the merge does not write to (`Stable`),
 * which is what every call of the library does unless a source is the
 * target or lives inside it.
 */
module Outcomes {
  import opened Wrappers
  import opened JsValues
  import opened Options
  import opened Merge
  import opened Evolution
  import opened Frames
  import opened Effects

  /** `src` is not an object, or one the merge into `c` leaves as it is. */
  ghost predicate Stable(st: Store, src: Value, s: set<Addr>, n: Addr, c: Addr)
  {
    src.Ref? ==> src.addr in st.cells && src.addr < n && src.addr !in s && src.addr != c
  }

  ghost predicate AllStable(st: Store, srcs: seq<Value>, s: set<Addr>, n: Addr, c: Addr)
  {
    forall i :: 0 <= i < |srcs| ==> Stable(st, srcs[i], s, n, c)
  }

  /** A stable source reads the same after any step that leaves its object alone. */
  lemma StableReads(st0: Store, st1: Store, src: Value, s: set<Addr>, n: Addr, c: Addr)
    requires Stable(st0, src, s, n, c) && Untouched(st0, st1, s, n, c)
    ensures Stable(st1, src, s, n, c)
    ensures OwnKeys(st1, src) == OwnKeys(st0, src)
    ensures forall k :: Get(st1, src, k) == Get(st0, src, k)
  {
  }

  lemma AllStableAfter(st0: Store, st1: Store, srcs: seq<Value>, s: set<Addr>, n: Addr, c: Addr)
    requires AllStable(st0, srcs, s, n, c) && Untouched(st0, st1, s, n, c)
    ensures AllStable(st1, srcs, s, n, c)
  {
    forall i | 0 <= i < |srcs| ensures Stable(st1, srcs[i], s, n, c) {
      StableReads(st0, st1, srcs[i], s, n, c);
    }
  }

  /**
   * What a key ends up holding, from `st0` to `st1`, when the value that
   * decides it is `value` (a value neither ignored nor the target):
   * - the deletion marker: the key is gone;
   * - an array: a new array with the same elements;
   * - a function, element, symbol, null or primitive (anything, in shallow
   *   mode): that very value;
   * - a plain object: the key holds the merged object, a new one in copy mode.
   */
  ghost predicate Outcome(o: AssignOptions, c: Addr, key: string, value: Value, st0: Store, st1: Store)
  {
    if Deletes(o, value) then !HasProp(st1, c, key)
    else if IsArray(st0, value) then
      && HasProp(st1, c, key) && IsArray(st1, Prop(st1, c, key))
      && Prop(st1, c, key).addr !in st0.cells
      && st1.cells[Prop(st1, c, key).addr] == st0.cells[value.addr]
    else if ByReference(o, value) then HasProp(st1, c, key) && Prop(st1, c, key) == value
    else
      && HasProp(st1, c, key)
      && (o.returnCopy ==> Prop(st1, c, key).Ref? && Prop(st1, c, key).addr !in st0.cells)
  }

  /** A key's full effect gives its outcome. */
  lemma EffectGivesOutcome(o: AssignOptions, c: Addr, key: string, value: Value, st0: Store, st1: Store)
    requires EffectAt(o, c, key, value, st0, st1) && !Skipped(o, Ref(c), key, value)
    ensures Outcome(o, c, key, value, st0, st1)
  {
  }

  /** An outcome measured from a later store holds from an earlier one too. */
  lemma OutcomeFromEarlier(o: AssignOptions, c: Addr, key: string, value: Value, st0: Store, st1: Store, st2: Store)
    requires Outcome(o, c, key, value, st1, st2) && Evolves(st0, st1) && Allocated(st0, value)
    ensures Outcome(o, c, key, value, st0, st2)
  {
    if value.Ref? {
      assert st0.cells[value.addr].Array? ==> st1.cells[value.addr] == st0.cells[value.addr];
      assert st0.cells[value.addr].Plain? ==> st1.cells[value.addr].Plain?;
    }
  }

  /** An outcome survives later steps that leave the key alone. */
  lemma OutcomeToLater(o: AssignOptions, c: Addr, key: string, value: Value, st0: Store, st1: Store, st2: Store)
    requires Outcome(o, c, key, value, st0, st1) && Evolves(st1, st2) && SameProp(st1, st2, c, key)
    ensures Outcome(o, c, key, value, st0, st2)
  {
    if !Deletes(o, value) && IsArray(st0, value) {
      assert st2.cells[Prop(st1, c, key).addr] == st1.cells[Prop(st1, c, key).addr];
    }
  }

  /** The effect of a step measured from a later store holds from an earlier one, where the key was the same. */
  lemma EffectFromEarlier(o: AssignOptions, c: Addr, key: string, value: Value, st0: Store, st1: Store, st2: Store)
    requires EffectAt(o, c, key, value, st1, st2) && Evolves(st0, st1) && Allocated(st0, value)
    requires SameProp(st0, st1, c, key)
    ensures EffectAt(o, c, key, value, st0, st2)
  {
    if value.Ref? {
      assert st0.cells[value.addr].Array? ==> st1.cells[value.addr] == st0.cells[value.addr];
      assert st0.cells[value.addr].Plain? ==> st1.cells[value.addr].Plain?;
    }
  }

  /** The effect of a step survives later steps that leave the key alone. */
  lemma EffectToLater(o: AssignOptions, c: Addr, key: string, value: Value, st0: Store, st1: Store, st2: Store)
    requires EffectAt(o, c, key, value, st0, st1) && Evolves(st1, st2) && SameProp(st1, st2, c, key)
    ensures EffectAt(o, c, key, value, st0, st2)
  {
    if !Skipped(o, Ref(c), key, value) && !Deletes(o, value) && IsArray(st0, value) {
      assert st2.cells[Prop(st1, c, key).addr] == st1.cells[Prop(st1, c, key).addr];
    }
  }

  /**
   * The keys of one source, in order: each key listed has the full effect
   * of its rule (in place, the nested object already there is the one kept),
   * each key not listed keeps what it had.
   */
  lemma {:induction false} KeysAtTarget(o: AssignOptions, c: Addr, src: Value, keys: seq<string>, depth: nat, st: Store, s: set<Addr>, n: Addr)
    requires Confined(o, st, Ref(c), s, n) && Stable(st, src, s, n, c) && NoDuplicates(keys)
    ensures Confined(o, Keys(o, Ref(c), src, keys, depth, Run(st, NoFault)).store, Ref(c), s, n)
    ensures Evolves(st, Keys(o, Ref(c), src, keys, depth, Run(st, NoFault)).store)
    ensures Untouched(st, Keys(o, Ref(c), src, keys, depth, Run(st, NoFault)).store, s, n, c)
    ensures forall k :: k !in keys ==> SameProp(st, Keys(o, Ref(c), src, keys, depth, Run(st, NoFault)).store, c, k)
    ensures Keys(o, Ref(c), src, keys, depth, Run(st, NoFault)).Ok() ==>
              forall k :: k in keys ==>
                EffectAt(o, c, k, Get(st, src, k), st, Keys(o, Ref(c), src, keys, depth, Run(st, NoFault)).store)
    decreases |keys|
  {
    var r := Keys(o, Ref(c), src, keys, depth, Run(st, NoFault));
    if keys != [] {
      var k0 := keys[0];
      var v0 := Get(st, src, k0);
      GetAllocated(st, src, k0);
      var run1 := Key(o, Ref(c), k0, v0, depth, Run(st, NoFault));
      KeyAtTarget(o, c, k0, v0, depth, st, s, n);
      assert r == Keys(o, Ref(c), src, keys[1..], depth, run1);
      if run1.Ok() {
        var st1 := run1.store;
        assert run1 == Run(st1, NoFault);
        StableReads(st, st1, src, s, n, c);
        assert NoDuplicates(keys[1..]) && k0 !in keys[1..];
        KeysAtTarget(o, c, src, keys[1..], depth, st1, s, n);
        EvolvesTransitive(st, st1, r.store);
        UntouchedTransitive(st, st1, r.store, s, n, c);
        forall k | k !in keys ensures SameProp(st, r.store, c, k) {
          assert SameProp(st, st1, c, k) && SameProp(st1, r.store, c, k);
        }
        if r.Ok() {
          forall k | k in keys ensures EffectAt(o, c, k, Get(st, src, k), st, r.store) {
            if k == k0 {
              EffectToLater(o, c, k0, v0, st, st1, r.store);
            } else {
              assert k in keys[1..];
              assert Get(st1, src, k) == Get(st, src, k);
              GetAllocated(st, src, k);
              EffectFromEarlier(o, c, k, Get(st, src, k), st, st1, r.store);
            }
          }
        }
      } else {
        assert r == run1;
      }
    }
  }

  /** `src` writes or deletes `key` of the target at `c`: it lists the key and its value there is not skipped. */
  ghost predicate Supplies(o: AssignOptions, c: Addr, st: Store, src: Value, key: string)
  {
    src != Undefined && src != Null && key in OwnKeys(st, src) && !Skipped(o, Ref(c), key, Get(st, src, key))
  }

  /** The value of the last of `srcs` that supplies `key`, if any does. */
  ghost function LastValue(o: AssignOptions, c: Addr, st: Store, srcs: seq<Value>, key: string): (last: Option<Value>)
    decreases |srcs|
  {
    if srcs == [] then None
    else
      var later := LastValue(o, c, st, srcs[1..], key);
      if later.Some? then later
      else if Supplies(o, c, st, srcs[0], key) then Some(Get(st, srcs[0], key))
      else None
  }

  /** The whole merge at one key: the last supplier decides; with none, the key keeps what it had. */
  ghost predicate LastOutcome(o: AssignOptions, c: Addr, key: string, srcs: seq<Value>, st0: Store, st1: Store)
  {
    match LastValue(o, c, st0, srcs, key)
    case None => SameProp(st0, st1, c, key)
    case Some(v) => Outcome(o, c, key, v, st0, st1)
  }

  /** The supplier named by index: `srcs[i]` supplies `key` and no later source does. */
  lemma {:induction false} LastValueAt(o: AssignOptions, c: Addr, st: Store, srcs: seq<Value>, key: string, i: nat)
    requires i < |srcs| && Supplies(o, c, st, srcs[i], key)
    requires forall j :: i < j < |srcs| ==> !Supplies(o, c, st, srcs[j], key)
    ensures LastValue(o, c, st, srcs, key) == Some(Get(st, srcs[i], key))
    decreases |srcs|
  {
    if i == 0 {
      NoSupplier(o, c, st, srcs[1..], key);
    } else {
      LastValueAt(o, c, st, srcs[1..], key, i - 1);
    }
  }

  /** No source supplies `key`. */
  lemma {:induction false} NoSupplier(o: AssignOptions, c: Addr, st: Store, srcs: seq<Value>, key: string)
    requires forall j :: 0 <= j < |srcs| ==> !Supplies(o, c, st, srcs[j], key)
    ensures LastValue(o, c, st, srcs, key) == None
    decreases |srcs|
  {
    if srcs != [] {
      NoSupplier(o, c, st, srcs[1..], key);
    }
  }

  /** Stable sources supply the same values after a step that leaves them alone. */
  lemma {:induction false} LastValueAfter(o: AssignOptions, c: Addr, st0: Store, st1: Store, srcs: seq<Value>, key: string, s: set<Addr>, n: Addr)
    requires AllStable(st0, srcs, s, n, c) && Untouched(st0, st1, s, n, c)
    ensures LastValue(o, c, st1, srcs, key) == LastValue(o, c, st0, srcs, key)
    decreases |srcs|
  {
    if srcs != [] {
      StableReads(st0, st1, srcs[0], s, n, c);
      LastValueAfter(o, c, st0, st1, srcs[1..], key, s, n);
    }
  }

  /** A value some source supplies is one of the store's values. */
  lemma {:induction false} LastValueAllocated(o: AssignOptions, c: Addr, st: Store, srcs: seq<Value>, key: string)
    requires st.Valid()
    requires LastValue(o, c, st, srcs, key).Some?
    ensures Allocated(st, LastValue(o, c, st, srcs, key).value)
    decreases |srcs|
  {
    if LastValue(o, c, st, srcs[1..], key).Some? {
      LastValueAllocated(o, c, st, srcs[1..], key);
    } else {
      GetAllocated(st, srcs[0], key);
    }
  }

  /** One source: the keys it supplies have their outcome, all others keep what they had. */
  lemma SourceAtTarget(o: AssignOptions, c: Addr, src: Value, depth: nat, st: Store, s: set<Addr>, n: Addr)
    requires Confined(o, st, Ref(c), s, n) && Stable(st, src, s, n, c)
    ensures Confined(o, Source(o, Ref(c), src, depth, Run(st, NoFault)).store, Ref(c), s, n)
    ensures Evolves(st, Source(o, Ref(c), src, depth, Run(st, NoFault)).store)
    ensures Untouched(st, Source(o, Ref(c), src, depth, Run(st, NoFault)).store, s, n, c)
    ensures Source(o, Ref(c), src, depth, Run(st, NoFault)).Ok() && src != Undefined && src != Null ==>
              forall k :: k in OwnKeys(st, src) ==>
                EffectAt(o, c, k, Get(st, src, k), st, Source(o, Ref(c), src, depth, Run(st, NoFault)).store)
    ensures Source(o, Ref(c), src, depth, Run(st, NoFault)).Ok() ==>
              forall k :: LastOutcome(o, c, k, [src], st, Source(o, Ref(c), src, depth, Run(st, NoFault)).store)
  {
    var r := Source(o, Ref(c), src, depth, Run(st, NoFault));
    if src != Undefined && src != Null {
      OwnKeysDistinct(st, src);
      KeysAtTarget(o, c, src, OwnKeys(st, src), depth, st, s, n);
    }
    if r.Ok() {
      forall k ensures LastOutcome(o, c, k, [src], st, r.store) {
        assert [src][1..] == [];
        if !Supplies(o, c, st, src, k) {
          assert LastValue(o, c, st, [src], k) == None;
        } else {
          EffectGivesOutcome(o, c, k, Get(st, src, k), st, r.store);
        }
      }
    }
  }

  /** All sources, first to last, merged into the target at `c`. */
  lemma {:induction false} SourcesAtTarget(o: AssignOptions, c: Addr, srcs: seq<Value>, depth: nat, st: Store, s: set<Addr>, n: Addr)
    requires Confined(o, st, Ref(c), s, n) && AllStable(st, srcs, s, n, c)
    ensures Confined(o, Sources(o, Ref(c), srcs, depth, Run(st, NoFault)).store, Ref(c), s, n)
    ensures Evolves(st, Sources(o, Ref(c), srcs, depth, Run(st, NoFault)).store)
    ensures Untouched(st, Sources(o, Ref(c), srcs, depth, Run(st, NoFault)).store, s, n, c)
    ensures Sources(o, Ref(c), srcs, depth, Run(st, NoFault)).Ok() ==>
              forall k :: LastOutcome(o, c, k, srcs, st, Sources(o, Ref(c), srcs, depth, Run(st, NoFault)).store)
    decreases |srcs|
  {
    var r := Sources(o, Ref(c), srcs, depth, Run(st, NoFault));
    if srcs != [] {
      var run1 := Source(o, Ref(c), srcs[0], depth, Run(st, NoFault));
      SourceAtTarget(o, c, srcs[0], depth, st, s, n);
      assert r == Sources(o, Ref(c), srcs[1..], depth, run1);
      if run1.Ok() {
        var st1 := run1.store;
        assert run1 == Run(st1, NoFault);
        assert AllStable(st, srcs[1..], s, n, c);
        AllStableAfter(st, st1, srcs[1..], s, n, c);
        SourcesAtTarget(o, c, srcs[1..], depth, st1, s, n);
        EvolvesTransitive(st, st1, r.store);
        UntouchedTransitive(st, st1, r.store, s, n, c);
        if r.Ok() {
          forall k ensures LastOutcome(o, c, k, srcs, st, r.store) {
            FirstThenRest(o, c, k, srcs, st, st1, r.store, s, n);
          }
        }
      } else {
        assert r == run1;
      }
    }
  }

  /** The step of `SourcesAtTarget`: the first source's outcome composed with the rest's. */
  lemma FirstThenRest(o: AssignOptions, c: Addr, k: string, srcs: seq<Value>, st: Store, st1: Store, st2: Store, s: set<Addr>, n: Addr)
    requires srcs != [] && st.Valid() && AllStable(st, srcs[1..], s, n, c)
    requires Untouched(st, st1, s, n, c) && Evolves(st, st1) && Evolves(st1, st2)
    requires LastOutcome(o, c, k, [srcs[0]], st, st1)
    requires LastOutcome(o, c, k, srcs[1..], st1, st2)
    ensures LastOutcome(o, c, k, srcs, st, st2)
  {
    assert [srcs[0]][1..] == [];
    LastValueAfter(o, c, st, st1, srcs[1..], k, s, n);
    var later := LastValue(o, c, st, srcs[1..], k);
    if later.Some? {
      LastValueAllocated(o, c, st, srcs[1..], k);
      OutcomeFromEarlier(o, c, k, later.value, st, st1, st2);
    } else if Supplies(o, c, st, srcs[0], k) {
      assert LastValue(o, c, st, [srcs[0]], k) == Some(Get(st, srcs[0], k));
      OutcomeToLater(o, c, k, Get(st, srcs[0], k), st, st1, st2);
    } else {
      assert LastValue(o, c, st, [srcs[0]], k) == None;
    }
  }
}
