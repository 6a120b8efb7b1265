/**
 * When a merge completes.
 *
 * A merge faults only at rule 6: when the call stack has no room left for
 * the nested call, or when, merging in place, the object found at
 * `target[key]` is not a plain object. This module shows that neither
 * happens in three situations:
 * - in copy mode, when the arguments are no deeper than the call stack
 *   allows: every nested target is a fresh `{}`;
 * - merging a plain object in place into a key that is still `undefined`:
 *   the `{}` put there, and every object below it, is fresh;
 * - merging in place sources that hold no plain object: rule 6 is never
 *   reached, whatever the call stack allows.
 */
module Completion {
  import opened JsValues
  import opened Options
  import opened Merge
  import opened Evolution
  import opened Frames

  /**
   * `v` can be merged with `d` nested calls to spare: it is not an object,
   * or it is an object outside `x`, `d` is positive and each of its own
   * values fits `d - 1`. The set `x` holds objects the merge writes to,
   * which a source must not reach.
   */
  ghost predicate Fits(st: Store, v: Value, d: nat, x: set<Addr>)
    decreases d, 1
  {
    v.Ref? ==> v.addr in st.cells && v.addr !in x && d > 0 && ChildrenFit(st, v, d - 1, x)
  }

  /** Each own value of `v` fits `d`. */
  ghost predicate ChildrenFit(st: Store, v: Value, d: nat, x: set<Addr>)
    decreases d, 2
  {
    forall k :: k in OwnKeys(st, v) ==> Fits(st, Get(st, v, k), d, x)
  }

  /** Every object of `st0` outside `x` is the same in `st1`. */
  ghost predicate Keeps(st0: Store, st1: Store, x: set<Addr>)
  {
    forall a :: a in st0.cells && a !in x ==> a in st1.cells && st1.cells[a] == st0.cells[a]
  }

  lemma KeepsTransitive(st0: Store, st1: Store, st2: Store, x: set<Addr>)
    requires Keeps(st0, st1, x) && Keeps(st1, st2, x)
    ensures Keeps(st0, st2, x)
  {
  }

  /** Whether `v` fits depends only on the objects outside `x`. */
  lemma {:induction false} FitsKept(st0: Store, st1: Store, v: Value, d: nat, x: set<Addr>)
    requires Fits(st0, v, d, x) && Keeps(st0, st1, x)
    ensures Fits(st1, v, d, x)
    decreases d
  {
    if v.Ref? {
      assert st1.cells[v.addr] == st0.cells[v.addr];
      assert OwnKeys(st1, v) == OwnKeys(st0, v);
      forall k | k in OwnKeys(st1, v) ensures Fits(st1, Get(st1, v, k), d - 1, x) {
        assert Get(st1, v, k) == Get(st0, v, k);
        FitsKept(st0, st1, Get(st0, v, k), d - 1, x);
      }
    }
  }

  /** A value that fits while avoiding `x` also avoids any `y` whose existing objects all lie in `x`. */
  lemma {:induction false} FitsAvoiding(st: Store, v: Value, d: nat, x: set<Addr>, y: set<Addr>)
    requires Fits(st, v, d, x)
    requires forall a :: a in y && a in st.cells ==> a in x
    ensures Fits(st, v, d, y)
    decreases d
  {
    if v.Ref? {
      forall k | k in OwnKeys(st, v) ensures Fits(st, Get(st, v, k), d - 1, y) {
        FitsAvoiding(st, Get(st, v, k), d - 1, x, y);
      }
    }
  }

  lemma ChildrenKept(st0: Store, st1: Store, v: Value, d: nat, x: set<Addr>)
    requires ChildrenFit(st0, v, d, x) && Keeps(st0, st1, x)
    requires v.Ref? && v.addr in st0.cells && v.addr in st1.cells && st1.cells[v.addr] == st0.cells[v.addr]
    ensures ChildrenFit(st1, v, d, x)
  {
    assert OwnKeys(st1, v) == OwnKeys(st0, v);
    forall k | k in OwnKeys(st1, v) ensures Fits(st1, Get(st1, v, k), d, x) {
      assert Get(st1, v, k) == Get(st0, v, k);
      FitsKept(st0, st1, Get(st0, v, k), d, x);
    }
  }

  lemma ChildrenAvoiding(st: Store, v: Value, d: nat, x: set<Addr>, y: set<Addr>)
    requires ChildrenFit(st, v, d, x)
    requires forall a :: a in y && a in st.cells ==> a in x
    ensures ChildrenFit(st, v, d, y)
  {
    forall k | k in OwnKeys(st, v) ensures Fits(st, Get(st, v, k), d, y) {
      FitsAvoiding(st, Get(st, v, k), d, x, y);
    }
  }

  /** An own value of a source that fits `d + 1` fits `d`. */
  lemma SourceChildFits(st: Store, src: Value, k: string, d: nat, x: set<Addr>)
    requires Fits(st, src, d + 1, x) && k in OwnKeys(st, src)
    ensures Fits(st, Get(st, src, k), d, x)
  {
    if src.Str? {
      match IndexOf(k, |src.s|, 0)
      case Some(i) => assert Get(st, src, k) == Str([src.s[i]]);
      case None => assert Get(st, src, k) == Undefined;
    }
  }

  /** `target[key] = v` on an object of `x`: the object's own values still fit, and nothing outside `x` changes. */
  lemma SetPropFits(st: Store, a: Addr, key: string, v: Value, d: nat, x: set<Addr>)
    requires a in x && IsPlain(st, Ref(a)) && ChildrenFit(st, Ref(a), d, x) && Fits(st, v, d, x)
    ensures Keeps(st, SetProp(st, a, key, v), x)
    ensures ChildrenFit(SetProp(st, a, key, v), Ref(a), d, x)
  {
    var st1 := SetProp(st, a, key, v);
    forall k | k in OwnKeys(st1, Ref(a)) ensures Fits(st1, Get(st1, Ref(a), k), d, x) {
      if k == key {
        assert Get(st1, Ref(a), k) == v;
        FitsKept(st, st1, v, d, x);
      } else {
        assert k in OwnKeys(st, Ref(a));
        assert Get(st1, Ref(a), k) == Get(st, Ref(a), k);
        FitsKept(st, st1, Get(st, Ref(a), k), d, x);
      }
    }
  }

  /** `delete target[key]` on an object of `x`: the object's remaining values still fit. */
  lemma DeletePropFits(st: Store, a: Addr, key: string, d: nat, x: set<Addr>)
    requires a in x && IsPlain(st, Ref(a)) && ChildrenFit(st, Ref(a), d, x)
    ensures Keeps(st, DeleteProp(st, a, key), x)
    ensures ChildrenFit(DeleteProp(st, a, key), Ref(a), d, x)
  {
    var st1 := DeleteProp(st, a, key);
    forall k | k in OwnKeys(st1, Ref(a)) ensures Fits(st1, Get(st1, Ref(a), k), d, x) {
      assert k in OwnKeys(st, Ref(a)) && k != key;
      assert Get(st1, Ref(a), k) == Get(st, Ref(a), k);
      FitsKept(st, st1, Get(st, Ref(a), k), d, x);
    }
  }

  /** `value.slice()` of an array that fits gives a new array that fits as well. */
  lemma ArrayCopyFits(st: Store, value: Value, d: nat, x: set<Addr>)
    requires st.Valid() && IsArray(st, value) && Fits(st, value, d, x)
    requires forall a :: a in x ==> a in st.cells
    ensures Keeps(st, AllocArray(st, st.cells[value.addr].elems).0, x)
    ensures Fits(AllocArray(st, st.cells[value.addr].elems).0, AllocArray(st, st.cells[value.addr].elems).1, d, x)
  {
    var elems := st.cells[value.addr].elems;
    var (st1, copy) := AllocArray(st, elems);
    assert st.next !in st.cells;
    assert OwnKeys(st1, copy) == OwnKeys(st, value);
    forall k | k in OwnKeys(st1, copy) ensures Fits(st1, Get(st1, copy, k), d - 1, x) {
      assert Get(st1, copy, k) == Get(st, value, k);
      FitsKept(st, st1, Get(st, value, k), d - 1, x);
    }
  }

  /**
   * Copy mode: when every argument fits `depth + 1`, the call completes, and
   * the new object it returns fits `depth + 1` as well.
   */
  lemma {:induction false} CopyAssignCompletes(o: AssignOptions, args: seq<Value>, depth: nat, st: Store, x: set<Addr>)
    requires o.returnCopy && st.Valid()
    requires forall a :: a in x ==> a in st.cells
    requires forall i :: 0 <= i < |args| ==> Fits(st, args[i], depth + 1, x)
    ensures Assign(o, args, depth, st).0.Ok()
    ensures Fits(Assign(o, args, depth, st).0.store, Assign(o, args, depth, st).1, depth + 1, x)
    decreases depth, 3, 0
  {
    var (st1, t) := Target(o, args, st);
    AllocPlainValid(st);
    var x1 := x + {t.addr};
    assert Keeps(st, st1, x1);
    forall i | 0 <= i < |args| ensures Fits(st1, args[i], depth + 1, x1) {
      FitsAvoiding(st, args[i], depth + 1, x, x1);
      FitsKept(st, st1, args[i], depth + 1, x1);
    }
    assert OwnKeys(st1, t) == [];
    assert SourceArgs(o, args) == args;
    CopySourcesComplete(o, t, args, depth, st1, x1);
    var r := Sources(o, t, args, depth, Run(st1, NoFault));
    ChildrenAvoiding(r.store, t, depth, x1, x);
  }

  lemma {:induction false} CopySourcesComplete(o: AssignOptions, t: Value, srcs: seq<Value>, depth: nat, st: Store, x: set<Addr>)
    requires o.returnCopy && st.Valid() && IsPlain(st, t) && t.addr in x
    requires forall a :: a in x ==> a in st.cells
    requires forall i :: 0 <= i < |srcs| ==> Fits(st, srcs[i], depth + 1, x)
    requires ChildrenFit(st, t, depth, x)
    ensures Sources(o, t, srcs, depth, Run(st, NoFault)).Ok()
    ensures Sources(o, t, srcs, depth, Run(st, NoFault)).store.Valid()
    ensures IsPlain(Sources(o, t, srcs, depth, Run(st, NoFault)).store, t)
    ensures ChildrenFit(Sources(o, t, srcs, depth, Run(st, NoFault)).store, t, depth, x)
    decreases depth, 2, |srcs|
  {
    if srcs != [] {
      var run1 := Source(o, t, srcs[0], depth, Run(st, NoFault));
      CopySourceCompletes(o, t, srcs[0], depth, st, x);
      SourceEvolves(o, t, srcs[0], depth, Run(st, NoFault));
      SourceTouchesOnlyTarget(o, t, srcs[0], depth, Run(st, NoFault));
      var st1 := run1.store;
      assert Keeps(st, st1, x);
      forall i | 0 <= i < |srcs[1..]| ensures Fits(st1, srcs[1..][i], depth + 1, x) {
        FitsKept(st, st1, srcs[i + 1], depth + 1, x);
      }
      assert run1 == Run(st1, NoFault);
      CopySourcesComplete(o, t, srcs[1..], depth, st1, x);
    }
  }

  lemma {:induction false} CopySourceCompletes(o: AssignOptions, t: Value, src: Value, depth: nat, st: Store, x: set<Addr>)
    requires o.returnCopy && st.Valid() && IsPlain(st, t) && t.addr in x
    requires forall a :: a in x ==> a in st.cells
    requires Fits(st, src, depth + 1, x) && ChildrenFit(st, t, depth, x)
    ensures Source(o, t, src, depth, Run(st, NoFault)).Ok()
    ensures ChildrenFit(Source(o, t, src, depth, Run(st, NoFault)).store, t, depth, x)
    decreases depth, 2, 0
  {
    if src != Undefined && src != Null {
      CopyKeysComplete(o, t, src, OwnKeys(st, src), depth, st, x);
    }
  }

  lemma {:induction false} CopyKeysComplete(o: AssignOptions, t: Value, src: Value, keys: seq<string>, depth: nat, st: Store, x: set<Addr>)
    requires o.returnCopy && st.Valid() && IsPlain(st, t) && t.addr in x
    requires forall a :: a in x ==> a in st.cells
    requires Fits(st, src, depth + 1, x) && ChildrenFit(st, t, depth, x)
    requires forall k :: k in keys ==> k in OwnKeys(st, src)
    ensures Keys(o, t, src, keys, depth, Run(st, NoFault)).Ok()
    ensures ChildrenFit(Keys(o, t, src, keys, depth, Run(st, NoFault)).store, t, depth, x)
    decreases depth, 1, |keys|
  {
    if keys != [] {
      var value := Get(st, src, keys[0]);
      SourceChildFits(st, src, keys[0], depth, x);
      CopyKeyCompletes(o, t, keys[0], value, depth, st, x);
      var run1 := Key(o, t, keys[0], value, depth, Run(st, NoFault));
      KeyEvolves(o, t, keys[0], value, depth, Run(st, NoFault));
      KeyTouchesOnlyTarget(o, t, keys[0], value, depth, Run(st, NoFault));
      var st1 := run1.store;
      assert Keeps(st, st1, x);
      FitsKept(st, st1, src, depth + 1, x);
      assert OwnKeys(st1, src) == OwnKeys(st, src);
      assert run1 == Run(st1, NoFault);
      CopyKeysComplete(o, t, src, keys[1..], depth, st1, x);
    }
  }

  lemma {:induction false} CopyKeyCompletes(o: AssignOptions, t: Value, key: string, value: Value, depth: nat, st: Store, x: set<Addr>)
    requires o.returnCopy && st.Valid() && IsPlain(st, t) && t.addr in x
    requires forall a :: a in x ==> a in st.cells
    requires Fits(st, value, depth, x) && ChildrenFit(st, t, depth, x)
    ensures Key(o, t, key, value, depth, Run(st, NoFault)).Ok()
    ensures ChildrenFit(Key(o, t, key, value, depth, Run(st, NoFault)).store, t, depth, x)
    decreases depth, 0, 1
  {
    var r := Key(o, t, key, value, depth, Run(st, NoFault));
    if Skipped(o, t, key, value) {
      assert r.store == st;
    } else if Deletes(o, value) {
      assert r.store == DeleteProp(st, t.addr, key);
      DeletePropFits(st, t.addr, key, depth, x);
    } else if IsArray(st, value) {
      var elems := st.cells[value.addr].elems;
      var (st1, copy) := AllocArray(st, elems);
      assert r.store == SetProp(st1, t.addr, key, copy);
      ArrayCopyFits(st, value, depth, x);
      ChildrenKept(st, st1, t, depth, x);
      SetPropFits(st1, t.addr, key, copy, depth, x);
    } else if ByReference(o, value) {
      assert r.store == SetProp(st, t.addr, key, value);
      SetPropFits(st, t.addr, key, value, depth, x);
    } else {
      CopyDeepCompletes(o, t, key, value, depth, st, x);
    }
  }

  lemma {:induction false} CopyDeepCompletes(o: AssignOptions, t: Value, key: string, value: Value, depth: nat, st: Store, x: set<Addr>)
    requires o.returnCopy && st.Valid() && IsPlain(st, t) && t.addr in x
    requires forall a :: a in x ==> a in st.cells
    requires Fits(st, value, depth, x) && ChildrenFit(st, t, depth, x)
    requires !Skipped(o, t, key, value) && !Deletes(o, value) && !IsArray(st, value) && !ByReference(o, value)
    ensures Key(o, t, key, value, depth, Run(st, NoFault)).Ok()
    ensures ChildrenFit(Key(o, t, key, value, depth, Run(st, NoFault)).store, t, depth, x)
    decreases depth, 0, 0
  {
    var r := Descend(o, t.addr, key, value, depth, st);
    assert Key(o, t, key, value, depth, Run(st, NoFault)) == r;
    var (st1, existing) := Nested(st, t.addr, key);
    if Prop(st, t.addr, key) == Undefined {
      AllocPlainValid(st);
      var (st0, e) := AllocPlain(st);
      assert Keeps(st, st0, x);
      assert OwnKeys(st0, e) == [];
      assert Fits(st0, e, depth, x);
      ChildrenKept(st, st0, t, depth, x);
      SetPropValid(st0, t.addr, key, e);
      SetPropFits(st0, t.addr, key, e, depth, x);
      FitsKept(st0, st1, e, depth, x);
      KeepsTransitive(st, st0, st1, x);
    } else {
      assert WellFormedCell(st.cells[t.addr]);
      assert key in OwnKeys(st, t) && existing == Get(st, t, key);
      PropAllocated(st, t.addr, key);
    }
    FitsKept(st, st1, value, depth, x);
    assert Fits(st1, existing, depth, x);
    CopyAssignCompletes(o, [existing, value], depth - 1, st1, x);
    AssignTouchesOnlyTarget(o, [existing, value], depth - 1, st1);
    AssignEvolves(o, [existing, value], depth - 1, st1);
    var (run2, merged) := Assign(o, [existing, value], depth - 1, st1);
    assert Keeps(st1, run2.store, x);
    ChildrenKept(st1, run2.store, t, depth, x);
    assert r.store == SetProp(run2.store, t.addr, key, merged);
    SetPropFits(run2.store, t.addr, key, merged, depth, x);
  }

  /**
   * Copy mode completes when every argument fits `depth + 1`: a nested
   * object `d` levels down needs `d` nested calls, and every nested target
   * is a fresh `{}`.
   */
  lemma CopyMergeCompletes(o: AssignOptions, args: seq<Value>, depth: nat, st: Store)
    requires o.returnCopy && st.Valid()
    requires forall i :: 0 <= i < |args| ==> Fits(st, args[i], depth + 1, {})
    ensures Assign(o, args, depth, st).0.Ok()
  {
    CopyAssignCompletes(o, args, depth, st, {});
  }

  /** `assignCopy` completes on arguments that fit the call stack. */
  lemma AssignCopyCompletes(args: seq<Value>, depth: nat, st: Store)
    requires st.Valid()
    requires forall i :: 0 <= i < |args| ==> Fits(st, args[i], depth + 1, {})
    ensures AssignCopy(args, depth, st).0.Ok()
  {
    PresetsAreDefaults();
    CopyMergeCompletes(AssignCopyPresetOptions, args, depth, st);
  }

  /**
   * Deep in place, merging `w` into the object `e`, which has none of the
   * keys `w` lists: when `w` fits `depth + 1` without reaching `e`, the call
   * completes. Each plain object of `w` lands on a key that is still
   * `undefined`, so every nested target is a fresh `{}`.
   */
  lemma {:induction false} FreshAssignCompletes(o: AssignOptions, e: Value, w: Value, depth: nat, st: Store, x: set<Addr>)
    requires DeepInPlace(o) && st.Valid() && IsPlain(st, e) && e.addr in x
    requires forall a :: a in x ==> a in st.cells
    requires Fits(st, w, depth + 1, x)
    requires forall k :: k in OwnKeys(st, w) ==> Prop(st, e.addr, k) == Undefined
    ensures Assign(o, [e, w], depth, st).0.Ok()
    decreases depth, 3, 0
  {
    assert SourceArgs(o, [e, w]) == [w] && [w][1..] == [];
    var run1 := Source(o, e, w, depth, Run(st, NoFault));
    assert Assign(o, [e, w], depth, st).0 == Sources(o, e, [], depth, run1) == run1;
    if w != Undefined && w != Null {
      OwnKeysDistinct(st, w);
      FreshKeysComplete(o, e, w, OwnKeys(st, w), depth, st, x);
    }
  }

  lemma {:induction false} FreshKeysComplete(o: AssignOptions, e: Value, w: Value, keys: seq<string>, depth: nat, st: Store, x: set<Addr>)
    requires DeepInPlace(o) && st.Valid() && IsPlain(st, e) && e.addr in x
    requires forall a :: a in x ==> a in st.cells
    requires Fits(st, w, depth + 1, x) && NoDuplicates(keys)
    requires forall k :: k in keys ==> k in OwnKeys(st, w) && Prop(st, e.addr, k) == Undefined
    ensures Keys(o, e, w, keys, depth, Run(st, NoFault)).Ok()
    decreases depth, 1, |keys|
  {
    if keys != [] {
      var value := Get(st, w, keys[0]);
      SourceChildFits(st, w, keys[0], depth, x);
      FreshKeyCompletes(o, e, keys[0], value, depth, st, x);
      var run1 := Key(o, e, keys[0], value, depth, Run(st, NoFault));
      var st1 := run1.store;
      FitsKept(st, st1, w, depth + 1, x);
      assert OwnKeys(st1, w) == OwnKeys(st, w);
      assert NoDuplicates(keys[1..]) && keys[0] !in keys[1..];
      assert run1 == Run(st1, NoFault);
      FreshKeysComplete(o, e, w, keys[1..], depth, st1, x);
    }
  }

  lemma {:induction false} FreshKeyCompletes(o: AssignOptions, e: Value, key: string, value: Value, depth: nat, st: Store, x: set<Addr>)
    requires DeepInPlace(o) && st.Valid() && IsPlain(st, e) && e.addr in x
    requires forall a :: a in x ==> a in st.cells
    requires Fits(st, value, depth, x) && Prop(st, e.addr, key) == Undefined
    ensures Key(o, e, key, value, depth, Run(st, NoFault)).Ok()
    ensures Key(o, e, key, value, depth, Run(st, NoFault)).store.Valid()
    ensures IsPlain(Key(o, e, key, value, depth, Run(st, NoFault)).store, e)
    ensures Keeps(st, Key(o, e, key, value, depth, Run(st, NoFault)).store, x)
    ensures forall a :: a in x ==> a in Key(o, e, key, value, depth, Run(st, NoFault)).store.cells
    ensures forall k :: k != key ==> Prop(Key(o, e, key, value, depth, Run(st, NoFault)).store, e.addr, k) == Prop(st, e.addr, k)
    decreases depth, 0, 1
  {
    KeyEvolves(o, e, key, value, depth, Run(st, NoFault));
    assert e == Ref(e.addr);
    if !Descends(o, st, e.addr, key, value) {
      ShallowKeyFrame(o, e.addr, key, value, depth, st);
    } else {
      FreshDeepCompletes(o, e, key, value, depth, st, x);
    }
  }

  lemma {:induction false} FreshDeepCompletes(o: AssignOptions, e: Value, key: string, value: Value, depth: nat, st: Store, x: set<Addr>)
    requires DeepInPlace(o) && st.Valid() && IsPlain(st, e) && e.addr in x
    requires forall a :: a in x ==> a in st.cells
    requires Fits(st, value, depth, x) && Prop(st, e.addr, key) == Undefined
    requires !Skipped(o, e, key, value) && !Deletes(o, value) && !IsArray(st, value) && !ByReference(o, value)
    ensures Key(o, e, key, value, depth, Run(st, NoFault)).Ok()
    ensures Keeps(st, Key(o, e, key, value, depth, Run(st, NoFault)).store, x)
    ensures forall k :: k != key ==> Prop(Key(o, e, key, value, depth, Run(st, NoFault)).store, e.addr, k) == Prop(st, e.addr, k)
    decreases depth, 0, 0
  {
    var r := Descend(o, e.addr, key, value, depth, st);
    assert Key(o, e, key, value, depth, Run(st, NoFault)) == r;
    var (st1, y) := Nested(st, e.addr, key);
    FreshNestedFits(e.addr, key, value, depth, st, x);
    FreshAssignCompletes(o, y, value, depth - 1, st1, x + {y.addr});
    FreshNestedFrame(o, y, value, depth - 1, st1);
    var (run2, merged) := Assign(o, [y, value], depth - 1, st1);
    assert r.store == SetProp(run2.store, e.addr, key, y);
  }

  /** Putting a fresh `{}` at `target[key]`: a value that fitted still fits, avoiding the new object too. */
  lemma FreshNestedFits(a: Addr, key: string, value: Value, depth: nat, st: Store, x: set<Addr>)
    requires st.Valid() && IsPlain(st, Ref(a)) && a in x
    requires forall b :: b in x ==> b in st.cells
    requires Fits(st, value, depth, x) && Prop(st, a, key) == Undefined
    ensures var (st1, y) := Nested(st, a, key);
      && st1.Valid() && y == Ref(st.next) && st1.next == st.next + 1
      && st1.cells[y.addr] == Plain([], map[]) && IsPlain(st1, Ref(a))
      && Keeps(st, st1, x) && (forall b :: b in x + {y.addr} ==> b in st1.cells)
      && Fits(st1, value, depth, x + {y.addr})
      && OwnKeys(st1, y) == []
      && (forall k :: k != key ==> Prop(st1, a, k) == Prop(st, a, k))
  {
    AllocPlainValid(st);
    var (st0, y) := AllocPlain(st);
    SetPropValid(st0, a, key, y);
    var st1 := SetProp(st0, a, key, y);
    var x1 := x + {y.addr};
    FitsAvoiding(st, value, depth, x, x1);
    assert Keeps(st, st1, x1);
    FitsKept(st, st1, value, depth, x1);
  }

  /**
   * Merging into the newest object, which is empty: no older object
   * changes, and the call returns that object.
   */
  lemma FreshNestedFrame(o: AssignOptions, y: Value, value: Value, depth: nat, st: Store)
    requires DeepInPlace(o) && st.Valid() && y.Ref? && y.addr + 1 == st.next && y.addr in st.cells
    requires st.cells[y.addr] == Plain([], map[]) && Allocated(st, value)
    ensures Assign(o, [y, value], depth, st).1 == y
    ensures forall b :: b in st.cells && b < y.addr ==>
              b in Assign(o, [y, value], depth, st).0.store.cells && Assign(o, [y, value], depth, st).0.store.cells[b] == st.cells[b]
  {
    assert Closed(st, {}, y.addr) by {
      forall b | b in st.cells && InScope({}, y.addr, b) ensures HoldsOnlyScope(st.cells[b], {}, y.addr) {
        assert b == y.addr;
      }
    }
    AssignStaysInScope(o, [y, value], depth, st, {}, y.addr);
  }

  /** No own value of `v` is a plain object. */
  ghost predicate NoNested(st: Store, v: Value)
  {
    forall k :: !IsPlain(st, Get(st, v, k))
  }

  /**
   * From `st0` to `st1` only the plain object at `a` was written, with
   * values that are not plain objects, and only arrays were added.
   */
  ghost predicate FlatWrite(st0: Store, st1: Store, a: Addr)
  {
    && (forall b :: b in st0.cells && b != a ==> b in st1.cells && st1.cells[b] == st0.cells[b])
    && (forall b :: b in st1.cells && b !in st0.cells ==> st1.cells[b].Array?)
    && IsPlain(st1, Ref(a))
    && (forall k :: Prop(st1, a, k) == Prop(st0, a, k) || !IsPlain(st1, Prop(st1, a, k)))
  }

  lemma FlatWriteKeepsNoNested(st0: Store, st1: Store, a: Addr, v: Value)
    requires st0.Valid() && IsPlain(st0, Ref(a)) && FlatWrite(st0, st1, a)
    requires Allocated(st0, v) && NoNested(st0, v)
    ensures NoNested(st1, v)
  {
    forall k ensures !IsPlain(st1, Get(st1, v, k)) {
      var u := Get(st1, v, k);
      GetAllocated(st0, v, k);
      assert !IsPlain(st0, Get(st0, v, k));
      if v == Ref(a) {
        assert u == Prop(st1, a, k);
        assert Get(st0, v, k) == Prop(st0, a, k);
      } else if v.Ref? {
        assert st1.cells[v.addr] == st0.cells[v.addr];
        assert u == Get(st0, v, k);
      } else {
        assert u == Get(st0, v, k);
      }
    }
  }

  /** A key whose value is not a plain object never reaches rule 6, so it never faults on a plain target. */
  lemma FlatKey(o: AssignOptions, t: Value, key: string, value: Value, depth: nat, st: Store)
    requires st.Valid() && IsPlain(st, t) && Allocated(st, value) && !IsPlain(st, value)
    ensures Key(o, t, key, value, depth, Run(st, NoFault)).Ok()
    ensures Key(o, t, key, value, depth, Run(st, NoFault)) == Key(o, t, key, value, 0, Run(st, NoFault))
    ensures Key(o, t, key, value, depth, Run(st, NoFault)).store.Valid()
    ensures Evolves(st, Key(o, t, key, value, depth, Run(st, NoFault)).store)
    ensures FlatWrite(st, Key(o, t, key, value, depth, Run(st, NoFault)).store, t.addr)
  {
    var r := Key(o, t, key, value, depth, Run(st, NoFault));
    KeyEvolves(o, t, key, value, depth, Run(st, NoFault));
    if Skipped(o, t, key, value) {
      assert r.store == st;
    } else if Deletes(o, value) {
      assert r.store == DeleteProp(st, t.addr, key);
    } else if IsArray(st, value) {
      var elems := st.cells[value.addr].elems;
      var (st1, copy) := AllocArray(st, elems);
      assert st.next !in st.cells;
      assert r.store == SetProp(st1, t.addr, key, copy);
      assert IsArray(r.store, copy);
    } else {
      assert !value.Ref?;
      assert r.store == SetProp(st, t.addr, key, value);
    }
  }

  lemma {:induction false} FlatKeys(o: AssignOptions, t: Value, src: Value, keys: seq<string>, depth: nat, st: Store)
    requires st.Valid() && IsPlain(st, t) && Allocated(st, src) && NoNested(st, src)
    ensures Keys(o, t, src, keys, depth, Run(st, NoFault)).Ok()
    ensures Keys(o, t, src, keys, depth, Run(st, NoFault)) == Keys(o, t, src, keys, 0, Run(st, NoFault))
    ensures Keys(o, t, src, keys, depth, Run(st, NoFault)).store.Valid()
    ensures Evolves(st, Keys(o, t, src, keys, depth, Run(st, NoFault)).store)
    ensures forall v :: Allocated(st, v) && NoNested(st, v) ==> NoNested(Keys(o, t, src, keys, depth, Run(st, NoFault)).store, v)
    decreases |keys|
  {
    if keys != [] {
      var value := Get(st, src, keys[0]);
      GetAllocated(st, src, keys[0]);
      FlatKey(o, t, keys[0], value, depth, st);
      var run1 := Key(o, t, keys[0], value, depth, Run(st, NoFault));
      var st1 := run1.store;
      forall v | Allocated(st, v) && NoNested(st, v) ensures NoNested(st1, v) {
        FlatWriteKeepsNoNested(st, st1, t.addr, v);
      }
      assert run1 == Run(st1, NoFault);
      FlatKeys(o, t, src, keys[1..], depth, st1);
      EvolvesTransitive(st, st1, Keys(o, t, src, keys, depth, Run(st, NoFault)).store);
    }
  }

  lemma {:induction false} FlatSources(o: AssignOptions, t: Value, srcs: seq<Value>, depth: nat, st: Store)
    requires st.Valid() && IsPlain(st, t)
    requires forall i :: 0 <= i < |srcs| ==> Allocated(st, srcs[i]) && NoNested(st, srcs[i])
    ensures Sources(o, t, srcs, depth, Run(st, NoFault)).Ok()
    ensures Sources(o, t, srcs, depth, Run(st, NoFault)) == Sources(o, t, srcs, 0, Run(st, NoFault))
    decreases |srcs|
  {
    if srcs != [] {
      var run1 := Source(o, t, srcs[0], depth, Run(st, NoFault));
      if srcs[0] != Undefined && srcs[0] != Null {
        FlatKeys(o, t, srcs[0], OwnKeys(st, srcs[0]), depth, st);
      }
      var st1 := run1.store;
      assert run1 == Run(st1, NoFault);
      assert Evolves(st, st1);
      forall i | 0 <= i < |srcs[1..]| ensures Allocated(st1, srcs[1..][i]) && NoNested(st1, srcs[1..][i]) {
        assert Allocated(st, srcs[i + 1]) && NoNested(st, srcs[i + 1]);
      }
      FlatSources(o, t, srcs[1..], depth, st1);
    }
  }

  /**
   * In place, into a plain object, sources that hold no plain object: the
   * merge always completes, and its result does not depend on how deep the
   * call stack may go, since it never reaches rule 6.
   */
  lemma FlatMergeCompletes(o: AssignOptions, args: seq<Value>, depth: nat, st: Store)
    requires !o.returnCopy && st.Valid() && |args| > 0 && IsPlain(st, args[0])
    requires forall i :: 1 <= i < |args| ==> Allocated(st, args[i]) && NoNested(st, args[i])
    ensures Assign(o, args, depth, st).0.Ok()
    ensures Assign(o, args, depth, st) == Assign(o, args, 0, st)
  {
    FlatSources(o, args[0], args[1..], depth, st);
  }

  /** Every object of `s` that exists in `st0` is the same in `st1`. */
  ghost predicate SameOn(st0: Store, st1: Store, s: set<Addr>)
  {
    forall b :: b in s && b in st0.cells ==> b in st1.cells && st1.cells[b] == st0.cells[b]
  }

  /**
   * The plain objects reachable from the object at `a` through properties
   * holding plain objects, at most `d` levels down, `a` itself included:
   * the objects a merge of depth `d` into `a` may write to.
   */
  ghost function Sub(st: Store, a: Addr, d: nat): (s: set<Addr>)
    ensures a in s
    decreases d, 0
  {
    {a} + (if d == 0 || !IsPlain(st, Ref(a)) then {} else SubOf(st, a, st.cells[a].keys, d - 1))
  }

  /** What `Sub` collects below the plain objects held at `keys` of `a`. */
  ghost function SubOf(st: Store, a: Addr, keys: seq<string>, d: nat): (s: set<Addr>)
    decreases d, 1, |keys|
  {
    if keys == [] then {}
    else
      (if IsPlain(st, Prop(st, a, keys[0])) then Sub(st, Prop(st, a, keys[0]).addr, d) else {})
      + SubOf(st, a, keys[1..], d)
  }

  lemma {:induction false} SubOfHas(st: Store, a: Addr, keys: seq<string>, j: string, d: nat)
    requires j in keys && IsPlain(st, Prop(st, a, j))
    ensures Sub(st, Prop(st, a, j).addr, d) <= SubOf(st, a, keys, d)
    decreases |keys|
  {
    if keys[0] != j {
      SubOfHas(st, a, keys[1..], j, d);
    }
  }

  lemma SubChild(st: Store, a: Addr, j: string, d: nat)
    requires d > 0 && st.Valid() && IsPlain(st, Ref(a)) && IsPlain(st, Prop(st, a, j))
    ensures Sub(st, Prop(st, a, j).addr, d - 1) <= Sub(st, a, d)
  {
    assert WellFormedCell(st.cells[a]);
    SubOfHas(st, a, st.cells[a].keys, j, d - 1);
  }

  /** `Sub` depends only on the objects it collects. */
  lemma {:induction false} SubKept(st0: Store, st1: Store, a: Addr, d: nat)
    requires st0.Valid() && Evolves(st0, st1) && a in st0.cells && SameOn(st0, st1, Sub(st0, a, d))
    ensures Sub(st1, a, d) == Sub(st0, a, d)
    decreases d, 0
  {
    if d > 0 && IsPlain(st0, Ref(a)) {
      assert st1.cells[a] == st0.cells[a];
      SubOfKept(st0, st1, a, st0.cells[a].keys, d - 1);
    }
  }

  lemma {:induction false} SubOfKept(st0: Store, st1: Store, a: Addr, keys: seq<string>, d: nat)
    requires st0.Valid() && Evolves(st0, st1) && a in st0.cells && a in st1.cells && st1.cells[a] == st0.cells[a]
    requires SameOn(st0, st1, SubOf(st0, a, keys, d))
    ensures SubOf(st1, a, keys, d) == SubOf(st0, a, keys, d)
    decreases d, 1, |keys|
  {
    if keys != [] {
      var v := Prop(st0, a, keys[0]);
      assert Prop(st1, a, keys[0]) == v;
      PropAllocated(st0, a, keys[0]);
      if v.Ref? {
        SubKept(st0, st1, v.addr, d);
      }
      assert IsPlain(st1, v) == IsPlain(st0, v);
      SubOfKept(st0, st1, a, keys[1..], d);
    }
  }

  /** Rule 6 is reached for `key`: `value` is a plain object, merged into the target with a nested call. */
  predicate Descends(o: AssignOptions, st: Store, y: Addr, key: string, value: Value)
  {
    !Skipped(o, Ref(y), key, value) && !Deletes(o, value) && !IsArray(st, value) && !ByReference(o, value)
  }

  /** Merging `w` into the object at `y` descends at key `j` into an object `y` already holds there. */
  ghost predicate Inner(o: AssignOptions, st: Store, y: Addr, w: Value, j: string)
  {
    j in OwnKeys(st, w) && Descends(o, st, y, j, Get(st, w, j)) && Prop(st, y, j) != Undefined
  }

  /**
   * `w` merges into the object at `y` as into a tree, `d` levels down:
   * wherever it descends into an object `y` already holds, that object can
   * take the nested value, and it shares no object with the other objects
   * the merge descends into.
   */
  ghost predicate Compatible(o: AssignOptions, st: Store, y: Addr, w: Value, d: nat)
    decreases d, 1
  {
    forall j :: Inner(o, st, y, w, j) ==> Graft(o, st, y, j, Get(st, w, j), d) && Apart(o, st, y, w, j, d)
  }

  /**
   * The object at `y[j]` can take `v`: it is plain, it does not reach back
   * to `y`, and `v` merges into it as into a tree.
   */
  ghost predicate Graft(o: AssignOptions, st: Store, y: Addr, j: string, v: Value, d: nat)
    decreases d, 0
  {
    && IsPlain(st, Prop(st, y, j)) && d > 0
    && y !in Sub(st, Prop(st, y, j).addr, d - 1)
    && Compatible(o, st, Prop(st, y, j).addr, v, d - 1)
  }

  /** The objects below `y[j]` are apart from those below every other key the merge descends into. */
  ghost predicate Apart(o: AssignOptions, st: Store, y: Addr, w: Value, j: string, d: nat)
  {
    forall i :: Inner(o, st, y, w, i) && i != j && IsPlain(st, Prop(st, y, i)) && IsPlain(st, Prop(st, y, j)) && d > 0 ==>
      Sub(st, Prop(st, y, i).addr, d - 1) !! Sub(st, Prop(st, y, j).addr, d - 1)
  }

  /** What the source reads, and what it decides at `j`, is the same after writes to `x` only. */
  lemma InnerKept(o: AssignOptions, st0: Store, st1: Store, y: Addr, w: Value, j: string, d: nat, x: set<Addr>)
    requires Fits(st0, w, d + 1, x) && Keeps(st0, st1, x) && Prop(st1, y, j) == Prop(st0, y, j)
    ensures OwnKeys(st1, w) == OwnKeys(st0, w) && Get(st1, w, j) == Get(st0, w, j)
    ensures Inner(o, st1, y, w, j) == Inner(o, st0, y, w, j)
  {
    if w.Ref? {
      assert st1.cells[w.addr] == st0.cells[w.addr];
    }
    if j in OwnKeys(st0, w) {
      SourceChildFits(st0, w, j, d, x);
      var v := Get(st0, w, j);
      if v.Ref? {
        assert st1.cells[v.addr] == st0.cells[v.addr];
      }
    }
  }

  /** Whether `w` merges into `y` as into a tree depends only on `y`'s objects and `w`'s. */
  lemma CompatibleKept(o: AssignOptions, st0: Store, st1: Store, y: Addr, w: Value, d: nat, x: set<Addr>)
    requires Compatible(o, st0, y, w, d) && Fits(st0, w, d + 1, x) && Keeps(st0, st1, x)
    requires st0.Valid() && Evolves(st0, st1) && IsPlain(st0, Ref(y)) && SameOn(st0, st1, Sub(st0, y, d))
    ensures Compatible(o, st1, y, w, d)
    decreases d, 1
  {
    assert y in Sub(st0, y, d);
    forall j | Inner(o, st1, y, w, j) ensures Graft(o, st1, y, j, Get(st1, w, j), d) && Apart(o, st1, y, w, j, d) {
      assert Prop(st1, y, j) == Prop(st0, y, j);
      InnerKept(o, st0, st1, y, w, j, d, x);
      SourceChildFits(st0, w, j, d, x);
      ChildKept(st0, st1, y, j, d);
      GraftKept(o, st0, st1, y, j, Get(st0, w, j), d, x);
      ApartKept(o, st0, st1, y, w, j, d, x);
    }
  }

  /** Writes that keep the objects below `y` keep those below each plain object `y` holds. */
  lemma ChildKept(st0: Store, st1: Store, y: Addr, j: string, d: nat)
    requires st0.Valid() && Evolves(st0, st1) && IsPlain(st0, Ref(y)) && SameOn(st0, st1, Sub(st0, y, d))
    requires d > 0 && IsPlain(st0, Prop(st0, y, j))
    ensures SameOn(st0, st1, Sub(st0, Prop(st0, y, j).addr, d - 1))
    ensures Sub(st1, Prop(st0, y, j).addr, d - 1) == Sub(st0, Prop(st0, y, j).addr, d - 1)
  {
    SubChild(st0, y, j, d);
    SubKept(st0, st1, Prop(st0, y, j).addr, d - 1);
  }

  lemma GraftKept(o: AssignOptions, st0: Store, st1: Store, y: Addr, j: string, v: Value, d: nat, x: set<Addr>)
    requires Graft(o, st0, y, j, v, d) && Fits(st0, v, d, x) && Keeps(st0, st1, x)
    requires st0.Valid() && Evolves(st0, st1) && IsPlain(st0, Ref(y)) && y in st1.cells && st1.cells[y] == st0.cells[y]
    requires SameOn(st0, st1, Sub(st0, Prop(st0, y, j).addr, d - 1))
    ensures Graft(o, st1, y, j, v, d)
    decreases d, 0
  {
    var z := Prop(st0, y, j);
    assert Prop(st1, y, j) == z;
    assert z.addr in Sub(st0, z.addr, d - 1);
    SubKept(st0, st1, z.addr, d - 1);
    CompatibleKept(o, st0, st1, z.addr, v, d - 1, x);
    assert IsPlain(st1, z) && y !in Sub(st1, z.addr, d - 1) && Compatible(o, st1, z.addr, v, d - 1);
  }

  lemma ApartKept(o: AssignOptions, st0: Store, st1: Store, y: Addr, w: Value, j: string, d: nat, x: set<Addr>)
    requires Apart(o, st0, y, w, j, d) && Fits(st0, w, d + 1, x) && Keeps(st0, st1, x)
    requires st0.Valid() && Evolves(st0, st1) && IsPlain(st0, Ref(y)) && SameOn(st0, st1, Sub(st0, y, d))
    ensures Apart(o, st1, y, w, j, d)
  {
    assert y in Sub(st0, y, d);
    forall i | Inner(o, st1, y, w, i) && i != j && IsPlain(st1, Prop(st1, y, i)) && IsPlain(st1, Prop(st1, y, j)) && d > 0
      ensures Sub(st1, Prop(st1, y, i).addr, d - 1) !! Sub(st1, Prop(st1, y, j).addr, d - 1)
    {
      assert Prop(st1, y, i) == Prop(st0, y, i) && Prop(st1, y, j) == Prop(st0, y, j);
      InnerKept(o, st0, st1, y, w, i, d, x);
      assert IsPlain(st0, Prop(st0, y, i)) && IsPlain(st0, Prop(st0, y, j));
      ChildKept(st0, st1, y, i, d);
      ChildKept(st0, st1, y, j, d);
    }
  }

  /**
   * The objects one key's step may write to: the target, and, where the
   * step descends into an object the target holds, that object and what
   * lies below it.
   */
  ghost function Touched(o: AssignOptions, st: Store, y: Addr, j: string, v: Value, d: nat): (s: set<Addr>)
  {
    {y} + (if Descends(o, st, y, j, v) && Prop(st, y, j) != Undefined && Graft(o, st, y, j, v, d)
           then Sub(st, Prop(st, y, j).addr, d - 1) else {})
  }

  /**
   * Deep in place, one source `w` into the plain object at `y`: when `w`
   * fits `d + 1` without reaching `y`'s objects and merges into `y` as into
   * a tree, the call completes, writing only to `y`'s objects and new ones.
   */
  lemma {:induction false} TreeAssignCompletes(o: AssignOptions, y: Addr, w: Value, d: nat, st: Store)
    requires DeepInPlace(o) && st.Valid() && IsPlain(st, Ref(y))
    requires Fits(st, w, d + 1, Sub(st, y, d)) && Compatible(o, st, y, w, d)
    ensures Assign(o, [Ref(y), w], d, st).0.Ok()
    ensures Keeps(st, Assign(o, [Ref(y), w], d, st).0.store, Sub(st, y, d))
    decreases d, 3, 0
  {
    assert SourceArgs(o, [Ref(y), w]) == [w] && [w][1..] == [];
    var run1 := Source(o, Ref(y), w, d, Run(st, NoFault));
    assert Assign(o, [Ref(y), w], d, st).0 == Sources(o, Ref(y), [], d, run1) == run1;
    if w != Undefined && w != Null {
      OwnKeysDistinct(st, w);
      assert Pending(o, st, st, y, w, OwnKeys(st, w), d);
      TreeKeysComplete(o, y, w, OwnKeys(st, w), d, st, st);
    }
  }

  /**
   * The keys still to come: the merge has not yet written `y` at them, nor
   * any object below those it will descend into.
   */
  ghost predicate Pending(o: AssignOptions, st0: Store, st: Store, y: Addr, w: Value, keys: seq<string>, d: nat)
  {
    forall j :: j in keys ==>
      && Prop(st, y, j) == Prop(st0, y, j)
      && (Inner(o, st0, y, w, j) && d > 0 && IsPlain(st0, Prop(st0, y, j)) ==>
            SameOn(st0, st, Sub(st0, Prop(st0, y, j).addr, d - 1)))
  }

  lemma {:induction false} TreeKeysComplete(o: AssignOptions, y: Addr, w: Value, keys: seq<string>, d: nat, st0: Store, st: Store)
    requires DeepInPlace(o) && st0.Valid() && st.Valid() && IsPlain(st0, Ref(y)) && IsPlain(st, Ref(y))
    requires Fits(st0, w, d + 1, Sub(st0, y, d)) && Compatible(o, st0, y, w, d)
    requires Evolves(st0, st) && Keeps(st0, st, Sub(st0, y, d))
    requires NoDuplicates(keys) && forall j :: j in keys ==> j in OwnKeys(st0, w)
    requires Pending(o, st0, st, y, w, keys, d)
    ensures Keys(o, Ref(y), w, keys, d, Run(st, NoFault)).Ok()
    ensures Keeps(st0, Keys(o, Ref(y), w, keys, d, Run(st, NoFault)).store, Sub(st0, y, d))
    decreases d, 1, |keys|
  {
    if keys != [] {
      var j := keys[0];
      var x := Sub(st0, y, d);
      InnerKept(o, st0, st, y, w, j, d, x);
      var v := Get(st0, w, j);
      SourceChildFits(st0, w, j, d, x);
      KeyStep(o, y, w, j, d, st0, st);
      TreeKeyCompletes(o, y, j, v, d, st0, st);
      var st1 := Key(o, Ref(y), j, v, d, Run(st, NoFault)).store;
      TouchedInside(o, y, j, v, d, st0);
      PendingKept(o, y, w, keys, d, st0, st, st1);
      EvolvesTransitive(st0, st, st1);
      TreeKeysComplete(o, y, w, keys[1..], d, st0, st1);
    }
  }

  lemma TouchedInside(o: AssignOptions, y: Addr, j: string, v: Value, d: nat, st0: Store)
    requires st0.Valid() && IsPlain(st0, Ref(y))
    ensures Touched(o, st0, y, j, v, d) <= Sub(st0, y, d)
  {
    if Descends(o, st0, y, j, v) && Prop(st0, y, j) != Undefined && Graft(o, st0, y, j, v, d) {
      SubChild(st0, y, j, d);
    }
  }

  /** After the step at the first key, the rest are still pending. */
  lemma PendingKept(o: AssignOptions, y: Addr, w: Value, keys: seq<string>, d: nat, st0: Store, st: Store, st1: Store)
    requires st0.Valid() && IsPlain(st0, Ref(y)) && Compatible(o, st0, y, w, d)
    requires keys != [] && NoDuplicates(keys) && forall j :: j in keys ==> j in OwnKeys(st0, w)
    requires Pending(o, st0, st, y, w, keys, d)
    requires Keeps(st, st1, Touched(o, st0, y, keys[0], Get(st0, w, keys[0]), d))
    requires forall i :: i != keys[0] ==> Prop(st1, y, i) == Prop(st, y, i)
    ensures NoDuplicates(keys[1..]) && Pending(o, st0, st1, y, w, keys[1..], d)
  {
    var j := keys[0];
    assert NoDuplicates(keys[1..]) && j !in keys[1..];
    forall i | i in keys[1..] ensures
      && Prop(st1, y, i) == Prop(st0, y, i)
      && (Inner(o, st0, y, w, i) && d > 0 && IsPlain(st0, Prop(st0, y, i)) ==>
            SameOn(st0, st1, Sub(st0, Prop(st0, y, i).addr, d - 1)))
    {
      assert i in keys;
      if Inner(o, st0, y, w, i) && d > 0 && IsPlain(st0, Prop(st0, y, i)) {
        TouchedApart(o, y, w, i, j, d, st0);
      }
    }
  }

  /** For `j` in the loop: what the step needs from the invariant. */
  lemma KeyStep(o: AssignOptions, y: Addr, w: Value, j: string, d: nat, st0: Store, st: Store)
    requires IsPlain(st0, Ref(y)) && Compatible(o, st0, y, w, d) && j in OwnKeys(st0, w)
    ensures Descends(o, st0, y, j, Get(st0, w, j)) && Prop(st0, y, j) != Undefined ==> Graft(o, st0, y, j, Get(st0, w, j), d)
  {
    if Descends(o, st0, y, j, Get(st0, w, j)) && Prop(st0, y, j) != Undefined {
      assert Inner(o, st0, y, w, j);
    }
  }

  /** A key still to come lies apart from what the step at `j` wrote. */
  lemma TouchedApart(o: AssignOptions, y: Addr, w: Value, i: string, j: string, d: nat, st0: Store)
    requires st0.Valid() && IsPlain(st0, Ref(y)) && Compatible(o, st0, y, w, d) && j in OwnKeys(st0, w)
    requires Inner(o, st0, y, w, i) && i != j && d > 0 && IsPlain(st0, Prop(st0, y, i))
    ensures Sub(st0, Prop(st0, y, i).addr, d - 1) !! Touched(o, st0, y, j, Get(st0, w, j), d)
  {
    var v := Get(st0, w, j);
    assert Graft(o, st0, y, i, Get(st0, w, i), d) && Apart(o, st0, y, w, i, d);
    if Descends(o, st0, y, j, v) && Prop(st0, y, j) != Undefined && Graft(o, st0, y, j, v, d) {
      assert Inner(o, st0, y, w, j);
    }
  }

  lemma {:induction false} TreeKeyCompletes(o: AssignOptions, y: Addr, j: string, v: Value, d: nat, st0: Store, st: Store)
    requires DeepInPlace(o) && st0.Valid() && st.Valid() && IsPlain(st0, Ref(y)) && IsPlain(st, Ref(y))
    requires Evolves(st0, st) && Keeps(st0, st, Sub(st0, y, d))
    requires Fits(st0, v, d, Sub(st0, y, d)) && Prop(st, y, j) == Prop(st0, y, j)
    requires Descends(o, st0, y, j, v) && Prop(st0, y, j) != Undefined ==> Graft(o, st0, y, j, v, d)
    requires Descends(o, st0, y, j, v) && Prop(st0, y, j) != Undefined && Graft(o, st0, y, j, v, d) ==>
               SameOn(st0, st, Sub(st0, Prop(st0, y, j).addr, d - 1))
    ensures Key(o, Ref(y), j, v, d, Run(st, NoFault)).Ok()
    ensures Key(o, Ref(y), j, v, d, Run(st, NoFault)).store.Valid()
    ensures Evolves(st, Key(o, Ref(y), j, v, d, Run(st, NoFault)).store)
    ensures IsPlain(Key(o, Ref(y), j, v, d, Run(st, NoFault)).store, Ref(y))
    ensures Keeps(st, Key(o, Ref(y), j, v, d, Run(st, NoFault)).store, Touched(o, st0, y, j, v, d))
    ensures forall i :: i != j ==> Prop(Key(o, Ref(y), j, v, d, Run(st, NoFault)).store, y, i) == Prop(st, y, i)
    decreases d, 0, 1
  {
    var x := Sub(st0, y, d);
    KeyEvolves(o, Ref(y), j, v, d, Run(st, NoFault));
    if v.Ref? {
      assert st.cells[v.addr] == st0.cells[v.addr];
    }
    assert IsArray(st, v) == IsArray(st0, v);
    if !Descends(o, st, y, j, v) {
      ShallowKeyFrame(o, y, j, v, d, st);
    } else if Prop(st, y, j) == Undefined {
      FitsKept(st0, st, v, d, x);
      FitsAvoiding(st, v, d, x, {y});
      FreshDeepCompletes(o, Ref(y), j, v, d, st, {y});
    } else {
      TreeDeepCompletes(o, y, j, v, d, st0, st);
    }
  }

  /** A step that does not descend completes and writes at most `y[j]`. */
  lemma ShallowKeyFrame(o: AssignOptions, y: Addr, j: string, v: Value, d: nat, st: Store)
    requires st.Valid() && IsPlain(st, Ref(y)) && !Descends(o, st, y, j, v)
    ensures Key(o, Ref(y), j, v, d, Run(st, NoFault)).Ok()
    ensures Keeps(st, Key(o, Ref(y), j, v, d, Run(st, NoFault)).store, {y})
    ensures forall i :: i != j ==> Prop(Key(o, Ref(y), j, v, d, Run(st, NoFault)).store, y, i) == Prop(st, y, i)
  {
    var r := Key(o, Ref(y), j, v, d, Run(st, NoFault));
    if Skipped(o, Ref(y), j, v) {
      assert r.store == st;
    } else if Deletes(o, v) {
      assert r.store == DeleteProp(st, y, j);
    } else if IsArray(st, v) {
      var elems := st.cells[v.addr].elems;
      var (st1, copy) := AllocArray(st, elems);
      assert st.next !in st.cells;
      assert r.store == SetProp(st1, y, j, copy);
    } else {
      assert r.store == SetProp(st, y, j, v);
    }
  }

  lemma {:induction false} TreeDeepCompletes(o: AssignOptions, y: Addr, j: string, v: Value, d: nat, st0: Store, st: Store)
    requires DeepInPlace(o) && st0.Valid() && st.Valid() && IsPlain(st0, Ref(y)) && IsPlain(st, Ref(y))
    requires Evolves(st0, st) && Keeps(st0, st, Sub(st0, y, d))
    requires Fits(st0, v, d, Sub(st0, y, d)) && Prop(st, y, j) == Prop(st0, y, j)
    requires Descends(o, st, y, j, v) && Graft(o, st0, y, j, v, d)
    requires SameOn(st0, st, Sub(st0, Prop(st0, y, j).addr, d - 1))
    ensures Key(o, Ref(y), j, v, d, Run(st, NoFault)).Ok()
    ensures Keeps(st, Key(o, Ref(y), j, v, d, Run(st, NoFault)).store, {y} + Sub(st0, Prop(st0, y, j).addr, d - 1))
    ensures forall i :: i != j ==> Prop(Key(o, Ref(y), j, v, d, Run(st, NoFault)).store, y, i) == Prop(st, y, i)
    decreases d, 0, 0
  {
    var z := Prop(st0, y, j);
    GraftReady(o, y, j, v, d, st0, st);
    CompatibleKept(o, st0, st, z.addr, v, d - 1, Sub(st0, y, d));
    TreeAssignCompletes(o, z.addr, v, d - 1, st);
    DescendFrame(o, y, j, v, d, st);
  }

  /** The nested call into the existing object at `y[j]` has what it needs in the current store. */
  lemma GraftReady(o: AssignOptions, y: Addr, j: string, v: Value, d: nat, st0: Store, st: Store)
    requires DeepInPlace(o) && st0.Valid() && st.Valid() && IsPlain(st0, Ref(y)) && IsPlain(st, Ref(y))
    requires Evolves(st0, st) && Keeps(st0, st, Sub(st0, y, d))
    requires Fits(st0, v, d, Sub(st0, y, d)) && Prop(st, y, j) == Prop(st0, y, j)
    requires Graft(o, st0, y, j, v, d) && SameOn(st0, st, Sub(st0, Prop(st0, y, j).addr, d - 1))
    ensures d > 0 && IsPlain(st, Prop(st, y, j)) && Prop(st, y, j) == Prop(st0, y, j)
    ensures Sub(st, Prop(st, y, j).addr, d - 1) == Sub(st0, Prop(st0, y, j).addr, d - 1)
    ensures y !in Sub(st, Prop(st, y, j).addr, d - 1)
    ensures Fits(st, v, d, Sub(st, Prop(st, y, j).addr, d - 1))
  {
    var x := Sub(st0, y, d);
    var z := Prop(st0, y, j);
    var sz := Sub(st0, z.addr, d - 1);
    SubKept(st0, st, z.addr, d - 1);
    SubChild(st0, y, j, d);
    FitsKept(st0, st, v, d, x);
    FitsAvoiding(st, v, d, x, sz);
  }

  /**
   * Rule 6 into the existing plain object at `y[j]`, seen from `y`: the
   * key keeps that object, the other keys keep theirs, and the cells the
   * nested call keeps, the step keeps but for `y`.
   */
  lemma DescendFrame(o: AssignOptions, y: Addr, j: string, v: Value, d: nat, st: Store)
    requires DeepInPlace(o) && st.Valid() && IsPlain(st, Ref(y)) && Descends(o, st, y, j, v)
    requires d > 0 && IsPlain(st, Prop(st, y, j)) && y !in Sub(st, Prop(st, y, j).addr, d - 1)
    requires Assign(o, [Prop(st, y, j), v], d - 1, st).0.Ok()
    requires Keeps(st, Assign(o, [Prop(st, y, j), v], d - 1, st).0.store, Sub(st, Prop(st, y, j).addr, d - 1))
    ensures Key(o, Ref(y), j, v, d, Run(st, NoFault)).Ok()
    ensures Keeps(st, Key(o, Ref(y), j, v, d, Run(st, NoFault)).store, {y} + Sub(st, Prop(st, y, j).addr, d - 1))
    ensures forall i :: i != j ==> Prop(Key(o, Ref(y), j, v, d, Run(st, NoFault)).store, y, i) == Prop(st, y, i)
  {
    var z := Prop(st, y, j);
    var r := Descend(o, y, j, v, d, st);
    assert Key(o, Ref(y), j, v, d, Run(st, NoFault)) == r;
    assert Nested(st, y, j) == (st, z);
    var (run2, merged) := Assign(o, [z, v], d - 1, st);
    assert merged == z;
    assert run2.store.cells[y] == st.cells[y];
    assert r.store == SetProp(run2.store, y, j, z);
  }

  /**
   * The nested call for the plain object `w` at `target[k]` has what it
   * needs to complete: either `target[k]` is `undefined` and `w` fits
   * `depth` without reaching the target, or `target[k]` is a plain object
   * that `w` fits without reaching and merges into as into a tree.
   */
  ghost predicate Descendable(o: AssignOptions, st: Store, c: Addr, k: string, w: Value, depth: nat)
  {
    if Prop(st, c, k) == Undefined then Fits(st, w, depth, {c})
    else
      && depth > 0 && IsPlain(st, Prop(st, c, k))
      && Fits(st, w, depth, Sub(st, Prop(st, c, k).addr, depth - 1))
      && Compatible(o, st, Prop(st, c, k).addr, w, depth - 1)
  }

  /** Rule 6 in place completes when the nested call has what it needs. */
  lemma DescendCompletes(o: AssignOptions, c: Addr, k: string, w: Value, depth: nat, st: Store)
    requires DeepInPlace(o) && st.Valid() && IsPlain(st, Ref(c))
    requires IsPlain(st, w) && !Skipped(o, Ref(c), k, w) && !Deletes(o, w)
    requires Descendable(o, st, c, k, w, depth)
    ensures Key(o, Ref(c), k, w, depth, Run(st, NoFault)).Ok()
  {
    if Prop(st, c, k) == Undefined {
      FreshDeepCompletes(o, Ref(c), k, w, depth, st, {c});
    } else {
      var z := Prop(st, c, k);
      assert Key(o, Ref(c), k, w, depth, Run(st, NoFault)) == Descend(o, c, k, w, depth, st);
      assert Nested(st, c, k) == (st, z);
      TreeAssignCompletes(o, z.addr, w, depth - 1, st);
    }
  }

  /**
   * Rule 6 in place, with an incoming object that holds no plain object,
   * into `target[k]` that is `undefined` or a plain object: the step
   * completes whenever the call stack has room for one nested call.
   */
  lemma FlatDescendCompletes(o: AssignOptions, c: Addr, k: string, w: Value, depth: nat, st: Store)
    requires DeepInPlace(o) && st.Valid() && IsPlain(st, Ref(c))
    requires IsPlain(st, w) && !Skipped(o, Ref(c), k, w) && !Deletes(o, w)
    requires Prop(st, c, k) == Undefined || IsPlain(st, Prop(st, c, k))
    requires depth > 0 && NoNested(st, w)
    ensures Key(o, Ref(c), k, w, depth, Run(st, NoFault)).Ok()
  {
    assert Key(o, Ref(c), k, w, depth, Run(st, NoFault)) == Descend(o, c, k, w, depth, st);
    FlatNested(c, k, w, st);
    var (st1, y) := Nested(st, c, k);
    FlatMergeCompletes(o, [y, w], depth - 1, st1);
  }

  /** Putting a `{}` at `target[k]` leaves the incoming object as flat as it was. */
  lemma FlatNested(c: Addr, k: string, w: Value, st: Store)
    requires st.Valid() && IsPlain(st, Ref(c)) && IsPlain(st, w) && w != Ref(c)
    requires Prop(st, c, k) == Undefined || IsPlain(st, Prop(st, c, k))
    requires NoNested(st, w)
    ensures Nested(st, c, k).0.Valid() && IsPlain(Nested(st, c, k).0, Nested(st, c, k).1)
    ensures IsPlain(Nested(st, c, k).0, w) && NoNested(Nested(st, c, k).0, w)
  {
    var (st1, y) := Nested(st, c, k);
    if Prop(st, c, k) == Undefined {
      AllocPlainValid(st);
      var (st0, e) := AllocPlain(st);
      SetPropValid(st0, c, k, e);
      assert st1.cells[w.addr] == st.cells[w.addr];
      forall j ensures !IsPlain(st1, Get(st1, w, j)) {
        assert Get(st1, w, j) == Get(st, w, j);
        GetAllocated(st, w, j);
        assert !IsPlain(st, Get(st, w, j));
      }
    }
  }
}
