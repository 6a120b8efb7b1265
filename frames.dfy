/**
 * Which objects a merge may write to.
 *
 * In copy mode and in shallow mode a call writes to no object it was given
 * except its own target (in copy mode a fresh one): the sources, and in copy
 * mode the first argument with everything it holds, are left as they were.
 * In deep in-place mode the writes stay inside any set of objects that is
 * closed under "holds a reference to" and contains the target; objects
 * outside it, the sources among them when they share nothing with the
 * target, are left as they were.
 */
module Frames {
  import opened JsValues
  import opened Options
  import opened Merge
  import opened Evolution

  /** Every object of `st0` other than the one `t` refers to is the same in `st1`. */
  ghost predicate SameExcept(st0: Store, st1: Store, t: Value)
  {
    forall a :: a in st0.cells && (t.Ref? ==> a != t.addr) ==> a in st1.cells && st1.cells[a] == st0.cells[a]
  }

  lemma SameExceptTransitive(st0: Store, st1: Store, st2: Store, t: Value)
    requires SameExcept(st0, st1, t) && SameExcept(st1, st2, t)
    ensures SameExcept(st0, st2, t)
  {
  }

  /** In copy mode and in shallow mode a call writes to no object but its target. */
  lemma {:induction false} AssignTouchesOnlyTarget(o: AssignOptions, args: seq<Value>, depth: nat, st: Store)
    requires o.returnCopy || o.shallow
    requires st.Valid() && AllAllocated(st, args)
    ensures SameExcept(st, Assign(o, args, depth, st).0.store, Assign(o, args, depth, st).1)
    ensures o.returnCopy ==> Assign(o, args, depth, st).1 == Ref(st.next) && st.next !in st.cells
    ensures !o.returnCopy ==> Assign(o, args, depth, st).1 == (if |args| > 0 then args[0] else Undefined)
    decreases depth, 3, 0
  {
    var (st1, target) := Target(o, args, st);
    if o.returnCopy {
      AllocPlainValid(st);
    }
    assert Allocated(st1, target);
    SourcesTouchOnlyTarget(o, target, SourceArgs(o, args), depth, Run(st1, NoFault));
  }

  lemma {:induction false} SourcesTouchOnlyTarget(o: AssignOptions, target: Value, srcs: seq<Value>, depth: nat, run: Run)
    requires o.returnCopy || o.shallow
    requires run.store.Valid() && Allocated(run.store, target) && AllAllocated(run.store, srcs)
    ensures SameExcept(run.store, Sources(o, target, srcs, depth, run).store, target)
    decreases depth, 2, |srcs|
  {
    if srcs != [] && run.Ok() {
      var run1 := Source(o, target, srcs[0], depth, run);
      SourceTouchesOnlyTarget(o, target, srcs[0], depth, run);
      SourceEvolves(o, target, srcs[0], depth, run);
      SourcesTouchOnlyTarget(o, target, srcs[1..], depth, run1);
      SameExceptTransitive(run.store, run1.store, Sources(o, target, srcs, depth, run).store, target);
    }
  }

  lemma {:induction false} SourceTouchesOnlyTarget(o: AssignOptions, target: Value, src: Value, depth: nat, run: Run)
    requires o.returnCopy || o.shallow
    requires run.store.Valid() && Allocated(run.store, target)
    ensures SameExcept(run.store, Source(o, target, src, depth, run).store, target)
    decreases depth, 2, 0
  {
    if run.Ok() && src != Undefined && src != Null {
      KeysTouchOnlyTarget(o, target, src, OwnKeys(run.store, src), depth, run);
    }
  }

  lemma {:induction false} KeysTouchOnlyTarget(o: AssignOptions, target: Value, src: Value, keys: seq<string>, depth: nat, run: Run)
    requires o.returnCopy || o.shallow
    requires run.store.Valid() && Allocated(run.store, target)
    ensures SameExcept(run.store, Keys(o, target, src, keys, depth, run).store, target)
    decreases depth, 1, |keys|
  {
    if keys != [] && run.Ok() {
      var value := Get(run.store, src, keys[0]);
      GetAllocated(run.store, src, keys[0]);
      var run1 := Key(o, target, keys[0], value, depth, run);
      KeyTouchesOnlyTarget(o, target, keys[0], value, depth, run);
      KeyEvolves(o, target, keys[0], value, depth, run);
      KeysTouchOnlyTarget(o, target, src, keys[1..], depth, run1);
      SameExceptTransitive(run.store, run1.store, Keys(o, target, src, keys, depth, run).store, target);
    }
  }

  lemma {:induction false} KeyTouchesOnlyTarget(o: AssignOptions, target: Value, key: string, value: Value, depth: nat, run: Run)
    requires o.returnCopy || o.shallow
    requires run.store.Valid() && Allocated(run.store, target) && Allocated(run.store, value)
    ensures SameExcept(run.store, Key(o, target, key, value, depth, run).store, target)
    decreases depth, 0, 1
  {
    var st := run.store;
    var r := Key(o, target, key, value, depth, run);
    if !run.Ok() || Skipped(o, target, key, value) || !IsPlain(st, target) {
      assert r.store == st;
    } else if Deletes(o, value) {
      assert r.store == DeleteProp(st, target.addr, key);
    } else if IsArray(st, value) {
      AllocArrayValid(st, st.cells[value.addr].elems);
    } else if ByReference(o, value) {
      assert r.store == SetProp(st, target.addr, key, value);
    } else {
      KeyDeepTouchesOnlyTarget(o, target, key, value, depth, st);
    }
  }

  /** Only copy mode reaches the last rule here: the nested call works on a fresh object. */
  lemma {:induction false} KeyDeepTouchesOnlyTarget(o: AssignOptions, target: Value, key: string, value: Value, depth: nat, st: Store)
    requires o.returnCopy
    requires st.Valid() && Allocated(st, value) && IsPlain(st, target)
    requires !Skipped(o, target, key, value) && !Deletes(o, value) && !IsArray(st, value) && !ByReference(o, value)
    ensures SameExcept(st, Key(o, target, key, value, depth, Run(st, NoFault)).store, target)
    decreases depth, 0, 0
  {
    var r := Descend(o, target.addr, key, value, depth, st);
    assert Key(o, target, key, value, depth, Run(st, NoFault)) == r;
    var (st1, existing) := Nested(st, target.addr, key);
    if Prop(st, target.addr, key) == Undefined {
      AllocPlainValid(st);
      var (st0, empty) := AllocPlain(st);
      SetPropValid(st0, target.addr, key, empty);
    } else {
      PropAllocated(st, target.addr, key);
    }
    assert st1.Valid() && SameExcept(st, st1, target);
    if depth > 0 {
      AssignTouchesOnlyTarget(o, [existing, value], depth - 1, st1);
      var (run2, merged) := Assign(o, [existing, value], depth - 1, st1);
      assert SameExcept(st1, run2.store, merged);
      assert SameExcept(st, run2.store, target);
      if run2.Ok() {
        assert r.store == SetProp(run2.store, target.addr, key, merged);
      } else {
        assert r == run2;
      }
    }
  }

  /** The scope of a deep in-place merge: the objects of `s`, and every object allocated from `n` on. */
  ghost predicate InScope(s: set<Addr>, n: Addr, a: Addr)
  {
    a in s || n <= a
  }

  ghost predicate RefInScope(s: set<Addr>, n: Addr, v: Value)
  {
    v.Ref? ==> InScope(s, n, v.addr)
  }

  ghost predicate HoldsOnlyScope(c: Cell, s: set<Addr>, n: Addr)
  {
    c.Plain? ==> forall k :: k in c.props ==> RefInScope(s, n, c.props[k])
  }

  /** No plain object in scope holds a reference to an object out of scope. */
  ghost predicate Closed(st: Store, s: set<Addr>, n: Addr)
  {
    forall a :: a in st.cells && InScope(s, n, a) ==> HoldsOnlyScope(st.cells[a], s, n)
  }

  /** Every object of `st0` out of scope is the same in `st1`. */
  ghost predicate SameOutside(st0: Store, st1: Store, s: set<Addr>, n: Addr)
  {
    forall a :: a in st0.cells && !InScope(s, n, a) ==> a in st1.cells && st1.cells[a] == st0.cells[a]
  }

  /** The mode in which a merge descends into the target's own nested objects. */
  predicate DeepInPlace(o: AssignOptions)
  {
    !o.returnCopy && !o.shallow
  }

  lemma SetPropInScope(st: Store, a: Addr, key: string, v: Value, s: set<Addr>, n: Addr)
    requires Closed(st, s, n) && InScope(s, n, a) && RefInScope(s, n, v)
    ensures Closed(SetProp(st, a, key, v), s, n) && SameOutside(st, SetProp(st, a, key, v), s, n)
  {
    var st1 := SetProp(st, a, key, v);
    forall b | b in st1.cells && InScope(s, n, b) ensures HoldsOnlyScope(st1.cells[b], s, n) {
      assert HoldsOnlyScope(st.cells[b], s, n);
    }
  }

  lemma DeletePropInScope(st: Store, a: Addr, key: string, s: set<Addr>, n: Addr)
    requires Closed(st, s, n) && InScope(s, n, a)
    ensures Closed(DeleteProp(st, a, key), s, n) && SameOutside(st, DeleteProp(st, a, key), s, n)
  {
    var st1 := DeleteProp(st, a, key);
    forall b | b in st1.cells && InScope(s, n, b) ensures HoldsOnlyScope(st1.cells[b], s, n) {
      assert HoldsOnlyScope(st.cells[b], s, n);
    }
  }

  lemma AllocPlainInScope(st: Store, s: set<Addr>, n: Addr)
    requires st.Valid() && Closed(st, s, n) && n <= st.next
    ensures Closed(AllocPlain(st).0, s, n) && SameOutside(st, AllocPlain(st).0, s, n)
    ensures InScope(s, n, st.next)
  {
    var st1 := AllocPlain(st).0;
    forall b | b in st1.cells && InScope(s, n, b) ensures HoldsOnlyScope(st1.cells[b], s, n) {
      if b != st.next {
        assert HoldsOnlyScope(st.cells[b], s, n);
      }
    }
  }

  lemma AllocArrayInScope(st: Store, elems: seq<Value>, s: set<Addr>, n: Addr)
    requires st.Valid() && Closed(st, s, n) && n <= st.next
    ensures Closed(AllocArray(st, elems).0, s, n) && SameOutside(st, AllocArray(st, elems).0, s, n)
    ensures InScope(s, n, st.next)
  {
    var st1 := AllocArray(st, elems).0;
    forall b | b in st1.cells && InScope(s, n, b) ensures HoldsOnlyScope(st1.cells[b], s, n) {
      if b != st.next {
        assert HoldsOnlyScope(st.cells[b], s, n);
      }
    }
  }

  /**
   * In deep in-place mode a call whose target is in a closed scope writes
   * only inside that scope, keeps it closed, and returns its target.
   */
  lemma {:induction false} AssignStaysInScope(o: AssignOptions, args: seq<Value>, depth: nat, st: Store, s: set<Addr>, n: Addr)
    requires DeepInPlace(o)
    requires st.Valid() && AllAllocated(st, args) && n <= st.next && Closed(st, s, n)
    requires |args| > 0 ==> RefInScope(s, n, args[0])
    ensures Closed(Assign(o, args, depth, st).0.store, s, n)
    ensures SameOutside(st, Assign(o, args, depth, st).0.store, s, n)
    ensures Assign(o, args, depth, st).1 == (if |args| > 0 then args[0] else Undefined)
    decreases depth, 3, 0
  {
    var (st1, target) := Target(o, args, st);
    SourcesStayInScope(o, target, SourceArgs(o, args), depth, Run(st1, NoFault), s, n);
  }

  lemma {:induction false} SourcesStayInScope(o: AssignOptions, target: Value, srcs: seq<Value>, depth: nat, run: Run, s: set<Addr>, n: Addr)
    requires DeepInPlace(o)
    requires run.store.Valid() && Allocated(run.store, target) && AllAllocated(run.store, srcs)
    requires n <= run.store.next && Closed(run.store, s, n) && RefInScope(s, n, target)
    ensures Closed(Sources(o, target, srcs, depth, run).store, s, n)
    ensures SameOutside(run.store, Sources(o, target, srcs, depth, run).store, s, n)
    decreases depth, 2, |srcs|
  {
    if srcs != [] && run.Ok() {
      var run1 := Source(o, target, srcs[0], depth, run);
      SourceStaysInScope(o, target, srcs[0], depth, run, s, n);
      SourceEvolves(o, target, srcs[0], depth, run);
      SourcesStayInScope(o, target, srcs[1..], depth, run1, s, n);
    }
  }

  lemma {:induction false} SourceStaysInScope(o: AssignOptions, target: Value, src: Value, depth: nat, run: Run, s: set<Addr>, n: Addr)
    requires DeepInPlace(o)
    requires run.store.Valid() && Allocated(run.store, target)
    requires n <= run.store.next && Closed(run.store, s, n) && RefInScope(s, n, target)
    ensures Closed(Source(o, target, src, depth, run).store, s, n)
    ensures SameOutside(run.store, Source(o, target, src, depth, run).store, s, n)
    decreases depth, 2, 0
  {
    if run.Ok() && src != Undefined && src != Null {
      KeysStayInScope(o, target, src, OwnKeys(run.store, src), depth, run, s, n);
    }
  }

  lemma {:induction false} KeysStayInScope(o: AssignOptions, target: Value, src: Value, keys: seq<string>, depth: nat, run: Run, s: set<Addr>, n: Addr)
    requires DeepInPlace(o)
    requires run.store.Valid() && Allocated(run.store, target)
    requires n <= run.store.next && Closed(run.store, s, n) && RefInScope(s, n, target)
    ensures Closed(Keys(o, target, src, keys, depth, run).store, s, n)
    ensures SameOutside(run.store, Keys(o, target, src, keys, depth, run).store, s, n)
    decreases depth, 1, |keys|
  {
    if keys != [] && run.Ok() {
      var value := Get(run.store, src, keys[0]);
      GetAllocated(run.store, src, keys[0]);
      var run1 := Key(o, target, keys[0], value, depth, run);
      KeyStaysInScope(o, target, keys[0], value, depth, run, s, n);
      KeyEvolves(o, target, keys[0], value, depth, run);
      KeysStayInScope(o, target, src, keys[1..], depth, run1, s, n);
    }
  }

  lemma {:induction false} KeyStaysInScope(o: AssignOptions, target: Value, key: string, value: Value, depth: nat, run: Run, s: set<Addr>, n: Addr)
    requires DeepInPlace(o)
    requires run.store.Valid() && Allocated(run.store, target) && Allocated(run.store, value)
    requires n <= run.store.next && Closed(run.store, s, n) && RefInScope(s, n, target)
    ensures Closed(Key(o, target, key, value, depth, run).store, s, n)
    ensures SameOutside(run.store, Key(o, target, key, value, depth, run).store, s, n)
    decreases depth, 0, 1
  {
    var st := run.store;
    var r := Key(o, target, key, value, depth, run);
    if !run.Ok() || Skipped(o, target, key, value) || !IsPlain(st, target) {
      assert r.store == st;
    } else if Deletes(o, value) {
      assert r.store == DeleteProp(st, target.addr, key);
      DeletePropInScope(st, target.addr, key, s, n);
    } else if IsArray(st, value) {
      var elems := st.cells[value.addr].elems;
      AllocArrayInScope(st, elems, s, n);
      var (st1, copy) := AllocArray(st, elems);
      assert r.store == SetProp(st1, target.addr, key, copy);
      SetPropInScope(st1, target.addr, key, copy, s, n);
    } else if ByReference(o, value) {
      assert r.store == SetProp(st, target.addr, key, value);
      SetPropInScope(st, target.addr, key, value, s, n);
    } else {
      KeyDeepStaysInScope(o, target, key, value, depth, st, s, n);
    }
  }

  lemma {:induction false} KeyDeepStaysInScope(o: AssignOptions, target: Value, key: string, value: Value, depth: nat, st: Store, s: set<Addr>, n: Addr)
    requires DeepInPlace(o)
    requires st.Valid() && Allocated(st, value) && IsPlain(st, target)
    requires n <= st.next && Closed(st, s, n) && RefInScope(s, n, target)
    requires !Skipped(o, target, key, value) && !Deletes(o, value) && !IsArray(st, value) && !ByReference(o, value)
    ensures Closed(Key(o, target, key, value, depth, Run(st, NoFault)).store, s, n)
    ensures SameOutside(st, Key(o, target, key, value, depth, Run(st, NoFault)).store, s, n)
    decreases depth, 0, 0
  {
    var r := Descend(o, target.addr, key, value, depth, st);
    assert Key(o, target, key, value, depth, Run(st, NoFault)) == r;
    var (st1, existing) := Nested(st, target.addr, key);
    if Prop(st, target.addr, key) == Undefined {
      AllocPlainValid(st);
      AllocPlainInScope(st, s, n);
      var (st0, empty) := AllocPlain(st);
      SetPropValid(st0, target.addr, key, empty);
      SetPropInScope(st0, target.addr, key, empty, s, n);
    } else {
      PropAllocated(st, target.addr, key);
      assert HoldsOnlyScope(st.cells[target.addr], s, n);
    }
    assert st1.Valid() && Closed(st1, s, n) && SameOutside(st, st1, s, n) && RefInScope(s, n, existing);
    if depth > 0 {
      AssignStaysInScope(o, [existing, value], depth - 1, st1, s, n);
      var (run2, merged) := Assign(o, [existing, value], depth - 1, st1);
      if run2.Ok() {
        assert r.store == SetProp(run2.store, target.addr, key, merged);
        SetPropInScope(run2.store, target.addr, key, merged, s, n);
      } else {
        assert r == run2;
      }
    }
  }
}
