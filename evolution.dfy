/**
 * What every merge does to the store as a whole, in every mode: objects are
 * only ever added, an object keeps its kind, an array is never written to,
 * and a valid store stays valid.
 */
module Evolution {
  import opened JsValues
  import opened Options
  import opened Merge

  ghost predicate Evolves(st0: Store, st1: Store)
  {
    && st0.next <= st1.next
    && (forall a :: a in st0.cells ==> a in st1.cells)
    && (forall a :: a in st0.cells && st0.cells[a].Array? ==> st1.cells[a] == st0.cells[a])
    && (forall a :: a in st0.cells && st0.cells[a].Plain? ==> st1.cells[a].Plain?)
  }

  ghost predicate AllAllocated(st: Store, vs: seq<Value>)
  {
    forall i :: 0 <= i < |vs| ==> Allocated(st, vs[i])
  }

  lemma EvolvesTransitive(st0: Store, st1: Store, st2: Store)
    requires Evolves(st0, st1) && Evolves(st1, st2)
    ensures Evolves(st0, st2)
  {
  }

  /** `{}` gets an address no object had. */
  lemma AllocPlainValid(st: Store)
    requires st.Valid()
    ensures st.next !in st.cells
    ensures AllocPlain(st).0.Valid() && Evolves(st, AllocPlain(st).0)
    ensures AllocPlain(st).1 == Ref(st.next) && IsPlain(AllocPlain(st).0, AllocPlain(st).1)
  {
    var st1 := AllocPlain(st).0;
    forall a | a in st1.cells ensures CellClosed(st1.cells[a], st1.cells) {
      if a != st.next {
        assert CellClosed(st.cells[a], st.cells);
      }
    }
  }

  /** An array copy gets an address no object had. */
  lemma AllocArrayValid(st: Store, elems: seq<Value>)
    requires st.Valid() && AllAllocated(st, elems)
    ensures st.next !in st.cells
    ensures AllocArray(st, elems).0.Valid() && Evolves(st, AllocArray(st, elems).0)
    ensures AllocArray(st, elems).1 == Ref(st.next)
  {
    var st1 := AllocArray(st, elems).0;
    forall a | a in st1.cells ensures CellClosed(st1.cells[a], st1.cells) {
      if a != st.next {
        assert CellClosed(st.cells[a], st.cells);
      }
    }
  }

  lemma SetPropValid(st: Store, a: Addr, key: string, v: Value)
    requires st.Valid() && Allocated(st, v)
    ensures SetProp(st, a, key, v).Valid() && Evolves(st, SetProp(st, a, key, v))
  {
    var st1 := SetProp(st, a, key, v);
    if a in st.cells && st.cells[a].Plain? {
      var c := st.cells[a];
      assert WellFormedCell(c) && CellClosed(c, st.cells);
      forall b | b in st1.cells ensures WellFormedCell(st1.cells[b]) && CellClosed(st1.cells[b], st1.cells) {
        if b != a {
          assert WellFormedCell(st.cells[b]) && CellClosed(st.cells[b], st.cells);
        }
      }
    }
  }

  lemma DeletePropValid(st: Store, a: Addr, key: string)
    requires st.Valid()
    ensures DeleteProp(st, a, key).Valid() && Evolves(st, DeleteProp(st, a, key))
  {
    var st1 := DeleteProp(st, a, key);
    if a in st.cells && st.cells[a].Plain? {
      var c := st.cells[a];
      assert WellFormedCell(c) && CellClosed(c, st.cells);
      forall b | b in st1.cells ensures WellFormedCell(st1.cells[b]) && CellClosed(st1.cells[b], st1.cells) {
        if b != a {
          assert WellFormedCell(st.cells[b]) && CellClosed(st.cells[b], st.cells);
        }
      }
    }
  }

  /** A value read out of a valid store refers to an existing object. */
  lemma GetAllocated(st: Store, src: Value, key: string)
    requires st.Valid()
    ensures Allocated(st, Get(st, src, key))
  {
    if src.Ref? && src.addr in st.cells {
      assert CellClosed(st.cells[src.addr], st.cells);
    }
  }

  lemma PropAllocated(st: Store, a: Addr, key: string)
    requires st.Valid()
    ensures Allocated(st, Prop(st, a, key))
  {
    if a in st.cells {
      assert CellClosed(st.cells[a], st.cells);
    }
  }

  lemma {:induction false} AssignEvolves(o: AssignOptions, args: seq<Value>, depth: nat, st: Store)
    requires st.Valid() && AllAllocated(st, args)
    ensures Assign(o, args, depth, st).0.store.Valid()
    ensures Evolves(st, Assign(o, args, depth, st).0.store)
    ensures Allocated(Assign(o, args, depth, st).0.store, Assign(o, args, depth, st).1)
    decreases depth, 3, 0
  {
    var (st1, target) := Target(o, args, st);
    if o.returnCopy {
      AllocPlainValid(st);
    }
    assert Allocated(st1, target);
    SourcesEvolves(o, target, SourceArgs(o, args), depth, Run(st1, NoFault));
  }

  lemma {:induction false} SourcesEvolves(o: AssignOptions, target: Value, srcs: seq<Value>, depth: nat, run: Run)
    requires run.store.Valid() && Allocated(run.store, target) && AllAllocated(run.store, srcs)
    ensures Sources(o, target, srcs, depth, run).store.Valid()
    ensures Evolves(run.store, Sources(o, target, srcs, depth, run).store)
    decreases depth, 2, |srcs|
  {
    if srcs != [] && run.Ok() {
      var run1 := Source(o, target, srcs[0], depth, run);
      SourceEvolves(o, target, srcs[0], depth, run);
      SourcesEvolves(o, target, srcs[1..], depth, run1);
      EvolvesTransitive(run.store, run1.store, Sources(o, target, srcs, depth, run).store);
    }
  }

  lemma {:induction false} SourceEvolves(o: AssignOptions, target: Value, src: Value, depth: nat, run: Run)
    requires run.store.Valid() && Allocated(run.store, target)
    ensures Source(o, target, src, depth, run).store.Valid()
    ensures Evolves(run.store, Source(o, target, src, depth, run).store)
    decreases depth, 2, 0
  {
    if run.Ok() && src != Undefined && src != Null {
      KeysEvolves(o, target, src, OwnKeys(run.store, src), depth, run);
    }
  }

  lemma {:induction false} KeysEvolves(o: AssignOptions, target: Value, src: Value, keys: seq<string>, depth: nat, run: Run)
    requires run.store.Valid() && Allocated(run.store, target)
    ensures Keys(o, target, src, keys, depth, run).store.Valid()
    ensures Evolves(run.store, Keys(o, target, src, keys, depth, run).store)
    decreases depth, 1, |keys|
  {
    if keys != [] && run.Ok() {
      var value := Get(run.store, src, keys[0]);
      GetAllocated(run.store, src, keys[0]);
      var run1 := Key(o, target, keys[0], value, depth, run);
      KeyEvolves(o, target, keys[0], value, depth, run);
      KeysEvolves(o, target, src, keys[1..], depth, run1);
      EvolvesTransitive(run.store, run1.store, Keys(o, target, src, keys, depth, run).store);
    }
  }

  lemma {:induction false} KeyEvolves(o: AssignOptions, target: Value, key: string, value: Value, depth: nat, run: Run)
    requires run.store.Valid() && Allocated(run.store, target) && Allocated(run.store, value)
    ensures Key(o, target, key, value, depth, run).store.Valid()
    ensures Evolves(run.store, Key(o, target, key, value, depth, run).store)
    decreases depth, 0, 1
  {
    var st := run.store;
    var r := Key(o, target, key, value, depth, run);
    if !run.Ok() || Skipped(o, target, key, value) || !IsPlain(st, target) {
      assert r.store == st;
    } else if Deletes(o, value) {
      assert r.store == DeleteProp(st, target.addr, key);
      DeletePropValid(st, target.addr, key);
    } else if IsArray(st, value) {
      var elems := st.cells[value.addr].elems;
      assert CellClosed(st.cells[value.addr], st.cells);
      AllocArrayValid(st, elems);
      var (st1, copy) := AllocArray(st, elems);
      assert r.store == SetProp(st1, target.addr, key, copy);
      SetPropValid(st1, target.addr, key, copy);
      EvolvesTransitive(st, st1, r.store);
    } else if ByReference(o, value) {
      assert r.store == SetProp(st, target.addr, key, value);
      SetPropValid(st, target.addr, key, value);
    } else {
      KeyDeepEvolves(o, target, key, value, depth, st);
    }
  }

  /** The last rule of the chain: a nested plain object is merged recursively. */
  lemma {:induction false} KeyDeepEvolves(o: AssignOptions, target: Value, key: string, value: Value, depth: nat, st: Store)
    requires st.Valid() && Allocated(st, value) && IsPlain(st, target)
    requires !Skipped(o, target, key, value) && !Deletes(o, value) && !IsArray(st, value) && !ByReference(o, value)
    ensures Key(o, target, key, value, depth, Run(st, NoFault)).store.Valid()
    ensures Evolves(st, Key(o, target, key, value, depth, Run(st, NoFault)).store)
    decreases depth, 0, 0
  {
    var r := Descend(o, target.addr, key, value, depth, st);
    assert Key(o, target, key, value, depth, Run(st, NoFault)) == r;
    var (st1, existing) := Nested(st, target.addr, key);
    if Prop(st, target.addr, key) == Undefined {
      AllocPlainValid(st);
      var (st0, empty) := AllocPlain(st);
      SetPropValid(st0, target.addr, key, empty);
      EvolvesTransitive(st, st0, st1);
    } else {
      PropAllocated(st, target.addr, key);
    }
    if depth == 0 {
      assert r.store == st1;
    } else {
      AssignEvolves(o, [existing, value], depth - 1, st1);
      var (run2, merged) := Assign(o, [existing, value], depth - 1, st1);
      EvolvesTransitive(st, st1, run2.store);
      if run2.Ok() {
        assert r.store == SetProp(run2.store, target.addr, key, merged);
        SetPropValid(run2.store, target.addr, key, merged);
        EvolvesTransitive(st, run2.store, r.store);
      } else {
        assert r == run2;
      }
    }
  }
}
