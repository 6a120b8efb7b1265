/**
 * What a merge leaves at each key of its target object.
 *
 * The lemmas here hold in every mode under `Confined`, which is what lets a
 * write at one key be told apart from the writes at the others: the target
 * is a plain object not reachable from its own properties (asked only of the
 * deep in-place mode, where the merge descends into those properties).
 */
module Effects {
  import opened JsValues
  import opened Options
  import opened Merge
  import opened Evolution
  import opened Frames

  /**
   * The target `t` is a plain object older than `n` and outside `s`; in deep
   * in-place mode `s` is a closed scope holding everything `t` refers to.
   */
  ghost predicate Confined(o: AssignOptions, st: Store, t: Value, s: set<Addr>, n: Addr)
  {
    && st.Valid() && n <= st.next
    && IsPlain(st, t) && t.addr < n && t.addr !in s
    && (DeepInPlace(o) ==> Closed(st, s, n) && HoldsOnlyScope(st.cells[t.addr], s, n))
  }

  /** Every object older than `n`, outside `s` and other than `c` is the same in `st1`. */
  ghost predicate Untouched(st0: Store, st1: Store, s: set<Addr>, n: Addr, c: Addr)
  {
    forall a :: a in st0.cells && a < n && a !in s && a != c ==> a in st1.cells && st1.cells[a] == st0.cells[a]
  }

  lemma UntouchedTransitive(st0: Store, st1: Store, st2: Store, s: set<Addr>, n: Addr, c: Addr)
    requires Untouched(st0, st1, s, n, c) && Untouched(st1, st2, s, n, c)
    ensures Untouched(st0, st2, s, n, c)
  {
  }

  lemma SetPropUntouched(st: Store, c: Addr, key: string, v: Value, s: set<Addr>, n: Addr)
    ensures Untouched(st, SetProp(st, c, key, v), s, n, c)
  {
  }

  /** The property `key` of the object at `c` is the same in both stores, present or absent. */
  ghost predicate SameProp(st0: Store, st1: Store, c: Addr, key: string)
  {
    HasProp(st1, c, key) == HasProp(st0, c, key) && Prop(st1, c, key) == Prop(st0, c, key)
  }

  lemma SetPropOtherKeys(st: Store, c: Addr, key: string, v: Value)
    ensures forall k :: k != key ==> SameProp(st, SetProp(st, c, key, v), c, k)
  {
  }

  lemma SameCellSameProps(st0: Store, st1: Store, c: Addr)
    requires c in st0.cells && c in st1.cells && st1.cells[c] == st0.cells[c]
    ensures forall k :: SameProp(st0, st1, c, k)
  {
  }

  /**
   * What the rule chain leaves at `key` of the target at `c`, given the
   * incoming value `value`, from `st0` to `st1`:
   * - an ignored key or value, or the target itself: nothing changes;
   * - the deletion marker: the key is gone;
   * - an array: a new array with the same elements;
   * - a function, element, symbol, null or primitive (anything, in shallow
   *   mode): that very value;
   * - a plain object: in place, the nested object already there (a fresh one
   *   where there was none); in copy mode, a fresh object.
   */
  ghost predicate EffectAt(o: AssignOptions, c: Addr, key: string, value: Value, st0: Store, st1: Store)
  {
    if Skipped(o, Ref(c), key, value) then SameProp(st0, st1, c, key)
    else if Deletes(o, value) then !HasProp(st1, c, key)
    else if IsArray(st0, value) then
      && HasProp(st1, c, key) && IsArray(st1, Prop(st1, c, key))
      && Prop(st1, c, key).addr !in st0.cells
      && st1.cells[Prop(st1, c, key).addr] == st0.cells[value.addr]
    else if ByReference(o, value) then HasProp(st1, c, key) && Prop(st1, c, key) == value
    else DescendEffect(o, c, key, st0, st1)
  }

  /** One key: its effect, and nothing else of the target or out of scope changes. */
  lemma KeyAtTarget(o: AssignOptions, c: Addr, key: string, value: Value, depth: nat, st: Store, s: set<Addr>, n: Addr)
    requires Confined(o, st, Ref(c), s, n) && Allocated(st, value)
    ensures Confined(o, Key(o, Ref(c), key, value, depth, Run(st, NoFault)).store, Ref(c), s, n)
    ensures Evolves(st, Key(o, Ref(c), key, value, depth, Run(st, NoFault)).store)
    ensures Untouched(st, Key(o, Ref(c), key, value, depth, Run(st, NoFault)).store, s, n, c)
    ensures forall k :: k != key ==> SameProp(st, Key(o, Ref(c), key, value, depth, Run(st, NoFault)).store, c, k)
    ensures Key(o, Ref(c), key, value, depth, Run(st, NoFault)).Ok() ==>
              EffectAt(o, c, key, value, st, Key(o, Ref(c), key, value, depth, Run(st, NoFault)).store)
    ensures !Key(o, Ref(c), key, value, depth, Run(st, NoFault)).Ok() ==>
              !Skipped(o, Ref(c), key, value) && !Deletes(o, value) && !IsArray(st, value) && !ByReference(o, value)
  {
    if Skipped(o, Ref(c), key, value) || Deletes(o, value) || (ByReference(o, value) && !IsArray(st, value)) {
      WriteAtTarget(o, c, key, value, depth, st, s, n);
    } else if IsArray(st, value) {
      ArrayAtTarget(o, c, key, value, depth, st, s, n);
    } else {
      KeyEvolves(o, Ref(c), key, value, depth, Run(st, NoFault));
      assert Key(o, Ref(c), key, value, depth, Run(st, NoFault)) == Descend(o, c, key, value, depth, st);
      DescendAtTarget(o, c, key, value, depth, st, s, n);
    }
  }

  /** Rules 1, 2, 3 and 5: the key is skipped, deleted or stored as it is, and the step completes. */
  lemma WriteAtTarget(o: AssignOptions, c: Addr, key: string, value: Value, depth: nat, st: Store, s: set<Addr>, n: Addr)
    requires Confined(o, st, Ref(c), s, n) && Allocated(st, value)
    requires Skipped(o, Ref(c), key, value) || Deletes(o, value) || (ByReference(o, value) && !IsArray(st, value))
    ensures Confined(o, Key(o, Ref(c), key, value, depth, Run(st, NoFault)).store, Ref(c), s, n)
    ensures Evolves(st, Key(o, Ref(c), key, value, depth, Run(st, NoFault)).store)
    ensures Untouched(st, Key(o, Ref(c), key, value, depth, Run(st, NoFault)).store, s, n, c)
    ensures forall k :: k != key ==> SameProp(st, Key(o, Ref(c), key, value, depth, Run(st, NoFault)).store, c, k)
    ensures Key(o, Ref(c), key, value, depth, Run(st, NoFault)).Ok() ==>
              EffectAt(o, c, key, value, st, Key(o, Ref(c), key, value, depth, Run(st, NoFault)).store)
    ensures Key(o, Ref(c), key, value, depth, Run(st, NoFault)).Ok()
  {
    var t := Ref(c);
    var r := Key(o, t, key, value, depth, Run(st, NoFault));
    KeyEvolves(o, t, key, value, depth, Run(st, NoFault));
    if Skipped(o, t, key, value) {
      assert r.store == st;
    } else if Deletes(o, value) {
      assert r.store == DeleteProp(st, c, key);
      if DeepInPlace(o) {
        assert HoldsOnlyScope(st.cells[c], s, n);
      }
    } else {
      assert r.store == SetProp(st, c, key, value);
      if DeepInPlace(o) {
        assert HoldsOnlyScope(st.cells[c], s, n);
        SetPropOffScope(st, c, key, value, s, n);
      }
    }
  }

  /** Rule 4: an array is stored as a new copy, and the step completes. */
  lemma ArrayAtTarget(o: AssignOptions, c: Addr, key: string, value: Value, depth: nat, st: Store, s: set<Addr>, n: Addr)
    requires Confined(o, st, Ref(c), s, n) && Allocated(st, value)
    requires !Skipped(o, Ref(c), key, value) && !Deletes(o, value) && IsArray(st, value)
    ensures Confined(o, Key(o, Ref(c), key, value, depth, Run(st, NoFault)).store, Ref(c), s, n)
    ensures Evolves(st, Key(o, Ref(c), key, value, depth, Run(st, NoFault)).store)
    ensures Untouched(st, Key(o, Ref(c), key, value, depth, Run(st, NoFault)).store, s, n, c)
    ensures forall k :: k != key ==> SameProp(st, Key(o, Ref(c), key, value, depth, Run(st, NoFault)).store, c, k)
    ensures Key(o, Ref(c), key, value, depth, Run(st, NoFault)).Ok() ==>
              EffectAt(o, c, key, value, st, Key(o, Ref(c), key, value, depth, Run(st, NoFault)).store)
    ensures Key(o, Ref(c), key, value, depth, Run(st, NoFault)).Ok()
  {
    var t := Ref(c);
    var r := Key(o, t, key, value, depth, Run(st, NoFault));
    KeyEvolves(o, t, key, value, depth, Run(st, NoFault));
    var elems := st.cells[value.addr].elems;
    AllocArrayValid(st, elems);
    var (st1, copy) := AllocArray(st, elems);
    assert r.store == SetProp(st1, c, key, copy);
    if DeepInPlace(o) {
      AllocArrayInScope(st, elems, s, n);
      assert HoldsOnlyScope(st.cells[c], s, n);
      assert HoldsOnlyScope(st1.cells[c], s, n);
      SetPropOffScope(st1, c, key, copy, s, n);
    }
  }

  /** Writing a value in scope to the object at `c`, which is out of scope, keeps the scope closed. */
  lemma SetPropOffScope(st: Store, c: Addr, key: string, v: Value, s: set<Addr>, n: Addr)
    requires Closed(st, s, n) && !InScope(s, n, c) && c in st.cells && HoldsOnlyScope(st.cells[c], s, n)
    requires RefInScope(s, n, v)
    ensures Closed(SetProp(st, c, key, v), s, n)
    ensures HoldsOnlyScope(SetProp(st, c, key, v).cells[c], s, n)
  {
    var st1 := SetProp(st, c, key, v);
    forall b | b in st1.cells && InScope(s, n, b) ensures HoldsOnlyScope(st1.cells[b], s, n) {
      assert HoldsOnlyScope(st.cells[b], s, n);
    }
  }

  /** `target[key]` made an object where it was `undefined`; the rest of the target is as it was. */
  lemma NestedAtTarget(o: AssignOptions, c: Addr, key: string, st: Store, s: set<Addr>, n: Addr)
    requires Confined(o, st, Ref(c), s, n)
    ensures Confined(o, Nested(st, c, key).0, Ref(c), s, n)
    ensures Evolves(st, Nested(st, c, key).0)
    ensures Untouched(st, Nested(st, c, key).0, s, n, c)
    ensures forall k :: k != key ==> SameProp(st, Nested(st, c, key).0, c, k)
    ensures Allocated(Nested(st, c, key).0, Nested(st, c, key).1)
    ensures DeepInPlace(o) ==> RefInScope(s, n, Nested(st, c, key).1)
    ensures Prop(st, c, key) != Undefined ==> Nested(st, c, key).1 == Prop(st, c, key)
    ensures Prop(st, c, key) == Undefined ==>
              Nested(st, c, key).1.Ref? && Nested(st, c, key).1.addr !in st.cells
  {
    if Prop(st, c, key) == Undefined {
      AllocPlainValid(st);
      var (st0, empty) := AllocPlain(st);
      SetPropValid(st0, c, key, empty);
      if DeepInPlace(o) {
        AllocPlainInScope(st, s, n);
        assert HoldsOnlyScope(st0.cells[c], s, n);
        SetPropOffScope(st0, c, key, empty, s, n);
      }
    } else {
      PropAllocated(st, c, key);
      if DeepInPlace(o) {
        assert HoldsOnlyScope(st.cells[c], s, n);
      }
    }
  }

  /** The nested call, and the write of its result back to `target[key]`. */
  lemma RecurseAtTarget(o: AssignOptions, c: Addr, key: string, existing: Value, value: Value, depth: nat, st1: Store, s: set<Addr>, n: Addr)
    requires Confined(o, st1, Ref(c), s, n) && Allocated(st1, existing) && Allocated(st1, value)
    requires DeepInPlace(o) ==> RefInScope(s, n, existing)
    requires !ByReference(o, value)
    ensures var (run2, merged) := Assign(o, [existing, value], depth, st1);
      && Evolves(st1, run2.store)
      && Untouched(st1, run2.store, s, n, c)
      && run2.store.cells[c] == st1.cells[c]
      && Confined(o, run2.store, Ref(c), s, n)
      && (run2.Ok() ==>
            && Confined(o, SetProp(run2.store, c, key, merged), Ref(c), s, n)
            && Evolves(st1, SetProp(run2.store, c, key, merged))
            && (DeepInPlace(o) ==> merged == existing)
            && (o.returnCopy ==> merged.Ref? && merged.addr !in st1.cells))
  {
    var (run2, merged) := Assign(o, [existing, value], depth, st1);
    AssignEvolves(o, [existing, value], depth, st1);
    if DeepInPlace(o) {
      AssignStaysInScope(o, [existing, value], depth, st1, s, n);
    } else {
      AssignTouchesOnlyTarget(o, [existing, value], depth, st1);
    }
    if run2.Ok() {
      SetPropValid(run2.store, c, key, merged);
      if DeepInPlace(o) {
        SetPropOffScope(run2.store, c, key, merged, s, n);
      }
    }
  }

  /** What rule 6 leaves at `key`: a nested object there, the one already there when merging in place. */
  ghost predicate DescendEffect(o: AssignOptions, c: Addr, key: string, st0: Store, st1: Store)
  {
    && HasProp(st1, c, key)
    && (if DeepInPlace(o) && Prop(st0, c, key) != Undefined
        then Prop(st1, c, key) == Prop(st0, c, key)
        else Prop(st1, c, key).Ref? && Prop(st1, c, key).addr !in st0.cells)
  }

  lemma DescendAtTarget(o: AssignOptions, c: Addr, key: string, value: Value, depth: nat, st: Store, s: set<Addr>, n: Addr)
    requires Confined(o, st, Ref(c), s, n) && Allocated(st, value) && !ByReference(o, value)
    ensures Confined(o, Descend(o, c, key, value, depth, st).store, Ref(c), s, n)
    ensures Untouched(st, Descend(o, c, key, value, depth, st).store, s, n, c)
    ensures forall k :: k != key ==> SameProp(st, Descend(o, c, key, value, depth, st).store, c, k)
    ensures Descend(o, c, key, value, depth, st).Ok() ==>
              DescendEffect(o, c, key, st, Descend(o, c, key, value, depth, st).store)
  {
    var r := Descend(o, c, key, value, depth, st);
    var (st1, existing) := Nested(st, c, key);
    NestedAtTarget(o, c, key, st, s, n);
    if depth == 0 {
      assert r.store == st1;
    } else {
      var (run2, merged) := Assign(o, [existing, value], depth - 1, st1);
      RecurseAtTarget(o, c, key, existing, value, depth - 1, st1, s, n);
      UntouchedTransitive(st, st1, run2.store, s, n, c);
      SameCellSameProps(st1, run2.store, c);
      if run2.Ok() {
        assert r.store == SetProp(run2.store, c, key, merged);
        SetPropUntouched(run2.store, c, key, merged, s, n);
        UntouchedTransitive(st, run2.store, r.store, s, n, c);
        SetPropOtherKeys(run2.store, c, key, merged);
        forall k | k != key ensures SameProp(st, r.store, c, k) {
          assert SameProp(st, st1, c, k) && SameProp(st1, run2.store, c, k);
          assert SameProp(run2.store, r.store, c, k);
        }
      } else {
        assert r == run2;
        forall k | k != key ensures SameProp(st, r.store, c, k) {
          assert SameProp(st, st1, c, k) && SameProp(st1, run2.store, c, k);
        }
      }
    }
  }
}
