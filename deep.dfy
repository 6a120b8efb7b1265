/**
 * Rule 6 of the chain, seen from the nested object: what merging a plain
 * object `w` into `target[k]` does to the object there.
 */
module DeepMerge {
  import opened Wrappers
  import opened JsValues
  import opened Options
  import opened Merge
  import opened Evolution
  import opened Frames
  import opened Effects
  import opened Outcomes
  import opened Properties
  import opened Completion

  /** A step that leaves the object at `z` alone keeps what the merge left at its keys. */
  lemma LastOutcomeKept(o: AssignOptions, z: Addr, k: string, srcs: seq<Value>, st0: Store, st1: Store, st2: Store)
    requires LastOutcome(o, z, k, srcs, st0, st1)
    requires z in st1.cells && z in st2.cells && st2.cells[z] == st1.cells[z] && Evolves(st1, st2)
    ensures LastOutcome(o, z, k, srcs, st0, st2)
  {
    SameCellSameProps(st1, st2, z);
    if LastValue(o, z, st0, srcs, k).Some? {
      OutcomeToLater(o, z, k, LastValue(o, z, st0, srcs, k).value, st0, st1, st2);
    }
  }

  lemma SetPropEvolves(st: Store, a: Addr, key: string, v: Value)
    ensures Evolves(st, SetProp(st, a, key, v))
  {
  }

  /** The nested call on an object already at `target[k]`. */
  lemma ExistingInnerMerge(o: AssignOptions, y: Value, w: Value, depth: nat, st: Store, s2: set<Addr>, n2: Addr)
    requires DeepInPlace(o) && Confined(o, st, y, s2, n2) && Stable(st, w, s2, n2, y.addr)
    ensures Assign(o, [y, w], depth, st).1 == y
    ensures Evolves(st, Assign(o, [y, w], depth, st).0.store)
    ensures IsPlain(Assign(o, [y, w], depth, st).0.store, y)
    ensures Assign(o, [y, w], depth, st).0.Ok() ==>
              forall j :: LastOutcome(o, y.addr, j, [w], st, Assign(o, [y, w], depth, st).0.store)
  {
    assert [y, w][1..] == [w];
    MergeInPlace(o, [y, w], depth, st, s2, n2);
  }

  /** The nested call on the `{}` just put at `target[k]`, measured from before it was made. */
  lemma FreshInnerMerge(o: AssignOptions, c: Addr, k: string, w: Value, depth: nat, st: Store)
    requires DeepInPlace(o) && st.Valid() && IsPlain(st, Ref(c)) && Prop(st, c, k) == Undefined
    requires IsPlain(st, w) && w != Ref(c)
    ensures Nested(st, c, k).1 == Ref(st.next) && st.next !in st.cells
    ensures Assign(o, [Nested(st, c, k).1, w], depth, Nested(st, c, k).0).1 == Ref(st.next)
    ensures Evolves(st, Assign(o, [Nested(st, c, k).1, w], depth, Nested(st, c, k).0).0.store)
    ensures IsPlain(Assign(o, [Nested(st, c, k).1, w], depth, Nested(st, c, k).0).0.store, Ref(st.next))
    ensures Assign(o, [Nested(st, c, k).1, w], depth, Nested(st, c, k).0).0.Ok() ==>
              forall j :: LastOutcome(o, st.next, j, [w], st, Assign(o, [Nested(st, c, k).1, w], depth, Nested(st, c, k).0).0.store)
  {
    var z := st.next;
    var (st1, y) := Nested(st, c, k);
    FreshNestedReady(o, c, k, w, st);
    assert [y, w][1..] == [w];
    MergeInPlace(o, [y, w], depth, st1, {}, z + 1);
    var run2 := Assign(o, [y, w], depth, st1).0;
    EvolvesTransitive(st, st1, run2.store);
    if run2.Ok() {
      forall j ensures LastOutcome(o, z, j, [w], st, run2.store) {
        LastValueAfter(o, z, st, st1, [w], j, {c}, z + 1);
        FreshBaseline(o, z, j, [w], [w], st, st1, run2.store);
      }
    }
  }

  /** The `{}` put at `target[k]`: a scope of its own, which the incoming object stays out of. */
  lemma FreshNestedReady(o: AssignOptions, c: Addr, k: string, w: Value, st: Store)
    requires DeepInPlace(o) && st.Valid() && IsPlain(st, Ref(c)) && Prop(st, c, k) == Undefined
    requires IsPlain(st, w) && w != Ref(c)
    ensures Nested(st, c, k).1 == Ref(st.next) && st.next !in st.cells
    ensures Evolves(st, Nested(st, c, k).0)
    ensures Confined(o, Nested(st, c, k).0, Ref(st.next), {}, st.next + 1)
    ensures AllStable(Nested(st, c, k).0, [w], {}, st.next + 1, st.next)
    ensures AllStable(st, [w], {c}, st.next + 1, st.next)
    ensures Untouched(st, Nested(st, c, k).0, {c}, st.next + 1, st.next)
  {
    var z := st.next;
    var (st1, y) := Nested(st, c, k);
    AllocPlainValid(st);
    var (st0, e) := AllocPlain(st);
    SetPropValid(st0, c, k, e);
    EvolvesTransitive(st, st0, st1);
    assert y == Ref(z) && st1.cells[z] == Plain([], map[]);
    assert Confined(o, st1, y, {}, z + 1);
    assert AllStable(st1, [w], {}, z + 1, z);
    assert AllStable(st, [w], {c}, z + 1, z);
    assert Untouched(st, st1, {c}, z + 1, z);
  }

  /**
   * Rule 6 in place completes when `w` merges into `target[k]` as into a
   * tree, or when `w` holds no plain object and the call stack has room.
   */
  lemma MergeCompletes(o: AssignOptions, c: Addr, k: string, w: Value, depth: nat, st: Store, s: set<Addr>, n: Addr, s2: set<Addr>, n2: Addr)
    requires DeepInPlace(o) && Confined(o, st, Ref(c), s, n)
    requires IsPlain(st, w) && !Skipped(o, Ref(c), k, w) && !Deletes(o, w)
    requires Prop(st, c, k) != Undefined ==> Confined(o, st, Prop(st, c, k), s2, n2)
    ensures Descendable(o, st, c, k, w, depth) ==> Key(o, Ref(c), k, w, depth, Run(st, NoFault)).Ok()
    ensures depth > 0 && NoNested(st, w) ==> Key(o, Ref(c), k, w, depth, Run(st, NoFault)).Ok()
  {
    if Descendable(o, st, c, k, w, depth) {
      DescendCompletes(o, c, k, w, depth, st);
    }
    if depth > 0 && NoNested(st, w) {
      FlatDescendCompletes(o, c, k, w, depth, st);
    }
  }

  /**
   * Merging a plain object `w` in place into a key of the target that is
   * `undefined` succeeds whenever `w` fits `depth` without reaching the
   * target: the `{}` put at `target[k]`, and every object merged below it,
   * is new. The key then holds that new object, whose keys end as `w`
   * decides.
   */
  lemma MergeIntoAbsentField(o: AssignOptions, c: Addr, k: string, w: Value, depth: nat, st: Store)
    requires DeepInPlace(o) && st.Valid() && IsPlain(st, Ref(c)) && Prop(st, c, k) == Undefined
    requires IsPlain(st, w) && !Skipped(o, Ref(c), k, w) && !Deletes(o, w)
    requires Fits(st, w, depth, {c})
    ensures var r := Key(o, Ref(c), k, w, depth, Run(st, NoFault));
            && r.Ok()
            && HasProp(r.store, c, k) && IsPlain(r.store, Prop(r.store, c, k))
            && Prop(r.store, c, k).addr !in st.cells
            && forall j :: LastOutcome(o, Prop(r.store, c, k).addr, j, [w], st, r.store)
  {
    FreshDeepCompletes(o, Ref(c), k, w, depth, st, {c});
    var r := Key(o, Ref(c), k, w, depth, Run(st, NoFault));
    assert r == Descend(o, c, k, w, depth, st);
    var (st1, y) := Nested(st, c, k);
    FreshInnerMerge(o, c, k, w, depth - 1, st);
    var (run2, merged) := Assign(o, [y, w], depth - 1, st1);
    assert r.store == SetProp(run2.store, c, k, y);
    SetPropEvolves(run2.store, c, k, y);
    forall j ensures LastOutcome(o, y.addr, j, [w], st, r.store) {
      LastOutcomeKept(o, y.addr, j, [w], st, run2.store, r.store);
    }
  }

  /**
   * Deep in-place merge of the plain object `w` at key `k`: the key ends up
   * holding the nested object that was there (a new `{}` where `target[k]`
   * was `undefined`), and that object's keys end as `w` decides, the others
   * keeping what they had.
   *
   * An existing nested object must itself be confined, in a scope of its
   * own, and `w` must lie outside it. The step completes when `w` merges
   * into `target[k]` as into a tree, or holds no plain object.
   */
  lemma DeepMergeInPlace(o: AssignOptions, c: Addr, k: string, w: Value, depth: nat, st: Store, s: set<Addr>, n: Addr, s2: set<Addr>, n2: Addr)
    requires DeepInPlace(o) && Confined(o, st, Ref(c), s, n)
    requires IsPlain(st, w) && !Skipped(o, Ref(c), k, w) && !Deletes(o, w)
    requires Prop(st, c, k) != Undefined ==>
               Confined(o, st, Prop(st, c, k), s2, n2) && Stable(st, w, s2, n2, Prop(st, c, k).addr)
    ensures var r := Key(o, Ref(c), k, w, depth, Run(st, NoFault));
            && (Descendable(o, st, c, k, w, depth) ==> r.Ok())
            && (depth > 0 && NoNested(st, w) ==> r.Ok())
            && (r.Ok() ==>
              && HasProp(r.store, c, k) && IsPlain(r.store, Prop(r.store, c, k))
              && (Prop(st, c, k) != Undefined ==> Prop(r.store, c, k) == Prop(st, c, k))
              && (Prop(st, c, k) == Undefined ==> Prop(r.store, c, k).addr !in st.cells)
              && forall j :: LastOutcome(o, Prop(r.store, c, k).addr, j, [w], st, r.store))
  {
    MergeCompletes(o, c, k, w, depth, st, s, n, s2, n2);
    InPlaceOutcome(o, c, k, w, depth, st, s, n, s2, n2);
  }

  /** What the step leaves at `target[k]` once it completes. */
  lemma InPlaceOutcome(o: AssignOptions, c: Addr, k: string, w: Value, depth: nat, st: Store, s: set<Addr>, n: Addr, s2: set<Addr>, n2: Addr)
    requires DeepInPlace(o) && Confined(o, st, Ref(c), s, n)
    requires IsPlain(st, w) && !Skipped(o, Ref(c), k, w) && !Deletes(o, w)
    requires Prop(st, c, k) != Undefined ==>
               Confined(o, st, Prop(st, c, k), s2, n2) && Stable(st, w, s2, n2, Prop(st, c, k).addr)
    ensures var r := Key(o, Ref(c), k, w, depth, Run(st, NoFault));
            r.Ok() ==>
              && HasProp(r.store, c, k) && IsPlain(r.store, Prop(r.store, c, k))
              && (Prop(st, c, k) != Undefined ==> Prop(r.store, c, k) == Prop(st, c, k))
              && (Prop(st, c, k) == Undefined ==> Prop(r.store, c, k).addr !in st.cells)
              && forall j :: LastOutcome(o, Prop(r.store, c, k).addr, j, [w], st, r.store)
  {
    var r := Key(o, Ref(c), k, w, depth, Run(st, NoFault));
    assert r == Descend(o, c, k, w, depth, st);
    var (st1, y) := Nested(st, c, k);
    if depth > 0 {
      var (run2, merged) := Assign(o, [y, w], depth - 1, st1);
      if Prop(st, c, k) != Undefined {
        assert st1 == st && y == Prop(st, c, k);
        assert HoldsOnlyScope(st.cells[c], s, n);
        ExistingInnerMerge(o, y, w, depth - 1, st, s2, n2);
        assert y.addr != c;
      } else {
        FreshInnerMerge(o, c, k, w, depth - 1, st);
      }
      if run2.Ok() {
        assert merged == y;
        assert r.store == SetProp(run2.store, c, k, y);
        SetPropEvolves(run2.store, c, k, y);
        forall j ensures LastOutcome(o, y.addr, j, [w], st, r.store) {
          LastOutcomeKept(o, y.addr, j, [w], st, run2.store, r.store);
        }
      } else {
        assert r == run2;
      }
    }
  }

  /** Deep merge keeps siblings: keys of the nested object that `w` does not list stay as they were. */
  lemma DeepKeepsSiblings(o: AssignOptions, c: Addr, k: string, w: Value, depth: nat, st: Store, s: set<Addr>, n: Addr, s2: set<Addr>, n2: Addr, j: string)
    requires DeepInPlace(o) && Confined(o, st, Ref(c), s, n)
    requires IsPlain(st, w) && !Skipped(o, Ref(c), k, w) && !Deletes(o, w)
    requires Prop(st, c, k) != Undefined
    requires Confined(o, st, Prop(st, c, k), s2, n2) && Stable(st, w, s2, n2, Prop(st, c, k).addr)
    requires j !in OwnKeys(st, w)
    ensures var r := Key(o, Ref(c), k, w, depth, Run(st, NoFault));
            && (Descendable(o, st, c, k, w, depth) ==> r.Ok())
            && (depth > 0 && NoNested(st, w) ==> r.Ok())
            && (r.Ok() ==>
              && Prop(r.store, c, k) == Prop(st, c, k)
              && SameProp(st, r.store, Prop(st, c, k).addr, j))
  {
    DeepMergeInPlace(o, c, k, w, depth, st, s, n, s2, n2);
    var r := Key(o, Ref(c), k, w, depth, Run(st, NoFault));
    if r.Ok() {
      var y := Prop(st, c, k);
      assert LastOutcome(o, y.addr, j, [w], st, r.store);
      NoSupplier(o, y.addr, st, [w], j);
    }
  }

  /**
   * The deletion marker removes keys at any depth: a key of `w` holding the
   * marker is gone from the nested object.
   */
  lemma NestedDeleteRemoves(o: AssignOptions, c: Addr, k: string, w: Value, depth: nat, st: Store, s: set<Addr>, n: Addr, s2: set<Addr>, n2: Addr, j: string)
    requires DeepInPlace(o) && Confined(o, st, Ref(c), s, n)
    requires IsPlain(st, w) && !Skipped(o, Ref(c), k, w) && !Deletes(o, w)
    requires Prop(st, c, k) != Undefined ==>
               Confined(o, st, Prop(st, c, k), s2, n2) && Stable(st, w, s2, n2, Prop(st, c, k).addr)
    requires j in OwnKeys(st, w) && Get(st, w, j) == o.deleteValue != Undefined && o.deleteValue != Prop(st, c, k)
    requires !Includes(o.ignoreKeys, Str(j)) && !Includes(o.ignoreValues, o.deleteValue)
    ensures var r := Key(o, Ref(c), k, w, depth, Run(st, NoFault));
            && (Descendable(o, st, c, k, w, depth) ==> r.Ok())
            && (depth > 0 && NoNested(st, w) ==> r.Ok())
            && (r.Ok() ==> HasProp(r.store, c, k) && IsPlain(r.store, Prop(r.store, c, k)) && !HasProp(r.store, Prop(r.store, c, k).addr, j))
  {
    DeepMergeInPlace(o, c, k, w, depth, st, s, n, s2, n2);
    var r := Key(o, Ref(c), k, w, depth, Run(st, NoFault));
    if r.Ok() {
      var z := Prop(r.store, c, k).addr;
      assert LastOutcome(o, z, j, [w], st, r.store);
      LastValueAt(o, z, st, [w], j, 0);
    }
  }

  /** The sources the nested copy merges: the value already at `target[k]`, if any, then `w`. */
  ghost function NestedSources(st: Store, c: Addr, k: string, w: Value): (srcs: seq<Value>)
  {
    if Prop(st, c, k) == Undefined then [w] else [Prop(st, c, k), w]
  }

  /**
   * Deep merge in copy mode: the key ends up holding a new object, the merge
   * of what was at `target[k]` and of `w`, and no other object changes.
   */
  lemma DeepMergeCopy(o: AssignOptions, c: Addr, k: string, w: Value, depth: nat, st: Store)
    requires o.returnCopy && !o.shallow && st.Valid() && IsPlain(st, Ref(c))
    requires IsPlain(st, w) && !Skipped(o, Ref(c), k, w) && !Deletes(o, w)
    ensures var r := Key(o, Ref(c), k, w, depth, Run(st, NoFault));
            && SameExcept(st, r.store, Ref(c))
            && (r.Ok() ==>
                  && HasProp(r.store, c, k) && IsPlain(r.store, Prop(r.store, c, k))
                  && Prop(r.store, c, k).addr !in st.cells
                  && forall j :: LastOutcome(o, Prop(r.store, c, k).addr, j, NestedSources(st, c, k, w), st, r.store))
  {
    var r := Key(o, Ref(c), k, w, depth, Run(st, NoFault));
    KeyTouchesOnlyTarget(o, Ref(c), k, w, depth, Run(st, NoFault));
    assert r == Descend(o, c, k, w, depth, st);
    var (st1, y) := Nested(st, c, k);
    if Prop(st, c, k) == Undefined {
      AllocPlainValid(st);
      var (st0, e) := AllocPlain(st);
      SetPropValid(st0, c, k, e);
      EvolvesTransitive(st, st0, st1);
    } else {
      PropAllocated(st, c, k);
    }
    if depth > 0 {
      MergeCopy(o, [y, w], depth - 1, st1);
      var (run2, merged) := Assign(o, [y, w], depth - 1, st1);
      var z := st1.next;
      if run2.Ok() {
        assert r.store == SetProp(run2.store, c, k, merged);
        SetPropEvolves(run2.store, c, k, merged);
        forall j ensures LastOutcome(o, z, j, NestedSources(st, c, k, w), st, r.store) {
          CopyBaseline(o, c, k, w, st, run2.store, j);
          LastOutcomeKept(o, z, j, NestedSources(st, c, k, w), st, run2.store, r.store);
        }
      } else {
        assert r == run2;
      }
    }
  }

  /** The nested copy's outcomes, measured from before `target[k]` was made `{}`. */
  lemma CopyBaseline(o: AssignOptions, c: Addr, k: string, w: Value, st: Store, st2: Store, j: string)
    requires st.Valid() && IsPlain(st, Ref(c)) && IsPlain(st, w) && w != Ref(c)
    requires Nested(st, c, k).0.Valid() && Evolves(st, Nested(st, c, k).0)
    requires LastOutcome(o, Nested(st, c, k).0.next, j, [Nested(st, c, k).1, w], Nested(st, c, k).0, st2)
    ensures LastOutcome(o, Nested(st, c, k).0.next, j, NestedSources(st, c, k, w), st, st2)
  {
    var (st1, y) := Nested(st, c, k);
    var z := st1.next;
    assert [y, w][1..] == [w];
    if Prop(st, c, k) != Undefined {
      assert st1 == st;
    } else {
      assert y == Ref(st.next) && OwnKeys(st1, y) == [];
      assert LastValue(o, z, st1, [y, w], j) == LastValue(o, z, st1, [w], j);
      assert AllStable(st, [w], {c}, z, z);
      assert Untouched(st, st1, {c}, z, z);
      LastValueAfter(o, z, st, st1, [w], j, {c}, z);
      FreshBaseline(o, z, j, [w], [y, w], st, st1, st2);
    }
  }
}
