/**
 * The merge as the source runs it: a heap of objects updated in place, with
 * nested loops over the sources and their keys and a recursive call for a
 * nested plain object. Every method is proved to end in exactly the run the
 * functions of module Merge describe.
 */
module Engine {
  import opened JsValues
  import opened Options
  import opened Merge

  /** The JavaScript heap: every plain object and array, by address. */
  class Heap {
    var cells: map<Addr, Cell>
    var next: Addr

    function State(): Store
      reads this
    {
      Store(cells, next)
    }

    constructor (st: Store)
      ensures State() == st
    {
      cells := st.cells;
      next := st.next;
    }

    /** `{}` */
    method NewObject() returns (r: Value)
      modifies this
      ensures (State(), r) == AllocPlain(old(State()))
    {
      r := Ref(next);
      cells := cells[next := Plain([], map[])];
      next := next + 1;
    }

    /** `value.slice()` of an array holding `elems`. */
    method NewArray(elems: seq<Value>) returns (r: Value)
      modifies this
      ensures (State(), r) == AllocArray(old(State()), elems)
    {
      r := Ref(next);
      cells := cells[next := Array(elems)];
      next := next + 1;
    }

    /** `target[key] = v` */
    method Put(a: Addr, key: string, v: Value)
      modifies this
      ensures State() == SetProp(old(State()), a, key, v)
    {
      if a in cells && cells[a].Plain? {
        var c := cells[a];
        var keys := if key in c.props then c.keys else c.keys + [key];
        cells := cells[a := Plain(keys, c.props[key := v])];
      }
    }

    /** `delete target[key]` */
    method Remove(a: Addr, key: string)
      modifies this
      ensures State() == DeleteProp(old(State()), a, key)
    {
      if a in cells && cells[a].Plain? {
        var c := cells[a];
        cells := cells[a := Plain(Without(c.keys, key), c.props - {key})];
      }
    }

    /**
     * `assignWithOptions(o, ...args)` with room for `depth` nested calls;
     * `fault` is `NoFault` unless the call stopped early.
     */
    method AssignWithOptions(o: AssignOptions, args: seq<Value>, depth: nat) returns (fault: Fault, target: Value)
      modifies this
      decreases depth, 1
      ensures (Run(State(), fault), target) == Merge.Assign(o, args, depth, old(State()))
    {
      var i := 0;
      if o.returnCopy {
        target := NewObject();
      } else {
        target := if |args| > 0 then args[0] else Undefined;
        i := if |args| > 0 then 1 else 0;
      }
      ghost var start := Run(State(), NoFault);
      assert args[i..] == SourceArgs(o, args);
      fault := NoFault;
      while i < |args| && fault == NoFault
        invariant 0 <= i <= |args|
        invariant Sources(o, target, args[i..], depth, Run(State(), fault))
               == Sources(o, target, SourceArgs(o, args), depth, start)
      {
        var source := args[i];
        ghost var before := Run(State(), NoFault);
        if source != Undefined && source != Null {
          var keys := OwnKeys(State(), source);
          var j := 0;
          while j < |keys| && fault == NoFault
            invariant 0 <= j <= |keys|
            invariant Keys(o, target, source, keys[j..], depth, Run(State(), fault))
                   == Keys(o, target, source, keys, depth, before)
          {
            var key := keys[j];
            var value := Get(State(), source, key);
            fault := AssignKey(o, target, key, value, depth);
            j := j + 1;
          }
        }
        assert Run(State(), fault) == Source(o, target, source, depth, before);
        i := i + 1;
      }
    }

    /** The rule chain for `key` of a source whose value there is `value`. */
    method AssignKey(o: AssignOptions, target: Value, key: string, value: Value, depth: nat) returns (fault: Fault)
      modifies this
      decreases depth, 0
      ensures Run(State(), fault) == Key(o, target, key, value, depth, Run(old(State()), NoFault))
    {
      fault := NoFault;
      if Skipped(o, target, key, value) {
      } else if !IsPlain(State(), target) {
        fault := UnsupportedTarget;
      } else if Deletes(o, value) {
        Remove(target.addr, key);
      } else if IsArray(State(), value) {
        var copy := NewArray(cells[value.addr].elems);
        Put(target.addr, key, copy);
      } else if ByReference(o, value) {
        Put(target.addr, key, value);
      } else {
        if Prop(State(), target.addr, key) == Undefined {
          var empty := NewObject();
          Put(target.addr, key, empty);
        }
        var existing := Prop(State(), target.addr, key);
        if depth == 0 {
          fault := StackExhausted;
        } else {
          var merged;
          fault, merged := AssignWithOptions(o, [existing, value], depth - 1);
          if fault == NoFault {
            Put(target.addr, key, merged);
          }
        }
      }
    }
  }
}
