/** The optional-value wrapper used across the model. */
module Wrappers {
  datatype Option<+T> = None | Some(value: T)
}

/**
 * JavaScript values and the object store a merge reads and writes.
 *
 * Plain objects and arrays live in the store and are referred to by address,
 * so that reference identity (`===` on objects) is address equality. Every
 * other value is immediate; symbols, functions and DOM elements carry an id
 * that stands for their identity.
 */
module JsValues {
  import opened Wrappers

  type Addr = nat

  datatype Value =
    | Undefined
    | Null
    | Bool(b: bool)
    | Num(n: int)
    | Str(s: string)
    | Symbol(id: nat)
    | Function(id: nat)
    | Element(id: nat)
    | Ref(addr: Addr)

  /** A heap cell: a plain object with its keys in insertion order, or an array. */
  datatype Cell =
    | Plain(keys: seq<string>, props: map<string, Value>)
    | Array(elems: seq<Value>)

  ghost predicate NoDuplicates(keys: seq<string>)
  {
    forall i, j :: 0 <= i < j < |keys| ==> keys[i] != keys[j]
  }

  /** The key list of a plain object lists each of its properties exactly once. */
  ghost predicate WellFormedCell(c: Cell)
  {
    c.Plain? ==> NoDuplicates(c.keys) && (forall k :: k in c.keys <==> k in c.props)
  }

  /** A reference is to an object that exists. */
  ghost predicate AllocatedIn(cells: map<Addr, Cell>, v: Value)
  {
    v.Ref? ==> v.addr in cells
  }

  /** Every reference a cell holds is to an object that exists. */
  ghost predicate CellClosed(c: Cell, cells: map<Addr, Cell>)
  {
    match c
    case Plain(_, props) => forall k :: k in props ==> AllocatedIn(cells, props[k])
    case Array(elems) => forall i :: 0 <= i < |elems| ==> AllocatedIn(cells, elems[i])
  }

  /**
   * `next` is the address the next allocation will use; every object is
   * well formed and refers only to objects that exist.
   */
  datatype Store = Store(cells: map<Addr, Cell>, next: Addr) {
    ghost predicate Valid()
    {
      && (forall a :: a in cells ==> a < next)
      && (forall a :: a in cells ==> WellFormedCell(cells[a]))
      && (forall a :: a in cells ==> CellClosed(cells[a], cells))
    }
  }

  ghost predicate Allocated(st: Store, v: Value)
  {
    AllocatedIn(st.cells, v)
  }

  predicate IsPlain(st: Store, v: Value)
  {
    v.Ref? && v.addr in st.cells && st.cells[v.addr].Plain?
  }

  /** `Array.isArray(v)` */
  predicate IsArray(st: Store, v: Value)
  {
    v.Ref? && v.addr in st.cells && st.cells[v.addr].Array?
  }

  /** The property `key` of the plain object at `a`; `undefined` when it is absent. */
  function Prop(st: Store, a: Addr, key: string): (v: Value)
  {
    if a in st.cells && st.cells[a].Plain? && key in st.cells[a].props
    then st.cells[a].props[key] else Undefined
  }

  /** Whether the plain object at `a` has an own property `key`. */
  predicate HasProp(st: Store, a: Addr, key: string)
  {
    a in st.cells && st.cells[a].Plain? && key in st.cells[a].props
  }

  function DigitChar(d: nat): (c: char)
    requires d < 10
    ensures '0' <= c <= '9'
  {
    "0123456789"[d]
  }

  /** The decimal spelling of an array or string index, as `Object.keys` gives it. */
  function NatToString(n: nat): (s: string)
    ensures |s| > 0
    ensures forall i :: 0 <= i < |s| ==> '0' <= s[i] <= '9'
  {
    if n < 10 then [DigitChar(n)] else NatToString(n / 10) + [DigitChar(n % 10)]
  }

  /** The keys "0", "1", ... "n-1". */
  function IndexKeys(n: nat): (ks: seq<string>)
    ensures |ks| == n
    ensures forall i :: 0 <= i < n ==> ks[i] == NatToString(i)
  {
    if n == 0 then [] else IndexKeys(n - 1) + [NatToString(n - 1)]
  }

  lemma DigitCharInjective(d: nat, e: nat)
    requires d < 10 && e < 10 && DigitChar(d) == DigitChar(e)
    ensures d == e
  {
    assert "0123456789"[d] == "0123456789"[e];
  }

  /** Different indices are spelt differently. */
  lemma {:induction false} NatToStringInjective(m: nat, n: nat)
    requires NatToString(m) == NatToString(n)
    ensures m == n
  {
    if m < 10 && n < 10 {
      DigitCharInjective(m, n);
    } else if m >= 10 && n >= 10 {
      var sm, sn := NatToString(m), NatToString(n);
      assert sm[|sm| - 1] == sn[|sn| - 1];
      DigitCharInjective(m % 10, n % 10);
      assert NatToString(m / 10) == sm[..|sm| - 1] == sn[..|sn| - 1] == NatToString(n / 10);
      NatToStringInjective(m / 10, n / 10);
    }
  }

  lemma IndexKeysDistinct(n: nat)
    ensures NoDuplicates(IndexKeys(n))
  {
    forall i, j | 0 <= i < j < n ensures IndexKeys(n)[i] != IndexKeys(n)[j] {
      if NatToString(i) == NatToString(j) {
        NatToStringInjective(i, j);
      }
    }
  }

  /** The first index in [i, n) whose spelling is `key`. */
  function IndexOf(key: string, n: nat, i: nat): (r: Option<nat>)
    ensures r.Some? ==> i <= r.value < n && NatToString(r.value) == key
    ensures r.None? ==> forall j :: i <= j < n ==> NatToString(j) != key
    decreases n - i
  {
    if i >= n then None
    else if NatToString(i) == key then Some(i)
    else IndexOf(key, n, i + 1)
  }

  /** `Object.keys(v)` for a value that is neither null nor undefined. */
  function OwnKeys(st: Store, v: Value): (ks: seq<string>)
  {
    match v
    case Ref(a) =>
      if a !in st.cells then []
      else (match st.cells[a]
            case Plain(keys, _) => keys
            case Array(elems) => IndexKeys(|elems|))
    case Str(s) => IndexKeys(|s|)
    case _ => []
  }

  /** `Object.keys` lists no key twice. */
  lemma OwnKeysDistinct(st: Store, v: Value)
    requires st.Valid()
    ensures NoDuplicates(OwnKeys(st, v))
  {
    if v.Ref? && v.addr in st.cells {
      if st.cells[v.addr].Plain? {
        assert WellFormedCell(st.cells[v.addr]);
      } else {
        IndexKeysDistinct(|st.cells[v.addr].elems|);
      }
    } else if v.Str? {
      IndexKeysDistinct(|v.s|);
    }
  }

  /** `v[key]` for a value that is neither null nor undefined. */
  function Get(st: Store, v: Value, key: string): (r: Value)
  {
    match v
    case Ref(a) =>
      if a !in st.cells then Undefined
      else (match st.cells[a]
            case Plain(_, props) => if key in props then props[key] else Undefined
            case Array(elems) =>
              (match IndexOf(key, |elems|, 0)
               case Some(i) => elems[i]
               case None => Undefined))
    case Str(s) =>
      (match IndexOf(key, |s|, 0)
       case Some(i) => Str([s[i]])
       case None => Undefined)
    case _ => Undefined
  }

  /** `{}`: a fresh empty plain object. */
  function AllocPlain(st: Store): (r: (Store, Value))
  {
    (Store(st.cells[st.next := Plain([], map[])], st.next + 1), Ref(st.next))
  }

  /** A fresh array holding `elems`. */
  function AllocArray(st: Store, elems: seq<Value>): (r: (Store, Value))
  {
    (Store(st.cells[st.next := Array(elems)], st.next + 1), Ref(st.next))
  }

  /** `target[key] = v` on the plain object at `a`: a new key goes last. */
  function SetProp(st: Store, a: Addr, key: string, v: Value): (r: Store)
  {
    if a in st.cells && st.cells[a].Plain? then
      var c := st.cells[a];
      var keys := if key in c.props then c.keys else c.keys + [key];
      Store(st.cells[a := Plain(keys, c.props[key := v])], st.next)
    else st
  }

  /** `keys` with every occurrence of `key` removed, order kept. */
  function Without(keys: seq<string>, key: string): (r: seq<string>)
    ensures forall k :: k in r <==> k in keys && k != key
    ensures NoDuplicates(keys) ==> NoDuplicates(r)
    ensures key !in keys ==> r == keys
  {
    if keys == [] then []
    else if keys[0] == key then Without(keys[1..], key)
    else
      assert NoDuplicates(keys) ==> NoDuplicates(keys[1..]) && keys[0] !in keys[1..];
      [keys[0]] + Without(keys[1..], key)
  }

  /** `delete` takes out the one occurrence of `key` and keeps the other keys in their order. */
  lemma {:induction false} WithoutKeepsOrder(keys: seq<string>, key: string, i: nat)
    requires i < |keys| && keys[i] == key && NoDuplicates(keys)
    ensures Without(keys, key) == keys[..i] + keys[i + 1..]
  {
    var rest := keys[1..];
    TailNoDuplicates(keys);
    if i == 0 {
      assert Without(keys, key) == Without(rest, key) == rest;
      assert keys[..0] + keys[1..] == rest;
    } else {
      assert keys[0] != keys[i];
      assert Without(keys, key) == [keys[0]] + Without(rest, key);
      WithoutKeepsOrder(rest, key, i - 1);
      assert keys[..i] == [keys[0]] + rest[..i - 1];
      assert keys[i + 1..] == rest[i..];
    }
  }

  /** A key list without duplicates: its tail has none, and does not hold its head. */
  lemma TailNoDuplicates(keys: seq<string>)
    requires |keys| > 0 && NoDuplicates(keys)
    ensures NoDuplicates(keys[1..]) && keys[0] !in keys[1..]
  {
    var rest := keys[1..];
    forall p, q | 0 <= p < q < |rest| ensures rest[p] != rest[q] {
      assert rest[p] == keys[p + 1] && rest[q] == keys[q + 1];
    }
    forall q | 0 <= q < |rest| ensures rest[q] != keys[0] {
      assert rest[q] == keys[q + 1];
    }
  }

  /** `delete target[key]` on the plain object at `a`. */
  function DeleteProp(st: Store, a: Addr, key: string): (r: Store)
  {
    if a in st.cells && st.cells[a].Plain? then
      var c := st.cells[a];
      Store(st.cells[a := Plain(Without(c.keys, key), c.props - {key})], st.next)
    else st
  }
}
