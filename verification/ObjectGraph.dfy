/** The object graph the collector walks (src/gc_heap.cpp, `visitValue`, `forEachChild`
    and the switch in `sweep`), with shared_ptr counts. */
module ObjectGraph {
  import opened NodeTables

  /** A runtime value: either carries no traced pointer, or holds a shared_ptr (maybe null). */
  datatype Value = Prim | Ref(target: Addr)

  datatype Field = Field(name: string, value: Value)
  datatype MapEntry = MapEntry(key: Value, value: Value)

  /** What an object holds, one constructor per class the enumerator distinguishes.
      Pointers are addresses, 0 for null. */
  datatype Body =
    | Array(elements: seq<Value>)
    | Tagged(values: seq<Value>)
    | Map(entries: seq<MapEntry>)
    | Set(members: seq<Value>)
    | Instance(klass: Addr, fields: seq<Field>)
    | Class(superclass: Addr, vmMethods: seq<Field>, vmStaticMethods: seq<Field>,
            methodDecorators: seq<seq<Value>>, classClosure: Addr)
    | Generator(lastYielded: Value, sendValue: Value, savedStack: seq<Value>, fiberEnv: Addr)
    | Environment(variables: seq<Field>, parent: Addr)
    | External
    | Function(closure: Addr)                 // functions, lambdas and their generator forms
    | Method(methodClosure: Addr, instance: Addr, definingClass: Addr)
    | BoundMethod(receiver: Value, boundClass: Addr, boundOwner: Addr)
    | VMClosure(upvalues: seq<Addr>, constants: seq<Value>, taskOwnership: Addr)
    | Native                                  // captures cannot be enumerated
    | Upvalue(closed: bool, content: Value)
    | TaskOwnership(owned: seq<Addr>)

  datatype GcType =
    | GArray | GTagged | GMap | GSet | GInstance | GClass | GGenerator | GEnvironment | GExternal

  /** Callables, upvalues and ownership bags are never tracked, so sweep empties none. */
  predicate NeverCleared(b: Body) {
    KindOf(b) in {KCallable, KUpvalue, KTaskOwnership}
  }

  datatype Edge = Edge(target: Addr, owning: bool)

  /** One heap object. `count` is its shared_ptr count without the references the
      collector itself takes; `serial` tells apart objects that reuse an address. */
  datatype Object = Object(serial: nat, body: Body, count: nat)

  type Store = map<Addr, Object>
  type Outside = map<Addr, nat>      // references no enumerated edge accounts for

  function KindOf(b: Body): Kind {
    match b
    case Array(_) => KArray
    case Tagged(_) => KTagged
    case Map(_) => KMap
    case Set(_) => KSet
    case Instance(_, _) => KInstance
    case Class(_, _, _, _, _) => KClass
    case Generator(_, _, _, _) => KGenerator
    case Environment(_, _) => KEnvironment
    case External => KExternal
    case Function(_) => KCallable
    case Method(_, _, _) => KCallable
    case BoundMethod(_, _, _) => KCallable
    case VMClosure(_, _, _) => KCallable
    case Native => KCallable
    case Upvalue(_, _) => KUpvalue
    case TaskOwnership(_) => KTaskOwnership
  }

  function NodeKindOf(t: GcType): Kind {
    match t
    case GArray => KArray
    case GTagged => KTagged
    case GMap => KMap
    case GSet => KSet
    case GInstance => KInstance
    case GClass => KClass
    case GGenerator => KGenerator
    case GEnvironment => KEnvironment
    case GExternal => KExternal
  }

  // ---------------------------------------------------------------------------
  // Edge enumeration
  // ---------------------------------------------------------------------------

  function VisitPtr(p: Addr, owning: bool): seq<Edge> {
    if p == 0 then [] else [Edge(p, owning)]
  }

  function VisitValue(v: Value, owning: bool): seq<Edge> {
    if v.Prim? then [] else VisitPtr(v.target, owning)
  }

  function VisitValues(vs: seq<Value>, owning: bool): seq<Edge> {
    if vs == [] then [] else VisitValue(vs[0], owning) + VisitValues(vs[1..], owning)
  }

  function VisitFields(fs: seq<Field>): seq<Edge> {
    if fs == [] then [] else VisitValue(fs[0].value, true) + VisitFields(fs[1..])
  }

  function VisitEntries(es: seq<MapEntry>): seq<Edge> {
    if es == [] then []
    else VisitValue(es[0].key, true) + VisitValue(es[0].value, true) + VisitEntries(es[1..])
  }

  function VisitDecorators(ds: seq<seq<Value>>): seq<Edge> {
    if ds == [] then [] else VisitValues(ds[0], true) + VisitDecorators(ds[1..])
  }

  function VisitPtrs(ps: seq<Addr>, owning: bool): seq<Edge> {
    if ps == [] then [] else VisitPtr(ps[0], owning) + VisitPtrs(ps[1..], owning)
  }

  /** The outgoing edges of an object, in enumeration order. */
  function Children(b: Body): seq<Edge> {
    match b
    case Array(es) => VisitValues(es, true)
    case Tagged(vs) => VisitValues(vs, true)
    case Map(es) => VisitEntries(es)
    case Set(es) => VisitValues(es, true)
    case Instance(k, fs) => VisitPtr(k, true) + VisitFields(fs)
    case Class(s, ms, ss, ds, c) =>
      VisitPtr(s, true) + VisitFields(ms) + VisitFields(ss) + VisitDecorators(ds) + VisitPtr(c, true)
    case Generator(l, s, st, env) =>
      VisitValue(l, true) + VisitValue(s, true) + VisitValues(st, true) + VisitPtr(env, true)
    case Environment(vs, p) => VisitFields(vs) + VisitPtr(p, true)
    case External => []
    case Function(c) => VisitPtr(c, true)
    case Method(c, i, k) => VisitPtr(c, true) + VisitPtr(i, true) + VisitPtr(k, true)
    case BoundMethod(r, k, t) => VisitValue(r, true) + VisitPtr(k, true) + VisitPtr(t, true)
    case VMClosure(us, cs, t) => VisitPtrs(us, false) + VisitValues(cs, false) + VisitPtr(t, true)
    case Native => []
    case Upvalue(closed, v) => if closed then VisitValue(v, true) else []
    case TaskOwnership(us) => VisitPtrs(us, true)
  }

  /** What sweep leaves of a collected object of each tracked type. */
  function Cleared(t: GcType, b: Body): Body
    requires NodeKindOf(t) == KindOf(b)
  {
    match t
    case GArray => b.(elements := [])
    case GTagged => b.(values := [])
    case GMap => b.(entries := [])
    case GSet => b.(members := [])
    case GInstance => b.(fields := [], klass := 0)
    case GClass =>
      b.(vmMethods := [], vmStaticMethods := [], methodDecorators := [], superclass := 0,
         classClosure := 0)
    case GGenerator => b.(lastYielded := Prim, sendValue := Prim, savedStack := [], fiberEnv := 0)
    case GEnvironment => b.(variables := [], parent := 0)
    case GExternal => b
  }

  /** Sweep's switch resets everything the enumerator reports, for every tracked type. */
  lemma ClearedHasNoChildren(t: GcType, b: Body)
    requires NodeKindOf(t) == KindOf(b)
    ensures Children(Cleared(t, b)) == []
    ensures KindOf(Cleared(t, b)) == KindOf(b)
  {
    match t
    case GArray =>
    case GTagged =>
    case GMap =>
    case GSet =>
    case GInstance =>
    case GClass =>
      assert Children(Cleared(t, b)) == VisitPtr(0, true) + [] + [] + [] + VisitPtr(0, true);
    case GGenerator =>
    case GEnvironment =>
    case GExternal =>
  }

  // ---------------------------------------------------------------------------
  // Counting references
  // ---------------------------------------------------------------------------

  /** How many of these edges are owning references to `n`. */
  function EdgeCount(es: seq<Edge>, n: Addr): nat {
    if es == [] then 0
    else EdgeCount(es[..|es| - 1], n) + (if es[|es| - 1] == Edge(n, true) then 1 else 0)
  }

  lemma {:induction false} EdgeCountZero(es: seq<Edge>, n: Addr)
    ensures EdgeCount(es, n) == 0 <==> Edge(n, true) !in es
  {
    if es != [] {
      EdgeCountZero(es[..|es| - 1], n);
      assert es == es[..|es| - 1] + [es[|es| - 1]];
    }
  }

  function EdgesOf(store: Store, a: Addr): seq<Edge>
    requires a in store
  {
    Children(store[a].body)
  }

  /** The number of owning references to `n` from the objects in `s`. */
  ghost function OwnersIn(store: Store, s: set<Addr>, n: Addr): nat
    requires s <= store.Keys
  {
    if s == {} then 0
    else var a :| a in s; EdgeCount(EdgesOf(store, a), n) + OwnersIn(store, s - {a}, n)
  }

  lemma {:induction false} OwnersTakeOut(store: Store, s: set<Addr>, a: Addr, n: Addr)
    requires s <= store.Keys && a in s
    ensures OwnersIn(store, s, n) == EdgeCount(EdgesOf(store, a), n) + OwnersIn(store, s - {a}, n)
  {
    var b :| b in s && OwnersIn(store, s, n) ==
                         EdgeCount(EdgesOf(store, b), n) + OwnersIn(store, s - {b}, n);
    if a != b {
      OwnersTakeOut(store, s - {b}, a, n);
      OwnersTakeOut(store, s - {a}, b, n);
      assert s - {a} - {b} == s - {b} - {a};
    }
  }

  lemma OwnersAdd(store: Store, s: set<Addr>, a: Addr, n: Addr)
    requires s <= store.Keys && a in store && a !in s
    ensures OwnersIn(store, s + {a}, n) == OwnersIn(store, s, n) + EdgeCount(EdgesOf(store, a), n)
  {
    OwnersTakeOut(store, s + {a}, a, n);
    assert s + {a} - {a} == s;
  }

  lemma {:induction false} OwnersSplit(store: Store, s: set<Addr>, t: set<Addr>, n: Addr)
    requires s <= store.Keys && t <= store.Keys && s !! t
    ensures OwnersIn(store, s + t, n) == OwnersIn(store, s, n) + OwnersIn(store, t, n)
    decreases s
  {
    if s == {} {
      assert s + t == t;
    } else {
      var a :| a in s;
      OwnersTakeOut(store, s, a, n);
      OwnersTakeOut(store, s + t, a, n);
      assert s + t - {a} == (s - {a}) + t;
      OwnersSplit(store, s - {a}, t, n);
    }
  }

  ghost predicate Owns(store: Store, a: Addr, n: Addr) {
    a in store && Edge(n, true) in EdgesOf(store, a)
  }

  lemma {:induction false} OwnersZero(store: Store, s: set<Addr>, n: Addr)
    requires s <= store.Keys
    ensures OwnersIn(store, s, n) == 0 <==> forall a | a in s :: !Owns(store, a, n)
  {
    if s != {} {
      var a :| a in s;
      OwnersTakeOut(store, s, a, n);
      OwnersZero(store, s - {a}, n);
      EdgeCountZero(EdgesOf(store, a), n);
    }
  }

  /** Owner counts depend only on the bodies of the objects counted. */
  lemma {:induction false} OwnersFrame(store: Store, store': Store, s: set<Addr>, n: Addr)
    requires s <= store.Keys && s <= store'.Keys
    requires forall a | a in s :: store[a].body == store'[a].body
    ensures OwnersIn(store, s, n) == OwnersIn(store', s, n)
  {
    if s != {} {
      var a :| a in s;
      OwnersTakeOut(store, s, a, n);
      OwnersTakeOut(store', s, a, n);
      OwnersFrame(store, store', s - {a}, n);
    }
  }

  // ---------------------------------------------------------------------------
  // What the enumerator reports, read off the fields
  // ---------------------------------------------------------------------------

  /** One of the object's fields holds a pointer to `n` and owns a reference. */
  ghost predicate OwnsInField(b: Body, n: Addr) {
    match b
    case Array(es) => Ref(n) in es
    case Tagged(vs) => Ref(n) in vs
    case Map(es) => exists e | e in es :: e.key == Ref(n) || e.value == Ref(n)
    case Set(ms) => Ref(n) in ms
    case Instance(k, fs) => k == n || HasField(fs, n)
    case Class(s, ms, ss, ds, c) =>
      s == n || c == n || HasField(ms, n) || HasField(ss, n) || exists d | d in ds :: Ref(n) in d
    case Generator(l, s, st, env) => l == Ref(n) || s == Ref(n) || Ref(n) in st || env == n
    case Environment(vs, p) => HasField(vs, n) || p == n
    case External => false
    case Function(c) => c == n
    case Method(c, i, k) => c == n || i == n || k == n
    case BoundMethod(r, k, o) => r == Ref(n) || k == n || o == n
    case VMClosure(_, _, t) => t == n
    case Native => false
    case Upvalue(closed, v) => closed && v == Ref(n)
    case TaskOwnership(us) => n in us
  }

  ghost predicate HasField(fs: seq<Field>, n: Addr) {
    exists f | f in fs :: f.value == Ref(n)
  }

  /** A closure refers to its upvalues and constants without owning them; nothing else does. */
  ghost predicate RefersInField(b: Body, n: Addr) {
    b.VMClosure? && (n in b.upvalues || Ref(n) in b.constants)
  }

  /** How many references to `n` the fields own. */
  ghost function FieldCount(b: Body, n: Addr): nat {
    match b
    case Array(es) => multiset(es)[Ref(n)]
    case Tagged(vs) => multiset(vs)[Ref(n)]
    case Map(es) => multiset(Keys(es))[Ref(n)] + multiset(MapValues(es))[Ref(n)]
    case Set(ms) => multiset(ms)[Ref(n)]
    case Instance(k, fs) => One(k == n) + multiset(FieldValues(fs))[Ref(n)]
    case Class(s, ms, ss, ds, c) =>
      One(s == n) + One(c == n) + multiset(FieldValues(ms))[Ref(n)] + multiset(FieldValues(ss))[Ref(n)]
      + multiset(Flat(ds))[Ref(n)]
    case Generator(l, s, st, env) => One(l == Ref(n)) + One(s == Ref(n)) + multiset(st)[Ref(n)] + One(env == n)
    case Environment(vs, p) => multiset(FieldValues(vs))[Ref(n)] + One(p == n)
    case External => 0
    case Function(c) => One(c == n)
    case Method(c, i, k) => One(c == n) + One(i == n) + One(k == n)
    case BoundMethod(r, k, o) => One(r == Ref(n)) + One(k == n) + One(o == n)
    case VMClosure(_, _, t) => One(t == n)
    case Native => 0
    case Upvalue(closed, v) => One(closed && v == Ref(n))
    case TaskOwnership(us) => multiset(us)[n]
  }

  function One(b: bool): nat {
    if b then 1 else 0
  }

  function FieldValues(fs: seq<Field>): seq<Value> {
    seq(|fs|, i requires 0 <= i < |fs| => fs[i].value)
  }

  function Keys(es: seq<MapEntry>): seq<Value> {
    seq(|es|, i requires 0 <= i < |es| => es[i].key)
  }

  function MapValues(es: seq<MapEntry>): seq<Value> {
    seq(|es|, i requires 0 <= i < |es| => es[i].value)
  }

  function Flat(ds: seq<seq<Value>>): seq<Value> {
    if ds == [] then [] else ds[0] + Flat(ds[1..])
  }

  lemma {:induction false} EdgeCountAdds(a: seq<Edge>, b: seq<Edge>, n: Addr)
    ensures EdgeCount(a + b, n) == EdgeCount(a, n) + EdgeCount(b, n)
  {
    if b == [] {
      assert a + b == a;
    } else {
      EdgeCountAdds(a, b[..|b| - 1], n);
      assert (a + b)[..|a + b| - 1] == a + b[..|b| - 1];
    }
  }

  lemma PtrCount(p: Addr, n: Addr)
    requires n != 0
    ensures EdgeCount(VisitPtr(p, true), n) == One(p == n)
    ensures EdgeCount(VisitPtr(p, false), n) == 0
  {
    if p != 0 { EdgeCountZero([Edge(p, false)], n); }
  }

  lemma ValueCount(v: Value, n: Addr)
    requires n != 0
    ensures EdgeCount(VisitValue(v, true), n) == One(v == Ref(n))
    ensures EdgeCount(VisitValue(v, false), n) == 0
  {
    if v.Ref? { PtrCount(v.target, n); }
  }

  lemma FirstOf<T>(xs: seq<T>, x: T)
    requires xs != []
    ensures multiset(xs)[x] == One(xs[0] == x) + multiset(xs[1..])[x]
  {
    assert xs == [xs[0]] + xs[1..];
  }

  lemma {:induction false} ValuesCount(vs: seq<Value>, n: Addr)
    requires n != 0
    ensures EdgeCount(VisitValues(vs, true), n) == multiset(vs)[Ref(n)]
    ensures EdgeCount(VisitValues(vs, false), n) == 0
  {
    if vs != [] {
      ValuesCount(vs[1..], n);
      ValueCount(vs[0], n);
      EdgeCountAdds(VisitValue(vs[0], true), VisitValues(vs[1..], true), n);
      EdgeCountAdds(VisitValue(vs[0], false), VisitValues(vs[1..], false), n);
      FirstOf(vs, Ref(n));
    }
  }

  lemma {:induction false} PtrsCount(ps: seq<Addr>, n: Addr)
    requires n != 0
    ensures EdgeCount(VisitPtrs(ps, true), n) == multiset(ps)[n]
    ensures EdgeCount(VisitPtrs(ps, false), n) == 0
  {
    if ps != [] {
      PtrsCount(ps[1..], n);
      PtrCount(ps[0], n);
      EdgeCountAdds(VisitPtr(ps[0], true), VisitPtrs(ps[1..], true), n);
      EdgeCountAdds(VisitPtr(ps[0], false), VisitPtrs(ps[1..], false), n);
      FirstOf(ps, n);
    }
  }

  lemma {:induction false} FieldsCount(fs: seq<Field>, n: Addr)
    requires n != 0
    ensures EdgeCount(VisitFields(fs), n) == multiset(FieldValues(fs))[Ref(n)]
  {
    if fs != [] {
      FieldsCount(fs[1..], n);
      ValueCount(fs[0].value, n);
      EdgeCountAdds(VisitValue(fs[0].value, true), VisitFields(fs[1..]), n);
      FirstOf(FieldValues(fs), Ref(n));
      assert FieldValues(fs)[1..] == FieldValues(fs[1..]);
    }
  }

  lemma {:induction false} EntriesCount(es: seq<MapEntry>, n: Addr)
    requires n != 0
    ensures EdgeCount(VisitEntries(es), n) == multiset(Keys(es))[Ref(n)] + multiset(MapValues(es))[Ref(n)]
  {
    if es != [] {
      EntriesCount(es[1..], n);
      ValueCount(es[0].key, n);
      ValueCount(es[0].value, n);
      EdgeCountAdds(VisitValue(es[0].key, true), VisitValue(es[0].value, true), n);
      EdgeCountAdds(VisitValue(es[0].key, true) + VisitValue(es[0].value, true), VisitEntries(es[1..]), n);
      FirstOf(Keys(es), Ref(n));
      FirstOf(MapValues(es), Ref(n));
      assert Keys(es)[1..] == Keys(es[1..]) && MapValues(es)[1..] == MapValues(es[1..]);
    }
  }

  lemma {:induction false} DecoratorsCount(ds: seq<seq<Value>>, n: Addr)
    requires n != 0
    ensures EdgeCount(VisitDecorators(ds), n) == multiset(Flat(ds))[Ref(n)]
  {
    if ds != [] {
      DecoratorsCount(ds[1..], n);
      ValuesCount(ds[0], n);
      EdgeCountAdds(VisitValues(ds[0], true), VisitDecorators(ds[1..]), n);
    }
  }

  lemma CountOfThree(a: seq<Edge>, b: seq<Edge>, c: seq<Edge>, n: Addr)
    ensures EdgeCount(a + b + c, n) == EdgeCount(a, n) + EdgeCount(b, n) + EdgeCount(c, n)
  {
    EdgeCountAdds(a, b, n);
    EdgeCountAdds(a + b, c, n);
  }

  lemma ClassCount(b: Body, n: Addr)
    requires b.Class? && n != 0
    ensures EdgeCount(Children(b), n) == FieldCount(b, n)
  {
    var front := VisitPtr(b.superclass, true) + VisitFields(b.vmMethods) + VisitFields(b.vmStaticMethods);
    CountOfThree(VisitPtr(b.superclass, true), VisitFields(b.vmMethods), VisitFields(b.vmStaticMethods), n);
    CountOfThree(front, VisitDecorators(b.methodDecorators), VisitPtr(b.classClosure, true), n);
    PtrCount(b.superclass, n);
    PtrCount(b.classClosure, n);
    FieldsCount(b.vmMethods, n);
    FieldsCount(b.vmStaticMethods, n);
    DecoratorsCount(b.methodDecorators, n);
  }

  lemma GeneratorCount(b: Body, n: Addr)
    requires b.Generator? && n != 0
    ensures EdgeCount(Children(b), n) == FieldCount(b, n)
  {
    var front := VisitValue(b.lastYielded, true) + VisitValue(b.sendValue, true);
    EdgeCountAdds(VisitValue(b.lastYielded, true), VisitValue(b.sendValue, true), n);
    CountOfThree(front, VisitValues(b.savedStack, true), VisitPtr(b.fiberEnv, true), n);
    ValueCount(b.lastYielded, n);
    ValueCount(b.sendValue, n);
    ValuesCount(b.savedStack, n);
    PtrCount(b.fiberEnv, n);
  }

  lemma CallableCount(b: Body, n: Addr)
    requires (b.Method? || b.BoundMethod? || b.VMClosure?) && n != 0
    ensures EdgeCount(Children(b), n) == FieldCount(b, n)
  {
    match b
    case Method(c, i, k) =>
      CountOfThree(VisitPtr(c, true), VisitPtr(i, true), VisitPtr(k, true), n);
      PtrCount(c, n);
      PtrCount(i, n);
      PtrCount(k, n);
    case BoundMethod(r, k, o) =>
      CountOfThree(VisitValue(r, true), VisitPtr(k, true), VisitPtr(o, true), n);
      ValueCount(r, n);
      PtrCount(k, n);
      PtrCount(o, n);
    case VMClosure(us, cs, t) =>
      CountOfThree(VisitPtrs(us, false), VisitValues(cs, false), VisitPtr(t, true), n);
      PtrsCount(us, n);
      ValuesCount(cs, n);
      PtrCount(t, n);
  }

  /** The enumerator reports each owning reference as often as the fields hold it. */
  lemma ChildrenCounted(b: Body, n: Addr)
    requires n != 0
    ensures EdgeCount(Children(b), n) == FieldCount(b, n)
  {
    match b {
      case Array(es) => ValuesCount(es, n);
      case Tagged(vs) => ValuesCount(vs, n);
      case Map(es) => EntriesCount(es, n);
      case Set(ms) => ValuesCount(ms, n);
      case Instance(k, fs) =>
        EdgeCountAdds(VisitPtr(k, true), VisitFields(fs), n);
        PtrCount(k, n);
        FieldsCount(fs, n);
      case Class(_, _, _, _, _) => ClassCount(b, n);
      case Generator(_, _, _, _) => GeneratorCount(b, n);
      case Environment(vs, p) =>
        EdgeCountAdds(VisitFields(vs), VisitPtr(p, true), n);
        FieldsCount(vs, n);
        PtrCount(p, n);
      case Function(c) => PtrCount(c, n);
      case Method(_, _, _) => CallableCount(b, n);
      case BoundMethod(_, _, _) => CallableCount(b, n);
      case VMClosure(_, _, _) => CallableCount(b, n);
      case Upvalue(closed, v) => if closed { ValueCount(v, n); }
      case TaskOwnership(us) => PtrsCount(us, n);
      case _ =>
    }
  }

  lemma SomeField(fs: seq<Field>, n: Addr)
    ensures HasField(fs, n) <==> multiset(FieldValues(fs))[Ref(n)] > 0
  {
    if f :| f in fs && f.value == Ref(n) {
      var i :| 0 <= i < |fs| && fs[i] == f;
      assert FieldValues(fs)[i] == Ref(n);
    }
    if Ref(n) in FieldValues(fs) {
      var i :| 0 <= i < |fs| && FieldValues(fs)[i] == Ref(n);
      assert fs[i] in fs;
    }
  }

  lemma SomeEntry(es: seq<MapEntry>, n: Addr)
    ensures (exists e | e in es :: e.key == Ref(n) || e.value == Ref(n)) <==>
            multiset(Keys(es))[Ref(n)] + multiset(MapValues(es))[Ref(n)] > 0
  {
    if e :| e in es && (e.key == Ref(n) || e.value == Ref(n)) {
      var i :| 0 <= i < |es| && es[i] == e;
      assert Keys(es)[i] == e.key && MapValues(es)[i] == e.value;
    }
    if Ref(n) in Keys(es) {
      var i :| 0 <= i < |es| && Keys(es)[i] == Ref(n);
      assert es[i] in es;
    }
    if Ref(n) in MapValues(es) {
      var i :| 0 <= i < |es| && MapValues(es)[i] == Ref(n);
      assert es[i] in es;
    }
  }

  lemma {:induction false} SomeDecorator(ds: seq<seq<Value>>, v: Value)
    ensures (exists d | d in ds :: v in d) <==> v in Flat(ds)
  {
    if ds != [] {
      SomeDecorator(ds[1..], v);
      assert ds == [ds[0]] + ds[1..];
    }
  }

  /** The owning references the enumerator reports are those the fields hold. */
  lemma OwningChildren(b: Body, n: Addr)
    ensures Edge(n, true) in Children(b) <==> n != 0 && OwnsInField(b, n)
  {
    NoNullChild(b);
    if n != 0 {
      ChildrenCounted(b, n);
      EdgeCountZero(Children(b), n);
      match b {
        case Map(es) => SomeEntry(es, n);
        case Instance(_, fs) => SomeField(fs, n);
        case Class(_, ms, ss, ds, _) =>
          SomeField(ms, n);
          SomeField(ss, n);
          SomeDecorator(ds, Ref(n));
        case Environment(vs, _) => SomeField(vs, n);
        case _ =>
      }
    }
  }

  ghost predicate NoNull(es: seq<Edge>) {
    forall e | e in es :: e.target != 0
  }

  lemma {:induction false} NoNullValues(vs: seq<Value>, owning: bool)
    ensures NoNull(VisitValues(vs, owning)) && forall e | e in VisitValues(vs, owning) :: e.owning == owning
  {
    if vs != [] { NoNullValues(vs[1..], owning); }
  }

  lemma {:induction false} NoNullPtrs(ps: seq<Addr>, owning: bool)
    ensures NoNull(VisitPtrs(ps, owning)) && forall e | e in VisitPtrs(ps, owning) :: e.owning == owning
  {
    if ps != [] { NoNullPtrs(ps[1..], owning); }
  }

  lemma {:induction false} NoNullFields(fs: seq<Field>)
    ensures NoNull(VisitFields(fs)) && forall e | e in VisitFields(fs) :: e.owning
  {
    if fs != [] { NoNullFields(fs[1..]); }
  }

  lemma {:induction false} NoNullEntries(es: seq<MapEntry>)
    ensures NoNull(VisitEntries(es)) && forall e | e in VisitEntries(es) :: e.owning
  {
    if es != [] { NoNullEntries(es[1..]); }
  }

  lemma {:induction false} NoNullDecorators(ds: seq<seq<Value>>)
    ensures NoNull(VisitDecorators(ds)) && forall e | e in VisitDecorators(ds) :: e.owning
  {
    if ds != [] {
      NoNullValues(ds[0], true);
      NoNullDecorators(ds[1..]);
    }
  }

  /** No null pointer is reported, and only closures have edges that own nothing. */
  lemma NoNullChild(b: Body)
    ensures NoNull(Children(b)) && (b.VMClosure? || forall e | e in Children(b) :: e.owning)
  {
    match b {
      case Array(es) => NoNullValues(es, true);
      case Tagged(vs) => NoNullValues(vs, true);
      case Map(es) => NoNullEntries(es);
      case Set(ms) => NoNullValues(ms, true);
      case Instance(_, fs) => NoNullFields(fs);
      case Class(_, ms, ss, ds, _) =>
        NoNullFields(ms);
        NoNullFields(ss);
        NoNullDecorators(ds);
      case Generator(_, _, st, _) => NoNullValues(st, true);
      case Environment(vs, _) => NoNullFields(vs);
      case VMClosure(us, cs, _) =>
        NoNullPtrs(us, false);
        NoNullValues(cs, false);
      case TaskOwnership(us) => NoNullPtrs(us, true);
      case _ =>
    }
  }

  lemma {:induction false} PtrsListed(ps: seq<Addr>, n: Addr)
    requires n != 0
    ensures Edge(n, false) in VisitPtrs(ps, false) <==> n in ps
  {
    if ps != [] {
      PtrsListed(ps[1..], n);
      assert ps == [ps[0]] + ps[1..];
    }
  }

  lemma {:induction false} ValuesListed(vs: seq<Value>, n: Addr)
    requires n != 0
    ensures Edge(n, false) in VisitValues(vs, false) <==> Ref(n) in vs
  {
    if vs != [] {
      ValuesListed(vs[1..], n);
      assert vs == [vs[0]] + vs[1..];
    }
  }

  /** So are the references that own nothing. */
  lemma ReferringChildren(b: Body, n: Addr)
    ensures Edge(n, false) in Children(b) <==> n != 0 && RefersInField(b, n)
  {
    NoNullChild(b);
    if b.VMClosure? && n != 0 {
      PtrsListed(b.upvalues, n);
      ValuesListed(b.constants, n);
    }
  }

  // ---------------------------------------------------------------------------
  // Well-formed heaps
  // ---------------------------------------------------------------------------

  ghost predicate TargetsLive(store: Store) {
    forall a, e | a in store && e in EdgesOf(store, a) :: e.target in store
  }

  /** Each count is the owning references from heap objects plus those from outside;
      an upvalue has exactly one owner. */
  ghost predicate CountsExact(store: Store, outside: Outside) {
    && outside.Keys == store.Keys
    && (forall n | n in store :: store[n].count == OwnersIn(store, store.Keys, n) + outside[n])
    && (forall n | n in store && store[n].body.Upvalue? :: store[n].count <= 1)
  }

  ghost predicate OwnedLive(store: Store) {
    forall a, n | Owns(store, a, n) :: n in store
  }

  /** Every owning reference is to a live object, and counted. */
  ghost predicate Accounted(store: Store, outside: Outside) {
    0 !in store && OwnedLive(store) && CountsExact(store, outside)
  }

  ghost predicate WellFormed(store: Store, outside: Outside) {
    0 !in store && TargetsLive(store) && CountsExact(store, outside)
  }

  lemma WellFormedIsAccounted(store: Store, outside: Outside)
    requires WellFormed(store, outside)
    ensures Accounted(store, outside)
  {
  }

  /** Nothing waits to be destroyed. */
  ghost predicate AllCounted(store: Store) {
    forall n | n in store :: store[n].count > 0
  }

  // ---------------------------------------------------------------------------
  // Reachability
  // ---------------------------------------------------------------------------

  ghost predicate Step(store: Store, a: Addr, b: Addr) {
    a in store && exists e :: e in EdgesOf(store, a) && e.target == b
  }

  ghost predicate IsPath(store: Store, p: seq<Addr>) {
    && |p| > 0
    && if |p| == 1 then p[0] in store
       else IsPath(store, p[..|p| - 1]) && Step(store, p[|p| - 2], p[|p| - 1])
  }

  ghost predicate PathTo(store: Store, from: set<Addr>, p: seq<Addr>, n: Addr) {
    IsPath(store, p) && p[0] in from && p[|p| - 1] == n
  }

  ghost predicate Reaches(store: Store, from: set<Addr>, n: Addr) {
    exists p :: PathTo(store, from, p, n)
  }

  lemma ReachesRoot(store: Store, from: set<Addr>, n: Addr)
    requires n in from && n in store
    ensures Reaches(store, from, n)
  {
    assert PathTo(store, from, [n], n);
  }

  lemma ReachesStep(store: Store, from: set<Addr>, a: Addr, e: Edge)
    requires Reaches(store, from, a) && a in store && e in EdgesOf(store, a)
    ensures Reaches(store, from, e.target)
  {
    var p :| PathTo(store, from, p, a);
    var q := p + [e.target];
    assert q[..|p|] == p && Step(store, a, e.target);
    assert PathTo(store, from, q, e.target);
  }

  ghost predicate Closed(store: Store, s: set<Addr>) {
    forall a, e | a in s && a in store && e in EdgesOf(store, a) :: e.target in s
  }

  /** A closed set holds everything reachable from its members. */
  lemma {:induction false} ClosedHoldsPath(store: Store, from: set<Addr>, s: set<Addr>, p: seq<Addr>, n: Addr)
    requires Closed(store, s) && PathTo(store, from, p, n)
    requires forall r | r in from && r in store :: r in s
    ensures n in s
    decreases |p|
  {
    if |p| > 1 {
      var q := p[..|p| - 1];
      assert PathTo(store, from, q, q[|q| - 1]);
      ClosedHoldsPath(store, from, s, q, q[|q| - 1]);
      assert Step(store, p[|p| - 2], p[|p| - 1]);
    }
  }

  lemma ClosedHoldsReachable(store: Store, from: set<Addr>, s: set<Addr>)
    requires Closed(store, s) && forall r | r in from && r in store :: r in s
    ensures forall n | Reaches(store, from, n) :: n in s
  {
    forall n | Reaches(store, from, n)
      ensures n in s
    {
      var p :| PathTo(store, from, p, n);
      ClosedHoldsPath(store, from, s, p, n);
    }
  }
}
