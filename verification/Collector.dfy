/** The cycle collector (src/gc_heap.cpp): trial deletion over the shared_ptr counts,
    marking from the roots, and a sweep that breaks the cycles of everything else.

    `GcHeap` keeps the collector's own fields and the object memory it works on. */
module Collector {
  import opened NodeTables
  import opened ObjectGraph
  import opened Reclamation

  /** A tracked object: a weak reference (the serial) with its address and type. */
  datatype Entry = Entry(serial: nat, raw: Addr, typ: GcType)

  datatype MarkItem = MarkItem(obj: Addr, kind: Kind)

  /** Whether the weak reference can still be locked. */
  predicate Alive(store: Store, e: Entry) {
    e.raw in store && store[e.raw].serial == e.serial
  }

  ghost function Tracked(store: Store, entries: seq<Entry>): set<Addr> {
    if entries == [] then {}
    else
      var e := entries[|entries| - 1];
      Tracked(store, entries[..|entries| - 1]) + (if Alive(store, e) then {e.raw} else {})
  }

  ghost predicate EntriesTyped(store: Store, entries: seq<Entry>) {
    && (forall e | e in entries :: e.raw != 0)
    && (forall e | e in entries && Alive(store, e) :: NodeKindOf(e.typ) == KindOf(store[e.raw].body))
  }

  lemma {:induction false} TrackedMembers(store: Store, entries: seq<Entry>)
    ensures forall n :: n in Tracked(store, entries) <==>
                        exists e | e in entries :: Alive(store, e) && e.raw == n
  {
    if entries != [] {
      TrackedMembers(store, entries[..|entries| - 1]);
      assert entries == entries[..|entries| - 1] + [entries[|entries| - 1]];
    }
  }

  ghost function Targets(work: seq<Addr>): set<Addr> {
    if work == [] then {} else Targets(work[..|work| - 1]) + {work[|work| - 1]}
  }

  lemma {:induction false} TargetsMember(work: seq<Addr>, n: Addr)
    ensures n in Targets(work) <==> n in work
  {
    if work != [] {
      TargetsMember(work[..|work| - 1], n);
      assert work == work[..|work| - 1] + [work[|work| - 1]];
    }
  }

  ghost predicate NoDup(work: seq<Addr>) {
    work == [] ||
    (work[|work| - 1] !in Targets(work[..|work| - 1]) && NoDup(work[..|work| - 1]))
  }

  /** The use count forEachChild reports: the collector's own holds are included, and an
      upvalue is always reported as having its one owner. */
  function UseCount(store: Store, held: seq<Addr>, a: Addr): int
    requires a in store
  {
    if store[a].body.Upvalue? then 1 else store[a].count + multiset(held)[a]
  }

  // ---------------------------------------------------------------------------
  // Trial deletion, as facts about the table's map
  // ---------------------------------------------------------------------------

  /** Every node's `refs` is its count less the owning edges already enumerated: those of
      the objects in `done` and the edges `part` of the object being enumerated. */
  ghost predicate Counted(store: Store, t: map<Addr, Info>, done: set<Addr>, part: seq<Edge>)
    requires done <= store.Keys
  {
    && t.Keys <= store.Keys
    && forall n | n in t ::
         t[n] == Info(store[n].count - OwnersIn(store, done, n) - EdgeCount(part, n),
                      KindOf(store[n].body), false)
  }

  /** Everything enumerated so far is in the table. */
  ghost predicate Covered(store: Store, keys: set<Addr>, done: set<Addr>, part: seq<Edge>)
    requires done <= store.Keys
  {
    && (forall a, e | a in done && e in EdgesOf(store, a) :: e.target in keys)
    && (forall e | e in part :: e.target in keys)
  }

  /** The table after one edge has been visited. */
  ghost function Visited(store: Store, t: map<Addr, Info>, e: Edge): map<Addr, Info>
    requires e.target in store
  {
    var n := e.target;
    var base := if n in t then t[n] else Info(store[n].count, KindOf(store[n].body), false);
    t[n := if e.owning then base.(refs := base.refs - 1) else base]
  }

  ghost function Entered(store: Store, t: map<Addr, Info>, n: Addr): map<Addr, Info>
    requires n in store
  {
    if n in t then t else t[n := Info(store[n].count, KindOf(store[n].body), false)]
  }

  /** The same table, as the code reaches it: insert if absent, then decrement if owning. */
  lemma VisitedByUpdates(store: Store, t: map<Addr, Info>, e: Edge)
    requires e.target in store
    ensures var n, base := e.target, Entered(store, t, e.target);
            Visited(store, t, e) == (if e.owning then base[n := base[n].(refs := base[n].refs - 1)] else base)
  {
  }

  lemma VisitedCounts(store: Store, t: map<Addr, Info>, done: set<Addr>, es: seq<Edge>, j: nat)
    requires done <= store.Keys && j < |es| && es[j].target in store
    requires Counted(store, t, done, es[..j]) && Covered(store, t.Keys, done, es[..j])
    ensures Counted(store, Visited(store, t, es[j]), done, es[..j + 1])
    ensures Covered(store, Visited(store, t, es[j]).Keys, done, es[..j + 1])
  {
    var e := es[j];
    var t' := Visited(store, t, e);
    assert es[..j + 1] == es[..j] + [e] && es[..j + 1][..j] == es[..j];
    if e.target !in t {
      OwnersZero(store, done, e.target);
      EdgeCountZero(es[..j], e.target);
    }
    forall n | n in t'
      ensures t'[n] == Info(store[n].count - OwnersIn(store, done, n) - EdgeCount(es[..j + 1], n),
                            KindOf(store[n].body), false)
    {
      assert EdgeCount(es[..j + 1], n) == EdgeCount(es[..j], n) + (if e == Edge(n, true) then 1 else 0);
    }
  }

  /** Once all edges of `a` are enumerated, `a` counts as done. */
  lemma FinishNode(store: Store, t: map<Addr, Info>, done: set<Addr>, a: Addr)
    requires done <= store.Keys && a in store && a !in done
    requires Counted(store, t, done, EdgesOf(store, a))
    requires Covered(store, t.Keys, done, EdgesOf(store, a))
    ensures Counted(store, t, done + {a}, []) && Covered(store, t.Keys, done + {a}, [])
  {
    forall n | n in t
      ensures OwnersIn(store, done + {a}, n) == OwnersIn(store, done, n) + EdgeCount(EdgesOf(store, a), n)
    {
      OwnersAdd(store, done, a, n);
    }
  }

  /** What trial deletion leaves is the references from outside the scanned graph. */
  lemma RemainderIsExternal(store: Store, outside: Outside, s: set<Addr>, n: Addr)
    requires CountsExact(store, outside) && s <= store.Keys && n in store
    ensures store[n].count - OwnersIn(store, s, n)
         == outside[n] + OwnersIn(store, store.Keys - s, n)
  {
    OwnersSplit(store, s, store.Keys - s, n);
    assert s + (store.Keys - s) == store.Keys;
  }

  // ---------------------------------------------------------------------------
  // The scan as a function of the heap: the table's map and the worklist
  // ---------------------------------------------------------------------------

  datatype Scan = Scan(t: map<Addr, Info>, work: seq<Addr>)

  ghost function SeedEntry(store: Store, s: Scan, e: Entry): Scan {
    if Alive(store, e) && e.raw !in s.t then
      Scan(s.t[e.raw := Info(store[e.raw].count, NodeKindOf(e.typ), false)], s.work + [e.raw])
    else s
  }

  ghost function SeedAll(store: Store, entries: seq<Entry>): Scan {
    if entries == [] then Scan(map[], [])
    else SeedEntry(store, SeedAll(store, entries[..|entries| - 1]), entries[|entries| - 1])
  }

  lemma SeedAllNext(store: Store, entries: seq<Entry>, j: nat)
    requires j < |entries|
    ensures SeedAll(store, entries[..j + 1]) == SeedEntry(store, SeedAll(store, entries[..j]), entries[j])
  {
    assert entries[..j + 1][..j] == entries[..j];
  }

  ghost function VisitEdge(store: Store, s: Scan, e: Edge): Scan
    requires e.target in store
  {
    Scan(Visited(store, s.t, e), if e.target in s.t then s.work else s.work + [e.target])
  }

  ghost function VisitEdges(store: Store, s: Scan, es: seq<Edge>): Scan
    requires forall e | e in es :: e.target in store
  {
    if es == [] then s
    else VisitEdge(store, VisitEdges(store, s, es[..|es| - 1]), es[|es| - 1])
  }

  /** The worklist holds exactly the nodes in the table that are not done, once each. */
  ghost predicate Pending(s: Scan, done: set<Addr>) {
    && NoDup(s.work)
    && done <= s.t.Keys
    && Targets(s.work) == s.t.Keys - done
  }

  lemma {:induction false} SeedAllCorrect(store: Store, entries: seq<Entry>)
    requires EntriesTyped(store, entries)
    ensures var s := SeedAll(store, entries);
            && s.t.Keys == Tracked(store, entries)
            && Pending(s, {}) && Counted(store, s.t, {}, []) && Covered(store, s.t.Keys, {}, [])
  {
    if entries != [] {
      var rest, e := entries[..|entries| - 1], entries[|entries| - 1];
      SeedAllCorrect(store, rest);
      if Alive(store, e) {
        var r := SeedAll(store, rest);
        assert (r.work + [e.raw])[..|r.work|] == r.work;
      }
    }
  }

  lemma {:induction false} SeededIsHeld(store: Store, entries: seq<Entry>, n: Addr)
    ensures n in SeedAll(store, entries).t ==> n in SeedAll(store, entries).work
    ensures multiset(SeedAll(store, entries).work)[n] > 0 ==> n in SeedAll(store, entries).t
  {
    if entries != [] {
      SeededIsHeld(store, entries[..|entries| - 1], n);
    }
  }

  lemma VisitEdgePending(store: Store, s: Scan, done: set<Addr>, e: Edge)
    requires e.target in store && Pending(s, done)
    ensures Pending(VisitEdge(store, s, e), done)
    ensures VisitEdge(store, s, e).t.Keys == s.t.Keys + {e.target}
  {
    VisitedKeys(store, s.t, e);
    WorkPush(s.work, e.target);
  }

  lemma VisitedKeys(store: Store, t: map<Addr, Info>, e: Edge)
    requires e.target in store
    ensures Visited(store, t, e).Keys == t.Keys + {e.target}
  {
  }

  lemma WorkPush(work: seq<Addr>, n: Addr)
    ensures Targets(work + [n]) == Targets(work) + {n}
    ensures NoDup(work) && n !in Targets(work) ==> NoDup(work + [n])
  {
    assert (work + [n])[..|work|] == work;
  }

  lemma {:induction false} VisitEdgesPending(store: Store, s: Scan, done: set<Addr>, es: seq<Edge>)
    requires forall e | e in es :: e.target in store
    requires Pending(s, done)
    ensures Pending(VisitEdges(store, s, es), done)
    ensures s.t.Keys <= VisitEdges(store, s, es).t.Keys
  {
    if es != [] {
      VisitEdgesPending(store, s, done, es[..|es| - 1]);
      VisitEdgePending(store, VisitEdges(store, s, es[..|es| - 1]), done, es[|es| - 1]);
    }
  }

  lemma {:induction false} VisitEdgesCounted(store: Store, s: Scan, done: set<Addr>, es: seq<Edge>)
    requires done <= store.Keys && forall e | e in es :: e.target in store
    requires Counted(store, s.t, done, []) && Covered(store, s.t.Keys, done, [])
    ensures Counted(store, VisitEdges(store, s, es).t, done, es)
    ensures Covered(store, VisitEdges(store, s, es).t.Keys, done, es)
  {
    if es != [] {
      var j := |es| - 1;
      assert es == es[..j] + [es[j]];
      VisitEdgesCounted(store, s, done, es[..j]);
      VisitedCounts(store, VisitEdges(store, s, es[..j]).t, done, es, j);
      assert es[..j + 1] == es;
    } else {
      assert es == [];
    }
  }

  lemma {:induction false} VisitEdgesReached(store: Store, s: Scan, from: set<Addr>, a: Addr, es: seq<Edge>)
    requires a in store && Reaches(store, from, a)
    requires forall e | e in es :: e.target in store && e in EdgesOf(store, a)
    requires forall n {:trigger Reaches(store, from, n)} | n in s.t :: Reaches(store, from, n)
    ensures forall n {:trigger Reaches(store, from, n)} | n in VisitEdges(store, s, es).t :: Reaches(store, from, n)
  {
    if es != [] {
      VisitEdgesReached(store, s, from, a, es[..|es| - 1]);
      ReachesStep(store, from, a, es[|es| - 1]);
    }
  }

  /** The reported count of every node not yet in the table is its own. */
  ghost predicate UnseenCounted(store: Store, held: seq<Addr>, t: map<Addr, Info>) {
    forall n | n in store && n !in t :: UseCount(store, held, n) == store[n].count
  }

  lemma UnseenLasts(store: Store, held: seq<Addr>, t: map<Addr, Info>, t': map<Addr, Info>)
    requires UnseenCounted(store, held, t) && t.Keys <= t'.Keys
    ensures UnseenCounted(store, held, t')
  {
    forall n | n in store && n !in t'
      ensures UseCount(store, held, n) == store[n].count
    {
      assert n !in t;
    }
  }

  /** A node not yet in the table is not held, so its reported count is its own. */
  lemma UnseenUseCount(store: Store, outside: Outside, entries: seq<Entry>, t: map<Addr, Info>)
    requires CountsExact(store, outside) && AllCounted(store)
    requires SeedAll(store, entries).t.Keys <= t.Keys
    ensures UnseenCounted(store, SeedAll(store, entries).work, t)
  {
    forall n | n in store && n !in t
      ensures UseCount(store, SeedAll(store, entries).work, n) == store[n].count
    {
      SeededIsHeld(store, entries, n);
    }
  }

  lemma ScanReady(store: Store, outside: Outside, entries: seq<Entry>)
    requires CountsExact(store, outside) && AllCounted(store) && EntriesTyped(store, entries)
    ensures var s := SeedAll(store, entries);
            && Scanning(store, Tracked(store, entries), s, {})
            && UnseenCounted(store, s.work, s.t)
  {
    ScanStart(store, entries);
    UnseenUseCount(store, outside, entries, SeedAll(store, entries).t);
  }

  lemma VisitEdgesNext(store: Store, s: Scan, es: seq<Edge>, j: nat)
    requires j < |es| && forall e | e in es :: e.target in store
    ensures VisitEdges(store, s, es[..j + 1]) == VisitEdge(store, VisitEdges(store, s, es[..j]), es[j])
  {
    assert es[..j + 1][..j] == es[..j];
  }

  /** The invariant of the scan loop. */
  ghost predicate Scanning(store: Store, from: set<Addr>, s: Scan, done: set<Addr>) {
    && done <= store.Keys
    && Pending(s, done)
    && Counted(store, s.t, done, [])
    && Covered(store, s.t.Keys, done, [])
    && from <= s.t.Keys
    && forall n {:trigger Reaches(store, from, n)} | n in s.t :: Reaches(store, from, n)
  }

  function Pop<T>(work: seq<T>): seq<T>
    requires work != []
  {
    work[..|work| - 1]
  }

  function Top<T>(work: seq<T>): T
    requires work != []
  {
    work[|work| - 1]
  }

  /** One turn of the scan loop: the last object of the worklist has its edges visited. */
  ghost function ScanNext(store: Store, s: Scan): Scan
    requires s.work != [] && Top(s.work) in store && TargetsLive(store)
  {
    VisitEdges(store, Scan(s.t, Pop(s.work)), EdgesOf(store, Top(s.work)))
  }

  lemma PopPending(s: Scan, done: set<Addr>)
    requires Pending(s, done) && s.work != []
    ensures Top(s.work) in s.t && Top(s.work) !in done
    ensures Pending(Scan(s.t, Pop(s.work)), done + {Top(s.work)})
  {
    assert Targets(s.work) == Targets(Pop(s.work)) + {Top(s.work)};
  }

  /** Taking the last object off the worklist and visiting its edges keeps the invariant. */
  lemma ScanStep(store: Store, from: set<Addr>, s: Scan, done: set<Addr>)
    requires Scanning(store, from, s, done) && s.work != [] && TargetsLive(store)
    ensures Top(s.work) in s.t && Top(s.work) in store && Top(s.work) !in done
    ensures s.t[Top(s.work)].kind == KindOf(store[Top(s.work)].body)
    ensures Scanning(store, from, ScanNext(store, s), done + {Top(s.work)})
    ensures s.t.Keys <= ScanNext(store, s).t.Keys
  {
    var a := Top(s.work);
    var p := Scan(s.t, Pop(s.work));
    PopPending(s, done);
    var es := EdgesOf(store, a);
    VisitEdgesPending(store, p, done + {a}, es);
    VisitEdgesCounted(store, p, done, es);
    VisitEdgesReached(store, p, from, a, es);
    FinishNode(store, VisitEdges(store, p, es).t, done, a);
  }

  lemma ScanStart(store: Store, entries: seq<Entry>)
    requires EntriesTyped(store, entries)
    ensures Scanning(store, Tracked(store, entries), SeedAll(store, entries), {})
  {
    SeedAllCorrect(store, entries);
    forall n | n in Tracked(store, entries)
      ensures Reaches(store, Tracked(store, entries), n)
    {
      assert n in store;
      ReachesRoot(store, Tracked(store, entries), n);
    }
  }

  /** Trial deletion is exact: the table holds the scanned graph, and each node's `refs` is
      its count less every owning edge from a scanned node. */
  ghost predicate ExactScan(store: Store, from: set<Addr>, t: map<Addr, Info>) {
    && t.Keys <= store.Keys
    && (forall n {:trigger Reaches(store, from, n)} :: n in t <==> Reaches(store, from, n))
    && forall n | n in t ::
         t[n] == Info(store[n].count - OwnersIn(store, t.Keys, n), KindOf(store[n].body), false)
  }

  lemma ScanEnd(store: Store, from: set<Addr>, s: Scan, done: set<Addr>)
    requires Scanning(store, from, s, done) && s.work == []
    ensures ExactScan(store, from, s.t)
  {
    assert Targets(s.work) == {} && s.t.Keys - done == {};
    assert forall n | n in s.t :: n in done by {
      forall n | n in s.t ensures n in done { assert n !in s.t.Keys - done; }
    }
    assert done == s.t.Keys;
    ClosedHoldsReachable(store, from, s.t.Keys);
  }

  /** `refs` is never negative, and zero exactly when every reference to the node comes
      from the scanned graph. */
  lemma RefsDecideExternal(store: Store, outside: Outside, from: set<Addr>, t: map<Addr, Info>, n: Addr)
    requires CountsExact(store, outside) && ExactScan(store, from, t) && n in t
    ensures t[n].refs == outside[n] + OwnersIn(store, store.Keys - t.Keys, n)
    ensures t[n].refs != 0 <==> HeldFromOutside(store, outside, t.Keys, n)
  {
    RemainderIsExternal(store, outside, t.Keys, n);
    OwnersZero(store, store.Keys - t.Keys, n);
  }

  /** `roots` lists exactly the nodes whose remaining count is not zero. */
  ghost predicate ExternalItems(t: map<Addr, Info>, roots: seq<MarkItem>) {
    && (forall r | r in roots :: r.obj in t && t[r.obj].refs != 0 && r.kind == t[r.obj].kind)
    && (forall n | n in t && t[n].refs != 0 :: MarkItem(n, t[n].kind) in roots)
  }

  /** `roots` lists exactly the slots whose remaining count is not zero. */
  ghost predicate ItemsOf(slots: seq<Slot>, roots: seq<MarkItem>) {
    && (forall r | r in roots :: exists c | c in slots :: c.refs != 0 && r == MarkItem(c.key, c.kind))
    && (forall c | c in slots && c.refs != 0 :: MarkItem(c.key, c.kind) in roots)
  }

  lemma ItemsOfNext(slots: seq<Slot>, i: nat, roots: seq<MarkItem>)
    requires i < |slots| && ItemsOf(slots[..i], roots)
    ensures var c := slots[i];
            ItemsOf(slots[..i + 1], if c.refs != 0 then roots + [MarkItem(c.key, c.kind)] else roots)
  {
    assert slots[..i + 1] == slots[..i] + [slots[i]];
  }

  lemma ItemsAreExternal(t: map<Addr, Info>, slots: seq<Slot>, roots: seq<MarkItem>)
    requires ItemsOf(slots, roots)
    requires forall c | c in slots :: c.key in t && t[c.key] == InfoOf(c)
    requires forall k | k in t :: exists c | c in slots :: c.key == k
    ensures ExternalItems(t, roots)
  {
  }

  // ---------------------------------------------------------------------------
  // Marking, as facts about the table's map and the mark stack
  // ---------------------------------------------------------------------------

  datatype Marking = Marking(t: map<Addr, Info>, stack: seq<MarkItem>)

  ghost predicate IsMarked(t: map<Addr, Info>, n: Addr) {
    n in t && t[n].marked
  }

  ghost function MarkedSet(t: map<Addr, Info>): set<Addr> {
    set n | n in t && t[n].marked
  }

  /** The effect of markNode. */
  ghost function MarkOne(store: Store, s: Marking, n: Addr): Marking
    requires n == 0 || n in store
  {
    if n == 0 || IsMarked(s.t, n) then s
    else
      var kind := KindOf(store[n].body);
      var base := if n in s.t then s.t[n] else Info(0, kind, false);
      Marking(s.t[n := base.(marked := true)], s.stack + [MarkItem(n, kind)])
  }

  ghost function MarkTargets(store: Store, s: Marking, es: seq<Edge>): Marking
    requires forall e | e in es :: e.target in store
  {
    if es == [] then s
    else MarkOne(store, MarkTargets(store, s, es[..|es| - 1]), es[|es| - 1].target)
  }

  lemma MarkTargetsNext(store: Store, s: Marking, es: seq<Edge>, j: nat)
    requires j < |es| && forall e | e in es :: e.target in store
    ensures MarkTargets(store, s, es[..j + 1]) == MarkOne(store, MarkTargets(store, s, es[..j]), es[j].target)
  {
    assert es[..j + 1][..j] == es[..j];
  }

  ghost predicate OnStack(stack: seq<MarkItem>, n: Addr) {
    exists item :: item in stack && item.obj == n
  }

  /** Everything marked is reachable from the roots; the children of a marked node that
      has left the stack are marked, unless it is the node in `busy`. */
  ghost predicate MarkInvariant(store: Store, from: set<Addr>, s: Marking, busy: set<Addr>) {
    && s.t.Keys <= store.Keys
    && (forall n | n in s.t :: s.t[n].kind == KindOf(store[n].body))
    && (forall item | item in s.stack ::
          IsMarked(s.t, item.obj) && item.kind == KindOf(store[item.obj].body))
    && (forall n {:trigger Reaches(store, from, n)} | IsMarked(s.t, n) :: Reaches(store, from, n))
    && (forall a | IsMarked(s.t, a) && !OnStack(s.stack, a) && a !in busy ::
          ChildrenMarked(store, s.t, a))
  }

  ghost predicate ChildrenMarked(store: Store, t: map<Addr, Info>, a: Addr)
    requires a in store
  {
    forall e | e in EdgesOf(store, a) :: IsMarked(t, e.target)
  }

  /** The same effect, as the code reaches it: insert if absent, then set the mark. */
  ghost function Seen(t: map<Addr, Info>, n: Addr, kind: Kind): map<Addr, Info> {
    if n in t then t else t[n := Info(0, kind, false)]
  }

  ghost function Flagged(t: map<Addr, Info>, stack: seq<MarkItem>, n: Addr, kind: Kind): Marking
    requires n in t
  {
    if t[n].marked then Marking(t, stack)
    else Marking(t[n := t[n].(marked := true)], stack + [MarkItem(n, kind)])
  }

  lemma MarkOneByUpdates(store: Store, s: Marking, n: Addr)
    requires n in store && n != 0
    ensures var kind := KindOf(store[n].body);
            MarkOne(store, s, n) == Flagged(Seen(s.t, n, kind), s.stack, n, kind)
  {
  }

  lemma MarkOneGrows(store: Store, s: Marking, n: Addr)
    requires n in store
    ensures IsMarked(MarkOne(store, s, n).t, n) || n == 0
    ensures forall m | IsMarked(s.t, m) :: IsMarked(MarkOne(store, s, n).t, m)
    ensures forall m | OnStack(s.stack, m) :: OnStack(MarkOne(store, s, n).stack, m)
  {
    var s' := MarkOne(store, s, n);
    forall m | OnStack(s.stack, m)
      ensures OnStack(s'.stack, m)
    {
      var item :| item in s.stack && item.obj == m;
      assert item in s'.stack;
    }
  }

  lemma MarkOneKeeps(store: Store, from: set<Addr>, s: Marking, busy: set<Addr>, n: Addr)
    requires MarkInvariant(store, from, s, busy) && n in store && n != 0 && Reaches(store, from, n)
    ensures MarkInvariant(store, from, MarkOne(store, s, n), busy)
  {
    var s' := MarkOne(store, s, n);
    MarkOneGrows(store, s, n);
    if s' != s {
      assert MarkItem(n, KindOf(store[n].body)) in s'.stack;
      forall a | IsMarked(s'.t, a) && !OnStack(s'.stack, a) && a !in busy
        ensures ChildrenMarked(store, s'.t, a)
      {
        assert a != n;
        assert ChildrenMarked(store, s.t, a);
      }
    }
  }

  /** Visiting the edges of a node marks all its children. */
  lemma {:induction false} MarkTargetsKeeps(store: Store, from: set<Addr>, s: Marking, a: Addr, es: seq<Edge>)
    requires 0 !in store && a in store && Reaches(store, from, a)
    requires forall e | e in es :: e.target in store && e in EdgesOf(store, a)
    requires MarkInvariant(store, from, s, {a})
    ensures MarkInvariant(store, from, MarkTargets(store, s, es), {a})
    ensures forall e | e in es :: IsMarked(MarkTargets(store, s, es).t, e.target)
  {
    if es != [] {
      var j := |es| - 1;
      var s1 := MarkTargets(store, s, es[..j]);
      MarkTargetsKeeps(store, from, s, a, es[..j]);
      ReachesStep(store, from, a, es[j]);
      MarkOneKeeps(store, from, s1, {a}, es[j].target);
      MarkOneGrows(store, s1, es[j].target);
      assert es == es[..j] + [es[j]];
    }
  }

  /** One turn of drainMarkStack. */
  ghost function MarkNext(store: Store, s: Marking): Marking
    requires s.stack != [] && Top(s.stack).obj in store && TargetsLive(store)
  {
    MarkTargets(store, s.(stack := Pop(s.stack)), EdgesOf(store, Top(s.stack).obj))
  }

  lemma PopMark(store: Store, from: set<Addr>, s: Marking)
    requires MarkInvariant(store, from, s, {}) && s.stack != []
    ensures MarkInvariant(store, from, s.(stack := Pop(s.stack)), {Top(s.stack).obj})
  {
    var s' := s.(stack := Pop(s.stack));
    assert s.stack == s'.stack + [Top(s.stack)];
    forall a | IsMarked(s'.t, a) && !OnStack(s'.stack, a) && a != Top(s.stack).obj
      ensures ChildrenMarked(store, s'.t, a)
    {
      assert !OnStack(s.stack, a);
    }
  }

  lemma MarkStep(store: Store, from: set<Addr>, s: Marking)
    requires MarkInvariant(store, from, s, {}) && s.stack != []
    requires 0 !in store && TargetsLive(store)
    ensures Top(s.stack).obj in store && Top(s.stack).kind == KindOf(store[Top(s.stack).obj].body)
    ensures MarkInvariant(store, from, MarkNext(store, s), {})
    ensures MarkingShrinks(store, s, MarkNext(store, s))
    ensures forall m | IsMarked(s.t, m) :: IsMarked(MarkNext(store, s).t, m)
  {
    var a := Top(s.stack).obj;
    assert Top(s.stack) in s.stack;
    PopMark(store, from, s);
    var p := s.(stack := Pop(s.stack));
    assert Reaches(store, from, a) by { assert IsMarked(s.t, a); }
    MarkTargetsKeeps(store, from, p, a, EdgesOf(store, a));
    MarkTargetsMeasure(store, p, EdgesOf(store, a));
    assert ChildrenMarked(store, MarkNext(store, s).t, a);
  }

  /** The variant of drainMarkStack: more nodes are marked, or the stack is shorter. */
  ghost predicate MarkingShrinks(store: Store, s: Marking, s': Marking) {
    || store.Keys - MarkedSet(s'.t) < store.Keys - MarkedSet(s.t)
    || (MarkedSet(s'.t) == MarkedSet(s.t) && |s'.stack| < |s.stack|)
  }

  lemma {:induction false} MarkTargetsMeasure(store: Store, s: Marking, es: seq<Edge>)
    requires 0 !in store && forall e | e in es :: e.target in store
    ensures var s' := MarkTargets(store, s, es);
            && MarkedSet(s.t) <= MarkedSet(s'.t)
            && (MarkedSet(s'.t) == MarkedSet(s.t) ==> s' == s)
            && (MarkedSet(s'.t) != MarkedSet(s.t) ==>
                  store.Keys - MarkedSet(s'.t) < store.Keys - MarkedSet(s.t))
            && forall m | IsMarked(s.t, m) :: IsMarked(s'.t, m)
  {
    if es != [] {
      var s1 := MarkTargets(store, s, es[..|es| - 1]);
      var n := es[|es| - 1].target;
      MarkTargetsMeasure(store, s, es[..|es| - 1]);
      if !IsMarked(s1.t, n) {
        var s' := MarkTargets(store, s, es);
        assert MarkedSet(s'.t) == MarkedSet(s1.t) + {n};
        assert n in store.Keys - MarkedSet(s1.t);
        assert n !in MarkedSet(s.t);
      }
    }
  }

  ghost predicate MarksExactly(store: Store, t: map<Addr, Info>, from: set<Addr>) {
    forall n {:trigger Reaches(store, from, n)} :: IsMarked(t, n) <==> Reaches(store, from, n)
  }

  /** When the stack is empty and every root is marked, the marked nodes are exactly the
      reachable ones. */
  lemma MarkEnd(store: Store, from: set<Addr>, s: Marking)
    requires MarkInvariant(store, from, s, {}) && s.stack == []
    requires forall r | r in from && r in store :: IsMarked(s.t, r)
    ensures MarksExactly(store, s.t, from)
  {
    var m := MarkedSet(s.t);
    forall a, e | a in m && a in store && e in EdgesOf(store, a)
      ensures e.target in m
    {
      assert ChildrenMarked(store, s.t, a);
    }
    ClosedHoldsReachable(store, from, m);
  }

  // ---------------------------------------------------------------------------
  // What a collection keeps and what it sweeps
  // ---------------------------------------------------------------------------

  /** Everything the scan visits: what is reachable from the tracked objects. */
  ghost function ScannedSet(store: Store, entries: seq<Entry>): set<Addr> {
    set n | n in store && Reaches(store, Tracked(store, entries), n)
  }

  /** The roots of a collection: what the root marker passes, what is pinned, and every
      scanned node with a reference from outside the scanned graph. */
  ghost function RootSet(store: Store, outside: Outside, entries: seq<Entry>,
                         pinned: seq<Value>, roots: seq<Addr>): set<Addr> {
    set n | n in store &&
      (n in roots || Ref(n) in pinned ||
       (n in ScannedSet(store, entries) &&
        HeldFromOutside(store, outside, ScannedSet(store, entries), n)))
  }

  lemma ExactScanKeys(store: Store, entries: seq<Entry>, t: map<Addr, Info>)
    requires ExactScan(store, Tracked(store, entries), t)
    ensures t.Keys == ScannedSet(store, entries)
  {
  }

  /** The roots found by trial deletion are the third kind of root. */
  lemma ExternalAreRoots(store: Store, outside: Outside, entries: seq<Entry>,
                         pinned: seq<Value>, roots: seq<Addr>,
                         t: map<Addr, Info>, external: seq<MarkItem>, n: Addr)
    requires CountsExact(store, outside) && ExactScan(store, Tracked(store, entries), t)
    requires ExternalItems(t, external)
    ensures n in RootSet(store, outside, entries, pinned, roots) <==>
              n in store && (n in roots || Ref(n) in pinned || OnStack(external, n))
  {
    ExactScanKeys(store, entries, t);
    if n in t {
      RefsDecideExternal(store, outside, Tracked(store, entries), t, n);
      if t[n].refs != 0 { assert MarkItem(n, t[n].kind) in external; }
    }
  }

  ghost predicate MoreMarked(t: map<Addr, Info>, t': map<Addr, Info>) {
    forall m | IsMarked(t, m) :: IsMarked(t', m)
  }

  /** What the root marker passes, and what is pinned, is alive. */
  ghost predicate RootsLive(store: Store, pinned: seq<Value>, roots: seq<Addr>) {
    && (forall r | r in roots && r != 0 :: r in store)
    && (forall v | v in pinned && v.Ref? && v.target != 0 :: v.target in store)
  }

  function PinnedNodes(pinned: seq<Value>): seq<Addr> {
    seq(|pinned|, i requires 0 <= i < |pinned| => if pinned[i].Ref? then pinned[i].target else 0)
  }

  ghost predicate ItemIsRoot(store: Store, from: set<Addr>, item: MarkItem) {
    && item.obj in store && item.obj in from && item.obj != 0
    && item.kind == KindOf(store[item.obj].body)
  }

  /** The three lists that are marked from hold exactly the roots. */
  ghost predicate Listed(store: Store, from: set<Addr>, roots: seq<Addr>, pinned: seq<Value>,
                         external: seq<MarkItem>) {
    && (forall n | n in roots && n != 0 :: n in store && n in from)
    && (forall n | n in PinnedNodes(pinned) && n != 0 :: n in store && n in from)
    && (forall item | item in external :: ItemIsRoot(store, from, item))
    && (forall r | r in from ::
          r != 0 && (r in roots || r in PinnedNodes(pinned) || OnStack(external, r)))
  }

  lemma AllRootsMarked(store: Store, from: set<Addr>, roots: seq<Addr>, pinned: seq<Value>,
                       external: seq<MarkItem>, t1: map<Addr, Info>, t2: map<Addr, Info>,
                       t3: map<Addr, Info>)
    requires Listed(store, from, roots, pinned, external)
    requires forall n | n in roots && n != 0 :: IsMarked(t1, n)
    requires forall n | n in PinnedNodes(pinned) && n != 0 :: IsMarked(t2, n)
    requires forall item | item in external :: IsMarked(t3, item.obj)
    requires MoreMarked(t1, t2) && MoreMarked(t2, t3)
    ensures forall r | r in from && r in store :: IsMarked(t3, r)
  {
  }

  lemma PinnedNodesMember(pinned: seq<Value>, n: Addr)
    requires n != 0
    ensures n in PinnedNodes(pinned) <==> Ref(n) in pinned
  {
    if Ref(n) in pinned {
      var i :| 0 <= i < |pinned| && pinned[i] == Ref(n);
      assert PinnedNodes(pinned)[i] == n;
    }
  }

  lemma RootsAreListed(store: Store, outside: Outside, entries: seq<Entry>, pinned: seq<Value>,
                       roots: seq<Addr>, t: map<Addr, Info>, external: seq<MarkItem>)
    requires 0 !in store && CountsExact(store, outside)
    requires ExactScan(store, Tracked(store, entries), t)
    requires ExternalItems(t, external) && RootsLive(store, pinned, roots)
    ensures var from := RootSet(store, outside, entries, pinned, roots);
            && Listed(store, from, roots, pinned, external)
            && MarkInvariant(store, from, Marking(t, []), {})
  {
    var from := RootSet(store, outside, entries, pinned, roots);
    forall n
      ensures n in from <==> n in store && (n in roots || Ref(n) in pinned || OnStack(external, n))
      ensures n != 0 ==> (n in PinnedNodes(pinned) <==> Ref(n) in pinned)
    {
      ExternalAreRoots(store, outside, entries, pinned, roots, t, external, n);
      if n != 0 { PinnedNodesMember(pinned, n); }
    }
    forall item | item in external
      ensures ItemIsRoot(store, from, item)
    {
      assert OnStack(external, item.obj);
    }
  }

  /** Each pin holds one reference to its object. */
  ghost predicate PinsHeld(outside: Outside, pinned: seq<Value>) {
    forall v | v in pinned ::
      v.Ref? && v.target in outside && outside[v.target] >= multiset(pinned)[v] > 0
  }

  /** Each root is reached from something no object of the heap holds: it may be owned by
      the heap alone, as is the value an upvalue has closed over. */
  ghost predicate RootsAnchored(store: Store, outside: Outside, roots: seq<Addr>) {
    forall r | r in roots && r != 0 :: Reaches(store, Anchors(outside), r)
  }

  /** The tracked objects no root reaches. */
  ghost function Garbage(store: Store, outside: Outside, entries: seq<Entry>,
                         pinned: seq<Value>, roots: seq<Addr>): set<Addr> {
    set n | n in Tracked(store, entries) &&
            !Reaches(store, RootSet(store, outside, entries, pinned, roots), n)
  }

  /** The scanned objects no root reaches, tracked or not. */
  ghost function Unreached(store: Store, outside: Outside, entries: seq<Entry>,
                           pinned: seq<Value>, roots: seq<Addr>): set<Addr> {
    set n | n in ScannedSet(store, entries) &&
            !Reaches(store, RootSet(store, outside, entries, pinned, roots), n)
  }

  lemma GarbageIsToCollect(store: Store, outside: Outside, entries: seq<Entry>,
                           pinned: seq<Value>, roots: seq<Addr>, t: map<Addr, Info>)
    requires MarksExactly(store, t, RootSet(store, outside, entries, pinned, roots))
    ensures Raws(ToCollect(store, t, entries)) == Garbage(store, outside, entries, pinned, roots)
  {
    ToCollectMembers(store, t, entries);
    TrackedMembers(store, entries);
    forall n | n in Garbage(store, outside, entries, pinned, roots)
      ensures n in Raws(ToCollect(store, t, entries))
    {
      var e :| e in entries && Alive(store, e) && e.raw == n;
      assert !IsMarked(t, n);
      assert e in ToCollect(store, t, entries);
    }
    forall e | e in ToCollect(store, t, entries)
      ensures e.raw in Garbage(store, outside, entries, pinned, roots)
    {
      assert !Reaches(store, RootSet(store, outside, entries, pinned, roots), e.raw);
    }
  }

  lemma NoneToCollect(es: seq<Entry>)
    ensures |es| == 0 <==> Raws(es) == {}
  {
    if es != [] { assert es[0] in es && es[0].raw in Raws(es); }
  }

  /** The entries sweep collects: still lockable, and not marked. */
  ghost function ToCollect(store: Store, t: map<Addr, Info>, entries: seq<Entry>): seq<Entry> {
    if entries == [] then []
    else
      ToCollect(store, t, entries[..|entries| - 1]) +
      (if Alive(store, Top(entries)) && !IsMarked(t, Top(entries).raw) then [Top(entries)] else [])
  }

  lemma CollectedAreTyped(store: Store, t: map<Addr, Info>, entries: seq<Entry>)
    requires EntriesTyped(store, entries)
    ensures forall e | e in ToCollect(store, t, entries) ::
              e.raw in store && NodeKindOf(e.typ) == KindOf(store[e.raw].body)
  {
    ToCollectMembers(store, t, entries);
  }

  /** The entries sweep keeps. */
  ghost function Living(store: Store, entries: seq<Entry>): seq<Entry> {
    if entries == [] then []
    else
      Living(store, entries[..|entries| - 1]) +
      (if Alive(store, Top(entries)) then [Top(entries)] else [])
  }

  lemma {:induction false} LivingMembers(store: Store, entries: seq<Entry>)
    ensures forall e :: e in Living(store, entries) <==> e in entries && Alive(store, e)
  {
    if entries != [] {
      LivingMembers(store, entries[..|entries| - 1]);
      assert entries == entries[..|entries| - 1] + [Top(entries)];
    }
  }

  lemma {:induction false} ToCollectMembers(store: Store, t: map<Addr, Info>, entries: seq<Entry>)
    ensures forall e :: e in ToCollect(store, t, entries)
                   <==> e in entries && Alive(store, e) && !IsMarked(t, e.raw)
  {
    if entries != [] {
      ToCollectMembers(store, t, entries[..|entries| - 1]);
      assert entries == entries[..|entries| - 1] + [Top(entries)];
    }
  }

  lemma SweptThenDestroyed(s0: Store, s1: Store, s2: Store, swept: set<Addr>)
    requires SweptTo(s0, s1, swept) && SweptTo(s1, s2, {})
    ensures SweptTo(s0, s2, swept)
  {
  }

  lemma SweptAgain(s0: Store, s1: Store, s2: Store, swept: set<Addr>, a: Addr)
    requires SweptTo(s0, s1, swept) && SweptTo(s1, s2, {a}) && a in s1
    ensures SweptTo(s0, s2, swept + {a})
  {
  }

  ghost function Raws(es: seq<Entry>): set<Addr> {
    set e | e in es :: e.raw
  }

  lemma RootSetIsRooted(store: Store, outside: Outside, entries: seq<Entry>,
                        pinned: seq<Value>, roots: seq<Addr>)
    requires 0 !in store && outside.Keys == store.Keys
    requires RootsAnchored(store, outside, roots) && PinsHeld(outside, pinned)
    ensures Rooted(store, outside, ScannedSet(store, entries),
                   RootSet(store, outside, entries, pinned, roots))
  {
  }

  lemma ScannedIsClosed(store: Store, entries: seq<Entry>)
    requires TargetsLive(store)
    ensures Closed(store, ScannedSet(store, entries))
    ensures Tracked(store, entries) <= ScannedSet(store, entries)
  {
    var from := Tracked(store, entries);
    forall a, e | a in ScannedSet(store, entries) && e in EdgesOf(store, a)
      ensures e.target in ScannedSet(store, entries)
    {
      ReachesStep(store, from, a, e);
    }
    TrackedMembers(store, entries);
    forall n | n in from
      ensures n in ScannedSet(store, entries)
    {
      ReachesRoot(store, from, n);
    }
  }

  ghost function ReachedSet(store: Store, from: set<Addr>): set<Addr> {
    set n | n in store && Reaches(store, from, n)
  }

  lemma NothingScanned(pinned: seq<Value>, v: Value)
    ensures WithoutLast(pinned, v) == WithoutLast(pinned[..|pinned|], v) + pinned[|pinned|..]
  {
    assert pinned[..|pinned|] == pinned && pinned[|pinned|..] == [];
  }

  /** What a collection does: exactly the tracked objects no root reaches are emptied. If
      the references that own nothing are backed, none dangles, and if the roots are
      anchored too, nothing they reach is destroyed, nor anything the scan does not cover.
      All the rest is destroyed if and only if every reference cycle in it passes through
      an object that was emptied; a cycle that does not survives whole. */
  ghost predicate Collected(before: Store, outs: Outside, was: seq<Entry>, pinned: seq<Value>,
                            roots: seq<Addr>, after: Store, outs': Outside, now: seq<Entry>) {
    var dead, garbage := Unreached(before, outs, was, pinned, roots), Garbage(before, outs, was, pinned, roots);
    && SweptTo(before, after, garbage)
    && (NonOwningBacked(before, outs) ==> TargetsLive(after) && NonOwningBacked(after, outs'))
    && (NonOwningBacked(before, outs) && RootsAnchored(before, outs, roots) ==> before.Keys - dead <= after.Keys)
    && (dead * after.Keys == {} <==> CyclesCut(before, dead, garbage))
    && UncutCyclesLast(before, garbage, after)
    && now == Living(after, was)
    && outs'.Keys >= after.Keys && forall n | n in after :: n in outs && outs'[n] == outs[n]
  }

  /** One turn of the scan of the pins. */
  lemma PinScanned(pinned: seq<Value>, v: Value, i: nat)
    requires i < |pinned|
    ensures WithoutLast(pinned[..i + 1], v) + pinned[i + 1..] ==
            if pinned[i] == v then pinned[..i] + pinned[i + 1..]
            else WithoutLast(pinned[..i], v) + pinned[i..]
  {
    assert pinned[..i + 1][..i] == pinned[..i];
    assert pinned[i..] == [pinned[i]] + pinned[i + 1..];
  }

  /** The collector's invariant on entries and pins survives a sweep. */
  lemma StillValid(before: Store, after: Store, outs: Outside, outs': Outside,
                   entries: seq<Entry>, pinned: seq<Value>, swept: set<Addr>)
    requires SweptTo(before, after, swept)
    requires EntriesTyped(before, entries) && outs.Keys == before.Keys && outs'.Keys == after.Keys
    requires Anchors(outs) <= after.Keys
    requires forall n | n in after :: outs'[n] == outs[n]
    requires PinsHeld(outs, pinned)
    ensures EntriesTyped(after, Living(after, entries)) && PinsHeld(outs', pinned)
  {
    LivingMembers(after, entries);
    assert forall v | v in pinned :: v.target in Anchors(outs);
  }

  lemma AnchorsLast(mid: Store, outside: Outside)
    requires mid.Keys == outside.Keys
    ensures Anchors(outside) <= Lasting(mid, outside)
  {
    AnchorsAreSupported(mid, outside);
    SupportedIsLasting(mid, outside, Anchors(outside));
  }

  /** What is passed to the collector, is pinned, or is referred to from outside the scanned
      graph. */
  ghost predicate IsRoot(store: Store, outside: Outside, entries: seq<Entry>, pinned: seq<Value>,
                         roots: seq<Addr>, r: Addr) {
    || r in roots || Ref(r) in pinned
    || (r in ScannedSet(store, entries)
        && ((r in outside && outside[r] > 0)
            || exists a :: a in store && a !in ScannedSet(store, entries) && Owns(store, a, r)))
  }

  /** The tracked objects that are emptied are those no single root reaches; a tracked object
      is one that an entry stands for, which an entry made for an earlier object at the same
      address does not. */
  lemma GarbageMeans(store: Store, outside: Outside, entries: seq<Entry>, pinned: seq<Value>,
                     roots: seq<Addr>, n: Addr)
    ensures n in Garbage(store, outside, entries, pinned, roots) <==>
            && (exists e :: e in entries && e.raw == n && n in store && store[n].serial == e.serial)
            && (forall r {:trigger Reaches(store, {r}, n)} |
                  r in store && IsRoot(store, outside, entries, pinned, roots, r) :: !Reaches(store, {r}, n))
  {
    var from := RootSet(store, outside, entries, pinned, roots);
    TrackedMembers(store, entries);
    assert n in Tracked(store, entries) <==>
           exists e :: e in entries && e.raw == n && n in store && store[n].serial == e.serial;
    forall r | r in store
      ensures r in from <==> IsRoot(store, outside, entries, pinned, roots, r)
    {
    }
    if Reaches(store, from, n) {
      var p :| PathTo(store, from, p, n);
      PathStartsLive(store, p);
      assert PathTo(store, {p[0]}, p, n);
      assert Reaches(store, {p[0]}, n);
    }
    forall r | r in from && Reaches(store, {r}, n)
      ensures Reaches(store, from, n)
    {
      var p :| PathTo(store, {r}, p, n);
      assert PathTo(store, from, p, n);
    }
  }

  lemma {:induction false} PathStartsLive(store: Store, p: seq<Addr>)
    requires IsPath(store, p)
    ensures p[0] in store
    decreases |p|
  {
    if |p| > 1 { PathStartsLive(store, p[..|p| - 1]); }
  }

  lemma GarbageIsTracked(store: Store, outside: Outside, entries: seq<Entry>,
                         pinned: seq<Value>, roots: seq<Addr>)
    requires EntriesTyped(store, entries)
    ensures OnlyTracked(store, Garbage(store, outside, entries, pinned, roots))
  {
    TrackedMembers(store, entries);
    forall a | a in Garbage(store, outside, entries, pinned, roots)
      ensures !NeverCleared(store[a].body)
    {
      var e :| e in entries && Alive(store, e) && e.raw == a;
    }
  }

  /** No object outside the unreached ones refers to one of them. */
  lemma UnreachedIsApart(store: Store, outside: Outside, entries: seq<Entry>,
                         pinned: seq<Value>, roots: seq<Addr>)
    requires TargetsLive(store)
    ensures OnlyFromWithin(store, outside, Unreached(store, outside, entries, pinned, roots))
  {
    var from := RootSet(store, outside, entries, pinned, roots);
    var scanned, dead := ScannedSet(store, entries), Unreached(store, outside, entries, pinned, roots);
    forall n | n in dead
      ensures !HeldFromOutside(store, outside, scanned, n)
    {
      if n in from { ReachesRoot(store, from, n); }
    }
    forall n, a | n in dead && Owns(store, a, n)
      ensures a in dead
    {
      assert a in scanned;
      if Reaches(store, from, a) { ReachesStep(store, from, a, Edge(n, true)); }
    }
  }

  /** What anchored roots reach, and what the scan does not cover, survives. */
  lemma ReachedSurvives(before: Store, mid: Store, outs: Outside, entries: seq<Entry>,
                        pinned: seq<Value>, roots: seq<Addr>)
    requires WellFormed(before, outs) && AllCounted(before) && NonOwningBacked(before, outs)
    requires RootsAnchored(before, outs, roots) && PinsHeld(outs, pinned)
    requires SweptTo(before, mid, Garbage(before, outs, entries, pinned, roots)) && mid.Keys == before.Keys
    ensures before.Keys - Unreached(before, outs, entries, pinned, roots) <= Lasting(mid, outs)
  {
    var from := RootSet(before, outs, entries, pinned, roots);
    var scanned, marked := ScannedSet(before, entries), ReachedSet(before, from);
    ScannedIsClosed(before, entries);
    RootSetIsRooted(before, outs, entries, pinned, roots);
    ReachedIsMarked(before, from);
    KeptIsSupported(before, mid, outs, scanned, from, marked, Garbage(before, outs, entries, pinned, roots));
    SupportedIsLasting(mid, outs, marked + (before.Keys - scanned));
  }

  lemma ReachedIsMarked(store: Store, from: set<Addr>)
    requires TargetsLive(store)
    ensures Marks(store, from, ReachedSet(store, from))
  {
    forall n | Reaches(store, from, n)
      ensures n in store
    {
      ReachedIsLive(store, from, n);
    }
  }

  /** What a sweep has kept and what it has destroyed, given what was reachable before it. */
  lemma SweepOutcome(before: Store, mid: Store, after: Store, outs: Outside, outs': Outside,
                     entries: seq<Entry>, pinned: seq<Value>, roots: seq<Addr>)
    requires WellFormed(before, outs) && AllCounted(before) && PinsHeld(outs, pinned)
    requires var swept := Garbage(before, outs, entries, pinned, roots);
             SweptTo(before, mid, swept) && mid.Keys == before.Keys && SweptTo(before, after, swept)
    requires after.Keys == Lasting(mid, outs)
    requires CountsExact(after, outs') && AllCounted(after)
    requires forall n | n in after :: outs'[n] == outs[n]
    ensures NonOwningBacked(before, outs) && RootsAnchored(before, outs, roots) ==>
              before.Keys - Unreached(before, outs, entries, pinned, roots) <= after.Keys
    ensures var dead := Unreached(before, outs, entries, pinned, roots);
            dead * after.Keys == {} <==>
            CyclesCut(before, dead, Garbage(before, outs, entries, pinned, roots))
    ensures UncutCyclesLast(before, Garbage(before, outs, entries, pinned, roots), after)
  {
    var dead, swept := Unreached(before, outs, entries, pinned, roots), Garbage(before, outs, entries, pinned, roots);
    if NonOwningBacked(before, outs) && RootsAnchored(before, outs, roots) {
      ReachedSurvives(before, mid, outs, entries, pinned, roots);
    }
    UnreachedIsApart(before, outs, entries, pinned, roots);
    DeadDieExactlyWhen(before, mid, after, outs, outs', dead, swept);
  }

  /** What the references that own nothing need survives, and they stay backed. */
  lemma BackingOutcome(before: Store, mid: Store, after: Store, outs: Outside, outs': Outside,
                       swept: set<Addr>)
    requires NonOwningBacked(before, outs) && OnlyTracked(before, swept) && outs.Keys == before.Keys
    requires SweptTo(before, mid, swept) && mid.Keys == before.Keys && SweptTo(before, after, swept)
    requires OwnedLive(mid) && OwnedLive(after) && after.Keys == Lasting(mid, outs)
    requires forall n | n in after :: n in outs' && outs'[n] == outs[n]
    ensures TargetsLive(after) && NonOwningBacked(after, outs')
  {
    SurvivorsTargetsLive(before, mid, after, outs, swept);
    AnchorsLast(mid, outs);
    BackingSurvives(before, after, outs, outs', swept);
  }

  lemma CollectionOutcome(before: Store, mid: Store, after: Store, outs: Outside, outs': Outside,
                          entries: seq<Entry>, pinned: seq<Value>, roots: seq<Addr>)
    requires WellFormed(before, outs) && AllCounted(before) && EntriesTyped(before, entries)
    requires PinsHeld(outs, pinned)
    requires var swept := Garbage(before, outs, entries, pinned, roots);
             SweptTo(before, mid, swept) && mid.Keys == before.Keys && SweptTo(before, after, swept)
    requires OwnedLive(mid) && after.Keys == Lasting(mid, outs)
    requires Accounted(after, outs') && AllCounted(after)
    requires forall n | n in after :: outs'[n] == outs[n]
    ensures Collected(before, outs, entries, pinned, roots, after, outs', Living(after, entries))
    ensures EntriesTyped(after, Living(after, entries)) && PinsHeld(outs', pinned)
  {
    var swept := Garbage(before, outs, entries, pinned, roots);
    SweepOutcome(before, mid, after, outs, outs', entries, pinned, roots);
    GarbageIsTracked(before, outs, entries, pinned, roots);
    if NonOwningBacked(before, outs) { BackingOutcome(before, mid, after, outs, outs', swept); }
    AnchorsLast(mid, outs);
    StillValid(before, after, outs, outs', entries, pinned, swept);
  }

  lemma ReachedIsLive(store: Store, from: set<Addr>, n: Addr)
    requires TargetsLive(store) && Reaches(store, from, n)
    ensures n in store
  {
    ClosedHoldsReachable(store, from, store.Keys);
  }

  // ---------------------------------------------------------------------------
  // Pins
  // ---------------------------------------------------------------------------

  /** The address unpinValue matches on; 0 for values that need no pin. */
  function GcPointer(v: Value): Addr {
    if v.Ref? then v.target else 0
  }

  /** The list without its last pin of `v`'s object. */
  function WithoutLast(pinned: seq<Value>, v: Value): seq<Value> {
    if pinned == [] then []
    else if pinned[|pinned| - 1] == v then pinned[..|pinned| - 1]
    else WithoutLast(pinned[..|pinned| - 1], v) + [pinned[|pinned| - 1]]
  }

  /** Pins nest: unpinning a value undoes the latest pin of it, whatever other pins have
      been made since. */
  lemma {:induction false} UnpinUndoesPin(pinned: seq<Value>, v: Value, later: seq<Value>)
    requires v !in later
    ensures WithoutLast(pinned + [v] + later, v) == pinned + later
  {
    var all := pinned + [v] + later;
    if later == [] {
      assert all[..|all| - 1] == pinned;
      assert pinned + later == pinned;
    } else {
      var init := later[..|later| - 1];
      assert all[..|all| - 1] == pinned + [v] + init;
      UnpinUndoesPin(pinned, v, init);
      assert later == init + [later[|later| - 1]];
    }
  }

  /** Values without a pointer are never pinned. */
  lemma {:induction false} NoPinBeyond(outside: Outside, pinned: seq<Value>, v: Value)
    ensures v !in pinned ==> WithoutLast(pinned, v) == pinned
    ensures 0 !in outside && PinsHeld(outside, pinned) && GcPointer(v) == 0 ==> v !in pinned
  {
    if pinned != [] && v !in pinned {
      var init := pinned[..|pinned| - 1];
      assert pinned == init + [pinned[|pinned| - 1]];
      assert v !in init;
      NoPinBeyond(outside, init, v);
    }
  }

  lemma DroppedPinsHeld(outside: Outside, pinned: seq<Value>, i: nat)
    requires PinsHeld(outside, pinned) && i < |pinned|
    ensures PinsHeld(outside, pinned[..i] + pinned[i + 1..])
  {
    var rest := pinned[..i] + pinned[i + 1..];
    assert pinned == pinned[..i] + [pinned[i]] + pinned[i + 1..];
    assert multiset(rest) <= multiset(pinned);
    forall v | v in rest
      ensures v in pinned
    {
      assert v in multiset(rest);
    }
  }

  lemma ReleasesOwned(store: Store, a: Addr)
    requires OwnedLive(store) && a in store
    ensures forall e | e in EdgesOf(store, a) && e.owning :: e.target in store
  {
    forall e | e in EdgesOf(store, a) && e.owning
      ensures e.target in store
    {
      assert e == Edge(e.target, true) && Owns(store, a, e.target);
    }
  }

  /** The next threshold, between 500 and 10000. */
  function Tuned(threshold: int, collected: int): int {
    if collected == 0 then (if threshold * 2 <= 10000 then threshold * 2 else 10000)
    else if collected > 0 then (if threshold / 2 >= 500 then threshold / 2 else 500)
    else threshold
  }

  class GcHeap {
    var store: Store
    ghost var outside: Outside
    var entries: seq<Entry>
    const nodes: NodeTable
    var held: seq<Addr>
    var pinned: seq<Value>
    var markStack: seq<MarkItem>
    var allocsSinceGc: int
    var lastCollected: int
    var threshold: int
    var collecting: bool

    /** Between collections: counts are exact, and all that is owned is alive. */
    ghost predicate Sound()
      reads this, nodes, nodes.slots
    {
      && nodes.Table().Holds?
      && Accounted(store, outside) && AllCounted(store)
      && EntriesTyped(store, entries)
      && PinsHeld(outside, pinned)
      && held == [] && markStack == []
      && 500 <= threshold <= 10000
    }

    /** And no reference dangles. */
    ghost predicate Valid()
      reads this, nodes, nodes.slots
    {
      Sound() && TargetsLive(store)
    }

    constructor ()
      ensures Valid() && NonOwningBacked(store, outside) && fresh(nodes) && fresh(nodes.slots)
      ensures store == map[] && entries == [] && held == [] && pinned == [] && markStack == []
      ensures nodes.Contents() == map[] && threshold == 500 && !collecting
    {
      store, outside, entries := map[], map[], [];
      nodes := new NodeTable();
      held, pinned, markStack := [], [], [];
      allocsSinceGc, lastCollected, threshold := 0, 0, 500;
      collecting := false;
    }

    /** The first loop of findExternallyHeld: hold and seed every live tracked object. */
    method SeedTracked() returns (work: seq<Addr>)
      requires nodes.Table() == Holds(map[]) && held == []
      requires 0 !in store && EntriesTyped(store, entries)
      modifies this`held, nodes, nodes.slots
      ensures nodes.Table() == Holds(SeedAll(store, entries).t)
      ensures nodes.slots == old(nodes.slots) || fresh(nodes.slots)
      ensures work == held == SeedAll(store, entries).work
    {
      work := [];
      assert entries[..0] == [];
      for i := 0 to |entries|
        invariant nodes.Table() == Holds(SeedAll(store, entries[..i]).t)
        invariant nodes.slots == old(nodes.slots) || fresh(nodes.slots)
        invariant work == held == SeedAll(store, entries[..i]).work
      {
        SeedAllNext(store, entries, i);
        if Alive(store, entries[i]) {
          SeededIsHeld(store, entries[..i], entries[i].raw);
          work := Hold(entries[i], work, SeedAll(store, entries[..i]));
        }
      }
      assert entries[..|entries|] == entries;
    }

    /** Locks one live entry; the lock is kept, and the object seeded, the first time. */
    method Hold(entry: Entry, work: seq<Addr>, ghost s: Scan) returns (work': seq<Addr>)
      requires Alive(store, entry) && entry.raw != 0
      requires nodes.Table() == Holds(s.t) && work == held == s.work
      requires multiset(held)[entry.raw] > 0 ==> entry.raw in s.t
      modifies this`held, nodes, nodes.slots
      ensures nodes.Table() == Holds(SeedEntry(store, s, entry).t)
      ensures nodes.slots == old(nodes.slots) || fresh(nodes.slots)
      ensures work' == held == SeedEntry(store, s, entry).work
    {
      var uc := store[entry.raw].count + multiset(held)[entry.raw] + 1 - 1;
      var _, inserted := Enter(entry.raw, NodeKindOf(entry.typ), uc);
      work' := work;
      if inserted {
        work' := work + [entry.raw];
        held := held + [entry.raw];
      }
    }

    /** The slot of `n`, entered with this kind and count if it is absent. */
    method Enter(n: Addr, kind: Kind, refs: int) returns (i: nat, inserted: bool)
      requires nodes.Table().Holds? && n != 0
      modifies nodes, nodes.slots
      ensures nodes.slots == old(nodes.slots) || fresh(nodes.slots)
      ensures i < nodes.slots.Length && nodes.slots[i].key == n
      ensures var t := old(nodes.Table().m);
              && inserted == (n !in t)
              && nodes.Table() == Holds(if n in t then t else t[n := Info(refs, kind, false)])
    {
      i, inserted := nodes.Insert(n, kind, refs);
    }

    method DropRef(n: Addr, i: nat)
      requires nodes.Table().Holds? && i < nodes.slots.Length && nodes.slots[i].key == n != 0
      modifies nodes.slots
      ensures nodes.slots == old(nodes.slots) && n in old(nodes.Table().m)
      ensures var info := old(nodes.Table().m)[n];
              nodes.Table() == Holds(old(nodes.Table().m)[n := info.(refs := info.refs - 1)])
    {
      nodes.Write(i, nodes.slots[i].refs - 1, nodes.slots[i].marked);
    }

    /** Subtracts an owning edge from the count of its target. */
    method Discount(e: Edge, i: nat, ghost t: map<Addr, Info>)
      requires e.target in store && e.target != 0
      requires nodes.Table() == Holds(Entered(store, t, e.target))
      requires i < nodes.slots.Length && nodes.slots[i].key == e.target
      modifies nodes.slots
      ensures nodes.Table() == Holds(Visited(store, t, e))
    {
      VisitedByUpdates(store, t, e);
      if e.owning {
        DropRef(e.target, i);
      }
    }

    /** The visitor of the scan loop, on one edge. */
    method VisitChild(e: Edge, work: seq<Addr>, ghost s: Scan) returns (work': seq<Addr>)
      requires e.target in store && e.target != 0
      requires nodes.Table() == Holds(s.t) && work == s.work
      requires e.target !in s.t ==> UseCount(store, held, e.target) == store[e.target].count
      modifies nodes, nodes.slots
      ensures nodes.Table() == Holds(VisitEdge(store, s, e).t)
      ensures nodes.slots == old(nodes.slots) || fresh(nodes.slots)
      ensures work' == VisitEdge(store, s, e).work
    {
      var i, inserted := Enter(e.target, KindOf(store[e.target].body), UseCount(store, held, e.target));
      assert nodes.Table() == Holds(Entered(store, s.t, e.target));
      Discount(e, i, s.t);
      work' := if inserted then work + [e.target] else work;
    }

    /** forEachChild with the scan's visitor. */
    method VisitChildren(obj: Addr, kind: Kind, work: seq<Addr>, ghost s: Scan)
      returns (work': seq<Addr>)
      requires obj in store && kind == KindOf(store[obj].body)
      requires 0 !in store && TargetsLive(store)
      requires nodes.Table() == Holds(s.t) && work == s.work
      requires UnseenCounted(store, held, s.t)
      modifies nodes, nodes.slots
      ensures nodes.Table() == Holds(VisitEdges(store, s, EdgesOf(store, obj)).t)
      ensures nodes.slots == old(nodes.slots) || fresh(nodes.slots)
      ensures work' == VisitEdges(store, s, EdgesOf(store, obj)).work
    {
      work' := VisitAll(Children(store[obj].body), work, s);
    }

    method VisitAll(es: seq<Edge>, work: seq<Addr>, ghost s: Scan) returns (work': seq<Addr>)
      requires 0 !in store && forall e | e in es :: e.target in store
      requires nodes.Table() == Holds(s.t) && work == s.work
      requires UnseenCounted(store, held, s.t)
      modifies nodes, nodes.slots
      ensures nodes.Table() == Holds(VisitEdges(store, s, es).t)
      ensures nodes.slots == old(nodes.slots) || fresh(nodes.slots)
      ensures work' == VisitEdges(store, s, es).work
    {
      work' := work;
      assert es[..0] == [];
      for j := 0 to |es|
        invariant nodes.Table() == Holds(VisitEdges(store, s, es[..j]).t)
        invariant UnseenCounted(store, held, VisitEdges(store, s, es[..j]).t)
        invariant work' == VisitEdges(store, s, es[..j]).work
        invariant nodes.slots == old(nodes.slots) || fresh(nodes.slots)
      {
        work' := VisitAt(es, j, work', s);
      }
      assert es[..|es|] == es;
    }

    method VisitAt(es: seq<Edge>, j: nat, work: seq<Addr>, ghost s: Scan) returns (work': seq<Addr>)
      requires 0 !in store && j < |es| && forall e | e in es :: e.target in store
      requires nodes.Table() == Holds(VisitEdges(store, s, es[..j]).t)
      requires UnseenCounted(store, held, VisitEdges(store, s, es[..j]).t)
      requires work == VisitEdges(store, s, es[..j]).work
      modifies nodes, nodes.slots
      ensures nodes.Table() == Holds(VisitEdges(store, s, es[..j + 1]).t)
      ensures UnseenCounted(store, held, VisitEdges(store, s, es[..j + 1]).t)
      ensures nodes.slots == old(nodes.slots) || fresh(nodes.slots)
      ensures work' == VisitEdges(store, s, es[..j + 1]).work
    {
      ghost var now := VisitEdges(store, s, es[..j]);
      VisitEdgesNext(store, s, es, j);
      VisitedKeys(store, now.t, es[j]);
      UnseenLasts(store, held, now.t, VisitEdge(store, now, es[j]).t);
      work' := VisitChild(es[j], work, now);
    }

    /** findExternallyHeld: the nodes with a reference the scan cannot account for. */
    method FindExternallyHeld() returns (roots: seq<MarkItem>)
      requires 0 !in store && TargetsLive(store) && CountsExact(store, outside)
      requires AllCounted(store) && EntriesTyped(store, entries)
      requires nodes.Table() == Holds(map[]) && held == []
      modifies this`held, nodes, nodes.slots
      ensures nodes.Table().Holds? && (nodes.slots == old(nodes.slots) || fresh(nodes.slots))
      ensures ExactScan(store, Tracked(store, entries), nodes.Table().m)
      ensures held == SeedAll(store, entries).work
      ensures ExternalItems(nodes.Table().m, roots)
    {
      var work := SeedTracked();
      ghost var s := SeedAll(store, entries);
      ScanReady(store, outside, entries);
      ScanAll(work, s, Tracked(store, entries));
      roots := CollectRoots();
    }

    /** The worklist loop of findExternallyHeld. */
    method ScanAll(work0: seq<Addr>, ghost s0: Scan, ghost from: set<Addr>)
      requires nodes.Table() == Holds(s0.t) && work0 == s0.work
      requires 0 !in store && TargetsLive(store) && Scanning(store, from, s0, {})
      requires UnseenCounted(store, held, s0.t)
      modifies nodes, nodes.slots
      ensures nodes.Table().Holds? && (nodes.slots == old(nodes.slots) || fresh(nodes.slots))
      ensures ExactScan(store, from, nodes.Table().m)
    {
      var work := work0;
      ghost var s, done := s0, {};
      while work != []
        invariant nodes.Table() == Holds(s.t) && work == s.work
        invariant nodes.slots == old(nodes.slots) || fresh(nodes.slots)
        invariant Scanning(store, from, s, done)
        invariant UnseenCounted(store, held, s.t)
        decreases store.Keys - done
      {
        ScanStep(store, from, s, done);
        UnseenLasts(store, held, s.t, ScanNext(store, s).t);
        work := ScanTop(work, s);
        done := done + {Top(s.work)};
        s := ScanNext(store, s);
      }
      ScanEnd(store, from, s, done);
    }

    method ScanTop(work: seq<Addr>, ghost s: Scan) returns (work': seq<Addr>)
      requires nodes.Table() == Holds(s.t) && work == s.work != []
      requires Top(work) in s.t && Top(work) in store
      requires s.t[Top(work)].kind == KindOf(store[Top(work)].body)
      requires 0 !in store && TargetsLive(store)
      requires UnseenCounted(store, held, s.t)
      modifies nodes, nodes.slots
      ensures nodes.Table() == Holds(ScanNext(store, s).t)
      ensures nodes.slots == old(nodes.slots) || fresh(nodes.slots)
      ensures work' == ScanNext(store, s).work
    {
      var obj := Top(work);
      var kind := KindInTable(obj);
      work' := VisitChildren(obj, kind, Pop(work), Scan(s.t, Pop(s.work)));
    }

    /** The kind the table records for a node it holds. */
    method KindInTable(n: Addr) returns (kind: Kind)
      requires nodes.Table().Holds? && n in nodes.Table().m && n != 0
      ensures kind == nodes.Table().m[n].kind
    {
      var i := nodes.Find(n);
      kind := nodes.slots[i].kind;
    }

    /** The final pass over the table. */
    method CollectRoots() returns (roots: seq<MarkItem>)
      requires nodes.Table().Holds?
      ensures ExternalItems(nodes.Table().m, roots)
    {
      var slots := nodes.Occupied();
      roots := [];
      for i := 0 to |slots|
        invariant ItemsOf(slots[..i], roots)
      {
        ItemsOfNext(slots, i, roots);
        if slots[i].refs != 0 {
          roots := roots + [MarkItem(slots[i].key, slots[i].kind)];
        }
      }
      assert slots[..|slots|] == slots;
      ItemsAreExternal(nodes.Table().m, slots, roots);
    }

    method MarkNode(n: Addr, kind: Kind, ghost s: Marking)
      requires nodes.Table() == Holds(s.t) && markStack == s.stack
      requires n != 0 ==> n in store && kind == KindOf(store[n].body)
      modifies this`markStack, nodes, nodes.slots
      ensures nodes.slots == old(nodes.slots) || fresh(nodes.slots)
      ensures nodes.Table() == Holds(MarkOne(store, s, n).t)
      ensures markStack == MarkOne(store, s, n).stack
    {
      if n == 0 { return; }
      MarkOneByUpdates(store, s, n);
      var i, _ := Enter(n, kind, 0);
      Flag(n, kind, i, Seen(s.t, n, kind));
    }

    method Flag(n: Addr, kind: Kind, i: nat, ghost t: map<Addr, Info>)
      requires n in t && nodes.Table() == Holds(t)
      requires i < nodes.slots.Length && nodes.slots[i].key == n != 0
      modifies this`markStack, nodes.slots
      ensures nodes.slots == old(nodes.slots)
      ensures nodes.Table() == Holds(Flagged(t, old(markStack), n, kind).t)
      ensures markStack == Flagged(t, old(markStack), n, kind).stack
    {
      var isNew := SetMark(n, i);
      if isNew {
        markStack := markStack + [MarkItem(n, kind)];
      }
    }

    method SetMark(n: Addr, i: nat) returns (isNew: bool)
      requires nodes.Table().Holds? && i < nodes.slots.Length && nodes.slots[i].key == n != 0
      modifies nodes.slots
      ensures n in old(nodes.Table().m)
      ensures isNew == !old(nodes.Table().m)[n].marked
      ensures nodes.Table() == Holds(if isNew
                then old(nodes.Table().m)[n := old(nodes.Table().m)[n].(marked := true)]
                else old(nodes.Table().m))
    {
      isNew := !nodes.slots[i].marked;
      if isNew {
        nodes.Write(i, nodes.slots[i].refs, true);
      }
    }

    method MarkChildren(obj: Addr, kind: Kind, ghost s: Marking)
      requires obj in store && kind == KindOf(store[obj].body)
      requires nodes.Table() == Holds(s.t) && markStack == s.stack
      requires TargetsLive(store)
      modifies this`markStack, nodes, nodes.slots
      ensures nodes.slots == old(nodes.slots) || fresh(nodes.slots)
      ensures nodes.Table() == Holds(MarkTargets(store, s, EdgesOf(store, obj)).t)
      ensures markStack == MarkTargets(store, s, EdgesOf(store, obj)).stack
    {
      MarkEach(Children(store[obj].body), s);
    }

    method MarkEach(es: seq<Edge>, ghost s: Marking)
      requires forall e | e in es :: e.target in store
      requires nodes.Table() == Holds(s.t) && markStack == s.stack
      modifies this`markStack, nodes, nodes.slots
      ensures nodes.slots == old(nodes.slots) || fresh(nodes.slots)
      ensures nodes.Table() == Holds(MarkTargets(store, s, es).t)
      ensures markStack == MarkTargets(store, s, es).stack
    {
      assert es[..0] == [];
      for j := 0 to |es|
        invariant nodes.slots == old(nodes.slots) || fresh(nodes.slots)
        invariant nodes.Table() == Holds(MarkTargets(store, s, es[..j]).t)
        invariant markStack == MarkTargets(store, s, es[..j]).stack
      {
        MarkTargetsNext(store, s, es, j);
        var n := es[j].target;
        MarkNode(n, KindOf(store[n].body), MarkTargets(store, s, es[..j]));
      }
      assert es[..|es|] == es;
    }

    method DrainMarkStack(ghost s0: Marking, ghost from: set<Addr>) returns (ghost s: Marking)
      requires nodes.Table() == Holds(s0.t) && markStack == s0.stack
      requires 0 !in store && TargetsLive(store) && MarkInvariant(store, from, s0, {})
      modifies this`markStack, nodes, nodes.slots
      ensures nodes.slots == old(nodes.slots) || fresh(nodes.slots)
      ensures nodes.Table() == Holds(s.t) && markStack == s.stack == []
      ensures MarkInvariant(store, from, s, {})
      ensures forall m | IsMarked(s0.t, m) :: IsMarked(s.t, m)
    {
      s := s0;
      while markStack != []
        invariant nodes.slots == old(nodes.slots) || fresh(nodes.slots)
        invariant nodes.Table() == Holds(s.t) && markStack == s.stack
        invariant MarkInvariant(store, from, s, {})
        invariant forall m | IsMarked(s0.t, m) :: IsMarked(s.t, m)
        decreases store.Keys - MarkedSet(s.t), |markStack|
      {
        MarkStep(store, from, s);
        var item := Top(markStack);
        markStack := Pop(markStack);
        MarkChildren(item.obj, item.kind, s.(stack := Pop(s.stack)));
        s := MarkNext(store, s);
      }
    }

    // -------------------------------------------------------------------------
    // Sweep
    // -------------------------------------------------------------------------

    method FindUnmarked() returns (toCollect: seq<Entry>)
      requires nodes.Table().Holds? && forall e | e in entries :: e.raw != 0
      ensures toCollect == ToCollect(store, nodes.Table().m, entries)
    {
      toCollect := [];
      for i := 0 to |entries|
        invariant toCollect == ToCollect(store, nodes.Table().m, entries[..i])
      {
        assert entries[..i + 1][..i] == entries[..i];
        var entry := entries[i];
        var marked := LooksMarked(entry.raw);
        if !marked && Alive(store, entry) {
          toCollect := toCollect + [entry];
        }
      }
      assert entries[..|entries|] == entries;
    }

    method LooksMarked(n: Addr) returns (marked: bool)
      requires nodes.Table().Holds? && n != 0
      ensures marked == IsMarked(nodes.Table().m, n)
    {
      var i := nodes.Find(n);
      marked := i >= 0 && nodes.slots[i].marked;
    }

    /** Drops the owning references `es`. */
    method Release(es: seq<Edge>)
      requires (forall e | e in es && e.owning :: e.target in store) && Covers(store, es)
      modifies this`store
      ensures store == Released(old(store), es)
    {
      ghost var before := store;
      CoversPrefix(before, es, 0);
      for j := 0 to |es|
        invariant Covers(before, es[..j]) && store == Released(before, es[..j])
      {
        ReleaseOne(before, es, j);
        var e := es[j];
        if e.owning {
          store := store[e.target := store[e.target].(count := store[e.target].count - 1)];
        }
      }
      assert es[..|es|] == es;
    }

    /** Clears one object, letting go of everything it owned. */
    method ClearObject(entry: Entry)
      requires WellFormed(store, outside) && entry.raw in store
      requires NodeKindOf(entry.typ) == KindOf(store[entry.raw].body)
      modifies this`store
      ensures WellFormed(store, outside) && SweptTo(old(store), store, {entry.raw})
      ensures store.Keys == old(store.Keys)
    {
      var a := entry.raw;
      ghost var before := store;
      ClearCovers(store, outside, a);
      ClearKeepsHeap(store, outside, a, entry.typ);
      ClearedHasNoChildren(entry.typ, store[a].body);
      var es := Children(store[a].body);
      store := store[a := store[a].(body := Cleared(entry.typ, store[a].body))];
      assert Covers(store, es);
      Release(es);
    }

    /** Clears every object of `toCollect`. */
    method ClearAll(toCollect: seq<Entry>)
      requires WellFormed(store, outside)
      requires forall e | e in toCollect ::
                 e.raw in store && NodeKindOf(e.typ) == KindOf(store[e.raw].body)
      modifies this`store
      ensures WellFormed(store, outside) && store.Keys == old(store.Keys)
      ensures SweptTo(old(store), store, Raws(toCollect))
    {
      for i := 0 to |toCollect|
        invariant WellFormed(store, outside) && store.Keys == old(store.Keys)
        invariant SweptTo(old(store), store, Raws(toCollect[..i]))
      {
        assert toCollect[..i + 1] == toCollect[..i] + [toCollect[i]];
        var e := toCollect[i];
        assert e in toCollect && SweptObject(old(store)[e.raw], store[e.raw], e.raw in Raws(toCollect[..i]));
        ghost var before := store;
        ClearObject(e);
        SweptAgain(old(store), before, store, Raws(toCollect[..i]), e.raw);
      }
      assert toCollect[..|toCollect|] == toCollect;
    }

    /** Destroys objects whose count is zero until none is left. What keeps itself alive
        is left, and nothing else. */
    method Reclaim()
      requires Accounted(store, outside)
      modifies this`store, this`outside
      ensures Accounted(store, outside) && AllCounted(store)
      ensures SweptTo(old(store), store, {})
      ensures forall n | n in store :: outside[n] == old(outside)[n]
      ensures store.Keys == Lasting(old(store), old(outside))
    {
      ghost var keep := Lasting(store, outside);
      LastingIsSupported(store, outside);
      while exists a :: a in store && store[a].count == 0
        invariant Accounted(store, outside) && Supported(store, outside, keep)
        invariant SweptTo(old(store), store, {})
        invariant forall n | n in store :: n in old(outside) && outside[n] == old(outside)[n]
        decreases store.Keys
      {
        var a :| a in store && store[a].count == 0;
        Destroy(a, keep);
      }
      LeftIsLasting(old(store), store, old(outside), outside);
    }

    method Destroy(a: Addr, ghost keep: set<Addr>)
      requires Accounted(store, outside) && a in store && store[a].count == 0
      requires Supported(store, outside, keep)
      modifies this`store, this`outside
      ensures Accounted(store, outside) && store.Keys == old(store.Keys) - {a}
      ensures SweptTo(old(store), store, {})
      ensures forall n | n in store :: n in old(outside) && outside[n] == old(outside)[n]
      ensures Supported(store, outside, keep)
    {
      ClearCovers(store, outside, a);
      DestroyKeepsHeap(store, outside, a);
      SupportedSurvives(store, outside, keep, a);
      ReleasesOwned(store, a);
      Release(Children(store[a].body));
      store, outside := store - {a}, outside - {a};
    }

    // -------------------------------------------------------------------------
    // A whole collection
    // -------------------------------------------------------------------------

    /** markValue and markEnvironment: mark one node, then drain. */
    method MarkFrom(n: Addr, ghost s0: Marking, ghost from: set<Addr>) returns (ghost s: Marking)
      requires nodes.Table() == Holds(s0.t) && markStack == s0.stack == []
      requires 0 !in store && TargetsLive(store) && MarkInvariant(store, from, s0, {})
      requires n != 0 ==> n in store && n in from
      modifies this`markStack, nodes, nodes.slots
      ensures nodes.slots == old(nodes.slots) || fresh(nodes.slots)
      ensures nodes.Table() == Holds(s.t) && markStack == s.stack == []
      ensures MarkInvariant(store, from, s, {})
      ensures MoreMarked(s0.t, s.t) && (n != 0 ==> IsMarked(s.t, n))
    {
      s := s0;
      if n == 0 { return; }
      ReachesRoot(store, from, n);
      MarkOneKeeps(store, from, s0, {}, n);
      MarkOneGrows(store, s0, n);
      MarkNode(n, KindOf(store[n].body), s0);
      s := DrainMarkStack(MarkOne(store, s0, n), from);
    }

    /** The roots in `ns`, in order. */
    method MarkAll(ns: seq<Addr>, ghost s0: Marking, ghost from: set<Addr>) returns (ghost s: Marking)
      requires nodes.Table() == Holds(s0.t) && markStack == s0.stack == []
      requires 0 !in store && TargetsLive(store) && MarkInvariant(store, from, s0, {})
      requires forall n | n in ns && n != 0 :: n in store && n in from
      modifies this`markStack, nodes, nodes.slots
      ensures nodes.slots == old(nodes.slots) || fresh(nodes.slots)
      ensures nodes.Table() == Holds(s.t) && markStack == s.stack == []
      ensures MarkInvariant(store, from, s, {})
      ensures MoreMarked(s0.t, s.t) && forall n | n in ns && n != 0 :: IsMarked(s.t, n)
    {
      s := s0;
      for i := 0 to |ns|
        invariant nodes.slots == old(nodes.slots) || fresh(nodes.slots)
        invariant nodes.Table() == Holds(s.t) && markStack == s.stack == []
        invariant MarkInvariant(store, from, s, {}) && MoreMarked(s0.t, s.t)
        invariant forall n | n in ns[..i] && n != 0 :: IsMarked(s.t, n)
      {
        assert ns[..i + 1] == ns[..i] + [ns[i]];
        s := MarkFrom(ns[i], s, from);
      }
      assert ns[..|ns|] == ns;
    }

    /** The externally held nodes: all are pushed, then the stack is drained once. */
    method MarkItems(items: seq<MarkItem>, ghost s0: Marking, ghost from: set<Addr>)
      returns (ghost s: Marking)
      requires nodes.Table() == Holds(s0.t) && markStack == s0.stack == []
      requires 0 !in store && TargetsLive(store) && MarkInvariant(store, from, s0, {})
      requires forall item | item in items :: ItemIsRoot(store, from, item)
      modifies this`markStack, nodes, nodes.slots
      ensures nodes.slots == old(nodes.slots) || fresh(nodes.slots)
      ensures nodes.Table() == Holds(s.t) && markStack == s.stack == []
      ensures MarkInvariant(store, from, s, {})
      ensures MoreMarked(s0.t, s.t) && forall item | item in items :: IsMarked(s.t, item.obj)
    {
      s := s0;
      for i := 0 to |items|
        invariant nodes.slots == old(nodes.slots) || fresh(nodes.slots)
        invariant nodes.Table() == Holds(s.t) && markStack == s.stack
        invariant MarkInvariant(store, from, s, {}) && MoreMarked(s0.t, s.t)
        invariant forall item | item in items[..i] :: IsMarked(s.t, item.obj)
      {
        assert items[..i + 1] == items[..i] + [items[i]];
        var item := items[i];
        assert ItemIsRoot(store, from, item);
        ReachesRoot(store, from, item.obj);
        MarkOneKeeps(store, from, s, {}, item.obj);
        MarkOneGrows(store, s, item.obj);
        MarkNode(item.obj, item.kind, s);
        s := MarkOne(store, s, item.obj);
      }
      assert items[..|items|] == items;
      s := DrainMarkStack(s, from);
    }

    /** The mark phase: afterwards exactly what the roots reach is marked. */
    method Mark(roots: seq<Addr>)
      requires 0 !in store && TargetsLive(store) && CountsExact(store, outside)
      requires AllCounted(store) && EntriesTyped(store, entries)
      requires nodes.Table() == Holds(map[]) && held == [] && markStack == []
      requires RootsLive(store, pinned, roots)
      modifies this`held, this`markStack, nodes, nodes.slots
      ensures nodes.Table().Holds? && (nodes.slots == old(nodes.slots) || fresh(nodes.slots))
      ensures held == SeedAll(store, entries).work && markStack == []
      ensures MarksExactly(store, nodes.Table().m, RootSet(store, outside, entries, pinned, roots))
    {
      var external := FindExternallyHeld();
      ghost var from := RootSet(store, outside, entries, pinned, roots);
      RootsAreListed(store, outside, entries, pinned, roots, nodes.Table().m, external);
      MarkPhase(roots, external, from);
    }

    method MarkPhase(roots: seq<Addr>, external: seq<MarkItem>, ghost from: set<Addr>)
      requires nodes.Table().Holds? && markStack == []
      requires 0 !in store && TargetsLive(store)
      requires MarkInvariant(store, from, Marking(nodes.Table().m, []), {})
      requires Listed(store, from, roots, pinned, external)
      modifies this`markStack, nodes, nodes.slots
      ensures nodes.Table().Holds? && (nodes.slots == old(nodes.slots) || fresh(nodes.slots))
      ensures markStack == []
      ensures MarksExactly(store, nodes.Table().m, from)
    {
      ghost var s0 := Marking(nodes.Table().m, []);
      ghost var s1 := MarkAll(roots, s0, from);
      ghost var s2 := MarkAll(PinnedNodes(pinned), s1, from);
      ghost var s3 := MarkItems(external, s2, from);
      AllRootsMarked(store, from, roots, pinned, external, s1.t, s2.t, s3.t);
      MarkEnd(store, from, s3);
    }

    /** The sweep phase. `mid` is the memory once everything is cleared and before
        anything is destroyed; what keeps itself alive there survives, and nothing else. */
    method Sweep() returns (ghost mid: Store)
      requires nodes.Table().Holds? && WellFormed(store, outside) && EntriesTyped(store, entries)
      modifies this`store, this`outside, this`entries, this`held, this`lastCollected
      ensures Accounted(store, outside) && AllCounted(store) && held == [] && OwnedLive(mid)
      ensures var swept := Raws(ToCollect(old(store), nodes.Table().m, old(entries)));
              && SweptTo(old(store), store, swept)
              && SweptTo(old(store), mid, swept) && mid.Keys == old(store).Keys
      ensures forall n | n in store :: outside[n] == old(outside)[n]
      ensures store.Keys == Lasting(mid, old(outside))
      ensures entries == Living(store, old(entries))
      ensures lastCollected == |ToCollect(old(store), nodes.Table().m, old(entries))|
    {
      var toCollect := SweepClear();
      mid := store;
      WellFormedIsAccounted(store, outside);
      lastCollected := |toCollect|;
      held := [];
      Reclaim();
      SweptThenDestroyed(old(store), mid, store, Raws(toCollect));
      Prune();
    }

    /** Phases 1 and 2: find what is not marked, and clear it. */
    method SweepClear() returns (toCollect: seq<Entry>)
      requires nodes.Table().Holds? && WellFormed(store, outside) && EntriesTyped(store, entries)
      modifies this`store
      ensures WellFormed(store, outside) && store.Keys == old(store.Keys)
      ensures toCollect == ToCollect(old(store), nodes.Table().m, entries)
      ensures SweptTo(old(store), store, Raws(toCollect))
    {
      toCollect := FindUnmarked();
      CollectedAreTyped(store, nodes.Table().m, entries);
      ClearAll(toCollect);
    }

    method Prune()
      modifies this`entries
      ensures entries == Living(store, old(entries))
    {
      var kept := [];
      for i := 0 to |entries|
        invariant kept == Living(store, entries[..i]) && entries == old(entries)
      {
        assert entries[..i + 1][..i] == entries[..i];
        if Alive(store, entries[i]) { kept := kept + [entries[i]]; }
      }
      assert entries[..|entries|] == entries;
      entries := kept;
    }

    /** One collection. `roots` are the nodes the root marker passes to the collector. */
    method Collect(roots: seq<Addr>)
      requires !collecting ==> Valid() && RootsLive(store, pinned, roots)
      modifies this, nodes, nodes.slots
      // A collection inside a collection does nothing.
      ensures old(collecting) ==> unchanged(this) && unchanged(nodes) && unchanged(nodes.slots)
      ensures collecting == old(collecting) && pinned == old(pinned)
      // The counts stay exact; and no reference dangles, if those that own nothing were backed.
      ensures !old(collecting) ==> Sound()
      ensures !old(collecting) && old(NonOwningBacked(store, outside)) ==>
                Valid() && NonOwningBacked(store, outside)
      // Safety and completeness of the clearing: exactly the tracked objects no root
      // reaches are emptied.
      ensures !old(collecting) ==> SweptTo(old(store), store, old(Garbage(store, outside, entries, pinned, roots)))
      // Nothing an anchored root reaches, and nothing outside the scanned graph, is destroyed.
      ensures !old(collecting) && old(NonOwningBacked(store, outside) && RootsAnchored(store, outside, roots)) ==>
                old(store.Keys - Unreached(store, outside, entries, pinned, roots)) <= store.Keys
      // Everything unreached is destroyed, if and only if every reference cycle in it has a
      // tracked member.
      ensures !old(collecting) ==>
                (old(Unreached(store, outside, entries, pinned, roots)) * store.Keys == {} <==>
                 old(CyclesCut(store, Unreached(store, outside, entries, pinned, roots),
                               Garbage(store, outside, entries, pinned, roots))))
      // A cycle without such a member survives whole.
      ensures !old(collecting) ==>
                UncutCyclesLast(old(store), old(Garbage(store, outside, entries, pinned, roots)), store)
      ensures !old(collecting) ==> entries == Living(store, old(entries))
      // The next collection comes later if this one found nothing, else earlier.
      ensures !old(collecting) ==> allocsSinceGc == 0 && threshold == Tuned(old(threshold), lastCollected)
      ensures !old(collecting) ==>
                (lastCollected == 0 <==> old(Garbage(store, outside, entries, pinned, roots)) == {})
      ensures !old(collecting) ==> forall n | n in store :: outside[n] == old(outside)[n]
    {
      if collecting { return; }
      CollectOnce(roots, store, outside, entries);
    }

    method CollectOnce(roots: seq<Addr>, ghost before: Store, ghost outs: Outside, ghost was: seq<Entry>)
      requires before == store && outs == outside && was == entries
      requires !collecting && Valid() && RootsLive(store, pinned, roots)
      modifies this`collecting, this`allocsSinceGc, this`threshold, this`held, this`markStack
      modifies this`store, this`outside, this`entries, this`lastCollected, nodes, nodes.slots
      ensures Sound() && !collecting && allocsSinceGc == 0
      ensures threshold == Tuned(old(threshold), lastCollected)
      ensures lastCollected == 0 <==> Garbage(before, outs, was, pinned, roots) == {}
      ensures Collected(before, outs, was, pinned, roots, store, outside, entries)
    {
      collecting := true;
      CollectNow(roots, before, outs, was);
      FinishCollection();
    }

    method FinishCollection()
      requires 500 <= threshold <= 10000
      modifies this`threshold, this`collecting
      ensures 500 <= threshold <= 10000 && !collecting && threshold == Tuned(old(threshold), lastCollected)
    {
      Tune();
      collecting := false;
    }

    method ResetTable()
      modifies nodes, nodes.slots
      ensures nodes.Table() == Holds(map[]) && (nodes.slots == old(nodes.slots) || fresh(nodes.slots))
    {
      nodes.Reset(|entries|);
    }

    method CollectNow(roots: seq<Addr>, ghost before: Store, ghost outs: Outside, ghost was: seq<Entry>)
      requires before == store && outs == outside && was == entries
      requires Valid() && RootsLive(store, pinned, roots)
      modifies this`allocsSinceGc, this`held, this`markStack, nodes, nodes.slots
      modifies this`store, this`outside, this`entries, this`lastCollected
      ensures Sound() && allocsSinceGc == 0
      ensures lastCollected == 0 <==> Garbage(before, outs, was, pinned, roots) == {}
      ensures Collected(before, outs, was, pinned, roots, store, outside, entries)
    {
      allocsSinceGc := 0;
      MarkAndSweep(roots, before, outs, was);
    }

    /** The table is emptied and the mark phase runs. */
    method ResetAndMark(roots: seq<Addr>)
      requires 0 !in store && TargetsLive(store) && CountsExact(store, outside)
      requires AllCounted(store) && EntriesTyped(store, entries)
      requires nodes.Table().Holds? && held == [] && markStack == []
      requires RootsLive(store, pinned, roots)
      modifies this`held, this`markStack, nodes, nodes.slots
      ensures nodes.Table().Holds? && (nodes.slots == old(nodes.slots) || fresh(nodes.slots))
      ensures markStack == []
      ensures MarksExactly(store, nodes.Table().m, RootSet(store, outside, entries, pinned, roots))
    {
      ResetTable();
      Mark(roots);
    }

    method MarkAndSweep(roots: seq<Addr>, ghost before: Store, ghost outs: Outside, ghost was: seq<Entry>)
      requires before == store && outs == outside && was == entries
      requires WellFormed(store, outside) && AllCounted(store) && EntriesTyped(store, entries)
      requires nodes.Table().Holds? && held == [] && markStack == []
      requires RootsLive(store, pinned, roots) && PinsHeld(outside, pinned)
      modifies this`held, this`markStack, nodes, nodes.slots
      modifies this`store, this`outside, this`entries, this`lastCollected
      ensures nodes.Table().Holds? && (nodes.slots == old(nodes.slots) || fresh(nodes.slots))
      ensures Accounted(store, outside) && AllCounted(store) && EntriesTyped(store, entries)
      ensures PinsHeld(outside, pinned) && held == [] && markStack == []
      ensures lastCollected == 0 <==> Garbage(before, outs, was, pinned, roots) == {}
      ensures Collected(before, outs, was, pinned, roots, store, outside, entries)
    {
      ResetAndMark(roots);
      GarbageIsToCollect(store, outside, entries, pinned, roots, nodes.Table().m);
      NoneToCollect(ToCollect(store, nodes.Table().m, entries));
      ghost var mid := Sweep();
      CollectionOutcome(before, mid, store, outs, outside, was, pinned, roots);
    }

    /** Collect half as often when nothing was found, twice as often when something was. */
    method Tune()
      requires 500 <= threshold <= 10000
      modifies this`threshold
      ensures 500 <= threshold <= 10000 && threshold == Tuned(old(threshold), lastCollected)
    {
      if lastCollected == 0 && threshold < 10000 {
        threshold := if threshold * 2 <= 10000 then threshold * 2 else 10000;
      } else if lastCollected > 0 && threshold > 500 {
        threshold := if threshold / 2 >= 500 then threshold / 2 else 500;
      }
    }

    // -------------------------------------------------------------------------
    // Pins
    // -------------------------------------------------------------------------

    /** pinValue: the copy kept in the registry is one of the object's outside references. */
    method PinValue(v: Value)
      requires Valid()
      requires GcPointer(v) != 0 ==> v.target in outside && outside[v.target] > multiset(pinned)[v]
      modifies this`pinned
      ensures Valid()
      ensures pinned == old(pinned) + (if GcPointer(v) == 0 then [] else [v])
    {
      if GcPointer(v) != 0 {
        pinned := pinned + [v];
      }
    }

    /** unpinValue: forget the most recent pin of the same object, if there is one. */
    method UnpinValue(v: Value)
      requires Valid()
      modifies this`pinned
      ensures Valid()
      ensures pinned == WithoutLast(old(pinned), v)
    {
      var i := LastPin(v);
      if i < |pinned| {
        assert pinned[i] in pinned;
        DroppedPinsHeld(outside, pinned, i);
        pinned := pinned[..i] + pinned[i + 1..];
      }
    }

    /** The backward scan of the registry; the number of pins when there is no match. */
    method LastPin(v: Value) returns (i: nat)
      requires 0 !in outside && PinsHeld(outside, pinned)
      ensures i <= |pinned|
      ensures WithoutLast(pinned, v) == if i < |pinned| then pinned[..i] + pinned[i + 1..] else pinned
    {
      var target := GcPointer(v);
      NoPinBeyond(outside, pinned, v);
      i := |pinned|;
      if target == 0 { return; }
      NothingScanned(pinned, v);
      while i > 0
        invariant i <= |pinned|
        invariant WithoutLast(pinned, v) == WithoutLast(pinned[..i], v) + pinned[i..]
      {
        i := i - 1;
        PinScanned(pinned, v, i);
        if GcPointer(pinned[i]) == target {
          assert pinned[i] in pinned;
          return;
        }
      }
      i := |pinned|;
    }
  }
}
