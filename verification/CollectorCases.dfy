/** Three heaps that show where the collector's guarantees end (src/gc_heap.cpp). */
module CollectorCases {
  import opened NodeTables
  import opened ObjectGraph
  import opened Reclamation
  import opened Collector

  /** The number of owning references to `n` from the objects in a list. */
  function OwnersOver(store: Store, ns: seq<Addr>, n: Addr): nat
    requires forall a | a in ns :: a in store
  {
    if ns == [] then 0 else EdgeCount(EdgesOf(store, ns[0]), n) + OwnersOver(store, ns[1..], n)
  }

  function NodesOf(ns: seq<Addr>): set<Addr> {
    set a | a in ns
  }

  lemma {:induction false} OwnersListed(store: Store, ns: seq<Addr>, n: Addr)
    requires forall a | a in ns :: a in store
    requires forall i, j | 0 <= i < j < |ns| :: ns[i] != ns[j]
    ensures OwnersIn(store, NodesOf(ns), n) == OwnersOver(store, ns, n)
  {
    if ns != [] {
      OwnersListed(store, ns[1..], n);
      OwnersTakeOut(store, NodesOf(ns), ns[0], n);
      assert NodesOf(ns) - {ns[0]} == NodesOf(ns[1..]);
    }
  }

  lemma OwnersOfThree(store: Store, ns: seq<Addr>, n: Addr)
    requires |ns| == 3 && forall a | a in ns :: a in store
    ensures OwnersOver(store, ns, n) ==
            EdgeCount(EdgesOf(store, ns[0]), n) + EdgeCount(EdgesOf(store, ns[1]), n)
            + EdgeCount(EdgesOf(store, ns[2]), n)
  {
    var rest := ns[1..];
    assert rest[1..] == [ns[2]] && [ns[2]][1..] == [];
    assert OwnersOver(store, [ns[2]], n) == EdgeCount(EdgesOf(store, ns[2]), n);
    assert OwnersOver(store, rest, n) == EdgeCount(EdgesOf(store, rest[0]), n) + OwnersOver(store, rest[1..], n);
  }

  lemma OwnersOfFour(store: Store, ns: seq<Addr>, n: Addr)
    requires |ns| == 4 && (forall a | a in ns :: a in store)
    requires forall i, j | 0 <= i < j < |ns| :: ns[i] != ns[j]
    ensures OwnersIn(store, NodesOf(ns), n) ==
            EdgeCount(EdgesOf(store, ns[0]), n) + EdgeCount(EdgesOf(store, ns[1]), n)
            + EdgeCount(EdgesOf(store, ns[2]), n) + EdgeCount(EdgesOf(store, ns[3]), n)
  {
    OwnersListed(store, ns, n);
    OwnersOfThree(store, ns[1..], n);
  }

  // ---------------------------------------------------------------------------
  // A cycle without a tracked member
  // ---------------------------------------------------------------------------

  /** An array that holds itself and a closure returned by an async task. The closure owns
      the task's ownership bag, the bag owns the upvalue, and the upvalue has closed over
      the closure. Only the array is tracked. */
  function LoopStore(): Store {
    map[1 := Object(0, Array([Ref(1), Ref(2)]), 1),
        2 := Object(0, VMClosure([4], [], 3), 2),
        3 := Object(0, TaskOwnership([4]), 1),
        4 := Object(0, Upvalue(true, Ref(2)), 1)]
  }

  function LoopOutside(): Outside {
    map[1 := 0, 2 := 0, 3 := 0, 4 := 0]
  }

  function LoopEntries(): seq<Entry> {
    [Entry(0, 1, GArray)]
  }

  lemma LoopEdges()
    ensures var s := LoopStore();
            && s.Keys == {1, 2, 3, 4}
            && EdgesOf(s, 1) == [Edge(1, true), Edge(2, true)]
            && EdgesOf(s, 2) == [Edge(4, false), Edge(3, true)]
            && EdgesOf(s, 3) == [Edge(4, true)]
            && EdgesOf(s, 4) == [Edge(2, true)]
  {
    assert VisitValues([Ref(2)], true) == [Edge(2, true)];
    assert VisitValues([Ref(1), Ref(2)], true) == [Edge(1, true)] + [Edge(2, true)] by {
      assert [Ref(1), Ref(2)][1..] == [Ref(2)];
    }
  }

  lemma CountTwo(a: Edge, b: Edge, n: Addr)
    ensures EdgeCount([a], n) == if a == Edge(n, true) then 1 else 0
    ensures EdgeCount([a, b], n) == EdgeCount([a], n) + if b == Edge(n, true) then 1 else 0
  {
    assert [a][..0] == [] && [a, b][..1] == [a];
  }

  lemma LoopCounts(n: Addr)
    requires n in LoopStore()
    ensures LoopStore()[n].count == OwnersIn(LoopStore(), LoopStore().Keys, n) + LoopOutside()[n]
  {
    LoopEdges();
    OwnersOfFour(LoopStore(), [1, 2, 3, 4], n);
    assert LoopStore().Keys == NodesOf([1, 2, 3, 4]);
    CountTwo(Edge(1, true), Edge(2, true), n);
    CountTwo(Edge(4, false), Edge(3, true), n);
    CountTwo(Edge(4, true), Edge(4, true), n);
    CountTwo(Edge(2, true), Edge(2, true), n);
  }

  lemma LoopIsCounted()
    ensures CountsExact(LoopStore(), LoopOutside())
  {
    var s, o := LoopStore(), LoopOutside();
    assert o.Keys == s.Keys;
    assert forall n | n in s && s[n].body.Upvalue? :: s[n].count <= 1;
    forall n | n in s
      ensures s[n].count == OwnersIn(s, s.Keys, n) + o[n]
    {
      LoopCounts(n);
    }
  }

  lemma LoopAllCounted()
    ensures AllCounted(LoopStore())
  {
  }

  lemma LoopIsBacked()
    ensures NonOwningBacked(LoopStore(), LoopOutside())
  {
    var s := LoopStore();
    LoopEdges();
    OwnBagBacks(s, LoopOutside(), 2, 3, 4);
    forall a, n | a in s && Edge(n, false) in EdgesOf(s, a)
      ensures a == 2 && n == 4
    {
    }
  }

  lemma LoopTargetsLive()
    ensures TargetsLive(LoopStore())
  {
    LoopEdges();
  }

  lemma LoopIsWellFormed()
    ensures WellFormed(LoopStore(), LoopOutside()) && AllCounted(LoopStore())
    ensures EntriesTyped(LoopStore(), LoopEntries()) && RootsLive(LoopStore(), [], [])
  {
    LoopTargetsLive();
    LoopIsCounted();
    LoopAllCounted();
  }

  lemma LoopIsScanned(n: Addr)
    requires n in LoopStore()
    ensures n in ScannedSet(LoopStore(), LoopEntries())
  {
    var s, from := LoopStore(), Tracked(LoopStore(), LoopEntries());
    LoopEdges();
    assert Alive(s, LoopEntries()[0]) && 1 in from;
    ReachesRoot(s, from, 1);
    ReachesStep(s, from, 1, Edge(2, true));
    ReachesStep(s, from, 2, Edge(3, true));
    ReachesStep(s, from, 3, Edge(4, true));
  }

  lemma NothingReached(store: Store, n: Addr)
    ensures !Reaches(store, {}, n)
  {
  }

  lemma LoopHasNoRoots()
    ensures RootSet(LoopStore(), LoopOutside(), LoopEntries(), [], []) == {}
    ensures ScannedSet(LoopStore(), LoopEntries()) == {1, 2, 3, 4}
  {
    var s, o, es := LoopStore(), LoopOutside(), LoopEntries();
    forall n | n in s
      ensures n in ScannedSet(s, es)
    {
      LoopIsScanned(n);
    }
    assert ScannedSet(s, es) == s.Keys;
    assert forall n | n in s :: !HeldFromOutside(s, o, s.Keys, n);
  }

  /** Without roots, the whole heap is unreached and the array is its only garbage. */
  lemma LoopIsUnreached()
    ensures Unreached(LoopStore(), LoopOutside(), LoopEntries(), [], []) == {1, 2, 3, 4}
    ensures Garbage(LoopStore(), LoopOutside(), LoopEntries(), [], []) == {1}
  {
    var s, es := LoopStore(), LoopEntries();
    LoopHasNoRoots();
    forall n
      ensures !Reaches(s, {}, n)
    {
      NothingReached(s, n);
    }
    TrackedMembers(s, es);
    assert Alive(s, es[0]);
    assert Tracked(s, es) == {1};
  }

  lemma UncutCyclesOf(before: Store, outs: Outside, was: seq<Entry>, after: Store, outs': Outside, now: seq<Entry>)
    requires Collected(before, outs, was, [], [], after, outs', now)
    ensures UncutCyclesLast(before, Garbage(before, outs, was, [], []), after)
  {
  }

  lemma LoopLasts(after: Store)
    requires UncutCyclesLast(LoopStore(), {1}, after)
    ensures Within([2, 3, 4, 2], after.Keys)
  {
    LoopHasCycle();
  }

  lemma LoopIsUncut()
    ensures !CyclesCut(LoopStore(), {1, 2, 3, 4}, {1})
  {
    LoopHasCycle();
  }

  lemma WithinThree(s: set<Addr>)
    requires Within([2, 3, 4, 2], s)
    ensures {2, 3, 4} <= s
  {
    var p: seq<Addr> := [2, 3, 4, 2];
    assert p[0] == 2 && p[1] == 3 && p[2] == 4;
  }

  /** A collection of this heap leaves the closure, the bag and the upvalue, although no
      root reaches them. The heap is one a collection takes. */
  lemma UntrackedCycleOutlives(after: Store, outs': Outside, now: seq<Entry>)
    requires Collected(LoopStore(), LoopOutside(), LoopEntries(), [], [], after, outs', now)
    ensures WellFormed(LoopStore(), LoopOutside()) && AllCounted(LoopStore())
    ensures EntriesTyped(LoopStore(), LoopEntries()) && RootsLive(LoopStore(), [], [])
    ensures NonOwningBacked(LoopStore(), LoopOutside())
    ensures !CyclesCut(LoopStore(), {1, 2, 3, 4}, {1})
    ensures {2, 3, 4} <= after.Keys
  {
    LoopIsWellFormed();
    LoopIsBacked();
    LoopIsUnreached();
    LoopIsUncut();
    UncutCyclesOf(LoopStore(), LoopOutside(), LoopEntries(), after, outs', now);
    LoopLasts(after);
    WithinThree(after.Keys);
  }

  lemma LoopHasCycle()
    ensures IsCycle(LoopStore(), [2, 3, 4, 2])
    ensures Within([2, 3, 4, 2], {1, 2, 3, 4}) && Avoids([2, 3, 4, 2], {1})
  {
    LoopEdges();
    var s, p := LoopStore(), [2, 3, 4, 2];
    assert Linked(s, p, 0) && Linked(s, p, 1) && Linked(s, p, 2);
  }

  // ---------------------------------------------------------------------------
  // A root that only the heap owns
  // ---------------------------------------------------------------------------

  /** A closure over an array: the interpreter holds the closure and the upvalue, and only
      the upvalue owns the array, which the root marker passes. */
  function ClosedOverStore(): Store {
    map[1 := Object(0, VMClosure([2], [], 0), 1),
        2 := Object(0, Upvalue(true, Ref(3)), 1),
        3 := Object(0, Array([]), 1)]
  }

  function ClosedOverOutside(): Outside {
    map[1 := 1, 2 := 1, 3 := 0]
  }

  lemma ClosedOverEdges()
    ensures var s := ClosedOverStore();
            && EdgesOf(s, 1) == [Edge(2, false)] && EdgesOf(s, 2) == [Edge(3, true)] && EdgesOf(s, 3) == []
  {
  }

  lemma ClosedOverCounts(n: Addr)
    requires n in ClosedOverStore()
    ensures var s := ClosedOverStore();
            s[n].count == OwnersIn(s, s.Keys, n) + ClosedOverOutside()[n]
  {
    var s := ClosedOverStore();
    ClosedOverEdges();
    OwnersListed(s, [1, 2, 3], n);
    OwnersOfThree(s, [1, 2, 3], n);
    assert s.Keys == NodesOf([1, 2, 3]);
    CountTwo(Edge(2, false), Edge(2, false), n);
    CountTwo(Edge(3, true), Edge(3, true), n);
  }

  lemma ClosedOverIsCounted()
    ensures CountsExact(ClosedOverStore(), ClosedOverOutside()) && AllCounted(ClosedOverStore())
  {
    var s, o := ClosedOverStore(), ClosedOverOutside();
    forall n | n in s
      ensures s[n].count == OwnersIn(s, s.Keys, n) + o[n]
    {
      ClosedOverCounts(n);
    }
  }

  lemma ClosedOverIsBacked()
    ensures NonOwningBacked(ClosedOverStore(), ClosedOverOutside())
  {
    var s, o := ClosedOverStore(), ClosedOverOutside();
    ClosedOverEdges();
    HeldIsBacked(s, o, 1, 2);
    forall a, n | a in s && Edge(n, false) in EdgesOf(s, a)
      ensures a == 1 && n == 2
    {
    }
  }

  lemma ClosedOverTargetsLive()
    ensures TargetsLive(ClosedOverStore())
  {
    ClosedOverEdges();
  }

  lemma ClosedOverIsWellFormed()
    ensures WellFormed(ClosedOverStore(), ClosedOverOutside()) && AllCounted(ClosedOverStore())
  {
    ClosedOverTargetsLive();
    ClosedOverIsCounted();
  }

  lemma ClosedOverRootIsAnchored()
    ensures var s, o := ClosedOverStore(), ClosedOverOutside();
            && WellFormed(s, o) && AllCounted(s) && NonOwningBacked(s, o)
            && RootsLive(s, [], [3]) && RootsAnchored(s, o, [3]) && o[3] == 0
  {
    var s, o := ClosedOverStore(), ClosedOverOutside();
    ClosedOverIsWellFormed();
    ClosedOverIsBacked();
    ClosedOverEdges();
    ReachesRoot(s, Anchors(o), 2);
    ReachesStep(s, Anchors(o), 2, Edge(3, true));
  }

  // ---------------------------------------------------------------------------
  // A closure inside the closure of a task
  // ---------------------------------------------------------------------------

  /** An async task returned a closure (2) that has captured another closure (4). The bag of
      the task (5) owns the upvalues of both, but only the returned closure owns the bag:
      the other one is reached through a closed upvalue (3), where no bag is attached. */
  function NestedStore(): Store {
    map[1 := Object(0, Array([Ref(2)]), 1),
        2 := Object(0, VMClosure([3], [], 5), 1),
        3 := Object(0, Upvalue(true, Ref(4)), 1),
        4 := Object(0, VMClosure([6], [], 0), 1),
        5 := Object(0, TaskOwnership([3, 6]), 1),
        6 := Object(0, Upvalue(true, Ref(7)), 1),
        7 := Object(0, Array([]), 1)]
  }

  function NestedOutside(): Outside {
    map[1 := 1, 2 := 0, 3 := 0, 4 := 0, 5 := 0, 6 := 0, 7 := 0]
  }

  lemma NestedEdges()
    ensures var s := NestedStore();
            && EdgesOf(s, 1) == [Edge(2, true)] && EdgesOf(s, 2) == [Edge(3, false), Edge(5, true)]
            && EdgesOf(s, 3) == [Edge(4, true)] && EdgesOf(s, 4) == [Edge(6, false)]
            && EdgesOf(s, 5) == [Edge(3, true), Edge(6, true)]
            && EdgesOf(s, 6) == [Edge(7, true)] && EdgesOf(s, 7) == []
  {
    assert [3, 6][1..] == [6];
    assert VisitPtrs([6], true) == [Edge(6, true)];
  }

  lemma NestedClosureCounts(n: Addr)
    ensures EdgeCount(EdgesOf(NestedStore(), 1), n) == (if n == 2 then 1 else 0)
    ensures EdgeCount(EdgesOf(NestedStore(), 2), n) == (if n == 5 then 1 else 0)
    ensures EdgeCount(EdgesOf(NestedStore(), 3), n) == (if n == 4 then 1 else 0)
    ensures EdgeCount(EdgesOf(NestedStore(), 4), n) == 0
  {
    NestedEdges();
    CountTwo(Edge(2, true), Edge(2, true), n);
    CountTwo(Edge(3, false), Edge(5, true), n);
    CountTwo(Edge(4, true), Edge(4, true), n);
    CountTwo(Edge(6, false), Edge(6, false), n);
  }

  lemma NestedBagCounts(n: Addr)
    ensures OwnersOver(NestedStore(), [5, 6, 7], n) == if n == 3 || n == 6 || n == 7 then 1 else 0
  {
    NestedEdges();
    OwnersOfThree(NestedStore(), [5, 6, 7], n);
    CountTwo(Edge(3, true), Edge(6, true), n);
    CountTwo(Edge(7, true), Edge(7, true), n);
  }

  /** Each object but the array on top has one owner. */
  lemma NestedOwnersOver(n: Addr)
    ensures OwnersOver(NestedStore(), [1, 2, 3, 4, 5, 6, 7], n) == if 2 <= n <= 7 then 1 else 0
  {
    var s := NestedStore();
    NestedBagCounts(n);
    NestedClosureCounts(n);
    assert [4, 5, 6, 7][1..] == [5, 6, 7] && [3, 4, 5, 6, 7][1..] == [4, 5, 6, 7];
    assert OwnersOver(s, [3, 4, 5, 6, 7], n) == (if n == 4 then 1 else 0) + OwnersOver(s, [4, 5, 6, 7], n);
    assert [2, 3, 4, 5, 6, 7][1..] == [3, 4, 5, 6, 7] && [1, 2, 3, 4, 5, 6, 7][1..] == [2, 3, 4, 5, 6, 7];
    assert OwnersOver(s, [2, 3, 4, 5, 6, 7], n) == (if n == 5 then 1 else 0) + OwnersOver(s, [3, 4, 5, 6, 7], n);
  }

  lemma NestedOwners(n: Addr)
    ensures OwnersIn(NestedStore(), NestedStore().Keys, n) == if 2 <= n <= 7 then 1 else 0
  {
    NestedOwnersOver(n);
    OwnersListed(NestedStore(), [1, 2, 3, 4, 5, 6, 7], n);
    assert NestedStore().Keys == NodesOf([1, 2, 3, 4, 5, 6, 7]);
  }

  lemma NestedCounts(n: Addr)
    requires n in NestedStore()
    ensures NestedStore()[n].count == (if 2 <= n <= 7 then 1 else 0) + NestedOutside()[n]
  {
  }

  lemma NestedIsCounted()
    ensures CountsExact(NestedStore(), NestedOutside())
  {
    var s, o := NestedStore(), NestedOutside();
    assert o.Keys == s.Keys;
    assert forall n | n in s && s[n].body.Upvalue? :: s[n].count <= 1;
    forall n | n in s
      ensures s[n].count == OwnersIn(s, s.Keys, n) + o[n]
    {
      NestedCounts(n);
      NestedOwners(n);
    }
  }

  lemma NestedTargetsLive()
    ensures TargetsLive(NestedStore())
  {
    NestedEdges();
  }

  lemma NestedHolders()
    ensures forall m | Owns(NestedStore(), m, 4) :: m == 3
    ensures forall m | Owns(NestedStore(), m, 3) :: m == 5
  {
    NestedEdges();
  }

  lemma NestedReferences(a: Addr, n: Addr)
    requires a in NestedStore() && Edge(n, false) in EdgesOf(NestedStore(), a)
    ensures (a == 2 && n == 3) || (a == 4 && n == 6)
  {
    NestedEdges();
  }

  lemma NestedIsBacked()
    ensures NonOwningBacked(NestedStore(), NestedOutside())
  {
    var s, o := NestedStore(), NestedOutside();
    NestedEdges();
    NestedHolders();
    OwnBagBacks(s, o, 2, 5, 3);
    OwnersBagBacks(s, o, 4, 3, 5, 6);
    forall a, n | a in s && Edge(n, false) in EdgesOf(s, a)
      ensures Backed(s, o, a, n)
    {
      NestedReferences(a, n);
    }
  }

  lemma NestedIsWellFormed()
    ensures WellFormed(NestedStore(), NestedOutside())
  {
    NestedTargetsLive();
    NestedIsCounted();
  }

  lemma NestedAllCounted()
    ensures AllCounted(NestedStore())
  {
  }

  /** A collection takes this heap, and its references are backed, although the inner
      closure owns nothing and nothing outside holds its upvalue. */
  lemma NestedClosureIsBacked()
    ensures WellFormed(NestedStore(), NestedOutside()) && AllCounted(NestedStore())
    ensures NonOwningBacked(NestedStore(), NestedOutside())
    ensures Edge(6, false) in EdgesOf(NestedStore(), 4) && NestedOutside()[6] == 0
    ensures forall n :: !Owns(NestedStore(), 4, n)
  {
    NestedIsWellFormed();
    NestedAllCounted();
    NestedIsBacked();
    NestedEdges();
  }

  // ---------------------------------------------------------------------------
  // A dead closure cycle is destroyed
  // ---------------------------------------------------------------------------

  /** A scope (1) that holds a function (2) whose closure is a scope inside it (3), and
      nothing else refers to any of them. */
  function ScopeStore(): Store {
    map[1 := Object(0, Environment([Field("f", Ref(2))], 0), 1),
        2 := Object(0, Function(3), 1),
        3 := Object(0, Environment([], 1), 1)]
  }

  function ScopeOutside(): Outside {
    map[1 := 0, 2 := 0, 3 := 0]
  }

  function ScopeEntries(): seq<Entry> {
    [Entry(0, 1, GEnvironment), Entry(0, 3, GEnvironment)]
  }

  lemma ScopeEdges()
    ensures var s := ScopeStore();
            EdgesOf(s, 1) == [Edge(2, true)] && EdgesOf(s, 2) == [Edge(3, true)] && EdgesOf(s, 3) == [Edge(1, true)]
  {
    assert [Field("f", Ref(2))][1..] == [];
    assert VisitFields([Field("f", Ref(2))]) == [Edge(2, true)];
  }

  lemma ScopeCounts(n: Addr)
    requires n in ScopeStore()
    ensures OwnersIn(ScopeStore(), ScopeStore().Keys, n) == 1
  {
    var s := ScopeStore();
    ScopeEdges();
    OwnersListed(s, [1, 2, 3], n);
    OwnersOfThree(s, [1, 2, 3], n);
    assert s.Keys == NodesOf([1, 2, 3]);
    CountTwo(Edge(2, true), Edge(2, true), n);
    CountTwo(Edge(3, true), Edge(3, true), n);
    CountTwo(Edge(1, true), Edge(1, true), n);
  }

  lemma ScopeIsCounted()
    ensures CountsExact(ScopeStore(), ScopeOutside()) && AllCounted(ScopeStore())
  {
    var s, o := ScopeStore(), ScopeOutside();
    assert o.Keys == s.Keys;
    forall n | n in s
      ensures s[n].count == OwnersIn(s, s.Keys, n) + o[n]
    {
      ScopeCounts(n);
    }
  }

  lemma ScopeTargetsLive()
    ensures TargetsLive(ScopeStore())
  {
    ScopeEdges();
  }

  lemma ScopeIsBacked()
    ensures NonOwningBacked(ScopeStore(), ScopeOutside())
  {
    ScopeEdges();
  }

  lemma ScopeIsTracked()
    ensures Tracked(ScopeStore(), ScopeEntries()) == {1, 3}
  {
    var s, es := ScopeStore(), ScopeEntries();
    TrackedMembers(s, es);
    assert Alive(s, es[0]) && Alive(s, es[1]);
  }

  lemma ScopeIsScanned()
    ensures ScannedSet(ScopeStore(), ScopeEntries()) == {1, 2, 3}
  {
    var s, es := ScopeStore(), ScopeEntries();
    ScopeIsTracked();
    ScopeReaches(s, {1, 3});
    assert ScannedSet(s, es) == s.Keys;
  }

  lemma ScopeReaches(s: Store, from: set<Addr>)
    requires s == ScopeStore() && from == {1, 3}
    ensures forall n | n in s :: Reaches(s, from, n)
  {
    ScopeEdges();
    ReachesRoot(s, from, 1);
    ReachesRoot(s, from, 3);
    ReachesStep(s, from, 1, Edge(2, true));
  }

  lemma ScopeIsUnreached()
    ensures Unreached(ScopeStore(), ScopeOutside(), ScopeEntries(), [], []) == {1, 2, 3}
    ensures Garbage(ScopeStore(), ScopeOutside(), ScopeEntries(), [], []) == {1, 3}
  {
    var s, o, es := ScopeStore(), ScopeOutside(), ScopeEntries();
    ScopeIsScanned();
    ScopeIsTracked();
    assert forall n | n in s :: !HeldFromOutside(s, o, s.Keys, n);
    assert RootSet(s, o, es, [], []) == {};
    forall n
      ensures !Reaches(s, {}, n)
    {
      NothingReached(s, n);
    }
  }

  /** Every cycle passes through a scope: the function alone is none. */
  lemma ScopeCyclesAreCut()
    ensures CyclesCut(ScopeStore(), {1, 2, 3}, {1, 3})
  {
    var s := ScopeStore();
    ScopeEdges();
    forall p | IsCycle(s, p) && Within(p, {1, 2, 3})
      ensures !Avoids(p, {1, 3})
    {
      assert Linked(s, p, 0) && p[0] in p && p[1] in p;
    }
  }

  lemma ScopeEntriesTyped()
    ensures EntriesTyped(ScopeStore(), ScopeEntries())
  {
  }

  /** A collector at work on a given heap. */
  method NewHeap(store: Store, outside: Outside, entries: seq<Entry>) returns (heap: GcHeap)
    requires Accounted(store, outside) && TargetsLive(store) && AllCounted(store) && EntriesTyped(store, entries)
    ensures fresh(heap) && fresh(heap.nodes) && fresh(heap.nodes.slots)
    ensures heap.Valid() && !heap.collecting && heap.pinned == []
    ensures heap.store == store && heap.outside == outside && heap.entries == entries
  {
    heap := new GcHeap();
    heap.store, heap.outside, heap.entries := store, outside, entries;
  }

  lemma ScopeIsAccounted()
    ensures Accounted(ScopeStore(), ScopeOutside()) && AllCounted(ScopeStore())
  {
    ScopeTargetsLive();
    ScopeIsCounted();
    WellFormedIsAccounted(ScopeStore(), ScopeOutside());
  }

  /** The collection of that heap, without roots, leaves nothing. */
  method ScopeCycleDies() returns (left: Store, entries: seq<Entry>)
    ensures left == map[] && entries == []
  {
    ScopeTargetsLive();
    ScopeIsAccounted();
    ScopeEntriesTyped();
    var heap := NewHeap(ScopeStore(), ScopeOutside(), ScopeEntries());
    ScopeIsUnreached();
    ScopeCyclesAreCut();
    CollectScopes(heap);
    left, entries := heap.store, heap.entries;
  }

  method CollectScopes(heap: GcHeap)
    requires heap.Valid() && !heap.collecting && heap.pinned == []
    requires heap.store == ScopeStore() && heap.outside == ScopeOutside() && heap.entries == ScopeEntries()
    requires Unreached(heap.store, heap.outside, heap.entries, [], []) == {1, 2, 3}
    requires CyclesCut(heap.store, {1, 2, 3}, Garbage(heap.store, heap.outside, heap.entries, [], []))
    modifies heap, heap.nodes, heap.nodes.slots
    ensures heap.store == map[] && heap.entries == []
  {
    heap.Collect([]);
    assert heap.store.Keys == {};
    NoneLiving(heap.store, ScopeEntries());
  }

  lemma NoneLiving(store: Store, entries: seq<Entry>)
    requires store == map[]
    ensures Living(store, entries) == []
  {
    LivingMembers(store, entries);
    assert forall e :: e !in Living(store, entries);
  }
}
