/** What happens to the object memory when sweep clears objects and lets go of its
    references: counts fall, and objects whose count reaches zero are destroyed, which
    may bring further counts to zero.

    Destruction is taken as a separate step after all the clearing. */
module Reclamation {
  import opened NodeTables
  import opened ObjectGraph

  ghost predicate Covers(store: Store, es: seq<Edge>) {
    forall n | n in store :: EdgeCount(es, n) <= store[n].count
  }

  /** The counts after the owning edges `es` are dropped. */
  function Released(store: Store, es: seq<Edge>): Store
    requires Covers(store, es)
  {
    map n | n in store :: store[n].(count := store[n].count - EdgeCount(es, n))
  }

  lemma {:induction false} PrefixCount(es: seq<Edge>, j: nat, n: Addr)
    requires j <= |es|
    ensures EdgeCount(es[..j], n) <= EdgeCount(es, n)
  {
    if j == |es| {
      assert es[..j] == es;
    } else {
      assert es[..|es| - 1][..j] == es[..j];
      PrefixCount(es[..|es| - 1], j, n);
    }
  }

  lemma CoversPrefix(store: Store, es: seq<Edge>, j: nat)
    requires Covers(store, es) && j <= |es|
    ensures Covers(store, es[..j])
  {
    forall n | n in store
      ensures EdgeCount(es[..j], n) <= store[n].count
    {
      PrefixCount(es, j, n);
    }
  }

  /** Dropping one more reference. */
  lemma ReleaseOne(store: Store, es: seq<Edge>, j: nat)
    requires Covers(store, es) && j < |es| && (es[j].owning ==> es[j].target in store)
    ensures Covers(store, es[..j]) && Covers(store, es[..j + 1])
    ensures var n, s := es[j].target, Released(store, es[..j]);
            && (es[j].owning ==> s[n].count > 0)
            && Released(store, es[..j + 1])
               == (if es[j].owning then s[n := s[n].(count := s[n].count - 1)] else s)
  {
    CoversPrefix(store, es, j);
    CoversPrefix(store, es, j + 1);
    var e := es[j];
    assert es[..j + 1][..j] == es[..j] && e == Edge(e.target, e.owning);
    assert forall n :: EdgeCount(es[..j + 1], n) == EdgeCount(es[..j], n) + (if e == Edge(n, true) then 1 else 0);
  }

  // ---------------------------------------------------------------------------
  // Clearing an object
  // ---------------------------------------------------------------------------

  ghost function ClearedAt(store: Store, a: Addr, t: GcType): Store
    requires a in store && NodeKindOf(t) == KindOf(store[a].body) && Covers(store, EdgesOf(store, a))
  {
    Released(store[a := store[a].(body := Cleared(t, store[a].body))], EdgesOf(store, a))
  }

  lemma OneNodeCounts(store: Store, outside: Outside, a: Addr, n: Addr)
    requires CountsExact(store, outside) && a in store && n in store
    ensures EdgeCount(EdgesOf(store, a), n) <= store[n].count
    ensures store[n].count - EdgeCount(EdgesOf(store, a), n)
         == OwnersIn(store, store.Keys - {a}, n) + outside[n]
  {
    OwnersTakeOut(store, store.Keys, a, n);
  }

  lemma ClearCovers(store: Store, outside: Outside, a: Addr)
    requires CountsExact(store, outside) && a in store
    ensures Covers(store, EdgesOf(store, a))
  {
    forall n | n in store
      ensures EdgeCount(EdgesOf(store, a), n) <= store[n].count
    {
      OneNodeCounts(store, outside, a, n);
    }
  }

  lemma ClearKeepsCounts(store: Store, outside: Outside, a: Addr, t: GcType)
    requires CountsExact(store, outside) && a in store && NodeKindOf(t) == KindOf(store[a].body)
    requires Covers(store, EdgesOf(store, a))
    ensures CountsExact(ClearedAt(store, a, t), outside)
  {
    var store' := ClearedAt(store, a, t);
    assert store'.Keys == store.Keys;
    forall n | n in store'
      ensures store'[n].count == OwnersIn(store', store'.Keys, n) + outside[n]
    {
      OneNodeCounts(store, outside, a, n);
      OwnersFrame(store, store', store.Keys - {a}, n);
      OwnersTakeOut(store', store'.Keys, a, n);
      ClearedHasNoChildren(t, store[a].body);
    }
  }

  /** Clearing one object of a well-formed heap leaves a well-formed heap in which only
      that object has lost its edges. */
  lemma ClearKeepsHeap(store: Store, outside: Outside, a: Addr, t: GcType)
    requires WellFormed(store, outside) && a in store && NodeKindOf(t) == KindOf(store[a].body)
    requires Covers(store, EdgesOf(store, a))
    ensures WellFormed(ClearedAt(store, a, t), outside)
  {
    ClearKeepsCounts(store, outside, a, t);
    ClearedHasNoChildren(t, store[a].body);
    var store' := ClearedAt(store, a, t);
    assert forall b | b in store && b != a :: EdgesOf(store', b) == EdgesOf(store, b);
  }

  // ---------------------------------------------------------------------------
  // Destroying an object
  // ---------------------------------------------------------------------------

  ghost function Without(store: Store, a: Addr): Store
    requires a in store && Covers(store, EdgesOf(store, a))
  {
    Released(store, EdgesOf(store, a)) - {a}
  }

  lemma NoOwners(store: Store, outside: Outside, a: Addr)
    requires CountsExact(store, outside) && a in store && store[a].count == 0
    ensures outside[a] == 0 && forall b :: !Owns(store, b, a)
  {
    OwnersZero(store, store.Keys, a);
  }

  /** No owner is left of an object whose count is zero, so after its destruction the counts
      are exact and all that is owned is alive. */
  lemma DestroyKeepsHeap(store: Store, outside: Outside, a: Addr)
    requires Accounted(store, outside) && a in store && store[a].count == 0
    requires Covers(store, EdgesOf(store, a))
    ensures Accounted(Without(store, a), outside - {a})
  {
    var store', outside' := Without(store, a), outside - {a};
    assert store'.Keys == store.Keys - {a};
    NoOwners(store, outside, a);
    assert forall b | b in store' :: EdgesOf(store', b) == EdgesOf(store, b);
    forall b, n | Owns(store', b, n)
      ensures n in store'
    {
      assert Owns(store, b, n);
    }
    forall n | n in store'
      ensures store'[n].count == OwnersIn(store', store'.Keys, n) + outside'[n]
    {
      OneNodeCounts(store, outside, a, n);
      OwnersFrame(store, store', store.Keys - {a}, n);
    }
  }

  // ---------------------------------------------------------------------------
  // What survives
  // ---------------------------------------------------------------------------

  /** Each member is referred to from outside the heap, or owned by another member. */
  ghost predicate Supported(store: Store, outside: Outside, keep: set<Addr>) {
    && keep <= store.Keys && outside.Keys == store.Keys
    && forall n {:trigger HasSupport(store, outside, keep, n)} | n in keep ::
         HasSupport(store, outside, keep, n)
  }

  ghost predicate HasSupport(store: Store, outside: Outside, keep: set<Addr>, n: Addr) {
    (n in outside && outside[n] > 0) || HasOwner(store, keep, n)
  }

  ghost predicate HasOwner(store: Store, s: set<Addr>, n: Addr) {
    exists m | m in s :: Owns(store, m, n)
  }

  /** A supported set is never among the objects that can be destroyed, and stays supported. */
  lemma SupportedSurvives(store: Store, outside: Outside, keep: set<Addr>, a: Addr)
    requires Accounted(store, outside) && Supported(store, outside, keep)
    requires a in store && store[a].count == 0 && Covers(store, EdgesOf(store, a))
    ensures Supported(Without(store, a), outside - {a}, keep)
  {
    NoOwners(store, outside, a);
    var store', outside' := Without(store, a), outside - {a};
    assert store'.Keys == store.Keys - {a};
    forall k | k in keep
      ensures k != a
    {
      assert HasSupport(store, outside, keep, k);
    }
    forall n | n in keep
      ensures HasSupport(store', outside', keep, n)
    {
      assert HasSupport(store, outside, keep, n);
      if outside[n] == 0 {
        var m :| m in keep && Owns(store, m, n);
        assert Owns(store', m, n);
      }
    }
  }

  /** The part of `s` that keeps itself alive. */
  ghost function Largest(store: Store, outside: Outside, s: set<Addr>): set<Addr> {
    set n | n in store && SupportedIn(store, outside, s, n)
  }

  ghost predicate SupportedIn(store: Store, outside: Outside, s: set<Addr>, n: Addr) {
    exists keep {:trigger Supported(store, outside, keep)} ::
      Supported(store, outside, keep) && keep <= s && n in keep
  }

  /** What is left once destruction comes to an end: all that keeps itself alive. */
  ghost function Lasting(store: Store, outside: Outside): set<Addr> {
    Largest(store, outside, store.Keys)
  }

  lemma SupportedIsLargest(store: Store, outside: Outside, s: set<Addr>, keep: set<Addr>)
    requires Supported(store, outside, keep) && keep <= s
    ensures keep <= Largest(store, outside, s)
  {
    assert forall n | n in keep :: SupportedIn(store, outside, s, n);
  }

  lemma SupportedIsLasting(store: Store, outside: Outside, keep: set<Addr>)
    requires Supported(store, outside, keep)
    ensures keep <= Lasting(store, outside)
  {
    SupportedIsLargest(store, outside, store.Keys, keep);
  }

  lemma LargestIsSupported(store: Store, outside: Outside, s: set<Addr>)
    requires outside.Keys == store.Keys
    ensures Supported(store, outside, Largest(store, outside, s)) && Largest(store, outside, s) <= s
  {
    var all := Largest(store, outside, s);
    forall n | n in all
      ensures n in s && HasSupport(store, outside, all, n)
    {
      assert SupportedIn(store, outside, s, n);
      var keep :| Supported(store, outside, keep) && keep <= s && n in keep;
      SupportedIsLargest(store, outside, s, keep);
      assert HasSupport(store, outside, keep, n);
    }
  }

  lemma LastingIsSupported(store: Store, outside: Outside)
    requires outside.Keys == store.Keys
    ensures Supported(store, outside, Lasting(store, outside))
  {
    LargestIsSupported(store, outside, store.Keys);
  }

  /** What a member owns belongs to the part that keeps itself alive. */
  lemma LargestHoldsOwned(store: Store, outside: Outside, s: set<Addr>, m: Addr, n: Addr)
    requires outside.Keys == store.Keys && m in Largest(store, outside, s)
    requires Owns(store, m, n) && n in store && n in s
    ensures n in Largest(store, outside, s)
  {
    LargestIsSupported(store, outside, s);
    var all := Largest(store, outside, s);
    var more := all + {n};
    assert HasOwner(store, more, n);
    forall k | k in more
      ensures HasSupport(store, outside, more, k)
    {
      if k != n { assert HasSupport(store, outside, all, k); }
    }
    SupportedIsLargest(store, outside, s, more);
  }

  /** Objects that are left with a count above zero have had support all along. */
  lemma LeftIsLasting(before: Store, after: Store, outside: Outside, outside': Outside)
    requires SweptTo(before, after, {}) && outside.Keys == before.Keys
    requires CountsExact(after, outside') && AllCounted(after)
    requires forall n | n in after :: outside'[n] == outside[n]
    ensures after.Keys <= Lasting(before, outside)
  {
    forall n | n in after.Keys
      ensures HasSupport(before, outside, after.Keys, n)
    {
      OwnersZero(after, after.Keys, n);
      if outside[n] == 0 {
        var m :| m in after && Owns(after, m, n);
        SweptOwns(before, after, {}, m, n);
      }
    }
    SupportedIsLasting(before, outside, after.Keys);
  }

  // ---------------------------------------------------------------------------
  // Reference cycles
  // ---------------------------------------------------------------------------

  /** A chain of owning references. */
  ghost predicate Chain(store: Store, p: seq<Addr>) {
    forall i {:trigger Linked(store, p, i)} | 0 <= i < |p| - 1 :: Linked(store, p, i)
  }

  ghost predicate Linked(store: Store, p: seq<Addr>, i: nat)
    requires i < |p| - 1
  {
    Owns(store, p[i], p[i + 1])
  }

  /** A reference cycle: a chain that comes back to where it starts. */
  ghost predicate IsCycle(store: Store, p: seq<Addr>) {
    |p| >= 2 && Chain(store, p) && p[0] == p[|p| - 1]
  }

  ghost predicate Within(p: seq<Addr>, s: set<Addr>) {
    forall n | n in p :: n in s
  }

  /** Every reference cycle inside `s` passes through `cut`. */
  ghost predicate CyclesCut(store: Store, s: set<Addr>, cut: set<Addr>) {
    forall p | IsCycle(store, p) && Within(p, s) :: !Avoids(p, cut)
  }

  ghost predicate UncutCyclesLast(store: Store, cut: set<Addr>, after: Store) {
    forall p | IsCycle(store, p) && Avoids(p, cut) :: Within(p, after.Keys)
  }

  ghost predicate Avoids(p: seq<Addr>, cut: set<Addr>) {
    forall n | n in p :: n !in cut
  }

  ghost predicate OwnedWithin(store: Store, u: set<Addr>) {
    forall m {:trigger HasOwner(store, u, m)} | m in u :: HasOwner(store, u, m)
  }

  /** Following owners backwards for `k` steps inside `u`. */
  lemma {:induction false} ChainBack(store: Store, u: set<Addr>, n: Addr, k: nat) returns (p: seq<Addr>)
    requires n in u && OwnedWithin(store, u)
    ensures |p| == k + 1 && Chain(store, p) && p[k] == n && forall i | 0 <= i <= k :: p[i] in u
    decreases k
  {
    if k == 0 {
      p := [n];
    } else {
      assert HasOwner(store, u, n);
      var o :| o in u && Owns(store, o, n);
      var q := ChainBack(store, u, o, k - 1);
      p := q + [n];
      forall i | 0 <= i < |p| - 1
        ensures Linked(store, p, i)
      {
        if i < k - 1 { assert Linked(store, q, i); }
      }
    }
  }

  lemma {:induction false} Pigeonhole(p: seq<Addr>, u: set<Addr>) returns (i: nat, j: nat)
    requires |p| > |u| && forall k | 0 <= k < |p| :: p[k] in u
    ensures i < j < |p| && p[i] == p[j]
    decreases |p|
  {
    var last := |p| - 1;
    if k :| 0 <= k < last && p[k] == p[last] {
      i, j := k, last;
    } else {
      i, j := Pigeonhole(p[..last], u - {p[last]});
    }
  }

  /** A set whose every member has an owner in the set contains a reference cycle, all of
      whose members own something in the set. */
  lemma OwnedSetHasCycle(store: Store, u: set<Addr>) returns (c: seq<Addr>)
    requires u != {} && OwnedWithin(store, u)
    ensures IsCycle(store, c)
    ensures forall n | n in c :: n in u && exists m | m in u :: Owns(store, n, m)
  {
    var n :| n in u;
    var p := ChainBack(store, u, n, |u|);
    var i, j := Pigeonhole(p, u);
    c := p[i..j + 1];
    forall k | 0 <= k < |c| - 1
      ensures Linked(store, c, k)
    {
      assert Linked(store, p, i + k);
    }
    forall x | x in c
      ensures x in u && exists m | m in u :: Owns(store, x, m)
    {
      var k :| 0 <= k < |c| && c[k] == x;
      var k' := if k == |c| - 1 then 0 else k;
      assert c[k'] == x && Linked(store, c, k');
      assert c[k' + 1] == p[i + k' + 1];
    }
  }

  // ---------------------------------------------------------------------------
  // Sweeping as a whole
  // ---------------------------------------------------------------------------

  /** Some reference to `n` comes from outside the scanned graph: from no heap object at
      all, or from an object the scan did not reach. */
  ghost predicate HeldFromOutside(store: Store, outside: Outside, scanned: set<Addr>, n: Addr) {
    || (n in outside && outside[n] > 0)
    || exists a :: a in store && a !in scanned && Owns(store, a, n)
  }

  /** `after` is `before` with exactly the objects of `swept` emptied, up to counts and
      destroyed objects. */
  ghost predicate SweptTo(before: Store, after: Store, swept: set<Addr>) {
    && after.Keys <= before.Keys
    && forall a | a in after :: SweptObject(before[a], after[a], a in swept)
  }

  ghost predicate SweptObject(before: Object, after: Object, isSwept: bool) {
    && after.serial == before.serial
    && (!isSwept ==> after.body == before.body)
    && (isSwept ==> Children(after.body) == [] && KindOf(after.body) == KindOf(before.body))
  }

  lemma SweptOwns(before: Store, after: Store, swept: set<Addr>, a: Addr, n: Addr)
    requires SweptTo(before, after, swept)
    ensures Owns(after, a, n) <==> Owns(before, a, n) && a in after && a !in swept
  {
  }

  /** The nodes with a reference no object of the heap holds. */
  ghost function Anchors(outside: Outside): set<Addr> {
    set n | n in outside && outside[n] > 0
  }

  lemma AnchorsAreSupported(store: Store, outside: Outside)
    requires outside.Keys == store.Keys
    ensures Supported(store, outside, Anchors(outside))
  {
    assert forall n | n in Anchors(outside) :: HasSupport(store, outside, Anchors(outside), n);
  }

  // ---------------------------------------------------------------------------
  // References that own nothing
  // ---------------------------------------------------------------------------

  /** What can be left of a heap after some objects are emptied and what falls to zero is
      destroyed: all that is referred to from outside the heap, else only objects with an
      owner that is left, and all that is owned by what is never emptied. */
  ghost predicate Remnant(store: Store, outside: Outside, k: set<Addr>) {
    && Supported(store, outside, k) && Anchors(outside) <= k
    && forall a, n | a in k && Owns(store, a, n) && NeverCleared(store[a].body) :: n in k
  }

  /** A reference from `a` to `n` that owns nothing: `n` is left wherever `a` is. */
  ghost predicate Backed(store: Store, outside: Outside, a: Addr, n: Addr) {
    forall k {:trigger Remnant(store, outside, k)} | Remnant(store, outside, k) && a in k :: n in k
  }

  ghost predicate NonOwningBacked(store: Store, outside: Outside) {
    forall a, n {:trigger Backed(store, outside, a, n)}
      | a in store && Edge(n, false) in EdgesOf(store, a) :: Backed(store, outside, a, n)
  }

  lemma HeldIsBacked(store: Store, outside: Outside, a: Addr, n: Addr)
    requires n in Anchors(outside)
    ensures Backed(store, outside, a, n)
  {
  }

  /** The closure of a task owns the bag that owns its upvalues. */
  lemma OwnBagBacks(store: Store, outside: Outside, a: Addr, bag: Addr, n: Addr)
    requires Owns(store, a, bag) && NeverCleared(store[a].body)
    requires Owns(store, bag, n) && NeverCleared(store[bag].body)
    ensures Backed(store, outside, a, n)
  {
  }

  /** A closure without a bag of its own, alive only through an owner whose own upvalues
      are backed by a bag. */
  lemma OwnersBagBacks(store: Store, outside: Outside, a: Addr, owner: Addr, bag: Addr, n: Addr)
    requires a !in Anchors(outside) && forall m | Owns(store, m, a) :: m == owner
    requires owner !in Anchors(outside) && forall m | Owns(store, m, owner) :: m == bag
    requires Owns(store, bag, n) && NeverCleared(store[bag].body)
    ensures Backed(store, outside, a, n)
  {
    forall k | Remnant(store, outside, k) && a in k
      ensures n in k
    {
      assert HasSupport(store, outside, k, a);
      assert HasSupport(store, outside, k, owner);
    }
  }

  /** A remnant that holds all it owns holds all it refers to. */
  lemma RemnantIsClosed(store: Store, outside: Outside, k: set<Addr>)
    requires NonOwningBacked(store, outside) && Remnant(store, outside, k)
    requires forall a, n | a in k && Owns(store, a, n) :: n in k
    ensures Closed(store, k)
  {
    forall a, e | a in k && a in store && e in EdgesOf(store, a)
      ensures e.target in k
    {
      assert e == Edge(e.target, e.owning);
      if e.owning {
        assert Owns(store, a, e.target);
      } else {
        assert Backed(store, outside, a, e.target);
      }
    }
  }

  /** The sweep empties no object of a kind that is not tracked. */
  ghost predicate OnlyTracked(store: Store, swept: set<Addr>) {
    forall a | a in swept && a in store :: !NeverCleared(store[a].body)
  }

  /** What survives a sweep is a remnant of the heap before it. */
  lemma LastingIsRemnant(before: Store, mid: Store, outside: Outside, swept: set<Addr>)
    requires SweptTo(before, mid, swept) && mid.Keys == before.Keys == outside.Keys
    requires OwnedLive(mid) && OnlyTracked(before, swept)
    ensures Remnant(before, outside, Lasting(mid, outside))
  {
    var last := Lasting(mid, outside);
    LastingIsSupported(mid, outside);
    forall n | n in last
      ensures HasSupport(before, outside, last, n)
    {
      SupportedBefore(before, mid, outside, outside, swept, last, n);
    }
    AnchorsAreSupported(mid, outside);
    SupportedIsLasting(mid, outside, Anchors(outside));
    forall a, n | a in last && Owns(before, a, n) && NeverCleared(before[a].body)
      ensures n in last
    {
      SweptOwns(before, mid, swept, a, n);
      LargestHoldsOwned(mid, outside, mid.Keys, a, n);
    }
  }

  lemma SupportedBefore(before: Store, after: Store, outside: Outside, outside': Outside,
                        swept: set<Addr>, k: set<Addr>, n: Addr)
    requires SweptTo(before, after, swept) && HasSupport(after, outside', k, n)
    requires n in outside' ==> n in outside && outside'[n] == outside[n]
    ensures HasSupport(before, outside, k, n)
  {
    if n !in outside' || outside'[n] == 0 {
      var m :| m in k && Owns(after, m, n);
      SweptOwns(before, after, swept, m, n);
    }
  }

  /** No reference dangles after a sweep: what a surviving object refers to, without owning
      it too, has survived. */
  lemma SurvivorsTargetsLive(before: Store, mid: Store, after: Store, outside: Outside, swept: set<Addr>)
    requires NonOwningBacked(before, outside) && OnlyTracked(before, swept)
    requires SweptTo(before, mid, swept) && mid.Keys == before.Keys == outside.Keys && OwnedLive(mid)
    requires SweptTo(before, after, swept) && after.Keys == Lasting(mid, outside) && OwnedLive(after)
    ensures TargetsLive(after)
  {
    LastingIsRemnant(before, mid, outside, swept);
    forall a, e | a in after && e in EdgesOf(after, a)
      ensures e.target in after
    {
      assert SweptObject(before[a], after[a], a in swept);
      assert e == Edge(e.target, e.owning);
      if e.owning {
        assert Owns(after, a, e.target);
      } else {
        assert Backed(before, outside, a, e.target);
      }
    }
  }

  /** A remnant of what a sweep leaves is a remnant of what was there before. */
  lemma RemnantBefore(before: Store, after: Store, outside: Outside, outside': Outside,
                      swept: set<Addr>, k: set<Addr>)
    requires SweptTo(before, after, swept) && OnlyTracked(before, swept) && outside.Keys == before.Keys
    requires Anchors(outside) <= after.Keys && forall n | n in after :: n in outside' && outside'[n] == outside[n]
    requires Remnant(after, outside', k)
    ensures Remnant(before, outside, k)
  {
    forall n | n in k
      ensures HasSupport(before, outside, k, n)
    {
      assert HasSupport(after, outside', k, n);
      SupportedBefore(before, after, outside, outside', swept, k, n);
    }
    assert Anchors(outside) <= Anchors(outside');
    forall a, n | a in k && Owns(before, a, n) && NeverCleared(before[a].body)
      ensures n in k
    {
      assert SweptObject(before[a], after[a], a in swept);
      SweptOwns(before, after, swept, a, n);
    }
  }

  lemma BackingSurvives(before: Store, after: Store, outside: Outside, outside': Outside, swept: set<Addr>)
    requires NonOwningBacked(before, outside)
    requires SweptTo(before, after, swept) && OnlyTracked(before, swept) && outside.Keys == before.Keys
    requires Anchors(outside) <= after.Keys && forall n | n in after :: n in outside' && outside'[n] == outside[n]
    ensures NonOwningBacked(after, outside')
  {
    forall a, n | a in after && Edge(n, false) in EdgesOf(after, a)
      ensures Backed(after, outside', a, n)
    {
      assert SweptObject(before[a], after[a], a in swept);
      assert Backed(before, outside, a, n);
      forall k | Remnant(after, outside', k) && a in k
        ensures n in k
      {
        RemnantBefore(before, after, outside, outside', swept, k);
      }
    }
  }

  // ---------------------------------------------------------------------------
  // What the roots reach survives
  // ---------------------------------------------------------------------------

  /** Roots are held from outside the scanned graph, or reached from something that no
      object of the heap holds; and every scanned node held from outside is a root. */
  ghost predicate Rooted(store: Store, outside: Outside, scanned: set<Addr>, roots: set<Addr>) {
    && (forall r | r in roots ::
          HeldFromOutside(store, outside, scanned, r) || Reaches(store, Anchors(outside), r))
    && (forall n | n in scanned && HeldFromOutside(store, outside, scanned, n) :: n in roots)
  }

  ghost predicate Marks(store: Store, roots: set<Addr>, marked: set<Addr>) {
    forall n {:trigger Reaches(store, roots, n)} :: n in marked <==> Reaches(store, roots, n)
  }

  /** What is marked or not scanned owns only what is marked or not scanned. */
  lemma KeptOwnsKept(store: Store, outside: Outside, scanned: set<Addr>, roots: set<Addr>,
                     marked: set<Addr>, m: Addr, n: Addr)
    requires OwnedLive(store) && Rooted(store, outside, scanned, roots) && Marks(store, roots, marked)
    requires m in marked + (store.Keys - scanned) && Owns(store, m, n)
    ensures n in marked + (store.Keys - scanned)
  {
    if m in marked {
      ReachesStep(store, roots, m, Edge(n, true));
    } else if n in scanned {
      assert HeldFromOutside(store, outside, scanned, n);
      ReachesRoot(store, roots, n);
    }
  }

  lemma AnchorsAreKept(store: Store, outside: Outside, scanned: set<Addr>, roots: set<Addr>, marked: set<Addr>)
    requires outside.Keys == store.Keys
    requires Rooted(store, outside, scanned, roots) && Marks(store, roots, marked)
    ensures Anchors(outside) <= marked + (store.Keys - scanned)
  {
    forall n | n in Anchors(outside) && n in scanned
      ensures n in marked
    {
      assert HeldFromOutside(store, outside, scanned, n);
      ReachesRoot(store, roots, n);
    }
  }

  /** The part of the kept nodes that keeps itself alive is closed under every kind of
      reference. */
  lemma KeptPartIsClosed(store: Store, outside: Outside, scanned: set<Addr>, roots: set<Addr>, marked: set<Addr>)
    requires WellFormed(store, outside) && NonOwningBacked(store, outside)
    requires Rooted(store, outside, scanned, roots) && Marks(store, roots, marked)
    ensures var part := Largest(store, outside, marked + (store.Keys - scanned));
            Closed(store, part) && Anchors(outside) <= part
  {
    var keep := marked + (store.Keys - scanned);
    var part := Largest(store, outside, keep);
    WellFormedIsAccounted(store, outside);
    LargestIsSupported(store, outside, keep);
    AnchorsAreKept(store, outside, scanned, roots, marked);
    AnchorsAreSupported(store, outside);
    SupportedIsLargest(store, outside, keep, Anchors(outside));
    forall a, n | a in part && Owns(store, a, n)
      ensures n in part
    {
      KeptOwnsKept(store, outside, scanned, roots, marked, a, n);
      LargestHoldsOwned(store, outside, keep, a, n);
    }
    RemnantIsClosed(store, outside, part);
  }

  lemma UnscannedIsSupported(store: Store, outside: Outside, scanned: set<Addr>)
    requires CountsExact(store, outside) && AllCounted(store) && Closed(store, scanned)
    ensures Supported(store, outside, store.Keys - scanned)
  {
    forall n | n in store.Keys - scanned
      ensures HasSupport(store, outside, store.Keys - scanned, n)
    {
      OwnersZero(store, store.Keys, n);
    }
  }

  /** All that is kept keeps itself alive: the nodes the scan did not reach, what is held by
      them or from outside the heap, and what is reached from there. */
  lemma KeptIsItsPart(store: Store, outside: Outside, scanned: set<Addr>, roots: set<Addr>, marked: set<Addr>)
    requires WellFormed(store, outside) && AllCounted(store) && NonOwningBacked(store, outside)
    requires Closed(store, scanned) && marked <= store.Keys
    requires Rooted(store, outside, scanned, roots) && Marks(store, roots, marked)
    ensures marked + (store.Keys - scanned) <= Largest(store, outside, marked + (store.Keys - scanned))
  {
    var keep := marked + (store.Keys - scanned);
    var part := Largest(store, outside, keep);
    KeptPartIsClosed(store, outside, scanned, roots, marked);
    UnscannedIsSupported(store, outside, scanned);
    SupportedIsLargest(store, outside, keep, store.Keys - scanned);
    ClosedHoldsReachable(store, Anchors(outside), part);
    forall r | r in roots && r in store
      ensures r in part
    {
      if HeldFromOutside(store, outside, scanned, r) {
        if outside[r] == 0 {
          var a :| a in store && a !in scanned && Owns(store, a, r);
          assert a in part && Edge(r, true) in EdgesOf(store, a);
        }
      }
    }
    ClosedHoldsReachable(store, roots, part);
  }

  /** What the roots reach, together with everything the scan did not reach, keeps itself
      alive through the sweep. */
  lemma KeptIsSupported(before: Store, after: Store, outside: Outside,
                        scanned: set<Addr>, roots: set<Addr>, marked: set<Addr>, swept: set<Addr>)
    requires WellFormed(before, outside) && AllCounted(before) && NonOwningBacked(before, outside)
    requires SweptTo(before, after, swept) && after.Keys == before.Keys
    requires Closed(before, scanned) && marked <= before.Keys
    requires Rooted(before, outside, scanned, roots) && Marks(before, roots, marked)
    requires swept <= scanned - marked
    ensures Supported(after, outside, marked + (before.Keys - scanned))
  {
    var keep := marked + (before.Keys - scanned);
    KeptIsItsPart(before, outside, scanned, roots, marked);
    LargestIsSupported(before, outside, keep);
    assert Largest(before, outside, keep) == keep;
    forall n | n in keep
      ensures HasSupport(after, outside, keep, n)
    {
      assert HasSupport(before, outside, keep, n);
      if outside[n] == 0 {
        var m :| m in keep && Owns(before, m, n);
        SweptOwns(before, after, swept, m, n);
      }
    }
  }

  // ---------------------------------------------------------------------------
  // What no root reaches
  // ---------------------------------------------------------------------------

  /** Nodes of `dead`, which nothing outside it refers to, that survive have surviving
      owners of the same kind. */
  lemma SurvivorsAreOwned(before: Store, after: Store, outside: Outside, outside': Outside,
                          dead: set<Addr>, swept: set<Addr>)
    requires SweptTo(before, after, swept)
    requires CountsExact(after, outside') && AllCounted(after)
    requires forall n | n in after :: n in outside && outside'[n] == outside[n]
    requires OnlyFromWithin(before, outside, dead)
    ensures OwnedWithin(after, dead * after.Keys)
  {
    var u := dead * after.Keys;
    forall n | n in u
      ensures HasOwner(after, u, n)
    {
      OwnersZero(after, after.Keys, n);
      var o :| o in after && Owns(after, o, n);
      SweptOwns(before, after, swept, o, n);
    }
  }

  /** Every reference to a node of `dead` comes from a node of `dead`. */
  ghost predicate OnlyFromWithin(store: Store, outside: Outside, dead: set<Addr>) {
    forall n | n in dead :: (n in outside ==> outside[n] == 0) && forall a | Owns(store, a, n) :: a in dead
  }

  /** What no root reaches dies, all of it, if and only if every reference cycle in it
      passes through an object that is swept. */
  lemma DeadDieExactlyWhen(before: Store, mid: Store, after: Store, outside: Outside, outside': Outside,
                           dead: set<Addr>, swept: set<Addr>)
    requires SweptTo(before, mid, swept) && mid.Keys == before.Keys == outside.Keys
    requires SweptTo(before, after, swept) && after.Keys == Lasting(mid, outside)
    requires CountsExact(after, outside') && AllCounted(after)
    requires forall n | n in after :: outside'[n] == outside[n]
    requires OnlyFromWithin(before, outside, dead)
    ensures dead * after.Keys == {} <==> CyclesCut(before, dead, swept)
    ensures UncutCyclesLast(before, swept, after)
  {
    forall p | IsCycle(before, p) && Avoids(p, swept)
      ensures Within(p, after.Keys)
    {
      UncutCycleLasts(before, mid, outside, swept, p);
    }
    var u := dead * after.Keys;
    if u != {} {
      SurvivorsAreOwned(before, after, outside, outside', dead, swept);
      SurvivorsHoldCycle(before, after, dead, swept, u);
    }
    if !CyclesCut(before, dead, swept) {
      var p :| IsCycle(before, p) && Within(p, dead) && Avoids(p, swept);
      assert Within(p, after.Keys) && p[0] in u;
    }
  }

  lemma SurvivorsHoldCycle(before: Store, after: Store, dead: set<Addr>, swept: set<Addr>, u: set<Addr>)
    requires SweptTo(before, after, swept)
    requires u != {} && u <= dead && OwnedWithin(after, u)
    ensures !CyclesCut(before, dead, swept)
  {
    var c := OwnedSetHasCycle(after, u);
    SweptCycle(before, after, swept, c);
    forall n | n in c
      ensures n !in swept
    {
      var m :| m in u && Owns(after, n, m);
      SweptOwns(before, after, swept, n, m);
    }
    assert Within(c, dead) && Avoids(c, swept);
  }

  lemma SweptCycle(before: Store, after: Store, swept: set<Addr>, c: seq<Addr>)
    requires SweptTo(before, after, swept) && IsCycle(after, c)
    ensures IsCycle(before, c)
  {
    forall i | 0 <= i < |c| - 1
      ensures Linked(before, c, i)
    {
      assert Linked(after, c, i);
      SweptOwns(before, after, swept, c[i], c[i + 1]);
    }
  }

  /** A cycle that the sweep does not touch keeps itself alive. */
  lemma UncutCycleLasts(before: Store, mid: Store, outside: Outside, swept: set<Addr>, p: seq<Addr>)
    requires SweptTo(before, mid, swept) && mid.Keys == before.Keys == outside.Keys
    requires IsCycle(before, p) && Avoids(p, swept)
    ensures forall n | n in p :: n in Lasting(mid, outside)
  {
    var keep := set n | n in p;
    forall n | n in keep
      ensures n in mid && HasSupport(mid, outside, keep, n)
    {
      var k :| 0 <= k < |p| && p[k] == n;
      var i := if k == 0 then |p| - 2 else k - 1;
      var j := if k == |p| - 1 then 0 else k;
      assert p[i] in keep && Linked(before, p, i) && Linked(before, p, j);
      SweptOwns(before, mid, swept, p[i], n);
    }
    SupportedIsLasting(mid, outside, keep);
  }
}
