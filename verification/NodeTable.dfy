/** The collector's per-collection bookkeeping table (src/gc_heap.h, `NodeTable`):
    open addressing with linear probing over one flat array, keyed by object address.

    The class keeps the concrete array of slots; `Contents()` is the finite map it
    stands for, and every method is specified by what it does to that map. */
module NodeTables {

  type Addr = nat              // object address; 0 is the null pointer

  datatype Kind =
    | KArray | KTagged | KMap | KSet | KInstance | KClass | KGenerator
    | KEnvironment | KExternal | KCallable | KUpvalue | KTaskOwnership

  datatype Slot = Slot(key: Addr, refs: int, kind: Kind, marked: bool)

  /** What the table knows about one key. */
  datatype Info = Info(refs: int, kind: Kind, marked: bool)

  datatype TableView = Holds(m: map<Addr, Info>) | NoTable

  const EMPTY_SLOT := Slot(0, 0, KExternal, false)

  // ---------------------------------------------------------------------------
  // Powers of two and bit masks
  // ---------------------------------------------------------------------------

  predicate IsPow2(n: nat) {
    n == 1 || (n > 1 && n % 2 == 0 && IsPow2(n / 2))
  }

  /** The first of cap, 2 cap, 4 cap, ... that is at least `least`. */
  function Doubled(cap: nat, least: nat): (r: nat)
    requires cap > 0
    ensures r >= cap && r >= least && (r > cap ==> r < 2 * least)
    ensures IsPow2(cap) ==> IsPow2(r)
    decreases least - cap
  {
    if cap >= least then cap
    else
      assert cap * 2 / 2 == cap;
      Doubled(cap * 2, least)
  }

  /** Bitwise `&` on unsigned integers, bit by bit. */
  function BitAnd(a: nat, b: nat): nat
    decreases a
  {
    if a == 0 || b == 0 then 0
    else 2 * BitAnd(a / 2, b / 2) + (if a % 2 == 1 && b % 2 == 1 then 1 else 0)
  }

  /** Masking with `cap - 1` is reduction modulo `cap`, because capacities are
      powers of two. */
  lemma {:induction false} MaskIsModulo(x: nat, cap: nat)
    requires IsPow2(cap)
    ensures BitAnd(x, cap - 1) == x % cap
    decreases x
  {
    if cap == 1 {
    } else if x == 0 {
    } else {
      MaskIsModulo(x / 2, cap / 2);
      assert (cap - 1) / 2 == cap / 2 - 1;
      HalveModulo(x, cap / 2);
    }
  }

  lemma HalveModulo(x: nat, half: nat)
    requires half > 0
    ensures x % (2 * half) == 2 * (x / 2 % half) + x % 2
  {
    var q, r := x / 2 / half, x / 2 % half;
    assert x == (2 * half) * q + (2 * r + x % 2) by {
      assert x / 2 == half * q + r;
    }
    ModuloUnique(x, 2 * half, q, 2 * r + x % 2);
  }

  lemma ModuloUnique(x: int, m: int, q: int, r: int)
    requires m > 0 && 0 <= r < m && x == m * q + r
    ensures x % m == r
  {
    var q', r' := x / m, x % m;
    assert m * (q - q') == r' - r && m * (q' - q) == r - r';
    if q > q' {
      MulAtLeast(m, q - q');
    } else if q < q' {
      MulAtLeast(m, q' - q);
    }
  }

  lemma MulAtLeast(m: int, k: int)
    requires m > 0 && k >= 1
    ensures m * k >= m
  {
  }

  // ---------------------------------------------------------------------------
  // Probe sequences
  // ---------------------------------------------------------------------------

  /** Fibonacci hashing on 64-bit addresses, reduced by the mask. */
  function IndexFor(key: Addr, mask: nat): nat {
    BitAnd(key * 0x9E3779B97F4A7C15 % 0x1_0000_0000_0000_0000 / 0x10_0000, mask)
  }

  lemma IndexInRange(key: Addr, cap: nat)
    requires IsPow2(cap)
    ensures IndexFor(key, cap - 1) < cap
  {
    MaskIsModulo(key * 0x9E3779B97F4A7C15 % 0x1_0000_0000_0000_0000 / 0x10_0000, cap);
  }

  /** The d-th cell probed from `home` in a table of `cap` cells. */
  function Probe(home: nat, d: nat, cap: nat): nat
    requires home < cap && d <= cap
  {
    if home + d < cap then home + d else home + d - cap
  }

  /** How many steps from `home` the probe sequence takes to visit cell `i`. */
  function Distance(home: nat, i: nat, cap: nat): (d: nat)
    requires home < cap && i < cap
    ensures d < cap && Probe(home, d, cap) == i
  {
    if i >= home then i - home else i + cap - home
  }

  lemma ProbeNext(home: nat, d: nat, cap: nat)
    requires IsPow2(cap) && home < cap && d < cap
    ensures BitAnd(Probe(home, d, cap) + 1, cap - 1) == Probe(home, d + 1, cap)
  {
    var i := Probe(home, d, cap);
    MaskIsModulo(i + 1, cap);
    if i + 1 < cap {
      ModuloUnique(i + 1, cap, 0, i + 1);
    } else {
      ModuloUnique(i + 1, cap, 1, 0);
    }
  }

  // ---------------------------------------------------------------------------
  // What the array of slots stands for
  // ---------------------------------------------------------------------------

  /** Every occupied cell is where `at` says its key is, and conversely: so no key
      occurs twice. */
  ghost predicate Located(s: seq<Slot>, at: map<Addr, nat>) {
    && (forall k | k in at :: k != 0 && at[k] < |s| && s[at[k]].key == k)
    && (forall i | 0 <= i < |s| && s[i].key != 0 :: s[i].key in at && at[s[i].key] == i)
  }

  /** No gap between a key's home cell and the cell that holds it. */
  ghost predicate Unbroken(s: seq<Slot>, k: Addr, i: nat)
    requires IsPow2(|s|) && i < |s|
  {
    IndexInRange(k, |s|);
    var home := IndexFor(k, |s| - 1);
    forall d | 0 <= d < Distance(home, i, |s|) :: s[Probe(home, d, |s|)].key != 0
  }

  ghost predicate Reachable(s: seq<Slot>, at: map<Addr, nat>)
    requires IsPow2(|s|) && Located(s, at)
  {
    forall k {:trigger Unbroken(s, k, at[k])} | k in at :: Unbroken(s, k, at[k])
  }

  ghost predicate Sound(s: seq<Slot>, at: map<Addr, nat>) {
    IsPow2(|s|) && Located(s, at) && Reachable(s, at)
  }

  function InfoOf(s: Slot): Info {
    Info(s.refs, s.kind, s.marked)
  }

  ghost function View(s: seq<Slot>, at: map<Addr, nat>): (m: map<Addr, Info>)
    requires Located(s, at)
    ensures m.Keys == at.Keys
  {
    map k | k in at :: InfoOf(s[at[k]])
  }

  lemma EmptyIsSound(s: seq<Slot>)
    requires IsPow2(|s|) && forall i | 0 <= i < |s| :: s[i].key == 0
    ensures Sound(s, map[])
  {
  }

  /** Fewer keys than cells leaves an empty cell. */
  lemma {:induction false} SomeCellIsEmpty(s: seq<Slot>, at: map<Addr, nat>) returns (e: nat)
    requires Located(s, at) && |at| < |s|
    ensures e < |s| && s[e].key == 0
    decreases |s|
  {
    e := |s| - 1;
    if s[e].key != 0 {
      var k := s[e].key;
      var s', at' := s[..e], at - {k};
      assert at'.Keys == at.Keys - {k};
      e := SomeCellIsEmpty(s', at');
      assert s'[e] == s[e];
    }
  }

  /** Probing from the home cell of an absent key meets an empty cell before it wraps. */
  lemma ProbeMeetsEmpty(s: seq<Slot>, at: map<Addr, nat>, home: nat, d: nat)
    requires Located(s, at) && |at| < |s| && home < |s| && d <= |s|
    requires forall e | 0 <= e < d :: s[Probe(home, e, |s|)].key != 0
    ensures d < |s|
  {
    var j := SomeCellIsEmpty(s, at);
    var dj := Distance(home, j, |s|);
  }

  /** A key in the table is found before the first empty cell of its probe sequence. */
  lemma FirstGapMeansAbsent(s: seq<Slot>, at: map<Addr, nat>, key: Addr, home: nat, d: nat)
    requires Sound(s, at) && d < |s| && key != 0
    requires home == IndexFor(key, |s| - 1) && home < |s|
    requires forall e | 0 <= e < d :: s[Probe(home, e, |s|)].key != key
    requires s[Probe(home, d, |s|)].key == 0
    ensures key !in at
  {
    forall k | k in at
      ensures k != key
    {
      var dk := Distance(home, at[k], |s|);
      assert Unbroken(s, k, at[k]);
    }
  }

  /** Cell `i` is the first gap of the probe sequence of `key`. */
  ghost predicate Gap(s: seq<Slot>, key: Addr, i: nat) {
    IsPow2(|s|) && i < |s| && s[i].key == 0 && Unbroken(s, key, i)
  }

  lemma OneMore(at: map<Addr, nat>, key: Addr, i: nat)
    requires key !in at
    ensures |at[key := i]| == |at| + 1
  {
    assert at[key := i].Keys == at.Keys + {key};
    assert |at.Keys + {key}| == |at.Keys| + 1;
  }

  /** Filling the first gap of the probe sequence of an absent key keeps the table sound. */
  lemma FillGap(s: seq<Slot>, at: map<Addr, nat>, i: nat, cell: Slot)
    requires Sound(s, at) && cell.key != 0 && cell.key !in at && Gap(s, cell.key, i)
    ensures Sound(s[i := cell], at[cell.key := i])
    ensures View(s[i := cell], at[cell.key := i]) == View(s, at)[cell.key := InfoOf(cell)]
  {
    var s', at' := s[i := cell], at[cell.key := i];
    assert Located(s', at');
    forall k | k in at'
      ensures Unbroken(s', k, at'[k])
    {
      assert Unbroken(s, k, if k == cell.key then i else at[k]);
    }
  }

  /** The first `d` cells of the probe sequence are taken by other keys. */
  ghost predicate Passed(s: seq<Slot>, key: Addr, home: nat, d: nat)
    requires home < |s| && d <= |s|
  {
    forall e | 0 <= e < d :: s[Probe(home, e, |s|)].key != 0 && s[Probe(home, e, |s|)].key != key
  }

  lemma ProbeStep(s: seq<Slot>, at: map<Addr, nat>, key: Addr, home: nat, d: nat)
    requires Sound(s, at) && |at| < |s| && home < |s| && d < |s| && Passed(s, key, home, d)
    requires var c := s[Probe(home, d, |s|)].key; c != key && c != 0
    ensures d + 1 < |s| && Passed(s, key, home, d + 1)
    ensures BitAnd(Probe(home, d, |s|) + 1, |s| - 1) == Probe(home, d + 1, |s|)
  {
    ProbeMeetsEmpty(s, at, home, d + 1);
    ProbeNext(home, d, |s|);
  }

  /** Where the probe loop stops, the key is there or the cell is its first gap. */
  lemma StoppedProbe(s: seq<Slot>, at: map<Addr, nat>, key: Addr, home: nat, d: nat)
    requires Sound(s, at) && d < |s| && key != 0
    requires home == IndexFor(key, |s| - 1) && home < |s| && Passed(s, key, home, d)
    requires var c := s[Probe(home, d, |s|)].key; c == key || c == 0
    ensures var i := Probe(home, d, |s|);
            && (s[i].key == key <==> key in at)
            && (key in at ==> at[key] == i)
            && (key !in at ==> Gap(s, key, i))
  {
    var i := Probe(home, d, |s|);
    if s[i].key == 0 {
      FirstGapMeansAbsent(s, at, key, home, d);
      assert Distance(home, i, |s|) == d;
    }
  }

  /** Changing everything but the key of an occupied cell keeps the table sound. */
  lemma RewriteCell(s: seq<Slot>, at: map<Addr, nat>, i: nat, cell: Slot)
    requires Sound(s, at) && i < |s| && s[i].key == cell.key != 0
    ensures Sound(s[i := cell], at)
    ensures View(s[i := cell], at) == View(s, at)[cell.key := InfoOf(cell)]
  {
    var s' := s[i := cell];
    assert Located(s', at);
    forall k | k in at
      ensures Unbroken(s', k, at[k])
    {
      assert Unbroken(s, k, at[k]);
    }
  }

  /** The part of the map that lies in the first `j` cells. */
  ghost function ViewBelow(s: seq<Slot>, at: map<Addr, nat>, j: nat): map<Addr, Info>
    requires Sound(s, at)
  {
    map k | k in at && at[k] < j :: InfoOf(s[at[k]])
  }

  lemma ViewBelowStep(s: seq<Slot>, at: map<Addr, nat>, j: nat)
    requires Sound(s, at) && j < |s|
    ensures s[j].key == 0 ==> ViewBelow(s, at, j + 1) == ViewBelow(s, at, j)
    ensures s[j].key != 0 ==>
              && s[j].key !in ViewBelow(s, at, j)
              && ViewBelow(s, at, j + 1) == ViewBelow(s, at, j)[s[j].key := InfoOf(s[j])]
    ensures s[j].key != 0 ==> |ViewBelow(s, at, j)| < |at|
  {
    if s[j].key != 0 {
      var low := ViewBelow(s, at, j).Keys;
      assert low < at.Keys by {
        assert s[j].key in at.Keys && s[j].key !in low;
      }
      ProperSubsetSize(low, at.Keys);
      assert |ViewBelow(s, at, j)| == |low| && |at| == |at.Keys|;
    }
  }

  lemma {:induction false} ProperSubsetSize<T>(a: set<T>, b: set<T>)
    requires a < b
    ensures |a| < |b|
  {
    if a != {} {
      var x :| x in a;
      ProperSubsetSize(a - {x}, b - {x});
    }
  }

  /** The occupied slots, in array order. */
  function NonEmpty(s: seq<Slot>): seq<Slot> {
    if s == [] then []
    else NonEmpty(s[..|s| - 1]) + (if s[|s| - 1].key != 0 then [s[|s| - 1]] else [])
  }

  lemma {:induction false} NonEmptyElements(s: seq<Slot>)
    requires forall i, j | 0 <= i < j < |s| && s[i].key != 0 :: s[i].key != s[j].key
    ensures forall c | c in NonEmpty(s) :: c.key != 0 && c in s
    ensures forall c | c in s && c.key != 0 :: c in NonEmpty(s)
    ensures forall i, j | 0 <= i < j < |NonEmpty(s)| :: NonEmpty(s)[i].key != NonEmpty(s)[j].key
  {
    if s != [] {
      NonEmptyElements(s[..|s| - 1]);
      assert s == s[..|s| - 1] + [s[|s| - 1]];
    }
  }

  lemma NonEmptyIsView(s: seq<Slot>, at: map<Addr, nat>)
    requires Located(s, at)
    ensures forall c | c in NonEmpty(s) :: c.key in at && View(s, at)[c.key] == InfoOf(c)
    ensures forall k | k in at :: exists c | c in NonEmpty(s) :: c.key == k
    ensures forall i, j | 0 <= i < j < |NonEmpty(s)| :: NonEmpty(s)[i].key != NonEmpty(s)[j].key
  {
    NonEmptyElements(s);
    forall k | k in at
      ensures exists c | c in NonEmpty(s) :: c.key == k
    {
      assert s[at[k]] in s;
    }
  }

  // ---------------------------------------------------------------------------
  // The table
  // ---------------------------------------------------------------------------

  class NodeTable {
    var slots: array<Slot>
    var size: nat
    var mask: nat
    ghost var at: map<Addr, nat>    // the cell of each key

    /** Either never used, or a sound table of at least 64 cells, at most half full. */
    ghost predicate Valid()
      reads this, slots
    {
      && size == |at|
      && Located(slots[..], at)
      && (slots.Length == 0 ==> at == map[])
      && (slots.Length > 0 ==>
            && slots.Length >= 64
            && mask == slots.Length - 1
            && 2 * size <= slots.Length
            && Sound(slots[..], at))
    }

    ghost function Contents(): (m: map<Addr, Info>)
      requires Valid()
      reads this, slots
      ensures m.Keys == at.Keys
    {
      View(slots[..], at)
    }

    /** The map of a valid table; `NoTable` otherwise. Callers keep track of this. */
    ghost function Table(): TableView
      reads this, slots
    {
      if Valid() then Holds(Contents()) else NoTable
    }

    constructor ()
      ensures Valid() && Contents() == map[] && fresh(slots)
    {
      slots := new Slot[0];
      size, mask, at := 0, 0, map[];
    }

    /** Empties the table and sizes it for `expected` keys. */
    method Reset(expected: nat)
      modifies this, slots
      ensures Valid() && Contents() == map[]
      ensures slots.Length == Doubled(64, expected * 2)
      ensures if old(slots.Length) == Doubled(64, expected * 2) then slots == old(slots) else fresh(slots)
    {
      var cap := 64;
      while cap < expected * 2
        invariant IsPow2(cap) && cap >= 64 && Doubled(cap, expected * 2) == Doubled(64, expected * 2)
      {
        assert (cap * 2) / 2 == cap;
        cap := cap * 2;
      }
      if slots.Length == cap {
        var i := 0;
        while i < cap
          invariant i <= cap == slots.Length && slots == old(slots)
          invariant forall j | 0 <= j < i :: slots[j] == EMPTY_SLOT
        {
          slots[i] := EMPTY_SLOT;
          i := i + 1;
        }
        assert slots[..] == seq(cap, _ => EMPTY_SLOT);
        EmptyIsSound(slots[..]);
      } else {
        Allocate(cap);
      }
      size, mask, at := 0, cap - 1, map[];
    }

    /** A fresh array of empty slots. */
    method Allocate(cap: nat)
      requires IsPow2(cap)
      modifies this`slots
      ensures fresh(slots) && slots.Length == cap && Sound(slots[..], map[])
    {
      slots := new Slot[cap](_ => EMPTY_SLOT);
      assert slots[..] == seq(cap, _ => EMPTY_SLOT);
      EmptyIsSound(slots[..]);
    }

    /** The cell holding `key`, or -1. */
    method Find(key: Addr) returns (i: int)
      requires Valid() && key != 0
      ensures -1 <= i < slots.Length
      ensures i >= 0 <==> key in Contents()
      ensures i >= 0 ==> slots[i].key == key && Contents()[key] == InfoOf(slots[i])
    {
      if slots.Length == 0 { return -1; }
      i := ProbeFor(key);
      if slots[i].key != key { i := -1; }
    }

    /** The part of `Valid` that probing relies on; it also holds while `Grow` refills. */
    ghost predicate Probing()
      reads this, slots
    {
      && Sound(slots[..], at)
      && mask == slots.Length - 1
      && |at| < slots.Length
    }

    /** The probe loop shared by find, insert and grow: stops at the cell of `key`, or at
        the first gap when `key` is absent (always, for grow). */
    method ProbeFor(key: Addr) returns (i: nat)
      requires Probing() && key != 0
      ensures i < slots.Length
      ensures slots[i].key == key <==> key in at
      ensures key in at ==> at[key] == i
      ensures key !in at ==> Gap(slots[..], key, i)
    {
      ghost var s := slots[..];
      IndexInRange(key, |s|);
      ghost var home, d := IndexFor(key, |s| - 1), 0;
      i := IndexFor(key, mask);
      while slots[i].key != key && slots[i].key != 0
        invariant i < slots.Length && d < |s| && i == Probe(home, d, |s|)
        invariant Passed(s, key, home, d)
        decreases |s| - d
      {
        ProbeStep(s, at, key, home, d);
        i := BitAnd(i + 1, mask);
        d := d + 1;
      }
      StoppedProbe(s, at, key, home, d);
    }

    /** Puts `cell`, whose key is absent, into the first gap of its probe sequence. */
    method Place(i: nat, cell: Slot)
      requires Probing() && cell.key != 0 && cell.key !in at && Gap(slots[..], cell.key, i)
      modifies slots, this`at
      ensures Sound(slots[..], at) && slots[i] == cell && |at| == |old(at)| + 1
      ensures View(slots[..], at) == old(View(slots[..], at))[cell.key := InfoOf(cell)]
    {
      ghost var was := slots[..];
      slots[i] := cell;
      assert slots[..] == was[i := cell];
      FillGap(was, at, i, cell);
      OneMore(at, cell.key, i);
      at := at[cell.key := i];
    }

    method Reinsert(cell: Slot)
      requires Probing() && cell.key != 0 && cell.key !in at
      modifies slots, this`at
      ensures Sound(slots[..], at)
      ensures View(slots[..], at) == old(View(slots[..], at))[cell.key := InfoOf(cell)]
    {
      var i := ProbeFor(cell.key);
      Place(i, cell);
    }

    /** Re-inserts the occupied slots of `from` into the new array. */
    method Refill(from: array<Slot>, ghost at0: map<Addr, nat>)
      requires Sound(slots[..], at) && at == map[] && mask == slots.Length - 1
      requires from != slots && Sound(from[..], at0) && |at0| < slots.Length
      modifies slots, this`at
      ensures Sound(slots[..], at) && View(slots[..], at) == View(from[..], at0)
    {
      ghost var was := from[..];
      var j := 0;
      while j < from.Length
        invariant j <= from.Length && from[..] == was
        invariant mask == slots.Length - 1 && |at0| < slots.Length
        invariant Sound(slots[..], at)
        invariant View(slots[..], at) == ViewBelow(was, at0, j)
      {
        ViewBelowStep(was, at0, j);
        var s := from[j];
        assert s == was[j];
        if s.key != 0 {
          assert |at| == |at.Keys| == |View(slots[..], at)|;
          Reinsert(s);
        }
        j := j + 1;
      }
    }

    /** Doubles the array and re-inserts every occupied slot as it is. */
    method Grow()
      requires Valid() && 2 * (size + 1) > slots.Length
      modifies this
      ensures Valid() && Contents() == old(Contents()) && fresh(slots)
      ensures slots.Length == (if old(slots.Length) == 0 then 64 else 2 * old(slots.Length))
    {
      if slots.Length == 0 {
        Allocate(64);
        mask := 63;
      } else {
        Double();
        assert at.Keys == Contents().Keys;
      }
    }

    method Double()
      requires Valid() && slots.Length > 0
      modifies this
      ensures Sound(slots[..], at) && View(slots[..], at) == old(View(slots[..], at))
      ensures fresh(slots) && slots.Length == 2 * old(slots.Length) && mask == slots.Length - 1
      ensures size == |at| == old(size)
    {
      var from := slots;
      ghost var at0 := at;
      assert IsPow2(from.Length * 2) by { assert from.Length * 2 / 2 == from.Length; }
      Allocate(from.Length * 2);
      mask := slots.Length - 1;
      at := map[];
      Refill(from, at0);
      assert at.Keys == View(slots[..], at).Keys == at0.Keys;
      assert |at| == |at.Keys| && |at0| == |at0.Keys|;
    }

    /** The cell of `key`, inserting it with the given kind and count if it is absent. */
    method Insert(key: Addr, kind: Kind, refs: int) returns (i: nat, inserted: bool)
      requires Valid() && key != 0
      modifies this, slots
      ensures Valid() && (slots == old(slots) || fresh(slots))
      ensures i < slots.Length && slots[i].key == key
      ensures inserted <==> key !in old(Contents())
      ensures Contents() == if inserted then old(Contents())[key := Info(refs, kind, false)]
                            else old(Contents())
    {
      if (size + 1) * 2 > slots.Length { Grow(); }
      i, inserted := InsertWithRoom(key, kind, refs);
    }

    method InsertWithRoom(key: Addr, kind: Kind, refs: int) returns (i: nat, inserted: bool)
      requires Valid() && key != 0 && 2 * (size + 1) <= slots.Length
      modifies this`size, this`at, slots
      ensures Valid()
      ensures i < slots.Length && slots[i].key == key
      ensures inserted <==> key !in old(Contents())
      ensures Contents() == if inserted then old(Contents())[key := Info(refs, kind, false)]
                            else old(Contents())
    {
      i := ProbeFor(key);
      inserted := slots[i].key != key;
      if inserted {
        Place(i, Slot(key, refs, kind, false));
        size := size + 1;
      }
    }

    /** A write through the pointer that find or insert returned. */
    method Write(i: nat, refs: int, marked: bool)
      requires Valid() && i < slots.Length && slots[i].key != 0
      modifies slots
      ensures Valid() && slots[i].key == old(slots[i].key)
      ensures Contents() == old(Contents())[slots[i].key := Info(refs, slots[i].kind, marked)]
      ensures slots[i].kind == old(slots[i].kind)
    {
      ghost var prev := slots[..];
      slots[i] := slots[i].(refs := refs, marked := marked);
      assert slots[..] == prev[i := slots[i]];
      RewriteCell(prev, at, i, slots[i]);
    }

    /** Visits every occupied slot once, as forEach does. */
    method Occupied() returns (out: seq<Slot>)
      requires Valid()
      ensures forall s | s in out :: s.key in Contents() && Contents()[s.key] == InfoOf(s)
      ensures forall k | k in Contents() :: exists s | s in out :: s.key == k
      ensures forall i, j | 0 <= i < j < |out| :: out[i].key != out[j].key
    {
      out := [];
      for n := 0 to slots.Length
        invariant out == NonEmpty(slots[..n])
      {
        assert slots[..n + 1][..n] == slots[..n];
        if slots[n].key != 0 { out := out + [slots[n]]; }
      }
      assert slots[..slots.Length] == slots[..];
      NonEmptyIsView(slots[..], at);
    }
  }

  // ---------------------------------------------------------------------------
  // Whole runs
  // ---------------------------------------------------------------------------

  datatype Op =
    | OpReset(expected: nat)
    | OpInsert(key: Addr, kind: Kind, refs: int)
    | OpFind(key: Addr)
    | OpWrite(key: Addr, refs: int, marked: bool)    // find, then write through the pointer

  datatype Out = Done | Inserted(isNew: bool) | Absent | Present(info: Info)

  predicate ProperKey(op: Op) {
    op.OpReset? || op.key != 0
  }

  /** One operation on the abstract finite map. */
  ghost function MapStep(m: map<Addr, Info>, op: Op): (map<Addr, Info>, Out) {
    match op
    case OpReset(_) => (map[], Done)
    case OpInsert(k, kind, refs) =>
      if k in m then (m, Inserted(false)) else (m[k := Info(refs, kind, false)], Inserted(true))
    case OpFind(k) => (m, if k in m then Present(m[k]) else Absent)
    case OpWrite(k, refs, marked) =>
      if k in m then (m[k := Info(refs, m[k].kind, marked)], Done) else (m, Absent)
  }

  ghost function MapRun(m: map<Addr, Info>, ops: seq<Op>): (map<Addr, Info>, seq<Out>) {
    if ops == [] then (m, [])
    else
      var (m1, outs) := MapRun(m, ops[..|ops| - 1]);
      var (m2, out) := MapStep(m1, ops[|ops| - 1]);
      (m2, outs + [out])
  }

  lemma MapRunNext(m: map<Addr, Info>, ops: seq<Op>, n: nat)
    requires n < |ops|
    ensures var (m', outs) := MapRun(m, ops[..n]);
            var (m2, out) := MapStep(m', ops[n]);
            MapRun(m, ops[..n + 1]) == (m2, outs + [out])
  {
    assert ops[..n + 1][..n] == ops[..n];
  }

  /** Any run of operations on a table answers as the finite map does, and leaves the
      table standing for the map that run leaves. */
  method Run(t: NodeTable, ops: seq<Op>) returns (outs: seq<Out>)
    requires t.Valid() && forall op | op in ops :: ProperKey(op)
    modifies t, t.slots
    ensures t.Valid()
    ensures (t.Contents(), outs) == MapRun(old(t.Contents()), ops)
  {
    outs := [];
    ghost var m0 := t.Contents();
    for n := 0 to |ops|
      invariant t.Valid() && (t.slots == old(t.slots) || fresh(t.slots))
      invariant (t.Contents(), outs) == MapRun(m0, ops[..n])
    {
      var out := RunOne(t, ops[n]);
      MapRunNext(m0, ops, n);
      outs := outs + [out];
    }
    assert ops[..|ops|] == ops;
  }

  method RunOne(t: NodeTable, op: Op) returns (out: Out)
    requires t.Valid() && ProperKey(op)
    modifies t, t.slots
    ensures t.Valid() && (t.slots == old(t.slots) || fresh(t.slots))
    ensures (t.Contents(), out) == MapStep(old(t.Contents()), op)
  {
    match op {
      case OpReset(n) =>
        t.Reset(n);
        out := Done;
      case OpInsert(k, kind, refs) =>
        var i, isNew := t.Insert(k, kind, refs);
        out := Inserted(isNew);
      case OpFind(k) =>
        var i := t.Find(k);
        out := if i < 0 then Absent else Present(InfoOf(t.slots[i]));
      case OpWrite(k, refs, marked) =>
        var i := t.Find(k);
        if i < 0 {
          out := Absent;
        } else {
          t.Write(i, refs, marked);
          out := Done;
        }
    }
  }
}
