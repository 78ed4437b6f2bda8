/** The isolation copy made when an async call starts (src/interpreter.cpp): two mutually
    recursive graph copiers, `deepCopy` over values and `copyEnv` over environments, each
    with its own visited map, over a heap that may be cyclic and aliased. */
module AsyncCopy {
  import opened Wrappers

  type Addr = nat      // 0 is the null pointer

  datatype Value = Scalar(n: int) | Ref(target: Addr)

  /** A heap node. The copiers treat classes, methods and natives as callables that are
      shared; sets, tagged values, generators, futures and externals are shared too. */
  datatype Node =
    | MapNode(keys: seq<Value>, vals: seq<Value>)
    | ArrayNode(elems: seq<Value>)
    | InstanceNode(klass: Addr, names: seq<string>, fields: seq<Value>)
    | EnvNode(vars: seq<string>, bound: seq<Value>, parent: Addr)
    | ClosureNode(code: nat, closure: Addr)
    | SharedNode(isCallable: bool, refs: seq<Value>)

  type Heap = map<Addr, Node>

  predicate IsContainer(n: Node) {
    n.MapNode? || n.ArrayNode? || n.InstanceNode?
  }

  predicate IsCallable(n: Node) {
    n.ClosureNode? || (n.SharedNode? && n.isCallable)
  }

  /** The values the copiers descend into. */
  function Slots(n: Node): seq<Value> {
    match n
    case MapNode(_, vs) => vs
    case ArrayNode(es) => es
    case InstanceNode(_, _, fs) => fs
    case EnvNode(_, bs, _) => bs
    case ClosureNode(_, _) => []
    case SharedNode(_, _) => []
  }

  predicate WellShaped(n: Node) {
    match n
    case MapNode(ks, vs) => |ks| == |vs|
    case InstanceNode(_, ns, fs) => |ns| == |fs|
    case EnvNode(ns, bs, _) => |ns| == |bs|
    case _ => true
  }

  /** A pointer held by a value: to anything but an environment. */
  predicate ValueOk(h: Heap, v: Value) {
    v.Ref? ==> v.target in h && !h[v.target].EnvNode?
  }

  predicate EnvOk(h: Heap, e: Addr) {
    e == 0 || (e in h && h[e].EnvNode?)
  }

  /** Map keys are hashable, so never mutable containers or closures. */
  predicate KeyOk(h: Heap, v: Value) {
    v.Ref? ==> v.target in h && h[v.target].SharedNode?
  }

  ghost predicate NodeOk(h: Heap, n: Node) {
    && WellShaped(n)
    && (forall v | v in Slots(n) :: ValueOk(h, v))
    && (n.MapNode? ==> forall k | k in n.keys :: KeyOk(h, k))
    && (n.InstanceNode? ==> n.klass == 0 || (n.klass in h && h[n.klass].SharedNode?))
    && (n.EnvNode? ==> EnvOk(h, n.parent))
    && (n.ClosureNode? ==> EnvOk(h, n.closure))
  }

  ghost predicate HeapOk(h: Heap) {
    0 !in h && forall a | a in h :: NodeOk(h, h[a])
  }

  // ---------------------------------------------------------------------------
  // The state of a copy in progress
  // ---------------------------------------------------------------------------

  /** The heap, the two visited maps, and for each copied container or environment the
      caller node it is the copy of. */
  datatype State = State(objs: Heap, values: map<Addr, Value>, envs: map<Addr, Addr>,
                         owner: map<Addr, Addr>)

  ghost predicate EnvCopy(s: State, e: Addr, e': Addr) {
    if e == 0 then e' == 0 else e in s.envs && s.envs[e] == e'
  }

  /** `v'` is the task's counterpart of the caller's value `v`: containers by their one
      copy, closures by some clone, everything else shared. */
  ghost predicate ValueCopy(src: Heap, s: State, v: Value, v': Value)
    requires ValueOk(src, v)
  {
    if v.Scalar? then v' == v
    else if IsContainer(src[v.target]) then v.target in s.values && s.values[v.target] == v'
    else if src[v.target].ClosureNode? then
      && v'.Ref? && v'.target in s.objs && v'.target !in src && v'.target !in s.owner
      && s.objs[v'.target].ClosureNode?
      && s.objs[v'.target].code == src[v.target].code
      && EnvCopy(s, src[v.target].closure, s.objs[v'.target].closure)
    else v' == v
  }

  /** The visited maps and the new nodes hang together; the caller's nodes are untouched. */
  ghost predicate Consistent(src: Heap, s: State) {
    && (forall a | a in src :: a in s.objs && s.objs[a] == src[a])
    && 0 !in s.objs
    && (forall c | c in s.owner :: c in s.objs && c !in src && s.owner[c] in src)
    && (forall c {:trigger IsImage(src, s, s.owner[c], c)} | c in s.owner :: IsImage(src, s, s.owner[c], c))
    && (forall k {:trigger ValueVisited(src, s, k)} | k in s.values :: ValueVisited(src, s, k))
    && (forall e {:trigger EnvVisited(src, s, e)} | e in s.envs :: EnvVisited(src, s, e))
    && (forall c {:trigger IsClone(s, s.objs[c])} | c in s.objs && c !in src && c !in s.owner :: IsClone(s, s.objs[c]))
  }

  ghost predicate ValueVisited(src: Heap, s: State, k: Addr)
    requires k in s.values
  {
    && k in src
    && (IsContainer(src[k]) || IsCallable(src[k]))
    && (IsContainer(src[k]) ==> s.values[k].Ref? && s.values[k].target in s.owner
                                && s.owner[s.values[k].target] == k)
    && ValueOk(src, Ref(k)) && ValueCopy(src, s, Ref(k), s.values[k])
  }

  ghost predicate EnvVisited(src: Heap, s: State, e: Addr)
    requires e in s.envs
  {
    && e in src && src[e].EnvNode?
    && s.envs[e] in s.owner && s.owner[s.envs[e]] == e
  }

  /** A cloned closure: its environment is a copied one. */
  ghost predicate IsClone(s: State, n: Node) {
    n.ClosureNode? && (n.closure == 0 || n.closure in s.owner)
  }

  /** The first `i` slots of `n'` are copies of those of `n`. */
  ghost predicate CopiedTo(src: Heap, s: State, globals: Addr, k: Addr, n': Node, i: nat)
    requires k in src && NodeOk(src, src[k])
  {
    var n := src[k];
    && i <= |Slots(n)| && |Slots(n')| == i
    && (forall j | 0 <= j < i :: ValueCopy(src, s, Slots(n)[j], Slots(n')[j]))
    && match n
       case MapNode(ks, _) => n'.MapNode? && n'.keys == ks[..i]
       case ArrayNode(_) => n'.ArrayNode?
       case InstanceNode(c, ns, _) => n'.InstanceNode? && n'.klass == c && n'.names == ns[..i]
       case EnvNode(ns, _, p) =>
         n'.EnvNode? && n'.vars == ns[..i] &&
         (if k == globals then n'.parent == 0 else EnvCopy(s, p, n'.parent))
       case _ => false
  }

  /** The one copy of a visited container or environment. */
  ghost predicate IsImage(src: Heap, s: State, k: Addr, c: Addr) {
    || (k in s.values && k in src && IsContainer(src[k]) && s.values[k] == Ref(c))
    || (k in s.envs && s.envs[k] == c)
  }

  ghost predicate Complete(src: Heap, s: State, globals: Addr, k: Addr)
    requires k in src && NodeOk(src, src[k])
  {
    forall c | IsImage(src, s, k, c) ::
      c in s.objs && CopiedTo(src, s, globals, k, s.objs[c], |Slots(src[k])|)
  }

  predicate IsCopiedOnce(src: Heap, k: Addr) {
    k in src && IsContainer(src[k])
  }

  /** `s'` adds nodes and visits to `s` and changes nothing that was there, except the
      contents of the copy `b` (none, when `b` is null), and that a callable may have been
      cloned again. */
  ghost predicate GrowsBut(src: Heap, s: State, s': State, b: Addr) {
    && (forall a | a in s.objs && a != b :: a in s'.objs && s'.objs[a] == s.objs[a])
    && (b in s.objs ==> b in s'.objs)
    && (forall k | k in s.values :: k in s'.values && (IsCopiedOnce(src, k) ==> s'.values[k] == s.values[k]))
    && (forall e | e in s.envs :: e in s'.envs && s'.envs[e] == s.envs[e])
    && (forall c | c in s.owner :: c in s'.owner && s'.owner[c] == s.owner[c])
    && (forall c | c in s'.owner && c !in s.owner :: c !in s.objs)
  }

  ghost predicate Grows(src: Heap, s: State, s': State) {
    GrowsBut(src, s, s', 0)
  }

  /** Everything visited since `s`, except the node `but`, is completely copied in `s'`. */
  ghost predicate NewComplete(src: Heap, s: State, s': State, globals: Addr, but: Addr)
    requires HeapOk(src)
  {
    forall k {:trigger Complete(src, s', globals, k)} | k in src && k != but && !Visited(src, s, k) ::
      Complete(src, s', globals, k)
  }

  ghost predicate Visited(src: Heap, s: State, k: Addr) {
    k in s.envs || (k in s.values && k in src && IsContainer(src[k]))
  }

  // ---------------------------------------------------------------------------
  // Growth keeps what has been copied
  // ---------------------------------------------------------------------------

  lemma GrowsTransitive(src: Heap, s0: State, s1: State, s2: State, b: Addr)
    requires GrowsBut(src, s0, s1, b) && GrowsBut(src, s1, s2, b)
    ensures GrowsBut(src, s0, s2, b)
  {
  }

  /** The node being filled is a registered copy, or there is none. */
  ghost predicate Open(s: State, b: Addr) {
    b == 0 || b in s.owner
  }

  lemma ValueCopyGrows(src: Heap, s: State, s': State, b: Addr, v: Value, v': Value)
    requires ValueOk(src, v) && ValueCopy(src, s, v, v')
    requires 0 !in s.objs && Open(s, b) && GrowsBut(src, s, s', b)
    ensures ValueCopy(src, s', v, v')
  {
  }

  lemma CopiedGrows(src: Heap, s: State, s': State, b: Addr, globals: Addr, k: Addr, n: Node, i: nat)
    requires k in src && NodeOk(src, src[k]) && CopiedTo(src, s, globals, k, n, i)
    requires 0 !in s.objs && Open(s, b) && GrowsBut(src, s, s', b)
    ensures CopiedTo(src, s', globals, k, n, i)
  {
    forall j | 0 <= j < i
      ensures ValueCopy(src, s', Slots(src[k])[j], Slots(n)[j])
    {
      ValueCopyGrows(src, s, s', b, Slots(src[k])[j], Slots(n)[j]);
    }
  }

  /** A node that is visited keeps its image. */
  lemma ImageStays(src: Heap, s: State, s': State, b: Addr, k: Addr, c: Addr)
    requires GrowsBut(src, s, s', b) && Consistent(src, s') && Visited(src, s, k) && IsImage(src, s', k, c)
    ensures IsImage(src, s, k, c)
  {
    if k in s'.envs { assert EnvVisited(src, s', k); }
  }

  lemma ImageOwner(src: Heap, s: State, k: Addr, c: Addr)
    requires Consistent(src, s) && IsImage(src, s, k, c)
    ensures c in s.owner && s.owner[c] == k
  {
    if k in s.envs { assert EnvVisited(src, s, k); }
    if k in s.values { assert ValueVisited(src, s, k); }
  }

  /** A finished copy stays finished while another one is filled. */
  lemma CompleteGrows(src: Heap, s: State, s': State, b: Addr, globals: Addr, k: Addr)
    requires k in src && NodeOk(src, src[k])
    requires Complete(src, s, globals, k) && Visited(src, s, k) && GrowsBut(src, s, s', b)
    requires Consistent(src, s) && Consistent(src, s')
    requires b == 0 || (b in s.owner && s.owner[b] != k)
    ensures Complete(src, s', globals, k)
  {
    forall c | IsImage(src, s', k, c)
      ensures c in s'.objs && CopiedTo(src, s', globals, k, s'.objs[c], |Slots(src[k])|)
    {
      ImageStays(src, s, s', b, k, c);
      ImageOwner(src, s, k, c);
      CopiedGrows(src, s, s', b, globals, k, s.objs[c], |Slots(src[k])|);
    }
  }

  lemma NewCompleteTransitive(src: Heap, s0: State, s1: State, s2: State, b: Addr, globals: Addr)
    requires HeapOk(src) && Consistent(src, s1) && Consistent(src, s2)
    requires GrowsBut(src, s0, s1, b) && GrowsBut(src, s1, s2, b)
    requires b == 0 || (b in s0.owner && Visited(src, s0, s0.owner[b]))
    requires NewComplete(src, s0, s1, globals, 0) && NewComplete(src, s1, s2, globals, 0)
    ensures NewComplete(src, s0, s2, globals, 0)
  {
    forall k | k in src && k != 0 && !Visited(src, s0, k)
      ensures Complete(src, s2, globals, k)
    {
      if Visited(src, s1, k) {
        CompleteGrows(src, s1, s2, b, globals, k);
      }
    }
  }

  // ---------------------------------------------------------------------------
  // Registering, filling and finishing a copy
  // ---------------------------------------------------------------------------

  function Write(s: State, b: Addr, n: Node): State {
    s.(objs := s.objs[b := n])
  }

  /** The state with one more node, `b`. */
  ghost predicate Fresh(s: State, b: Addr) {
    b != 0 && b !in s.objs && b !in s.owner
  }

  /** A grown state is consistent when what it adds is. */
  lemma ConsistentGrows(src: Heap, s: State, s': State, b: Addr)
    requires HeapOk(src) && Consistent(src, s) && GrowsBut(src, s, s', b) && Open(s, b)
    requires 0 !in s'.objs
    requires forall k | k in s'.values && (k !in s.values || s'.values[k] != s.values[k]) :: ValueVisited(src, s', k)
    requires forall e | e in s'.envs && e !in s.envs :: EnvVisited(src, s', e)
    requires forall c | c in s'.owner && c !in s.owner ::
               c in s'.objs && c !in src && s'.owner[c] in src && IsImage(src, s', s'.owner[c], c)
    requires forall c | c in s'.objs && c !in s.objs && c !in s'.owner :: IsClone(s', s'.objs[c])
    ensures Consistent(src, s')
  {
    forall c | c in s'.owner
      ensures IsImage(src, s', s'.owner[c], c)
    {
      if c in s.owner { assert IsImage(src, s, s.owner[c], c); }
    }
    forall k | k in s'.values
      ensures ValueVisited(src, s', k)
    {
      if k in s.values && s'.values[k] == s.values[k] {
        assert ValueVisited(src, s, k);
        ValueCopyGrows(src, s, s', b, Ref(k), s.values[k]);
      }
    }
    forall e | e in s'.envs
      ensures EnvVisited(src, s', e)
    {
      if e in s.envs { assert EnvVisited(src, s, e); }
    }
    forall c | c in s'.objs && c !in src && c !in s'.owner
      ensures IsClone(s', s'.objs[c])
    {
      if c in s.objs { assert IsClone(s, s.objs[c]); }
    }
  }

  /** Writing to an open copy disturbs nothing else. */
  lemma WriteKeeps(src: Heap, s: State, b: Addr, n: Node, globals: Addr)
    requires HeapOk(src) && Consistent(src, s) && b in s.owner && b != 0
    ensures Consistent(src, Write(s, b, n)) && GrowsBut(src, s, Write(s, b, n), b)
    ensures NewComplete(src, s, Write(s, b, n), globals, 0)
  {
    var s' := Write(s, b, n);
    ConsistentGrows(src, s, s', b);
    NothingVisited(src, s, s', globals, 0);
  }

  /** A step that visits nothing new but `but` leaves nothing to complete. */
  lemma NothingVisited(src: Heap, s: State, s': State, globals: Addr, but: Addr)
    requires HeapOk(src)
    requires forall k | k in s'.envs :: k in s.envs || k == but
    requires forall k | k in s'.values && k in src && IsContainer(src[k]) :: k in s.values || k == but
    ensures NewComplete(src, s, s', globals, but)
  {
  }

  lemma RegisterValue(src: Heap, s: State, k: Addr, b: Addr, n: Node, globals: Addr)
    requires HeapOk(src) && Consistent(src, s) && Fresh(s, b)
    requires k in src && IsContainer(src[k]) && k !in s.values
    ensures var s' := State(s.objs[b := n], s.values[k := Ref(b)], s.envs, s.owner[b := k]);
            Consistent(src, s') && Grows(src, s, s') && NewComplete(src, s, s', globals, k)
  {
    var s' := State(s.objs[b := n], s.values[k := Ref(b)], s.envs, s.owner[b := k]);
    assert ValueVisited(src, s', k);
    ConsistentGrows(src, s, s', 0);
    NothingVisited(src, s, s', globals, k);
  }

  lemma RegisterEnv(src: Heap, s: State, k: Addr, b: Addr, n: Node, globals: Addr)
    requires HeapOk(src) && Consistent(src, s) && Fresh(s, b)
    requires k in src && src[k].EnvNode? && k !in s.envs
    ensures var s' := State(s.objs[b := n], s.values, s.envs[k := b], s.owner[b := k]);
            Consistent(src, s') && Grows(src, s, s') && NewComplete(src, s, s', globals, k)
  {
    var s' := State(s.objs[b := n], s.values, s.envs[k := b], s.owner[b := k]);
    assert EnvVisited(src, s', k);
    ConsistentGrows(src, s, s', 0);
    NothingVisited(src, s, s', globals, k);
  }

  /** A clone of the closure `k`, whose environment has been copied. */
  lemma RegisterClone(src: Heap, s: State, k: Addr, b: Addr, env: Addr, globals: Addr)
    requires HeapOk(src) && Consistent(src, s) && Fresh(s, b)
    requires k in src && src[k].ClosureNode? && EnvCopy(s, src[k].closure, env)
    ensures var s' := State(s.objs[b := ClosureNode(src[k].code, env)], s.values[k := Ref(b)], s.envs, s.owner);
            && Consistent(src, s') && Grows(src, s, s') && NewComplete(src, s, s', globals, 0)
            && ValueCopy(src, s', Ref(k), Ref(b))
  {
    var s' := State(s.objs[b := ClosureNode(src[k].code, env)], s.values[k := Ref(b)], s.envs, s.owner);
    if src[k].closure != 0 { assert EnvVisited(src, s, src[k].closure); }
    assert ValueVisited(src, s', k);
    ConsistentGrows(src, s, s', 0);
    NothingVisited(src, s, s', globals, 0);
  }

  /** A callable that is shared. */
  lemma RegisterShared(src: Heap, s: State, k: Addr, globals: Addr)
    requires HeapOk(src) && Consistent(src, s)
    requires k in src && src[k].SharedNode? && src[k].isCallable
    ensures var s' := s.(values := s.values[k := Ref(k)]);
            && Consistent(src, s') && Grows(src, s, s') && NewComplete(src, s, s', globals, 0)
  {
    var s' := s.(values := s.values[k := Ref(k)]);
    assert ValueVisited(src, s', k);
    ConsistentGrows(src, s, s', 0);
    NothingVisited(src, s, s', globals, 0);
  }

  /** The copy under construction with one more slot. */
  function Append(n': Node, n: Node, i: nat, v: Value): Node
    requires WellShaped(n) && i < |Slots(n)|
  {
    match n'
    case MapNode(ks, vs) => if n.MapNode? then MapNode(ks + [n.keys[i]], vs + [v]) else n'
    case ArrayNode(es) => ArrayNode(es + [v])
    case InstanceNode(c, ns, fs) =>
      if n.InstanceNode? then InstanceNode(c, ns + [n.names[i]], fs + [v]) else n'
    case EnvNode(ns, bs, p) => if n.EnvNode? then EnvNode(ns + [n.vars[i]], bs + [v], p) else n'
    case _ => n'
  }

  lemma AppendCopied(src: Heap, s: State, globals: Addr, k: Addr, n': Node, i: nat, v: Value)
    requires k in src && NodeOk(src, src[k]) && i < |Slots(src[k])|
    requires CopiedTo(src, s, globals, k, n', i) && ValueCopy(src, s, Slots(src[k])[i], v)
    ensures CopiedTo(src, s, globals, k, Append(n', src[k], i, v), i + 1)
  {
    var n := src[k];
    assert Slots(Append(n', n, i, v)) == Slots(n') + [v];
    match n
    case MapNode(ks, _) => assert ks[..i + 1] == ks[..i] + [ks[i]];
    case ArrayNode(_) =>
    case InstanceNode(_, ns, _) => assert ns[..i + 1] == ns[..i] + [ns[i]];
    case EnvNode(ns, _, _) => assert ns[..i + 1] == ns[..i] + [ns[i]];
    case ClosureNode(_, _) =>
    case SharedNode(_, _) =>
  }

  /** `b` has just been registered as the copy of `k`. */
  ghost predicate Started(src: Heap, s0: State, s1: State, globals: Addr, k: Addr, b: Addr)
    requires HeapOk(src)
  {
    && Fresh(s0, b) && Grows(src, s0, s1) && NewComplete(src, s0, s1, globals, k)
    && b in s1.objs && b in s1.owner && s1.owner[b] == k
    && k in src && IsImage(src, s1, k, b) && Visited(src, s1, k)
  }

  lemma EnvStarted(src: Heap, s: State, k: Addr, b: Addr, n: Node, globals: Addr)
    requires HeapOk(src) && Consistent(src, s) && Fresh(s, b)
    requires k in src && src[k].EnvNode? && k !in s.envs
    ensures var s' := State(s.objs[b := n], s.values, s.envs[k := b], s.owner[b := k]);
            Consistent(src, s') && Started(src, s, s', globals, k, b)
    ensures k !in s.values
  {
    var s' := State(s.objs[b := n], s.values, s.envs[k := b], s.owner[b := k]);
    RegisterEnv(src, s, k, b, n, globals);
    assert EnvVisited(src, s', k);
    KindsAreDisjoint(src, s);
  }

  /** Once its last slot is in, a registered copy is complete. */
  lemma FinishCopy(src: Heap, s0: State, s1: State, s2: State, k: Addr, b: Addr, globals: Addr)
    requires HeapOk(src) && Consistent(src, s1) && Consistent(src, s2)
    requires Started(src, s0, s1, globals, k, b)
    requires GrowsBut(src, s1, s2, b) && NewComplete(src, s1, s2, globals, 0)
    requires b in s2.objs && CopiedTo(src, s2, globals, k, s2.objs[b], |Slots(src[k])|)
    ensures Grows(src, s0, s2) && NewComplete(src, s0, s2, globals, 0)
    ensures IsImage(src, s2, k, b)
  {
    forall k' | k' in src && k' != 0 && !Visited(src, s0, k')
      ensures Complete(src, s2, globals, k')
    {
      if k' == k {
        forall c | IsImage(src, s2, k, c)
          ensures c == b
        {
          ImageStays(src, s1, s2, b, k, c);
          OneImage(src, s1, k, b, c);
        }
      } else if Visited(src, s1, k') {
        CompleteGrows(src, s1, s2, b, globals, k');
      }
    }
  }

  /** Values are visited through one map, environments through the other. */
  lemma KindsAreDisjoint(src: Heap, s: State)
    requires Consistent(src, s)
    ensures forall k | k in s.values :: k in src && !src[k].EnvNode?
    ensures forall k | k in s.envs :: k in src && src[k].EnvNode?
  {
    forall k | k in s.values
      ensures k in src && !src[k].EnvNode?
    {
      assert ValueVisited(src, s, k);
    }
    forall k | k in s.envs
      ensures k in src && src[k].EnvNode?
    {
      assert EnvVisited(src, s, k);
    }
  }

  lemma OneImage(src: Heap, s: State, k: Addr, b: Addr, c: Addr)
    requires Consistent(src, s) && IsImage(src, s, k, b) && IsImage(src, s, k, c)
    ensures b == c
  {
    if k in s.envs { assert EnvVisited(src, s, k); }
  }

  // ---------------------------------------------------------------------------
  // The copiers
  // ---------------------------------------------------------------------------

  class Copier {
    ghost const src: Heap                   // the caller's heap, as it was
    const globals: Addr               // the caller's global environment
    var objs: Heap
    var next: Addr                          // every address from here on is free
    var valueVisited: map<Addr, Value>
    var envVisited: map<Addr, Addr>
    ghost var owner: map<Addr, Addr>

    ghost function St(): State
      reads this
    {
      State(objs, valueVisited, envVisited, owner)
    }

    ghost predicate Valid()
      reads this
    {
      && HeapOk(src) && Consistent(src, St()) && globals in envVisited
      && next > 0 && forall a | a in objs :: a < next
    }

    ghost function Unvisited(): set<Addr>
      reads this
    {
      src.Keys - valueVisited.Keys - envVisited.Keys
    }

    /** Nothing is copied yet; the task's globals are empty. */
    ghost predicate Untouched()
      reads this
    {
      && globals in src && src[globals].EnvNode?
      && valueVisited == map[] && envVisited.Keys == {globals}
      && envVisited[globals] in objs && objs[envVisited[globals]] == EnvNode([], [], 0)
    }

    /** A new node at a free address. */
    method Alloc(n: Node) returns (b: Addr)
      requires next > 0 && forall a | a in objs :: a < next
      modifies this`objs, this`next
      ensures b != 0 && b !in old(objs) && objs == old(objs)[b := n]
      ensures next > 0 && forall a | a in objs :: a < next
    {
      b := next;
      objs := objs[b := n];
      next := next + 1;
    }

    method DeepCopy(v: Value) returns (r: Value)
      requires Valid() && ValueOk(src, v)
      modifies this
      ensures Valid() && Grows(src, old(St()), St())
      ensures NewComplete(src, old(St()), St(), globals, 0)
      ensures ValueCopy(src, St(), v, r)
      decreases Unvisited(), 2
    {
      if v.Scalar? { return v; }
      var k := v.target;
      assert objs[k] == src[k];
      match objs[k] {
        case MapNode(_, _) =>
          r := CopyContainer(k, MapNode([], []));
        case ArrayNode(_) =>
          r := CopyContainer(k, ArrayNode([]));
        case InstanceNode(c, _, _) =>
          r := CopyContainer(k, InstanceNode(c, [], []));
        case ClosureNode(_, _) =>
          r := CopyCallable(k);
        case SharedNode(isCallable, _) =>
          if isCallable {
            r := CopyCallable(k);
          } else {
            r := v;
          }
        case EnvNode(_, _, _) =>
          r := v;
      }
    }

    /** The map, array and instance arms: look up, register an empty copy, then fill it. */
    method CopyContainer(k: Addr, empty: Node) returns (r: Value)
      requires Valid() && k in src && IsContainer(src[k])
      requires CopiedTo(src, St(), globals, k, empty, 0)
      modifies this
      ensures Valid() && Grows(src, old(St()), St())
      ensures NewComplete(src, old(St()), St(), globals, 0)
      ensures k in valueVisited && valueVisited[k] == r
      decreases Unvisited(), 1
    {
      if k in valueVisited { return valueVisited[k]; }
      ghost var s0 := St();
      var b := StartContainer(k, empty);
      ghost var s1 := St();
      FillIn(k, b);
      FinishCopy(src, s0, s1, St(), k, b, globals);
      r := Ref(b);
    }

    /** An empty copy of `k`, registered before anything is copied into it. */
    method StartContainer(k: Addr, empty: Node) returns (b: Addr)
      requires Valid() && k in src && IsContainer(src[k]) && k !in valueVisited
      requires CopiedTo(src, St(), globals, k, empty, 0)
      modifies this
      ensures Valid() && Started(src, old(St()), St(), globals, k, b)
      ensures CopiedTo(src, St(), globals, k, objs[b], 0)
      ensures Unvisited() < old(Unvisited())
      ensures k in valueVisited && valueVisited[k] == Ref(b)
    {
      ghost var s0 := St();
      b := Alloc(empty);
      valueVisited := valueVisited[k := Ref(b)];
      owner := owner[b := k];
      RegisterValue(src, s0, k, b, empty, globals);
      CopiedGrows(src, s0, St(), 0, globals, k, empty, 0);
      KindsAreDisjoint(src, s0);
      assert k in old(Unvisited());
    }

    /** Copies the slots of `k` one by one into its registered copy `b`. */
    method FillIn(k: Addr, b: Addr)
      requires Valid() && k in src && b in owner && owner[b] == k && Visited(src, St(), k)
      requires CopiedTo(src, St(), globals, k, objs[b], 0)
      modifies this
      ensures Valid() && GrowsBut(src, old(St()), St(), b)
      ensures NewComplete(src, old(St()), St(), globals, 0)
      ensures b in objs && CopiedTo(src, St(), globals, k, objs[b], |Slots(src[k])|)
      decreases Unvisited(), 4
    {
      ghost var s0 := St();
      var from := objs[k];
      for i := 0 to |Slots(from)|
        invariant Valid() && GrowsBut(src, s0, St(), b)
        invariant NewComplete(src, s0, St(), globals, 0)
        invariant b in objs && CopiedTo(src, St(), globals, k, objs[b], i)
        invariant Unvisited() <= old(Unvisited())
      {
        ghost var s1 := St();
        FillSlot(k, b, from, i);
        GrowsTransitive(src, s0, s1, St(), b);
        NewCompleteTransitive(src, s0, s1, St(), b, globals);
      }
    }

    method FillSlot(k: Addr, b: Addr, from: Node, i: nat)
      requires Valid() && k in src && b in owner && owner[b] == k && Visited(src, St(), k)
      requires from == src[k] && i < |Slots(from)|
      requires CopiedTo(src, St(), globals, k, objs[b], i)
      modifies this
      ensures Valid() && GrowsBut(src, old(St()), St(), b)
      ensures NewComplete(src, old(St()), St(), globals, 0)
      ensures b in objs && CopiedTo(src, St(), globals, k, objs[b], i + 1)
      ensures Unvisited() <= old(Unvisited())
      decreases Unvisited(), 3
    {
      ghost var s0 := St();
      assert NodeOk(src, src[k]);
      var v := DeepCopy(Slots(from)[i]);
      ghost var s1 := St();
      CopiedGrows(src, s0, s1, 0, globals, k, objs[b], i);
      AppendCopied(src, s1, globals, k, objs[b], i, v);
      Put(b, Append(objs[b], from, i, v));
      CopiedGrows(src, s1, St(), b, globals, k, objs[b], i + 1);
      GrowsTransitive(src, s0, s1, St(), b);
      NewCompleteTransitive(src, s0, s1, St(), b, globals);
    }

    /** A write to a registered copy. */
    method Put(b: Addr, n: Node)
      requires Valid() && b in owner
      modifies this`objs
      ensures Valid() && St() == Write(old(St()), b, n)
      ensures GrowsBut(src, old(St()), St(), b) && NewComplete(src, old(St()), St(), globals, 0)
    {
      WriteKeeps(src, St(), b, n, globals);
      objs := objs[b := n];
    }

    /** The callable arm with cloneCallable. The clone is made after its environment is
        copied, so a closure met again on the way is cloned again. */
    method CopyCallable(k: Addr) returns (r: Value)
      requires Valid() && k in src && IsCallable(src[k])
      modifies this
      ensures Valid() && Grows(src, old(St()), St())
      ensures NewComplete(src, old(St()), St(), globals, 0)
      ensures ValueCopy(src, St(), Ref(k), r)
      decreases Unvisited(), 1
    {
      if k in valueVisited {
        assert ValueVisited(src, St(), k);
        return valueVisited[k];
      }
      if objs[k].ClosureNode? {
        ghost var s0 := St();
        assert NodeOk(src, src[k]);
        var env := CopyEnv(objs[k].closure);
        ghost var s1 := St();
        var b := Alloc(ClosureNode(objs[k].code, env));
        valueVisited := valueVisited[k := Ref(b)];
        RegisterClone(src, s1, k, b, env, globals);
        GrowsTransitive(src, s0, s1, St(), 0);
        NewCompleteTransitive(src, s0, s1, St(), 0, globals);
        r := Ref(b);
      } else {
        RegisterShared(src, St(), k, globals);
        valueVisited := valueVisited[k := Ref(k)];
        r := Ref(k);
      }
    }

    method CopyEnv(e: Addr) returns (r: Addr)
      requires Valid() && EnvOk(src, e)
      modifies this
      ensures Valid() && Grows(src, old(St()), St())
      ensures NewComplete(src, old(St()), St(), globals, 0)
      ensures EnvCopy(St(), e, r)
      decreases Unvisited(), 0
    {
      if e == 0 { return 0; }
      if e in envVisited { return envVisited[e]; }
      ghost var s0 := St();
      var b := StartEnv(e);
      ghost var s1 := St();
      CopyParent(e, b);
      FillEnv(s1, e, b);
      FinishCopy(src, s0, s1, St(), e, b, globals);
      r := b;
    }

    method StartEnv(e: Addr) returns (b: Addr)
      requires Valid() && e in src && src[e].EnvNode? && e !in envVisited
      modifies this
      ensures Valid() && Started(src, old(St()), St(), globals, e, b)
      ensures e in envVisited && envVisited[e] == b
      ensures Unvisited() < old(Unvisited())
    {
      ghost var s0 := St();
      b := Alloc(EnvNode([], [], 0));
      envVisited := envVisited[e := b];
      owner := owner[b := e];
      ghost var s1 := State(s0.objs[b := EnvNode([], [], 0)], s0.values, s0.envs[e := b], s0.owner[b := e]);
      EnvStarted(src, s0, e, b, EnvNode([], [], 0), globals);
      assert St() == s1;
      assert e in old(Unvisited());
    }

    /** fresh->parent = copyEnv(src->parent). */
    method CopyParent(e: Addr, b: Addr)
      requires Valid() && e in src && src[e].EnvNode? && e != globals
      requires e in envVisited && envVisited[e] == b && b in owner && owner[b] == e
      modifies this
      ensures Valid() && GrowsBut(src, old(St()), St(), b)
      ensures NewComplete(src, old(St()), St(), globals, 0)
      ensures b in objs && CopiedTo(src, St(), globals, e, objs[b], 0)
      ensures Unvisited() <= old(Unvisited())
      decreases Unvisited(), 3
    {
      ghost var s0 := St();
      assert NodeOk(src, src[e]);
      var p := CopyEnv(objs[e].parent);
      ghost var s1 := St();
      Put(b, EnvNode([], [], p));
      GrowsTransitive(src, s0, s1, St(), b);
      NewCompleteTransitive(src, s0, s1, St(), b, globals);
    }

    method FillEnv(ghost s0: State, e: Addr, b: Addr)
      requires Valid() && e in src && b in owner && owner[b] == e
      requires CopiedTo(src, St(), globals, e, objs[b], 0)
      requires GrowsBut(src, s0, St(), b) && NewComplete(src, s0, St(), globals, 0)
      requires b in s0.owner && s0.owner[b] == e && Visited(src, s0, e)
      modifies this
      ensures Valid() && GrowsBut(src, s0, St(), b)
      ensures NewComplete(src, s0, St(), globals, 0)
      ensures b in objs && CopiedTo(src, St(), globals, e, objs[b], |Slots(src[e])|)
      decreases Unvisited(), 5
    {
      ghost var s1 := St();
      FillIn(e, b);
      GrowsTransitive(src, s0, s1, St(), b);
      NewCompleteTransitive(src, s0, s1, St(), b, globals);
    }

    /** A task's copiers: its own global environment stands for the caller's from the start. */
    constructor (heap: Heap, free: Addr, callerGlobals: Addr)
      requires HeapOk(heap) && callerGlobals in heap && heap[callerGlobals].EnvNode?
      requires free > 0 && forall a | a in heap :: a < free
      ensures Valid() && src == heap && globals == callerGlobals
      ensures Untouched() && envVisited[globals] == free
    {
      src, globals := heap, callerGlobals;
      objs := heap[free := EnvNode([], [], 0)];
      next := free + 1;
      valueVisited := map[];
      envVisited := map[callerGlobals := free];
      owner := map[free := callerGlobals];
      new;
      assert EnvVisited(src, St(), globals);
    }

    /** The whole copy: the globals, the callable, then the arguments. */
    method CopyCall(callable: Value, args: seq<Value>)
      returns (taskGlobals: Addr, callee: Value, taskArgs: seq<Value>)
      requires Valid() && Untouched()
      requires ValueOk(src, callable) && forall a | a in args :: ValueOk(src, a)
      modifies this
      ensures Valid() && EverythingCopied(src, St(), globals)
      ensures envVisited[globals] == taskGlobals
      ensures ValueCopy(src, St(), callable, callee)
      ensures AllCopied(src, St(), args, taskArgs)
    {
      taskGlobals := envVisited[globals];
      CopyGlobals(taskGlobals);
      callee := CopyOne(callable);
      ghost var s0 := St();
      taskArgs := CopyArgs(args);
      ValueCopyGrows(src, s0, St(), 0, callable, callee);
    }

    method CopyArgs(args: seq<Value>) returns (taskArgs: seq<Value>)
      requires Valid() && EverythingCopied(src, St(), globals)
      requires forall a | a in args :: ValueOk(src, a)
      modifies this
      ensures Valid() && EverythingCopied(src, St(), globals)
      ensures Grows(src, old(St()), St())
      ensures AllCopied(src, St(), args, taskArgs)
    {
      taskArgs := [];
      ghost var s0 := St();
      for i := 0 to |args|
        invariant Valid() && EverythingCopied(src, St(), globals)
        invariant Grows(src, s0, St())
        invariant AllCopied(src, St(), args[..i], taskArgs)
      {
        ghost var s1 := St();
        taskArgs := CopyNext(args[i], args[..i], taskArgs);
        GrowsTransitive(src, s0, s1, St(), 0);
        assert args[..i + 1] == args[..i] + [args[i]];
      }
      assert args[..|args|] == args;
    }

    method CopyNext(arg: Value, ghost done: seq<Value>, copies: seq<Value>) returns (copies': seq<Value>)
      requires Valid() && EverythingCopied(src, St(), globals) && ValueOk(src, arg)
      requires AllCopied(src, St(), done, copies)
      modifies this
      ensures Valid() && EverythingCopied(src, St(), globals)
      ensures Grows(src, old(St()), St())
      ensures AllCopied(src, St(), done + [arg], copies')
    {
      ghost var s0 := St();
      var a := CopyOne(arg);
      CopiesStay(src, s0, St(), done, copies);
      copies' := copies + [a];
    }

    method CopyGlobals(b: Addr)
      requires Valid() && Untouched() && b == envVisited[globals]
      modifies this
      ensures Valid() && EverythingCopied(src, St(), globals)
      ensures envVisited[globals] == b
    {
      ghost var s0 := St();
      assert EnvVisited(src, s0, globals);
      assert s0.envs == map[globals := b];
      FillIn(globals, b);
      GlobalsComplete(src, s0, St(), globals, b);
    }

    method CopyOne(v: Value) returns (r: Value)
      requires Valid() && EverythingCopied(src, St(), globals) && ValueOk(src, v)
      modifies this
      ensures Valid() && EverythingCopied(src, St(), globals)
      ensures Grows(src, old(St()), St()) && ValueCopy(src, St(), v, r)
    {
      ghost var s0 := St();
      r := DeepCopy(v);
      forall k | k in src
        ensures Complete(src, St(), globals, k)
      {
        if Visited(src, s0, k) { CompleteGrows(src, s0, St(), 0, globals, k); }
      }
    }
  }

  ghost predicate AllCopied(src: Heap, s: State, vs: seq<Value>, vs': seq<Value>) {
    |vs| == |vs'| && forall i | 0 <= i < |vs| :: ValueOk(src, vs[i]) && ValueCopy(src, s, vs[i], vs'[i])
  }

  lemma CopiesStay(src: Heap, s: State, s': State, vs: seq<Value>, vs': seq<Value>)
    requires Consistent(src, s) && Grows(src, s, s') && AllCopied(src, s, vs, vs')
    ensures AllCopied(src, s', vs, vs')
  {
    forall i | 0 <= i < |vs|
      ensures ValueCopy(src, s', vs[i], vs'[i])
    {
      ValueCopyGrows(src, s, s', 0, vs[i], vs'[i]);
    }
  }

  /** When the globals are filled first, everything visited is complete. */
  lemma GlobalsComplete(src: Heap, s0: State, s: State, globals: Addr, b: Addr)
    requires HeapOk(src) && Consistent(src, s) && GrowsBut(src, s0, s, b)
    requires s0.values == map[] && s0.envs == map[globals := b] && globals in src
    requires NewComplete(src, s0, s, globals, 0)
    requires b in s.objs && CopiedTo(src, s, globals, globals, s.objs[b], |Slots(src[globals])|)
    ensures EverythingCopied(src, s, globals)
  {
    forall k | k in src
      ensures Complete(src, s, globals, k)
    {
      if k == globals {
        forall c | IsImage(src, s, k, c)
          ensures c == b
        {
          ImageStays(src, s0, s, b, k, c);
        }
      }
    }
  }

  // ---------------------------------------------------------------------------
  // What the finished copy guarantees
  // ---------------------------------------------------------------------------

  /** Every caller node that was visited is completely copied: no copy is left half-filled. */
  ghost predicate EverythingCopied(src: Heap, s: State, globals: Addr)
    requires HeapOk(src)
  {
    forall k {:trigger Complete(src, s, globals, k)} | k in src :: Complete(src, s, globals, k)
  }

  /** Aliasing is preserved both ways: two references to caller containers are the same
      object exactly when their copies are. */
  lemma AliasingPreserved(src: Heap, s: State, v: Value, v': Value, w: Value, w': Value)
    requires HeapOk(src) && Consistent(src, s)
    requires ValueOk(src, v) && v.Ref? && IsContainer(src[v.target]) && ValueCopy(src, s, v, v')
    requires ValueOk(src, w) && w.Ref? && IsContainer(src[w.target]) && ValueCopy(src, s, w, w')
    ensures v == w <==> v' == w'
  {
    assert ValueVisited(src, s, v.target) && ValueVisited(src, s, w.target);
  }

  /** Every pointer a node holds. */
  function Pointers(n: Node): seq<Value> {
    match n
    case MapNode(ks, vs) => ks + vs
    case ArrayNode(es) => es
    case InstanceNode(c, _, fs) => [Ref(c)] + fs
    case EnvNode(_, bs, p) => bs + [Ref(p)]
    case ClosureNode(_, c) => [Ref(c)]
    case SharedNode(_, rs) => rs
  }

  /** A path through the heap that passes through no node the task shares with its caller. */
  ghost predicate TaskPath(h: Heap, p: seq<Addr>) {
    && |p| > 0 && p[0] in h
    && (|p| > 1 ==>
          && TaskPath(h, p[..|p| - 1])
          && var a := p[|p| - 2];
             a in h && !h[a].SharedNode? && Ref(p[|p| - 1]) in Pointers(h[a]))
  }

  /** Where a new node can point: nowhere, to another new node, or to a shared node. */
  ghost predicate TaskTarget(src: Heap, s: State, b: Addr) {
    b == 0 || (b in s.objs && (b !in src || src[b].SharedNode?))
  }

  lemma CopyTarget(src: Heap, s: State, v: Value, v': Value)
    requires HeapOk(src) && Consistent(src, s) && ValueOk(src, v) && ValueCopy(src, s, v, v')
    ensures v'.Ref? ==> TaskTarget(src, s, v'.target)
  {
    if v.Ref? && IsContainer(src[v.target]) {
      assert ValueVisited(src, s, v.target);
    }
  }

  lemma EnvTarget(src: Heap, s: State, e: Addr, e': Addr)
    requires Consistent(src, s) && EnvCopy(s, e, e')
    ensures TaskTarget(src, s, e')
  {
    if e != 0 { assert EnvVisited(src, s, e); }
  }

  lemma NewNodePointers(src: Heap, s: State, globals: Addr, a: Addr, b: Addr)
    requires HeapOk(src) && Consistent(src, s) && EverythingCopied(src, s, globals)
    requires a in s.objs && a !in src && Ref(b) in Pointers(s.objs[a])
    ensures TaskTarget(src, s, b)
  {
    var n' := s.objs[a];
    if a !in s.owner {
      assert IsClone(s, n');
    } else {
      var k := s.owner[a];
      assert IsImage(src, s, k, a) && Complete(src, s, globals, k) && NodeOk(src, src[k]);
      assert CopiedTo(src, s, globals, k, n', |Slots(src[k])|);
      if Ref(b) in Slots(n') {
        var j :| 0 <= j < |Slots(n')| && Slots(n')[j] == Ref(b);
        CopyTarget(src, s, Slots(src[k])[j], Slots(n')[j]);
      } else {
        match src[k]
        case MapNode(ks, _) => assert n'.keys == ks;
        case ArrayNode(_) =>
        case InstanceNode(_, _, _) =>
        case EnvNode(_, _, p) => if k != globals { EnvTarget(src, s, p, n'.parent); }
        case ClosureNode(_, _) =>
        case SharedNode(_, _) =>
      }
    }
  }

  /** Isolation: from a node of the task, no path that avoids shared nodes leads back to a
      map, array, instance, environment or closure of the caller. */
  lemma {:induction false} TaskIsIsolated(src: Heap, s: State, globals: Addr, p: seq<Addr>)
    requires HeapOk(src) && Consistent(src, s) && EverythingCopied(src, s, globals)
    requires TaskPath(s.objs, p) && p[0] !in src
    ensures TaskTarget(src, s, p[|p| - 1])
    decreases |p|
  {
    if |p| > 1 {
      TaskIsIsolated(src, s, globals, p[..|p| - 1]);
      NewNodePointers(src, s, globals, p[|p| - 2], p[|p| - 1]);
    }
  }

  /** The same from the copy of any argument. */
  lemma ResultIsIsolated(src: Heap, s: State, globals: Addr, v: Value, v': Value, p: seq<Addr>)
    requires HeapOk(src) && Consistent(src, s) && EverythingCopied(src, s, globals)
    requires ValueOk(src, v) && ValueCopy(src, s, v, v') && v'.Ref?
    requires TaskPath(s.objs, p) && p[0] == v'.target
    ensures TaskTarget(src, s, p[|p| - 1])
    ensures p[0] !in src || src[p[0]].SharedNode?
  {
    CopyTarget(src, s, v, v');
    if p[0] !in src {
      TaskIsIsolated(src, s, globals, p);
    } else {
      SharedStops(s.objs, p);
    }
  }

  lemma {:induction false} SharedStops(h: Heap, p: seq<Addr>)
    requires TaskPath(h, p) && h[p[0]].SharedNode?
    ensures |p| == 1
    decreases |p|
  {
    if |p| > 1 {
      SharedStops(h, p[..|p| - 1]);
    }
  }

  // ---------------------------------------------------------------------------
  // What the task reads
  // ---------------------------------------------------------------------------

  /** A step of reading: a map entry, an array element, a field or the class of an instance,
      a variable or the parent of an environment, the environment of a closure. */
  datatype Access =
    | Key(k: Value) | Index(i: nat) | FieldOf(name: string) | ClassOf | Variable(name: string) | Parent | Closed

  function Position<T(==)>(xs: seq<T>, x: T): nat {
    if xs == [] || xs[0] == x then 0 else 1 + Position(xs[1..], x)
  }

  function Entry<T(==)>(names: seq<T>, vals: seq<Value>, name: T): Option<Value> {
    var i := Position(names, name);
    if i < |names| && i < |vals| then Some(vals[i]) else None
  }

  /** Reading one step into a value; shared objects are not looked into. */
  function Read(h: Heap, v: Value, a: Access): Option<Value> {
    if v.Scalar? || v.target !in h then None
    else
      match h[v.target]
      case MapNode(ks, vs) => if a.Key? then Entry(ks, vs, a.k) else None
      case ArrayNode(es) => if a.Index? && a.i < |es| then Some(es[a.i]) else None
      case InstanceNode(c, ns, fs) =>
        if a.FieldOf? then Entry(ns, fs, a.name) else if a.ClassOf? then Some(Ref(c)) else None
      case EnvNode(ns, bs, p) =>
        if a.Variable? then Entry(ns, bs, a.name) else if a.Parent? then Some(Ref(p)) else None
      case ClosureNode(_, e) => if a.Closed? then Some(Ref(e)) else None
      case SharedNode(_, _) => None
  }

  function ReadPath(h: Heap, v: Value, path: seq<Access>): Option<Value>
    decreases |path|
  {
    if path == [] then Some(v)
    else
      var w := Read(h, v, path[0]);
      if w.None? then None else ReadPath(h, w.value, path[1..])
  }

  /** `v'` is what the task has in place of `v`, environments included. */
  ghost predicate Counterpart(src: Heap, s: State, v: Value, v': Value) {
    if v == Ref(0) then v' == v
    else if v.Ref? && v.target in src && src[v.target].EnvNode? then v'.Ref? && EnvCopy(s, v.target, v'.target)
    else ValueOk(src, v) && ValueCopy(src, s, v, v')
  }

  lemma EnvCounterpart(src: Heap, s: State, e: Addr, e': Addr)
    requires EnvOk(src, e) && EnvCopy(s, e, e')
    ensures Counterpart(src, s, Ref(e), Ref(e'))
  {
  }

  lemma SlotCounterpart(src: Heap, s: State, v: Value, v': Value)
    requires HeapOk(src) && ValueOk(src, v) && ValueCopy(src, s, v, v')
    ensures Counterpart(src, s, v, v')
  {
  }

  /** The copy of a container or environment, field by field. */
  ghost predicate Mirrors(src: Heap, s: State, n: Node, n': Node, isGlobals: bool) {
    match n
    case MapNode(ks, vs) => n'.MapNode? && n'.keys == ks && AllCounterparts(src, s, vs, n'.vals)
    case ArrayNode(es) => n'.ArrayNode? && AllCounterparts(src, s, es, n'.elems)
    case InstanceNode(c, ns, fs) =>
      n'.InstanceNode? && n'.klass == c && n'.names == ns && AllCounterparts(src, s, fs, n'.fields)
    case EnvNode(ns, bs, p) =>
      && n'.EnvNode? && n'.vars == ns && AllCounterparts(src, s, bs, n'.bound)
      && if isGlobals then n'.parent == 0 else Counterpart(src, s, Ref(p), Ref(n'.parent))
    case _ => false
  }

  ghost predicate AllCounterparts(src: Heap, s: State, vs: seq<Value>, vs': seq<Value>) {
    |vs| == |vs'| && forall i | 0 <= i < |vs| :: Counterpart(src, s, vs[i], vs'[i])
  }

  lemma ImageMirrors(src: Heap, s: State, globals: Addr, k: Addr, c: Addr)
    requires HeapOk(src) && Consistent(src, s) && EverythingCopied(src, s, globals)
    requires k in src && IsImage(src, s, k, c)
    ensures c in s.objs && Mirrors(src, s, src[k], s.objs[c], k == globals)
  {
    assert Complete(src, s, globals, k) && NodeOk(src, src[k]);
    var n, n' := src[k], s.objs[c];
    assert CopiedTo(src, s, globals, k, n', |Slots(n)|);
    forall j | 0 <= j < |Slots(n)|
      ensures Counterpart(src, s, Slots(n)[j], Slots(n')[j])
    {
      SlotCounterpart(src, s, Slots(n)[j], Slots(n')[j]);
    }
    if n.EnvNode? && k != globals { EnvCounterpart(src, s, n.parent, n'.parent); }
  }

  lemma EntriesMirror<T>(src: Heap, s: State, names: seq<T>, vs: seq<Value>, vs': seq<Value>, name: T)
    requires AllCounterparts(src, s, vs, vs')
    ensures SameRead(src, s, Entry(names, vs, name), Entry(names, vs', name))
  {
  }

  ghost predicate SameRead(src: Heap, s: State, w: Option<Value>, w': Option<Value>) {
    if w.None? then w'.None? else w'.Some? && Counterpart(src, s, w.value, w'.value)
  }

  lemma MirrorsReadTheSame(src: Heap, s: State, globals: Addr, v: Value, v': Value, a: Access)
    requires v.Ref? && v.target in src && v'.Ref? && v'.target in s.objs
    requires HeapOk(src) && NodeOk(src, src[v.target])
    requires Mirrors(src, s, src[v.target], s.objs[v'.target], v.target == globals)
    requires v.target == globals ==> src[globals].EnvNode? && src[globals].parent == 0
    ensures SameRead(src, s, Read(src, v, a), Read(s.objs, v', a))
  {
    match src[v.target]
    case MapNode(ks, vs) => if a.Key? { EntriesMirror(src, s, ks, vs, s.objs[v'.target].vals, a.k); }
    case ArrayNode(es) =>
    case InstanceNode(c, ns, fs) =>
      if a.FieldOf? { EntriesMirror(src, s, ns, fs, s.objs[v'.target].fields, a.name); }
    case EnvNode(ns, bs, p) =>
      if a.Variable? { EntriesMirror(src, s, ns, bs, s.objs[v'.target].bound, a.name); }
    case ClosureNode(_, _) =>
    case SharedNode(_, _) =>
  }

  /** One step read from counterparts gives counterparts, or nothing on both sides. */
  lemma StepReadsTheSame(src: Heap, s: State, globals: Addr, v: Value, v': Value, a: Access)
    requires HeapOk(src) && Consistent(src, s) && EverythingCopied(src, s, globals)
    requires globals in src && src[globals].EnvNode? && src[globals].parent == 0
    requires Counterpart(src, s, v, v')
    ensures SameRead(src, s, Read(src, v, a), Read(s.objs, v', a))
  {
    if v.Ref? && v != Ref(0) {
      var n := src[v.target];
      assert NodeOk(src, n);
      if n.EnvNode? {
        ImageMirrors(src, s, globals, v.target, v'.target);
        MirrorsReadTheSame(src, s, globals, v, v', a);
      } else if IsContainer(n) {
        assert ValueVisited(src, s, v.target);
        ImageMirrors(src, s, globals, v.target, v'.target);
        MirrorsReadTheSame(src, s, globals, v, v', a);
      } else if n.ClosureNode? {
        EnvCounterpart(src, s, n.closure, s.objs[v'.target].closure);
      }
    }
  }

  /** Whatever a program reads from the caller's value, it reads from the task's value by
      the same path: the same scalar, the same shared object, the same function, or nothing. */
  lemma {:induction false} TaskReadsTheSame(src: Heap, s: State, globals: Addr, v: Value, v': Value, path: seq<Access>)
    requires HeapOk(src) && Consistent(src, s) && EverythingCopied(src, s, globals)
    requires globals in src && src[globals].EnvNode? && src[globals].parent == 0
    requires Counterpart(src, s, v, v')
    ensures SameRead(src, s, ReadPath(src, v, path), ReadPath(s.objs, v', path))
    decreases |path|
  {
    if path != [] {
      StepReadsTheSame(src, s, globals, v, v', path[0]);
      var w, w' := Read(src, v, path[0]), Read(s.objs, v', path[0]);
      if w.Some? { TaskReadsTheSame(src, s, globals, w.value, w'.value, path[1..]); }
    }
  }

  /** What that says of the values read at the end. */
  lemma SameScalarsAndCode(src: Heap, s: State, w: Value, w': Value)
    requires HeapOk(src) && Consistent(src, s) && Counterpart(src, s, w, w')
    ensures w.Scalar? ==> w' == w
    ensures w.Ref? && w.target in src && src[w.target].SharedNode? ==> w' == w
    ensures w.Ref? && w.target in src && src[w.target].ClosureNode? ==>
              w'.Ref? && w'.target in s.objs && w'.target !in src && s.objs[w'.target].ClosureNode?
              && s.objs[w'.target].code == src[w.target].code
    ensures w.Ref? && w.target in src && (IsContainer(src[w.target]) || src[w.target].EnvNode?) ==>
              w'.Ref? && w'.target in s.objs && w'.target !in src
  {
    if w.Ref? && w != Ref(0) {
      if src[w.target].EnvNode? {
        assert EnvVisited(src, s, w.target);
      } else if IsContainer(src[w.target]) {
        assert ValueVisited(src, s, w.target);
      }
    }
  }

  /** And by no path does the task get at a map, array, instance, environment or closure of
      the caller. */
  lemma TaskReadsItsOwn(src: Heap, s: State, globals: Addr, v: Value, v': Value, path: seq<Access>, b: Addr)
    requires HeapOk(src) && Consistent(src, s) && EverythingCopied(src, s, globals)
    requires globals in src && src[globals].EnvNode? && src[globals].parent == 0
    requires Counterpart(src, s, v, v') && ReadPath(s.objs, v', path) == Some(Ref(b))
    ensures b == 0 || b !in src || src[b].SharedNode?
  {
    TaskReadsTheSame(src, s, globals, v, v', path);
    var w := ReadPath(src, v, path).value;
    SameScalarsAndCode(src, s, w, Ref(b));
  }
}
