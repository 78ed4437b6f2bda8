/** Calls with named arguments (src/interpreter.cpp, `reorderNamedArgs`, `callWithContext`
    and the call site; src/interpreter_callables.cpp, `callBody`). */
module NamedArgs {
  import opened Wrappers
  import opened Arithmetic

  datatype Value = Nil | Datum(id: int) | Array(elements: seq<Value>)

  // ---------------------------------------------------------------------------
  // The 64-bit mask of provided positions
  // ---------------------------------------------------------------------------

  type Mask = nat

  /** (m >> i) & 1 */
  predicate Bit(m: Mask, i: nat) {
    if i == 0 then m % 2 == 1 else Bit(m / 2, i - 1)
  }

  /** m | (1 << i) */
  function SetBit(m: Mask, i: nat): Mask {
    if i == 0 then m / 2 * 2 + 1 else SetBit(m / 2, i - 1) * 2 + m % 2
  }

  /** ~0ULL */
  const ALL_ONES: Mask := 0xFFFF_FFFF_FFFF_FFFF

  lemma {:induction false} BitOfSet(m: Mask, i: nat, k: nat)
    ensures Bit(SetBit(m, i), k) <==> k == i || Bit(m, k)
  {
    if i > 0 && k > 0 {
      assert SetBit(m, i) / 2 == SetBit(m / 2, i - 1);
      BitOfSet(m / 2, i - 1, k - 1);
    } else if k > 0 {
      assert SetBit(m, i) / 2 == m / 2;
    }
  }

  lemma {:induction false} NoBits(k: nat)
    ensures !Bit(0, k)
  {
    if k > 0 { NoBits(k - 1); }
  }

  lemma {:induction false} BitsOfOnes(n: nat, k: nat)
    requires k < n
    ensures Pow2(n) >= 1 && Bit(Pow2(n) - 1, k)
    decreases k
  {
    assert (Pow2(n) - 1) / 2 == Pow2(n - 1) - 1;
    if k > 0 { BitsOfOnes(n - 1, k - 1); }
  }

  lemma AllBitsSet(k: nat)
    requires k < 64
    ensures Bit(ALL_ONES, k)
  {
    assert Pow2(8) == 0x100;
    PowSum(8, 8);
    PowSum(16, 16);
    PowSum(32, 32);
    assert Pow2(64) == 0x1_0000_0000 * 0x1_0000_0000;
    BitsOfOnes(64, k);
  }

  // ---------------------------------------------------------------------------
  // Where each argument goes
  // ---------------------------------------------------------------------------

  datatype CallError = Unsupported | TooManyArguments | UnknownParameter(name: string)
                     | SpecifiedTwice(name: string) | WrongCount

  datatype Result<T> = Ok(value: T) | Fail(error: CallError)

  /** The first parameter of that name, at index `from` or later. */
  function IndexFrom(params: seq<string>, name: string, from: nat): (r: Option<nat>)
    requires from <= |params|
    ensures r.Some? ==> from <= r.value < |params| && params[r.value] == name
    ensures r.None? ==> name !in params[from..]
    decreases |params| - from
  {
    if from == |params| then None
    else if params[from] == name then Some(from)
    else
      assert params[from..] == [params[from]] + params[from + 1..];
      IndexFrom(params, name, from + 1)
  }

  function Index(params: seq<string>, name: string): Option<nat> {
    IndexFrom(params, name, 0)
  }

  /** The first position at or after `p` not among `slots`, at most `n`. */
  ghost function NextFree(slots: seq<nat>, p: nat, n: nat): (r: nat)
    requires p <= n
    ensures p <= r <= n && (r < n ==> r !in slots) && forall x | p <= x < r :: x in slots
    decreases n - p
  {
    if p < n && p in slots then NextFree(slots, p + 1, n) else p
  }

  /** Where the next argument goes: a named one to the parameter of that name, a positional
      one to the first position not taken. */
  ghost function SlotFor(params: seq<string>, slots: seq<nat>, name: string): Result<nat> {
    if name == "" then
      var s := NextFree(slots, 0, |params|);
      if s < |params| then Ok(s) else Fail(TooManyArguments)
    else
      var p := Index(params, name);
      if p.None? then Fail(UnknownParameter(name))
      else if p.value in slots then Fail(SpecifiedTwice(name))
      else Ok(p.value)
  }

  /** The positions of the arguments, in order, or the first error; an empty name marks a
      positional argument. */
  ghost function Slots(params: seq<string>, names: seq<string>): Result<seq<nat>> {
    if names == [] then Ok([])
    else
      var before := Slots(params, names[..|names| - 1]);
      if before.Fail? then before
      else
        var s := SlotFor(params, before.value, names[|names| - 1]);
        if s.Fail? then Fail(s.error) else Ok(before.value + [s.value])
  }

  lemma {:induction false} SlotsAreWithin(params: seq<string>, names: seq<string>)
    requires Slots(params, names).Ok?
    ensures var slots := Slots(params, names).value;
            && |slots| == |names|
            && (forall i | 0 <= i < |slots| :: slots[i] < |params|)
            && (forall i, j | 0 <= i < j < |slots| :: slots[i] != slots[j])
  {
    if names != [] { SlotsAreWithin(params, names[..|names| - 1]); }
  }

  /** A failing argument fails the call, whatever comes after it. */
  lemma {:induction false} FirstErrorWins(params: seq<string>, names: seq<string>, i: nat)
    requires i <= |names| && Slots(params, names[..i]).Fail?
    ensures Slots(params, names) == Slots(params, names[..i])
    decreases |names|
  {
    if i == |names| {
      assert names[..i] == names;
    } else {
      assert names[..|names| - 1][..i] == names[..i];
      FirstErrorWins(params, names[..|names| - 1], i);
    }
  }

  lemma SlotsNext(params: seq<string>, names: seq<string>, i: nat)
    requires i < |names| && Slots(params, names[..i]).Ok?
    ensures var slots := Slots(params, names[..i]).value;
            Slots(params, names[..i + 1]) ==
            match SlotFor(params, slots, names[i])
            case Fail(e) => Fail(e)
            case Ok(s) => Ok(slots + [s])
  {
    assert names[..i + 1][..i] == names[..i];
  }

  lemma {:induction false} NextFreeFrom(slots: seq<nat>, p: nat, q: nat, n: nat)
    requires p <= q <= n && forall x | p <= x < q :: x in slots
    ensures NextFree(slots, p, n) == NextFree(slots, q, n)
    decreases q - p
  {
    if p < q { NextFreeFrom(slots, p + 1, q, n); }
  }

  // ---------------------------------------------------------------------------
  // reorderNamedArgs
  // ---------------------------------------------------------------------------

  /** The argument that went to position `p`. */
  ghost function ArgAt(slots: seq<nat>, args: seq<Value>, p: nat): (r: Option<Value>)
    requires |slots| <= |args|
    ensures r.Some? <==> p in slots
  {
    if slots == [] then None
    else
      var k := |slots| - 1;
      assert slots == slots[..k] + [slots[k]];
      if slots[k] == p then Some(args[k]) else ArgAt(slots[..k], args, p)
  }

  function OrNil(v: Option<Value>): Value {
    if v.Some? then v.value else Nil
  }

  /** The arguments in parameter order, nil where there is none. */
  ghost predicate Ordered(slots: seq<nat>, args: seq<Value>, n: nat, result: seq<Value>) {
    && |slots| <= |args| && |result| == n
    && forall p | 0 <= p < n :: result[p] == OrNil(ArgAt(slots, args, p))
  }

  /** When no position is taken twice, each argument is found at its own. */
  lemma {:induction false} ArgAtItsSlot(slots: seq<nat>, args: seq<Value>, i: nat)
    requires i < |slots| <= |args|
    requires forall i, j | 0 <= i < j < |slots| :: slots[i] != slots[j]
    ensures ArgAt(slots, args, slots[i]) == Some(args[i])
    decreases |slots|
  {
    var k := |slots| - 1;
    if i < k { ArgAtItsSlot(slots[..k], args, i); }
  }

  /** The mask of the positions taken, of the first 64. */
  ghost predicate MaskOf(slots: seq<nat>, n: nat, mask: Mask) {
    forall p: nat {:trigger Bit(mask, p)} :: Bit(mask, p) <==> p < n && p < 64 && p in slots
  }

  lemma OrderedNext(slots: seq<nat>, args: seq<Value>, n: nat, result: seq<Value>, s: nat)
    requires Ordered(slots, args, n, result) && |slots| < |args| && s < n
    ensures Ordered(slots + [s], args, n, result[s := args[|slots|]])
  {
    assert (slots + [s])[..|slots|] == slots;
  }

  ghost predicate Taken(slots: seq<nat>, filled: seq<bool>) {
    forall x: nat | x < |filled| :: filled[x] <==> x in slots
  }

  lemma TakenNext(slots: seq<nat>, filled: seq<bool>, s: nat)
    requires Taken(slots, filled) && s < |filled|
    ensures Taken(slots + [s], filled[s := true])
  {
    assert (slots + [s])[|slots|] == s;
  }

  /** The inner walk past filled positions. */
  method SkipFilled(filled: seq<bool>, from: nat, ghost slots: seq<nat>) returns (p: nat)
    requires from <= |filled|
    requires Taken(slots, filled)
    ensures p == NextFree(slots, from, |filled|)
  {
    p := from;
    while p < |filled| && filled[p]
      invariant from <= p <= |filled| && NextFree(slots, from, |filled|) == NextFree(slots, p, |filled|)
    {
      p := p + 1;
    }
  }

  /** The final loop over the filled flags. */
  method MaskFrom(filled: seq<bool>, ghost slots: seq<nat>) returns (m: Mask)
    requires Taken(slots, filled)
    ensures MaskOf(slots, |filled|, m)
  {
    m := 0;
    var n := if |filled| < 64 then |filled| else 64;
    forall p: nat ensures !Bit(0, p) { NoBits(p); }
    for p := 0 to n
      invariant forall q: nat {:trigger Bit(m, q)} :: Bit(m, q) <==> q < p && q in slots
    {
      if filled[p] {
        forall q: nat ensures Bit(SetBit(m, p), q) <==> q == p || Bit(m, q) { BitOfSet(m, p, q); }
        m := SetBit(m, p);
      }
    }
  }

  /** The search for a parameter by name. */
  method FindParam(params: seq<string>, name: string) returns (found: Option<nat>)
    ensures found == Index(params, name)
  {
    for p := 0 to |params|
      invariant Index(params, name) == IndexFrom(params, name, p)
    {
      if params[p] == name { return Some(p); }
    }
    found := None;
  }

  method ReorderNamedArgs(params: seq<string>, args: seq<Value>, names: seq<string>)
    returns (r: Result<(seq<Value>, Mask)>)
    requires |names| == |args|
    ensures var slots := Slots(params, names);
            && (slots.Fail? ==> r == Fail(slots.error))
            && (slots.Ok? ==> r.Ok? && Ordered(slots.value, args, |params|, r.value.0)
                              && MaskOf(slots.value, |params|, r.value.1))
  {
    var n := |params|;
    var result := seq(n, _ => Nil);
    var filled := seq(n, _ => false);
    var positionalIdx: nat := 0;
    ghost var slots: seq<nat> := [];
    for i := 0 to |args|
      invariant Slots(params, names[..i]) == Ok(slots) && |slots| == i
      invariant Ordered(slots, args, n, result)
      invariant |filled| == n && Taken(slots, filled)
      invariant positionalIdx <= n && forall x | 0 <= x < positionalIdx :: x in slots
    {
      SlotsNext(params, names, i);
      var slot;
      if names[i] == "" {
        NextFreeFrom(slots, 0, positionalIdx, n);
        positionalIdx := SkipFilled(filled, positionalIdx, slots);
        if positionalIdx >= n {
          FirstErrorWins(params, names, i + 1);
          return Fail(TooManyArguments);
        }
        slot := positionalIdx;
        positionalIdx := positionalIdx + 1;
      } else {
        var found := FindParam(params, names[i]);
        if found.None? {
          FirstErrorWins(params, names, i + 1);
          return Fail(UnknownParameter(names[i]));
        }
        slot := found.value;
        if filled[slot] {
          FirstErrorWins(params, names, i + 1);
          return Fail(SpecifiedTwice(names[i]));
        }
      }
      OrderedNext(slots, args, n, result, slot);
      TakenNext(slots, filled, slot);
      result := result[slot := args[i]];
      filled := filled[slot := true];
      slots := slots + [slot];
    }
    assert names[..|names|] == names;
    var mask := MaskFrom(filled, slots);
    r := Ok((result, mask));
  }

  // ---------------------------------------------------------------------------
  // Programs: the calls they make, and how they end
  // ---------------------------------------------------------------------------

  /** `Exit` is sys.exit, which catch clauses and defers let through. */
  datatype Signal = Exit | Raised(id: int) | BadCall(error: CallError)

  datatype Outcome = Returned(value: Value) | Threw(signal: Signal)

  /** An expression: the calls it makes, in order, and its own result. */
  datatype Eval = Eval(calls: seq<Call>, result: Outcome)

  /** A statement: a call, a call inside try/catch, or a deferred expression. */
  datatype Act = Invoke(call: Call) | Guarded(call: Call) | Defer(expr: Eval)

  datatype Ending = Falls | Returns(value: Value) | Throws(signal: Signal)

  datatype Body = Body(acts: seq<Act>, ends: Ending)

  /** A function or lambda, or a native; a native may have no parameter names, and arity
      -1 takes any number. */
  datatype Callee =
    | User(params: seq<string>, rest: string, defaults: seq<Option<Eval>>, body: Body)
    | Native(arity: int, names: Option<seq<string>>, run: Eval)

  datatype Arg = Arg(name: string, value: Value)

  datatype Call = Call(callee: Callee, args: seq<Arg>)

  function Names(args: seq<Arg>): (r: seq<string>)
    ensures |r| == |args|
  {
    seq(|args|, i requires 0 <= i < |args| => args[i].name)
  }

  function Values(args: seq<Arg>): (r: seq<Value>)
    ensures |r| == |args|
  {
    seq(|args|, i requires 0 <= i < |args| => args[i].value)
  }

  predicate HasNamed(args: seq<Arg>) {
    exists i | 0 <= i < |args| :: args[i].name != ""
  }

  function ParamNames(callee: Callee): Option<seq<string>> {
    if callee.User? then Some(callee.params) else callee.names
  }

  // ---------------------------------------------------------------------------
  // What a call binds
  // ---------------------------------------------------------------------------

  ghost function CallSlots(c: Call): Result<seq<nat>> {
    var params := ParamNames(c.callee);
    if params.None? then Fail(Unsupported) else Slots(params.value, Names(c.args))
  }

  /** How many arguments reach the callee. */
  ghost function PassedCount(c: Call): nat {
    if HasNamed(c.args) && ParamNames(c.callee).Some? then |ParamNames(c.callee).value| else |c.args|
  }

  /** The error that stops the call before the callee is entered. */
  ghost function Refusal(c: Call): Option<CallError> {
    if HasNamed(c.args) && CallSlots(c).Fail? then Some(CallSlots(c).error)
    else
      match c.callee
      case User(params, rest, _, _) =>
        if rest == "" && PassedCount(c) > |params| then Some(WrongCount) else None
      case Native(arity, _, _) =>
        if arity != -1 && PassedCount(c) != arity then Some(WrongCount) else None
  }

  /** The argument the caller wrote for parameter `p`. */
  ghost function Written(c: Call, p: nat): Option<Value>
    requires c.callee.User? && Refusal(c).None?
  {
    if HasNamed(c.args) then
      SlotsAreWithin(c.callee.params, Names(c.args));
      ArgAt(CallSlots(c).value, Values(c.args), p)
    else if p < |c.args| then Some(c.args[p].value) else None
  }

  /** The argument the callee takes as given: the mask has 64 bits, and beyond it every
      position of a call with named arguments counts as given. */
  ghost function Given(c: Call, p: nat): Option<Value>
    requires c.callee.User? && Refusal(c).None?
  {
    if HasNamed(c.args) && p >= 64 then Some(OrNil(Written(c, p))) else Written(c, p)
  }

  function DefaultOf(callee: Callee, p: nat): Option<Eval>
    requires callee.User?
  {
    if p < |callee.defaults| then callee.defaults[p] else None
  }

  /** What the binding loop does for parameter `p`, when it gets there. */
  ghost function Binding(c: Call, p: nat): Outcome
    requires c.callee.User? && Refusal(c).None?
    decreases c, 1
  {
    var given, default := Given(c, p), DefaultOf(c.callee, p);
    if given.Some? then Returned(given.value)
    else if default.Some? then EvalOf(default.value)
    else Returned(Nil)
  }

  ghost function BoundValue(c: Call, p: nat): Value
    requires c.callee.User? && Refusal(c).None?
  {
    if Binding(c, p).Returned? then Binding(c, p).value else Nil
  }

  /** The callee's variables after the first `n` parameters are bound. */
  ghost function Bindings(c: Call, n: nat): map<string, Value>
    requires c.callee.User? && Refusal(c).None? && n <= |c.callee.params|
  {
    if n == 0 then map[] else Bindings(c, n - 1)[c.callee.params[n - 1] := BoundValue(c, n - 1)]
  }

  ghost function RestOf(c: Call): seq<Value>
    requires c.callee.User?
  {
    var n := |c.callee.params|;
    if HasNamed(c.args) || |c.args| <= n then [] else Values(c.args)[n..]
  }

  ghost function Scope(c: Call): map<string, Value>
    requires c.callee.User? && Refusal(c).None?
  {
    var m := Bindings(c, |c.callee.params|);
    if c.callee.rest == "" then m else m[c.callee.rest := Array(RestOf(c))]
  }

  // ---------------------------------------------------------------------------
  // How a call ends
  // ---------------------------------------------------------------------------

  /** The first default that is needed and throws. */
  ghost function DefaultThrow(c: Call, n: nat): Option<Signal>
    requires c.callee.User? && Refusal(c).None?
    decreases c, 2, n
  {
    if n == 0 then None
    else
      var before := DefaultThrow(c, n - 1);
      if before.Some? then before
      else if Binding(c, n - 1).Threw? then Some(Binding(c, n - 1).signal)
      else None
  }

  ghost function EvalOf(e: Eval): Outcome
    decreases e, 1
  {
    CallsThen(e.calls, e.result)
  }

  ghost function CallsThen(calls: seq<Call>, result: Outcome): Outcome
    decreases calls, 0
  {
    if calls == [] then result
    else if OutcomeOf(calls[0]).Threw? then OutcomeOf(calls[0])
    else CallsThen(calls[1..], result)
  }

  /** The statement stops the body: its call throws and nothing catches it. */
  ghost predicate Stops(a: Act)
    decreases a, 1
  {
    match a
    case Invoke(c) => OutcomeOf(c).Threw?
    case Guarded(c) => OutcomeOf(c) == Threw(Exit)
    case Defer(_) => false
  }

  ghost function EndOf(acts: seq<Act>, ends: Ending): Ending
    decreases acts, 0
  {
    if acts == [] then ends
    else if Stops(acts[0]) then Throws(OutcomeOf(acts[0].call).signal)
    else EndOf(acts[1..], ends)
  }

  /** The expressions deferred before the body ends. */
  ghost function DeferredBy(acts: seq<Act>): seq<Eval>
    decreases acts, 0
  {
    if acts == [] || Stops(acts[0]) then []
    else (if acts[0].Defer? then [acts[0].expr] else []) + DeferredBy(acts[1..])
  }

  /** A deferred expression calls sys.exit. */
  ghost predicate DeferExits(acts: seq<Act>)
    decreases acts, 0
  {
    && acts != [] && !Stops(acts[0])
    && ((acts[0].Defer? && EvalOf(acts[0].expr) == Threw(Exit)) || DeferExits(acts[1..]))
  }

  ghost function OutcomeOf(c: Call): Outcome
    decreases c, 3
  {
    if Refusal(c).Some? then Threw(BadCall(Refusal(c).value))
    else
      match c.callee
      case Native(_, _, run) => EvalOf(run)
      case User(params, _, _, body) =>
        if DefaultThrow(c, |params|).Some? then Threw(DefaultThrow(c, |params|).value)
        else BodyOutcome(body)
  }

  ghost function BodyOutcome(body: Body): Outcome
    decreases body, 1
  {
    if DeferExits(body.acts) then Threw(Exit)
    else
      match EndOf(body.acts, body.ends)
      case Falls => Returned(Nil)
      case Returns(v) => Returned(v)
      case Throws(signal) => Threw(signal)
  }

  /** The calls that leave the interpreter in a scope of the callee: a default that is
      needed throws, a deferred expression exits, or a native lets such a call through. */
  ghost predicate LeavesScope(c: Call)
    decreases c, 3
  {
    && Refusal(c).None?
    && match c.callee
       case Native(_, _, run) => SomeLeaves(run.calls)
       case User(params, _, _, body) => DefaultThrow(c, |params|).Some? || DeferExits(body.acts)
  }

  ghost predicate SomeLeaves(calls: seq<Call>)
    decreases calls, 0
  {
    && calls != []
    && if OutcomeOf(calls[0]).Threw? then LeavesScope(calls[0]) else SomeLeaves(calls[1..])
  }

  lemma {:induction false} OnlyThrowsLeave(c: Call)
    ensures LeavesScope(c) ==> OutcomeOf(c).Threw?
    decreases c, 1
  {
    if Refusal(c).None? && c.callee.Native? {
      OnlyThrowsLeaveThen(c.callee.run.calls, c.callee.run.result);
    }
  }

  lemma {:induction false} OnlyThrowsLeaveThen(calls: seq<Call>, result: Outcome)
    ensures SomeLeaves(calls) ==> CallsThen(calls, result).Threw?
    decreases calls, 0
  {
    if calls != [] {
      OnlyThrowsLeave(calls[0]);
      OnlyThrowsLeaveThen(calls[1..], result);
    }
  }

  lemma EvalLeavesOnThrow(e: Eval)
    ensures SomeLeaves(e.calls) ==> EvalOf(e).Threw?
  {
    OnlyThrowsLeaveThen(e.calls, e.result);
  }

  lemma {:induction false} FirstThrowWins(c: Call, i: nat, n: nat)
    requires c.callee.User? && Refusal(c).None? && i <= n && DefaultThrow(c, i).Some?
    ensures DefaultThrow(c, n) == DefaultThrow(c, i)
    decreases n
  {
    if i < n { FirstThrowWins(c, i, n - 1); }
  }

  /** A deferred expression is one of those in the body. */
  lemma {:induction false} DeferredIsInBody(acts: seq<Act>, i: nat) returns (k: nat)
    requires i < |DeferredBy(acts)|
    ensures k < |acts| && acts[k] == Defer(DeferredBy(acts)[i])
    decreases |acts|
  {
    if acts[0].Defer? && i == 0 {
      k := 0;
    } else {
      var j := DeferredIsInBody(acts[1..], if acts[0].Defer? then i - 1 else i);
      k := j + 1;
    }
  }

  ghost predicate AnyExits(defers: seq<Eval>) {
    exists i | 0 <= i < |defers| :: EvalOf(defers[i]) == Threw(Exit)
  }

  lemma {:induction false} DeferExitsMeans(acts: seq<Act>)
    ensures DeferExits(acts) <==> AnyExits(DeferredBy(acts))
    decreases |acts|
  {
    if acts != [] && !Stops(acts[0]) {
      DeferExitsMeans(acts[1..]);
      var more := DeferredBy(acts[1..]);
      if acts[0].Defer? {
        assert DeferredBy(acts) == [acts[0].expr] + more;
        if AnyExits(more) {
          var i :| 0 <= i < |more| && EvalOf(more[i]) == Threw(Exit);
          assert DeferredBy(acts)[i + 1] == more[i];
        }
        if EvalOf(acts[0].expr) == Threw(Exit) { assert DeferredBy(acts)[0] == acts[0].expr; }
        if AnyExits(DeferredBy(acts)) && EvalOf(acts[0].expr) != Threw(Exit) {
          var i :| 0 <= i < |DeferredBy(acts)| && EvalOf(DeferredBy(acts)[i]) == Threw(Exit);
          assert more[i - 1] == DeferredBy(acts)[i];
        }
      } else {
        assert DeferredBy(acts) == more;
      }
    }
  }

  // ---------------------------------------------------------------------------
  // What a caller can rely on
  // ---------------------------------------------------------------------------

  /** The statement ends the body: a call that throws, or a guarded one that exits. */
  ghost predicate Halts(a: Act) {
    || (a.Invoke? && OutcomeOf(a.call).Threw?)
    || (a.Guarded? && OutcomeOf(a.call) == Threw(Exit))
  }

  /** The body runs up to its statement `k`, or to its end. */
  ghost predicate RunsUpTo(acts: seq<Act>, k: nat) {
    k <= |acts| && (forall i | 0 <= i < k :: !Halts(acts[i])) && (k < |acts| ==> Halts(acts[k]))
  }

  /** One of the expressions deferred up to there calls sys.exit. */
  ghost predicate ExitIsDeferred(acts: seq<Act>, k: nat)
    requires k <= |acts|
  {
    exists i | 0 <= i < k :: acts[i].Defer? && EvalOf(acts[i].expr) == Threw(Exit)
  }

  /** An expression ends with the first of its calls that throws, else with its result. */
  ghost predicate EvalEnds(e: Eval, r: Outcome) {
    exists k: nat :: EvalEndsAt(e, k, r)
  }

  ghost predicate EvalEndsAt(e: Eval, k: nat, r: Outcome) {
    && k <= |e.calls| && (forall i | 0 <= i < k :: OutcomeOf(e.calls[i]).Returned?)
    && (if k < |e.calls| then OutcomeOf(e.calls[k]).Threw? && r == OutcomeOf(e.calls[k]) else r == e.result)
  }

  /** How a body ends that runs up to `k`. */
  ghost predicate BodyEnds(body: Body, k: nat, r: Outcome)
    requires RunsUpTo(body.acts, k)
  {
    if ExitIsDeferred(body.acts, k) then r == Threw(Exit)
    else if k < |body.acts| then r == OutcomeOf(body.acts[k].call)
    else
      match body.ends
      case Falls => r == Returned(Nil)
      case Returns(v) => r == Returned(v)
      case Throws(signal) => r == Threw(signal)
  }

  /** How a call ends: a refused one with the error; else with the first default that
      throws; else with sys.exit if a deferred expression calls it; else with the signal of
      the first statement that ends the body; else with the value the body returns, nil if
      it falls off its end. */
  ghost predicate EndsAs(c: Call, r: Outcome) {
    if Refusal(c).Some? then r == Threw(BadCall(Refusal(c).value))
    else
      match c.callee
      case Native(_, _, run) => EvalEnds(run, r)
      case User(params, _, _, body) =>
        || (exists p: nat :: p < |params| && FirstThrow(c, p) && r == Binding(c, p))
        || ((forall p: nat | p < |params| :: Binding(c, p).Returned?)
            && exists k: nat :: RunsUpTo(body.acts, k) && BodyEnds(body, k, r))
  }

  ghost predicate FirstThrow(c: Call, p: nat)
    requires c.callee.User? && Refusal(c).None?
  {
    Binding(c, p).Threw? && forall q: nat | q < p :: Binding(c, q).Returned?
  }

  lemma {:induction false} CallsEnd(calls: seq<Call>, result: Outcome) returns (k: nat)
    ensures k <= |calls| && forall i | 0 <= i < k :: OutcomeOf(calls[i]).Returned?
    ensures if k < |calls| then OutcomeOf(calls[k]).Threw? && CallsThen(calls, result) == OutcomeOf(calls[k])
            else CallsThen(calls, result) == result
    decreases |calls|
  {
    k := 0;
    if calls != [] && OutcomeOf(calls[0]).Returned? {
      k := CallsEnd(calls[1..], result);
      assert forall i | 0 <= i < k :: calls[1..][i] == calls[i + 1];
      k := k + 1;
      assert forall i | 0 <= i < k :: OutcomeOf(calls[i]).Returned? by {
        forall i | 0 <= i < k
          ensures OutcomeOf(calls[i]).Returned?
        {
          if i > 0 { assert calls[1..][i - 1] == calls[i]; }
        }
      }
    }
  }

  lemma {:induction false} ActsEnd(acts: seq<Act>, ends: Ending) returns (k: nat)
    ensures RunsUpTo(acts, k) && (DeferExits(acts) <==> ExitIsDeferred(acts, k))
    ensures EndOf(acts, ends) == if k < |acts| then Throws(OutcomeOf(acts[k].call).signal) else ends
    decreases |acts|
  {
    k := 0;
    if acts != [] && !Stops(acts[0]) {
      var rest := acts[1..];
      var j := ActsEnd(rest, ends);
      k := j + 1;
      forall i | 0 <= i < k
        ensures !Halts(acts[i])
      {
        if i > 0 { assert rest[i - 1] == acts[i]; }
      }
      if ExitIsDeferred(rest, j) {
        var i :| 0 <= i < j && rest[i].Defer? && EvalOf(rest[i].expr) == Threw(Exit);
        assert acts[i + 1] == rest[i];
      }
      if ExitIsDeferred(acts, k) && !(acts[0].Defer? && EvalOf(acts[0].expr) == Threw(Exit)) {
        var i :| 0 <= i < k && acts[i].Defer? && EvalOf(acts[i].expr) == Threw(Exit);
        assert rest[i - 1] == acts[i];
      }
    }
  }

  lemma {:induction false} DefaultsEnd(c: Call, n: nat) returns (p: nat)
    requires c.callee.User? && Refusal(c).None?
    ensures p <= n && forall q: nat | q < p :: Binding(c, q).Returned?
    ensures if p < n then Binding(c, p).Threw? && DefaultThrow(c, n) == Some(Binding(c, p).signal)
            else DefaultThrow(c, n) == None
  {
    if n == 0 {
      p := 0;
    } else {
      p := DefaultsEnd(c, n - 1);
      if p == n - 1 && Binding(c, p).Returned? { p := n; }
    }
  }

  /** Every call ends so. */
  lemma CallEndsAs(c: Call)
    ensures EndsAs(c, OutcomeOf(c))
  {
    if Refusal(c).None? {
      match c.callee
      case Native(_, _, run) =>
        var k := CallsEnd(run.calls, run.result);
        assert EvalEndsAt(run, k, OutcomeOf(c));
      case User(params, _, _, body) =>
        var p := DefaultsEnd(c, |params|);
        if p < |params| {
          assert FirstThrow(c, p);
        } else {
          var k := ActsEnd(body.acts, body.ends);
          assert BodyEnds(body, k, OutcomeOf(c));
        }
    }
  }

  /** And in no other way. */
  lemma EndsAsOne(c: Call, r: Outcome)
    requires EndsAs(c, r)
    ensures r == OutcomeOf(c)
  {
    if Refusal(c).None? {
      match c.callee
      case Native(_, _, run) =>
        var j := CallsEnd(run.calls, run.result);
        var k: nat :| EvalEndsAt(run, k, r);
        assert j == k;
      case User(params, _, _, body) =>
        var p := DefaultsEnd(c, |params|);
        if p < |params| {
          var q: nat :| q < |params| && FirstThrow(c, q) && r == Binding(c, q);
          assert p == q;
        } else {
          var j := ActsEnd(body.acts, body.ends);
          var k: nat :| RunsUpTo(body.acts, k) && BodyEnds(body, k, r);
          assert j == k;
        }
    }
  }

  lemma {:induction false} FirstToLeave(calls: seq<Call>) returns (k: nat)
    ensures k <= |calls| && forall i | 0 <= i < k :: OutcomeOf(calls[i]).Returned?
    ensures k < |calls| ==> OutcomeOf(calls[k]).Threw?
    ensures SomeLeaves(calls) <==> k < |calls| && LeavesScope(calls[k])
    decreases |calls|
  {
    k := 0;
    if calls != [] && OutcomeOf(calls[0]).Returned? {
      var j := FirstToLeave(calls[1..]);
      forall i | 0 <= i < j + 1
        ensures OutcomeOf(calls[i]).Returned?
      {
        if i > 0 { assert calls[1..][i - 1] == calls[i]; }
      }
      k := j + 1;
    }
  }

  /** The scope of the callee stays in place exactly when a default is needed and throws, or
      an expression deferred by the body exits; and behind a native, when the call that ends
      it is of that kind. */
  lemma LeavesScopeExactlyWhen(c: Call)
    requires Refusal(c).None?
    ensures c.callee.User? ==>
              var n, acts := |c.callee.params|, c.callee.body.acts;
              LeavesScope(c) <==>
              || (exists p: nat :: p < n && FirstThrow(c, p))
              || (exists k: nat :: RunsUpTo(acts, k) && ExitIsDeferred(acts, k))
    ensures c.callee.Native? ==>
              var calls := c.callee.run.calls;
              LeavesScope(c) <==>
              exists k: nat :: k < |calls| && (forall i | 0 <= i < k :: OutcomeOf(calls[i]).Returned?)
                               && OutcomeOf(calls[k]).Threw? && LeavesScope(calls[k])
  {
    match c.callee
    case Native(_, _, run) =>
      var k := FirstToLeave(run.calls);
    case User(params, _, _, body) =>
      var p := DefaultsEnd(c, |params|);
      if p < |params| { assert FirstThrow(c, p); }
      var k := ActsEnd(body.acts, body.ends);
  }

  /** The call of a function that just returns 5. */
  lemma ReturnsItsValue()
    ensures OutcomeOf(Call(User([], "", [], Body([], Returns(Datum(5)))), [])) == Returned(Datum(5))
  {
  }

  // ---------------------------------------------------------------------------
  // The interpreter
  // ---------------------------------------------------------------------------

  /** What the callee's binding loop and rest parameter see of the call. */
  ghost predicate Passed(c: Call, args: seq<Value>, mask: Mask)
    requires c.callee.User? && Refusal(c).None?
  {
    var n := |c.callee.params|;
    && (forall p: nat | p < n :: (p < |args| && (p >= 64 || Bit(mask, p))) <==> Given(c, p).Some?)
    && (forall p: nat | p < n && Given(c, p).Some? :: args[p] == Given(c, p).value)
    && (if |args| <= n then [] else args[n..]) == RestOf(c)
  }

  lemma PositionalPassed(c: Call)
    requires c.callee.User? && Refusal(c).None? && !HasNamed(c.args)
    ensures Passed(c, Values(c.args), ALL_ONES)
  {
    forall p: nat | p < 64 ensures Bit(ALL_ONES, p) { AllBitsSet(p); }
  }

  lemma NamedPassed(c: Call, args: seq<Value>, mask: Mask)
    requires c.callee.User? && Refusal(c).None? && HasNamed(c.args)
    requires var n, slots := |c.callee.params|, CallSlots(c).value;
             Ordered(slots, Values(c.args), n, args) && MaskOf(slots, n, mask)
    ensures Passed(c, args, mask)
  {
    SlotsAreWithin(c.callee.params, Names(c.args));
  }

  class Interpreter {
    /** The scopes made so far; `env` is an index into them. */
    var scopes: seq<map<string, Value>>
    var env: nat
    var pendingArgsFilled: Mask
    var deferStacks: seq<seq<Eval>>
    /** The pending mask at the start of each function body run so far. */
    ghost var bodyMasks: seq<Mask>

    constructor ()
      ensures Ready()
    {
      scopes, env := [map[]], 0;
      pendingArgsFilled := ALL_ONES;
      deferStacks, bodyMasks := [], [];
    }

    /** Between calls. */
    ghost predicate Ready()
      reads this
    {
      env < |scopes| && pendingArgsFilled == ALL_ONES
    }

    /** Running code adds scopes and leaves the others alone; every body it starts finds all
        bits of the mask set. */
    twostate predicate RunsOn()
      reads this
    {
      old(scopes) <= scopes && BodiesClean()
    }

    twostate predicate BodiesClean()
      reads this
    {
      && old(bodyMasks) <= bodyMasks
      && forall k | |old(bodyMasks)| <= k < |bodyMasks| :: bodyMasks[k] == ALL_ONES
    }

    /** `env` is as before, unless the code left a newer scope in place. */
    twostate predicate EnvAfter(leaves: bool)
      reads this
    {
      if leaves then env >= |old(scopes)| else env == old(env)
    }

    /** An expression. */
    method Evaluate(e: Eval) returns (r: Outcome)
      requires Ready()
      modifies this
      ensures Ready() && RunsOn() && deferStacks == old(deferStacks)
      ensures r == EvalOf(e) && EnvAfter(SomeLeaves(e.calls))
      decreases e, 4
    {
      var i := 0;
      while i < |e.calls|
        invariant i <= |e.calls| && Ready() && RunsOn() && deferStacks == old(deferStacks)
        invariant env == old(env) && CallsThen(e.calls[i..], e.result) == EvalOf(e)
        invariant SomeLeaves(e.calls[i..]) == SomeLeaves(e.calls)
      {
        assert e.calls[i..][1..] == e.calls[i + 1..];
        OnlyThrowsLeave(e.calls[i]);
        r := MakeCall(e.calls[i]);
        if r.Threw? { return; }
        i := i + 1;
      }
      r := e.result;
    }

    /** The call site, and callWithContext. */
    method MakeCall(c: Call) returns (r: Outcome)
      requires Ready()
      modifies this
      ensures Ready() && RunsOn() && deferStacks == old(deferStacks)
      ensures r == OutcomeOf(c) && EnvAfter(LeavesScope(c)) && EndsAs(c, r)
      ensures c.callee.User? && Refusal(c).None? && DefaultThrow(c, |c.callee.params|).None? ==>
                |scopes| > |old(scopes)| && scopes[|old(scopes)|] == Scope(c)
      decreases c, 4
    {
      CallEndsAs(c);
      var args := Values(c.args);
      if HasNamed(c.args) {
        var params := ParamNames(c.callee);
        if params.None? { return Threw(BadCall(Unsupported)); }
        var ordered := ReorderNamedArgs(params.value, args, Names(c.args));
        if ordered.Fail? { return Threw(BadCall(ordered.error)); }
        args := ordered.value.0;
        if c.callee.User? { pendingArgsFilled := ordered.value.1; }
        if Refusal(c).None? && c.callee.User? { NamedPassed(c, args, pendingArgsFilled); }
      } else if Refusal(c).None? && c.callee.User? {
        PositionalPassed(c);
      }
      r := CallWithContext(c, args);
      pendingArgsFilled := ALL_ONES;
    }

    /** The arity check, then the callee. */
    method CallWithContext(c: Call, args: seq<Value>) returns (r: Outcome)
      requires env < |scopes| && |args| == PassedCount(c)
      requires HasNamed(c.args) ==> CallSlots(c).Ok?
      requires c.callee.Native? ==> pendingArgsFilled == ALL_ONES
      requires Refusal(c).None? && c.callee.User? ==> Passed(c, args, pendingArgsFilled)
      modifies this
      ensures env < |scopes| && RunsOn() && deferStacks == old(deferStacks)
      ensures r == OutcomeOf(c) && EnvAfter(LeavesScope(c))
      ensures c.callee.User? && Refusal(c).None? && DefaultThrow(c, |c.callee.params|).None? ==>
                |scopes| > |old(scopes)| && scopes[|old(scopes)|] == Scope(c)
      decreases c, 3
    {
      match c.callee
      case User(params, rest, _, _) =>
        if rest == "" && |args| > |params| { return Threw(BadCall(WrongCount)); }
        r := CallBody(c, args);
      case Native(arity, _, run) =>
        if arity != -1 && |args| != arity { return Threw(BadCall(WrongCount)); }
        r := Evaluate(run);
    }

    /** callBody, in a fresh scope. */
    method CallBody(c: Call, args: seq<Value>) returns (r: Outcome)
      requires c.callee.User? && Refusal(c).None? && env < |scopes|
      requires Passed(c, args, pendingArgsFilled)
      modifies this
      ensures Ready() && RunsOn() && deferStacks == old(deferStacks)
      ensures r == OutcomeOf(c) && EnvAfter(LeavesScope(c)) && EndsAs(c, r)
      ensures DefaultThrow(c, |c.callee.params|).None? ==>
                |scopes| > |old(scopes)| && scopes[|old(scopes)|] == Scope(c)
      decreases c, 2
    {
      CallEndsAs(c);
      var prevEnv := env;
      var callEnv := |scopes|;
      scopes := scopes + [map[]];
      env := callEnv;
      var filled := pendingArgsFilled;
      pendingArgsFilled := ALL_ONES;
      var thrown := BindParams(c, args, filled);
      if thrown.Some? { return Threw(thrown.value); }
      BindRest(c, args);
      assert scopes[..callEnv] == old(scopes);
      ghost var bound := scopes;
      var exits;
      r, exits := RunFunction(c.callee.body);
      assert scopes[callEnv] == bound[callEnv] && old(scopes) <= bound <= scopes;
      if !exits { env := prevEnv; }
    }

    /** The body and its deferred expressions. */
    method RunFunction(body: Body) returns (r: Outcome, exits: bool)
      requires Ready()
      modifies this
      ensures Ready() && RunsOn() && deferStacks == old(deferStacks) && env >= old(env)
      ensures r == BodyOutcome(body) && exits == DeferExits(body.acts)
      decreases body, 6
    {
      bodyMasks := bodyMasks + [pendingArgsFilled];
      deferStacks := deferStacks + [[]];
      var ends := RunBody(body);
      exits := RunDefers(body);
      if exits { return Threw(Exit), true; }
      match ends
      case Falls => r := Returned(Nil);
      case Returns(v) => r := Returned(v);
      case Throws(signal) => r := Threw(signal);
    }

    /** The binding loop; stops at the first default that throws. */
    method BindParams(c: Call, args: seq<Value>, filled: Mask) returns (thrown: Option<Signal>)
      requires c.callee.User? && Refusal(c).None? && Passed(c, args, filled)
      requires Ready() && env == |scopes| - 1 && scopes[env] == map[]
      modifies this
      ensures Ready() && BodiesClean() && deferStacks == old(deferStacks)
      ensures |old(scopes)| <= |scopes| && scopes[..old(env)] == old(scopes)[..old(env)]
      ensures thrown == DefaultThrow(c, |c.callee.params|) && env >= old(env)
      ensures thrown.None? ==>
                env == old(env) && scopes[env] == Bindings(c, |c.callee.params|)
      decreases c, 1
    {
      var params := c.callee.params;
      for i := 0 to |params|
        invariant Ready() && BodiesClean() && deferStacks == old(deferStacks)
        invariant |old(scopes)| <= |scopes| && scopes[..old(env)] == old(scopes)[..old(env)]
        invariant DefaultThrow(c, i).None? && env == old(env) && scopes[env] == Bindings(c, i)
      {
        var value;
        thrown, value := ParamValue(c, args, filled, i);
        if thrown.Some? {
          FirstThrowWins(c, i + 1, |params|);
          return;
        }
        scopes := scopes[env := scopes[env][params[i] := value]];
      }
      thrown := None;
    }

    /** The argument of one parameter, or its default, or nil. */
    method ParamValue(c: Call, args: seq<Value>, filled: Mask, i: nat)
      returns (thrown: Option<Signal>, value: Value)
      requires c.callee.User? && Refusal(c).None? && Passed(c, args, filled)
      requires i < |c.callee.params| && DefaultThrow(c, i).None?
      requires Ready()
      modifies this
      ensures Ready() && RunsOn() && deferStacks == old(deferStacks) && env >= old(env)
      ensures thrown == DefaultThrow(c, i + 1)
      ensures thrown.None? ==> env == old(env) && value == BoundValue(c, i)
      decreases c, 0
    {
      var default := DefaultOf(c.callee, i);
      thrown, value := None, Nil;
      if i < |args| && (i >= 64 || Bit(filled, i)) {
        value := args[i];
      } else if default.Some? {
        EvalLeavesOnThrow(default.value);
        var r := Evaluate(default.value);
        if r.Threw? { return Some(r.signal), Nil; }
        value := r.value;
      }
    }

    method BindRest(c: Call, args: seq<Value>)
      requires c.callee.User? && Refusal(c).None?
      requires (if |args| <= |c.callee.params| then [] else args[|c.callee.params|..]) == RestOf(c)
      requires env < |scopes| && scopes[env] == Bindings(c, |c.callee.params|)
      modifies this`scopes
      ensures scopes == old(scopes)[env := Scope(c)]
    {
      var n := |c.callee.params|;
      if c.callee.rest != "" {
        var rest := if |args| <= n then [] else args[n..];
        scopes := scopes[env := scopes[env][c.callee.rest := Array(rest)]];
      }
    }

    /** The statements of the body; deferred expressions pile up on the top frame. */
    method RunBody(body: Body) returns (ends: Ending)
      requires Ready() && |deferStacks| > 0 && deferStacks[|deferStacks| - 1] == []
      modifies this
      ensures Ready() && RunsOn() && env >= old(env)
      ensures deferStacks == old(deferStacks)[..|old(deferStacks)| - 1] + [DeferredBy(body.acts)]
      ensures ends == EndOf(body.acts, body.ends)
      decreases body, 5
    {
      var i := 0;
      ghost var below := deferStacks[..|deferStacks| - 1];
      ghost var done: seq<Eval> := [];
      assert deferStacks == below + [done] && body.acts[0..] == body.acts;
      while i < |body.acts|
        invariant i <= |body.acts| && Ready() && RunsOn() && env >= old(env)
        invariant deferStacks == below + [done] && done + DeferredBy(body.acts[i..]) == DeferredBy(body.acts)
        invariant EndOf(body.acts[i..], body.ends) == EndOf(body.acts, body.ends)
        decreases |body.acts| - i
      {
        assert body.acts[i..][1..] == body.acts[i + 1..];
        match body.acts[i] {
          case Invoke(call) =>
            var r := MakeCall(call);
            if r.Threw? {
              assert done + [] == done;
              return Throws(r.signal);
            }
          case Guarded(call) =>
            var saved := env;
            scopes := scopes + [map[]];
            env := |scopes| - 1;
            var r := MakeCall(call);
            env := saved;
            if r == Threw(Exit) {
              assert done + [] == done;
              return Throws(Exit);
            }
          case Defer(expr) =>
            var top := deferStacks[|deferStacks| - 1];
            deferStacks := deferStacks[|deferStacks| - 1 := top + [expr]];
            done := done + [expr];
        }
        i := i + 1;
      }
      ends := body.ends;
      assert done + [] == done;
    }

    /** runDefers: the top frame, last in first out; only sys.exit gets through. */
    method RunDefers(body: Body) returns (exits: bool)
      requires Ready() && |deferStacks| > 0 && deferStacks[|deferStacks| - 1] == DeferredBy(body.acts)
      modifies this
      ensures Ready() && RunsOn() && env >= old(env)
      ensures deferStacks == old(deferStacks)[..|old(deferStacks)| - 1]
      ensures exits == DeferExits(body.acts)
      decreases body, 5
    {
      DeferExitsMeans(body.acts);
      var defers := deferStacks[|deferStacks| - 1];
      deferStacks := deferStacks[..|deferStacks| - 1];
      var i: nat := |defers|;
      while i > 0
        invariant i <= |defers| && Ready() && RunsOn() && env >= old(env)
        invariant deferStacks == old(deferStacks)[..|old(deferStacks)| - 1]
        invariant forall k | i <= k < |defers| :: EvalOf(defers[k]) != Threw(Exit)
      {
        i := i - 1;
        ghost var k := DeferredIsInBody(body.acts, i);
        assert defers[i] == body.acts[k].expr;
        var r := Evaluate(defers[i]);
        if r == Threw(Exit) { return true; }
      }
      exits := false;
    }
  }

  // ---------------------------------------------------------------------------
  // What the caller gets
  // ---------------------------------------------------------------------------

  /** Every argument of an accepted call reaches a parameter of its own, a named one the
      parameter of that name. */
  lemma {:induction false} NamedSlots(params: seq<string>, names: seq<string>, i: nat)
    requires Slots(params, names).Ok? && i < |names|
    ensures |Slots(params, names).value| == |names|
    ensures names[i] != "" ==> Index(params, names[i]) == Some(Slots(params, names).value[i])
    decreases |names|
  {
    SlotsAreWithin(params, names);
    var k := |names| - 1;
    if i < k {
      NamedSlots(params, names[..k], i);
    } else {
      SlotsAreWithin(params, names[..k]);
    }
  }

  lemma EveryArgumentIsBound(c: Call, i: nat) returns (p: nat)
    requires c.callee.User? && Refusal(c).None? && HasNamed(c.args) && i < |c.args|
    ensures p < |c.callee.params| && Written(c, p) == Some(c.args[i].value)
    ensures c.args[i].name != "" ==> Index(c.callee.params, c.args[i].name) == Some(p)
  {
    var slots := CallSlots(c).value;
    SlotsAreWithin(c.callee.params, Names(c.args));
    NamedSlots(c.callee.params, Names(c.args), i);
    ArgAtItsSlot(slots, Values(c.args), i);
    p := slots[i];
  }

  /** Positional arguments first, then named ones, which is all the grammar allows. */
  predicate PositionalFirst(names: seq<string>, k: nat) {
    && k <= |names|
    && (forall i | 0 <= i < k :: names[i] == "")
    && (forall i | k <= i < |names| :: names[i] != "")
  }

  /** The named argument can take its parameter. */
  predicate NameIsFree(params: seq<string>, names: seq<string>, k: nat, i: nat)
    requires k <= i < |names|
  {
    && Index(params, names[i]).Some? && Index(params, names[i]).value >= k
    && forall j | k <= j < i :: names[j] != names[i]
  }

  /** Such a call is rejected exactly when there are more positional arguments than
      parameters, or a name is unknown, given twice, or already taken by position. */
  lemma {:induction false} RejectedExactlyWhen(params: seq<string>, names: seq<string>, k: nat)
    requires PositionalFirst(names, k)
    ensures Slots(params, names).Ok? <==>
              k <= |params| && forall i {:trigger names[i]} | k <= i < |names| :: NameIsFree(params, names, k, i)
    ensures Slots(params, names).Ok? ==>
              forall i | 0 <= i < k :: i < |Slots(params, names).value| && Slots(params, names).value[i] == i
    decreases |names|
  {
    if names != [] {
      var n := |names| - 1;
      var init := names[..n];
      var k' := if k <= n then k else n;
      RejectedExactlyWhen(params, init, k');
      if Slots(params, init).Ok? { SlotsAreWithin(params, init); }
      if k <= n {
        forall i | k <= i < n ensures NameIsFree(params, init, k, i) <==> NameIsFree(params, names, k, i) {
          assert forall j | k <= j < i :: init[j] == names[j];
        }
        if Slots(params, init).Ok? { LastNameFits(params, names, k); }
      } else if Slots(params, init).Ok? {
        LastPositionalFits(params, init);
      }
    }
  }

  lemma LastPositionalFits(params: seq<string>, init: seq<string>)
    requires PositionalFirst(init, |init|) && Slots(params, init).Ok? && |init| <= |params|
    requires forall i | 0 <= i < |init| :: i < |Slots(params, init).value| && Slots(params, init).value[i] == i
    ensures var s := SlotFor(params, Slots(params, init).value, "");
            if |init| < |params| then s == Ok(|init|) else s.Fail?
  {
    var slots := Slots(params, init).value;
    SlotsAreWithin(params, init);
    forall x: nat | x < |init| ensures x in slots { assert slots[x] == x; }
    NextFreeFrom(slots, 0, |init|, |params|);
  }

  lemma LastNameFits(params: seq<string>, names: seq<string>, k: nat)
    requires PositionalFirst(names, k) && k < |names| && Slots(params, names[..|names| - 1]).Ok?
    requires var slots := Slots(params, names[..|names| - 1]).value;
             forall i | 0 <= i < k :: i < |slots| && slots[i] == i
    ensures var n := |names| - 1;
            SlotFor(params, Slots(params, names[..n]).value, names[n]).Ok? <==> NameIsFree(params, names, k, n)
  {
    var n := |names| - 1;
    var init := names[..n];
    var slots := Slots(params, init).value;
    SlotsAreWithin(params, init);
    forall i: nat | i < n ensures names[i] != "" ==> Index(params, names[i]) == Some(slots[i]) {
      NamedSlots(params, init, i);
    }
    var p := Index(params, names[n]);
    if p.Some? {
      if p.value < k { assert slots[p.value] == p.value; }
      if j :| k <= j < n && names[j] == names[n] { assert slots[j] == p.value; }
      if p.value in slots && p.value >= k {
        var j :| 0 <= j < n && slots[j] == p.value;
        assert j >= k && params[slots[j]] == names[j];
      }
    }
  }

  /** What a reader of the call expects for a parameter: what was written, or else that its
      default is evaluated and may throw, or else nil. */
  ghost function Expected(c: Call, p: nat): Outcome
    requires c.callee.User? && Refusal(c).None?
  {
    var written, default := Written(c, p), DefaultOf(c.callee, p);
    if written.Some? then Returned(written.value)
    else if default.Some? then EvalOf(default.value)
    else Returned(Nil)
  }

  /** The default is passed over: it is for a parameter past the 64th that a call with named
      arguments leaves out, and evaluating it would not have given nil. */
  ghost predicate LosesDefault(c: Call, p: nat)
    requires c.callee.User? && Refusal(c).None?
  {
    && HasNamed(c.args) && p >= 64 && Written(c, p).None?
    && DefaultOf(c.callee, p).Some? && EvalOf(DefaultOf(c.callee, p).value) != Returned(Nil)
  }

  /** Each parameter is bound to its argument, else to its default, which may throw, else to
      nil; except where a default is lost, and there it is bound to nil. */
  lemma BoundAsExpected(c: Call, p: nat)
    requires c.callee.User? && Refusal(c).None? && p < |c.callee.params|
    ensures Binding(c, p) == Expected(c, p) <==> !LosesDefault(c, p)
    ensures LosesDefault(c, p) ==> Binding(c, p) == Returned(Nil)
    ensures |c.callee.params| <= 64 ==> Binding(c, p) == Expected(c, p)
  {
  }

  /** The body finds under a name the last parameter of that name, or the surplus arguments
      if it is the rest parameter's. */
  lemma {:induction false} BindingsHold(c: Call, p: nat, n: nat)
    requires c.callee.User? && Refusal(c).None? && p < n <= |c.callee.params|
    requires forall j | p < j < |c.callee.params| :: c.callee.params[j] != c.callee.params[p]
    ensures c.callee.params[p] in Bindings(c, n) && Bindings(c, n)[c.callee.params[p]] == BoundValue(c, p)
    decreases n
  {
    if p < n - 1 { BindingsHold(c, p, n - 1); }
  }

  lemma ScopeHolds(c: Call, p: nat)
    requires c.callee.User? && Refusal(c).None? && p < |c.callee.params|
    requires forall j | p < j < |c.callee.params| :: c.callee.params[j] != c.callee.params[p]
    ensures c.callee.rest != c.callee.params[p] ==>
              c.callee.params[p] in Scope(c) && Scope(c)[c.callee.params[p]] == BoundValue(c, p)
    ensures c.callee.rest != "" ==>
              c.callee.rest in Scope(c) && Scope(c)[c.callee.rest] == Array(RestOf(c))
  {
    BindingsHold(c, p, |c.callee.params|);
  }

  /** The rest parameter holds the arguments behind the last parameter, in order; a call with
      names has none. */
  lemma RestIsSurplus(c: Call, i: nat)
    requires c.callee.User?
    ensures HasNamed(c.args) ==> RestOf(c) == []
    ensures !HasNamed(c.args) ==>
              var n := |c.callee.params|;
              && |RestOf(c)| == (if |c.args| <= n then 0 else |c.args| - n)
              && (i < |RestOf(c)| ==> RestOf(c)[i] == c.args[n + i].value)
  {
  }

  /** Which calls are refused: a call without names with too many arguments for a function
      that takes no rest, or the wrong number for a native; a call with names of a native
      that has none, or with a name or position that does not fit; and one of a native whose
      names are not as many as it takes. */
  lemma CallRefusedExactlyWhen(c: Call)
    ensures !HasNamed(c.args) ==>
              (Refusal(c).Some? <==>
               match c.callee
               case User(params, rest, _, _) => rest == "" && |c.args| > |params|
               case Native(arity, _, _) => arity != -1 && |c.args| != arity)
    ensures HasNamed(c.args) ==>
              (Refusal(c).Some? <==>
               match c.callee
               case User(params, _, _, _) => Slots(params, Names(c.args)).Fail?
               case Native(arity, names, _) =>
                 names.None? || Slots(names.value, Names(c.args)).Fail? || (arity != -1 && |names.value| != arity))
    ensures Refusal(c).Some? && !HasNamed(c.args) ==> Refusal(c) == Some(WrongCount)
  {
  }

  const TWO_PARAMS := ["a", "b"]

  lemma TwoParams()
    ensures Index(TWO_PARAMS, "a") == Some(0) && Index(TWO_PARAMS, "b") == Some(1) && Index(TWO_PARAMS, "c") == None
    ensures NextFree([], 0, 2) == 0 && NextFree([0], 0, 2) == 1 && NextFree([1], 0, 2) == 0
    ensures NextFree([0, 1], 0, 2) == 2
  {
  }

  lemma OneSlot()
    ensures Slots(TWO_PARAMS, [""]) == Ok([0]) && Slots(TWO_PARAMS, ["a"]) == Ok([0])
    ensures Slots(TWO_PARAMS, ["b"]) == Ok([1]) && Slots(TWO_PARAMS, ["c"]) == Fail(UnknownParameter("c"))
  {
    TwoParams();
    SlotsOneMore(TWO_PARAMS, [], "");
    SlotsOneMore(TWO_PARAMS, [], "a");
    SlotsOneMore(TWO_PARAMS, [], "b");
    SlotsOneMore(TWO_PARAMS, [], "c");
    assert [] + [""] == [""] && [] + ["a"] == ["a"] && [] + ["b"] == ["b"] && [] + ["c"] == ["c"];
    var none: seq<nat> := [];
    assert none + [0] == [0] && none + [1] == [1];
    assert SlotFor(TWO_PARAMS, none, "") == Ok(0) && SlotFor(TWO_PARAMS, none, "a") == Ok(0);
    assert SlotFor(TWO_PARAMS, none, "b") == Ok(1);
  }

  lemma TwoSlots()
    ensures Slots(TWO_PARAMS, ["", ""]) == Ok([0, 1]) && Slots(TWO_PARAMS, ["", "b"]) == Ok([0, 1])
    ensures Slots(TWO_PARAMS, ["b", ""]) == Ok([1, 0])
    ensures Slots(TWO_PARAMS, ["", "a"]) == Fail(SpecifiedTwice("a"))
    ensures Slots(TWO_PARAMS, ["a", "a"]) == Fail(SpecifiedTwice("a"))
  {
    TwoParams();
    OneSlot();
    SlotsOneMore(TWO_PARAMS, [""], "");
    SlotsOneMore(TWO_PARAMS, [""], "b");
    SlotsOneMore(TWO_PARAMS, ["b"], "");
    SlotsOneMore(TWO_PARAMS, [""], "a");
    SlotsOneMore(TWO_PARAMS, ["a"], "a");
    assert [""] + [""] == ["", ""] && [""] + ["b"] == ["", "b"] && ["b"] + [""] == ["b", ""];
    assert [""] + ["a"] == ["", "a"] && ["a"] + ["a"] == ["a", "a"];
    var zero: seq<nat>, one: seq<nat> := [0], [1];
    assert zero + [1] == [0, 1] && one + [0] == [1, 0];
    assert SlotFor(TWO_PARAMS, zero, "") == Ok(1) && SlotFor(TWO_PARAMS, one, "") == Ok(0);
    assert 1 !in zero && SlotFor(TWO_PARAMS, zero, "b") == Ok(1);
  }

  /** Calls of f(a, b): f(1, 2), f(1, b: 2) and both named are accepted; f(1, 2, 3), f(c: 1),
      f(1, a: 2) and f(a: 1, a: 2) are refused with their errors. */
  lemma RefusalCases()
    ensures Slots(TWO_PARAMS, ["", ""]) == Ok([0, 1]) && Slots(TWO_PARAMS, ["", "b"]) == Ok([0, 1])
    ensures Slots(TWO_PARAMS, ["b", "a"]) == Ok([1, 0])
    ensures Slots(TWO_PARAMS, ["", "", ""]) == Fail(TooManyArguments)
    ensures Slots(TWO_PARAMS, ["c"]) == Fail(UnknownParameter("c"))
    ensures Slots(TWO_PARAMS, ["", "a"]) == Fail(SpecifiedTwice("a"))
    ensures Slots(TWO_PARAMS, ["a", "a"]) == Fail(SpecifiedTwice("a"))
  {
    TwoParams();
    OneSlot();
    TwoSlots();
    SlotsOneMore(TWO_PARAMS, ["", ""], "");
    SlotsOneMore(TWO_PARAMS, ["b"], "a");
    assert ["", ""] + [""] == ["", "", ""] && ["b"] + ["a"] == ["b", "a"];
  }

  lemma SlotsOneMore(params: seq<string>, names: seq<string>, name: string)
    ensures Slots(params, names + [name]) ==
            (var before := Slots(params, names);
             if before.Fail? then before
             else
               var s := SlotFor(params, before.value, name);
               if s.Fail? then Fail(s.error) else Ok(before.value + [s.value]))
  {
    assert (names + [name])[..|names|] == names;
  }

  /** The call f(a: 1) of a function of 65 parameters whose last has a default. */
  function WideCall(default: Eval): Call {
    var params := seq(65, i requires 0 <= i < 65 => seq(i + 1, _ => 'a'));
    var defaults := seq(64, _ => None) + [Some(default)];
    Call(User(params, "", defaults, Body([], Falls)), [Arg("a", Datum(1))])
  }

  lemma WideCallIsAccepted(default: Eval)
    ensures var c := WideCall(default);
            && c.callee.User? && Refusal(c).None? && |c.callee.params| == 65
            && HasNamed(c.args) && Written(c, 64).None? && DefaultOf(c.callee, 64) == Some(default)
  {
    var c := WideCall(default);
    var params := c.callee.params;
    assert params[0] == "a" && Index(params, "a") == Some(0);
    assert Names(c.args) == ["a"] && c.args[0].name != "";
    assert ["a"][..0] == [];
    assert Slots(params, ["a"]) == Ok([] + [0]);
    assert CallSlots(c).value == [0];
  }

  /** With the default 7, the last parameter of that call is nil. */
  lemma PastTheMask()
    ensures var c := WideCall(Eval([], Returned(Datum(7))));
            && c.callee.User? && Refusal(c).None? && |c.callee.params| == 65
            && Expected(c, 64) == Returned(Datum(7)) && Binding(c, 64) == Returned(Nil)
  {
    WideCallIsAccepted(Eval([], Returned(Datum(7))));
  }

  lemma {:induction false} NoThrowUpTo(c: Call, n: nat)
    requires c.callee.User? && Refusal(c).None? && forall p: nat | p < n :: !Binding(c, p).Threw?
    ensures DefaultThrow(c, n) == None
  {
    if n > 0 { NoThrowUpTo(c, n - 1); }
  }

  /** With a default that throws, it is never evaluated: nothing is thrown, the call returns
      and the scope of the caller is restored. */
  lemma ThrowPastTheMask()
    ensures var c := WideCall(Eval([], Threw(Raised(1))));
            && c.callee.User? && Refusal(c).None? && |c.callee.params| == 65
            && Expected(c, 64) == Threw(Raised(1)) && Binding(c, 64) == Returned(Nil)
            && OutcomeOf(c) == Returned(Nil) && !LeavesScope(c)
  {
    var c := WideCall(Eval([], Threw(Raised(1))));
    WideCallIsAccepted(Eval([], Threw(Raised(1))));
    forall p: nat | p < 65
      ensures !Binding(c, p).Threw?
    {
      assert p < 64 ==> DefaultOf(c.callee, p) == None;
    }
    NoThrowUpTo(c, 65);
    assert DeferredBy(c.callee.body.acts) == [];
  }

  // ---------------------------------------------------------------------------
  // Calls that leave the scope of the callee in place
  // ---------------------------------------------------------------------------

  /** f() of a function whose parameter has a default that throws. */
  function ThrowingDefault(): Call {
    Call(User(["a"], "", [Some(Eval([], Threw(Raised(1))))], Body([], Falls)), [])
  }

  /** f() of a function that defers sys.exit. */
  function ExitingDefer(): Call {
    Call(User([], "", [], Body([Defer(Eval([], Threw(Exit)))], Falls)), [])
  }

  lemma ThrowingDefaultLeavesScope()
    ensures LeavesScope(ThrowingDefault()) && OutcomeOf(ThrowingDefault()) == Threw(Raised(1))
  {
    var c := ThrowingDefault();
    assert Refusal(c).None? && Given(c, 0).None? && DefaultOf(c.callee, 0).Some?;
    assert EvalOf(DefaultOf(c.callee, 0).value) == Threw(Raised(1));
    assert DefaultThrow(c, 0).None? && DefaultThrow(c, 1) == Some(Raised(1));
  }

  lemma ExitingDeferLeavesScope()
    ensures LeavesScope(ExitingDefer()) && OutcomeOf(ExitingDefer()) == Threw(Exit)
  {
    var c := ExitingDefer();
    assert Refusal(c).None? && DefaultThrow(c, 0).None?;
    var acts := c.callee.body.acts;
    assert !Stops(acts[0]) && EvalOf(acts[0].expr) == Threw(Exit);
    assert DeferExits(acts);
  }
}
