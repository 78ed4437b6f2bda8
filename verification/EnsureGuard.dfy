/** The `ensure` guard: the parser's syntactic check (src/parser.cpp, `stmtTerminates`)
    against what the tree-walking executor does (src/interpreter.cpp, `execute`).

    The executor is a function of the statement, the state and a step budget; expression
    evaluation, loop iteration and the interrupt check are arbitrary, given by an oracle. */
module EnsureGuard {
  import opened Wrappers

  // ---------------------------------------------------------------------------
  // Statements
  // ---------------------------------------------------------------------------

  datatype Expr = Expr(id: nat)

  datatype Elif = Elif(condition: Expr, body: Stmt)

  datatype Stmt =
    | ExprStmt(expr: Expr)
    | Let(name: string, initializer: Option<Expr>)
    | Block(statements: seq<Stmt>)
    | If(condition: Expr, thenBranch: Stmt, elifs: seq<Elif>, elseBranch: Option<Stmt>)
    | While(loopCondition: Expr, loopBody: Stmt)
    | ForIn(iterable: Expr, varName: string, forBody: seq<Stmt>)
    | Declare(declared: string, value: Expr)       // func, class, enum, use
    | Return(returned: Option<Expr>)
    | Throw(thrown: Expr)
    | Break
    | Continue
    | TryCatch(tryBody: Stmt, errorVar: string, catchBody: seq<Stmt>, finallyBody: Option<Stmt>)
    | Ensure(bindingName: string, guard: Expr, elseBody: Stmt)
    | Defer(deferred: Expr)
    | Export

  /** The parser's check: does the statement divert control on every path? */
  predicate StmtTerminates(s: Stmt) {
    match s
    case Return(_) => true
    case Throw(_) => true
    case Break => true
    case Continue => true
    case Block(ss) => ss != [] && StmtTerminates(ss[|ss| - 1])
    case If(_, t, els, e) =>
      && e.Some?
      && StmtTerminates(t)
      && (forall i | 0 <= i < |els| :: StmtTerminates(els[i].body))
      && StmtTerminates(e.value)
    case _ => false
  }

  /** A statement the parser accepts: every `ensure` in it has a terminating else. */
  predicate Accepted(s: Stmt) {
    match s
    case Block(ss) => forall i | 0 <= i < |ss| :: Accepted(ss[i])
    case If(_, t, els, e) =>
      && Accepted(t)
      && (forall i | 0 <= i < |els| :: Accepted(els[i].body))
      && (e.Some? ==> Accepted(e.value))
    case While(_, b) => Accepted(b)
    case ForIn(_, _, b) => forall i | 0 <= i < |b| :: Accepted(b[i])
    case TryCatch(b, _, c, f) =>
      && Accepted(b)
      && (forall i | 0 <= i < |c| :: Accepted(c[i]))
      && (f.Some? ==> Accepted(f.value))
    case Ensure(_, _, e) => StmtTerminates(e) && Accepted(e)
    case _ => true
  }

  // ---------------------------------------------------------------------------
  // Execution
  // ---------------------------------------------------------------------------

  datatype Value = Nil | Bool(b: bool) | Other(id: int)

  predicate IsTruthy(v: Value) {
    match v
    case Nil => false
    case Bool(b) => b
    case Other(_) => true
  }

  /** The current environment, the variables of every environment, and everything else. */
  datatype State = State(env: nat, vars: map<nat, map<string, Value>>, world: int)

  function Define(st: State, name: string, v: Value): State {
    var own := if st.env in st.vars then st.vars[st.env] else map[];
    st.(vars := st.vars[st.env := own[name := v]])
  }

  /** What `name` is bound to in the current environment. */
  function Lookup(st: State, name: string): Option<Value> {
    if st.env in st.vars && name in st.vars[st.env] then Some(st.vars[st.env][name]) else None
  }

  /** The C++ exceptions that divert control. */
  datatype Signal =
    | ReturnSignal(value: Value)
    | BreakSignal
    | ContinueSignal
    | ThrowSignal(value: Value)
    | RuntimeError(value: Value)
    | ExportSignal
    | ExitSignal

  datatype Eval = EvalTo(value: Value, st: State) | EvalRaises(signal: Signal, st: State) | EvalDiverges

  datatype Iter = NextIs(value: Value, st: State) | IterEnds(st: State) | IterRaises(signal: Signal, st: State)

  /** Everything the executor leaves to others. */
  datatype Oracle = Oracle(
    evaluate: (Expr, State) -> Eval,
    checkInterrupt: State -> Eval,
    next: (Value, nat, State) -> Iter,
    newEnv: State -> nat)

  datatype Result = Normal(st: State) | Raised(signal: Signal, st: State) | Unfinished

  /** The scope a block or loop body runs in. */
  function Enter(o: Oracle, st: State): State {
    st.(env := o.newEnv(st))
  }

  /** executeBlock restores the environment whichever way the body ends. */
  function Leave(r: Result, env: nat): Result {
    match r
    case Normal(st) => Normal(st.(env := env))
    case Raised(g, st) => Raised(g, st.(env := env))
    case Unfinished => Unfinished
  }

  function OfEval(e: Eval): Result {
    match e
    case EvalTo(_, st) => Normal(st)
    case EvalRaises(g, st) => Raised(g, st)
    case EvalDiverges => Unfinished
  }

  function Execute(o: Oracle, s: Stmt, st: State, fuel: nat): Result
    decreases fuel, 0
  {
    if fuel == 0 then Unfinished
    else
      match o.checkInterrupt(st)
      case EvalRaises(g, st1) => Raised(g, st1)
      case EvalDiverges => Unfinished
      case EvalTo(_, st1) => ExecuteStmt(o, s, st1, fuel - 1)
  }

  function ExecuteStmt(o: Oracle, s: Stmt, st: State, fuel: nat): Result
    decreases fuel, 4
  {
    match s
    case ExprStmt(e) => OfEval(o.evaluate(e, st))
    case Let(x, init) =>
      if init.None? then Normal(Define(st, x, Nil))
      else
        (match o.evaluate(init.value, st)
         case EvalTo(v, st1) => Normal(Define(st1, x, v))
         case bad => OfEval(bad))
    case Block(ss) => Leave(ExecuteSeq(o, ss, Enter(o, st), fuel), st.env)
    case If(c, t, els, e) =>
      (match o.evaluate(c, st)
       case EvalTo(v, st1) =>
         if IsTruthy(v) then Execute(o, t, st1, fuel) else ExecuteElifs(o, els, e, st1, fuel)
       case bad => OfEval(bad))
    case While(c, b) => CatchBreak(ExecuteWhile(o, c, b, st, fuel))
    case ForIn(it, x, b) =>
      (match o.evaluate(it, st)
       case EvalTo(v, st1) => CatchBreak(ExecuteFor(o, v, 0, x, b, st1, fuel))
       case bad => OfEval(bad))
    case Declare(x, e) =>
      (match o.evaluate(e, st)
       case EvalTo(v, st1) => Normal(Define(st1, x, v))
       case bad => OfEval(bad))
    case Return(e) =>
      if e.None? then Raised(ReturnSignal(Nil), st)
      else
        (match o.evaluate(e.value, st)
         case EvalTo(v, st1) => Raised(ReturnSignal(v), st1)
         case bad => OfEval(bad))
    case Throw(e) =>
      (match o.evaluate(e, st)
       case EvalTo(v, st1) => Raised(ThrowSignal(v), st1)
       case bad => OfEval(bad))
    case Break => Raised(BreakSignal, st)
    case Continue => Raised(ContinueSignal, st)
    case TryCatch(b, x, c, f) => ExecuteTry(o, b, x, c, f, st, fuel)
    case Ensure(x, c, e) =>
      (match o.evaluate(c, st)
       case EvalTo(v, st1) =>
         if x == "" then
           (if !IsTruthy(v) then Execute(o, e, st1, fuel) else Normal(st1))
         else if v.Nil? then Execute(o, e, st1, fuel)
         else Normal(Define(st1, x, v))
       case bad => OfEval(bad))
    case Defer(_) => Normal(st)
    case Export => Raised(ExportSignal, st)
  }

  function ExecuteSeq(o: Oracle, ss: seq<Stmt>, st: State, fuel: nat): Result
    decreases fuel, 1, |ss|
  {
    if ss == [] then Normal(st)
    else
      match Execute(o, ss[0], st, fuel)
      case Normal(st1) => ExecuteSeq(o, ss[1..], st1, fuel)
      case other => other
  }

  function ExecuteElifs(o: Oracle, els: seq<Elif>, e: Option<Stmt>, st: State, fuel: nat): Result
    decreases fuel, 1, |els|
  {
    if els == [] then (if e.Some? then Execute(o, e.value, st, fuel) else Normal(st))
    else
      match o.evaluate(els[0].condition, st)
      case EvalTo(v, st1) =>
        if IsTruthy(v) then Execute(o, els[0].body, st1, fuel)
        else ExecuteElifs(o, els[1..], e, st1, fuel)
      case bad => OfEval(bad)
  }

  function CatchContinue(r: Result): Result {
    if r.Raised? && r.signal.ContinueSignal? then Normal(r.st) else r
  }

  function CatchBreak(r: Result): Result {
    if r.Raised? && r.signal.BreakSignal? then Normal(r.st) else r
  }

  function ExecuteWhile(o: Oracle, c: Expr, b: Stmt, st: State, fuel: nat): Result
    decreases fuel, 3
  {
    if fuel == 0 then Unfinished
    else
      match o.evaluate(c, st)
      case EvalTo(v, st1) =>
        if !IsTruthy(v) then Normal(st1)
        else
          (match CatchContinue(Execute(o, b, st1, fuel - 1))
           case Normal(st2) => ExecuteWhile(o, c, b, st2, fuel - 1)
           case other => other)
      case bad => OfEval(bad)
  }

  function ExecuteFor(o: Oracle, it: Value, i: nat, x: string, b: seq<Stmt>, st: State, fuel: nat): Result
    decreases fuel, 3
  {
    if fuel == 0 then Unfinished
    else
      match o.next(it, i, st)
      case IterEnds(st1) => Normal(st1)
      case IterRaises(g, st1) => Raised(g, st1)
      case NextIs(v, st1) =>
        var body := ExecuteSeq(o, b, Define(Enter(o, st1), x, v), fuel - 1);
        match CatchContinue(Leave(body, st1.env))
        case Normal(st2) => ExecuteFor(o, it, i + 1, x, b, st2, fuel - 1)
        case other => other
  }

  function ExecuteTry(o: Oracle, b: Stmt, x: string, c: seq<Stmt>, f: Option<Stmt>, st: State, fuel: nat): Result
    decreases fuel, 3
  {
    var tried := Execute(o, b, st, fuel);
    var caught :=
      if tried.Raised? && (tried.signal.ThrowSignal? || tried.signal.RuntimeError?) then
        Leave(ExecuteSeq(o, c, Define(Enter(o, tried.st), x, tried.signal.value), fuel), tried.st.env)
      else tried;
    if caught.Unfinished? || f.None? then caught
    else
      match Execute(o, f.value, caught.st, fuel)
      case Normal(st2) => if caught.Normal? then Normal(st2) else Raised(caught.signal, st2)
      case other => other
  }

  // ---------------------------------------------------------------------------
  // Which statements never complete
  // ---------------------------------------------------------------------------

  /** Control never gets past the statement: a jump; a block with such a statement anywhere
      in it; an if whose branches are all of this kind; a try whose `finally` is, or whose
      tried statement and handler both are. */
  predicate Diverts(s: Stmt) {
    match s
    case Return(_) => true
    case Throw(_) => true
    case Break => true
    case Continue => true
    case Export => true
    case Block(ss) => exists i | 0 <= i < |ss| :: Diverts(ss[i])
    case If(_, t, els, e) =>
      && e.Some?
      && Diverts(t)
      && (forall i | 0 <= i < |els| :: Diverts(els[i].body))
      && Diverts(e.value)
    case TryCatch(b, _, c, f) =>
      || (f.Some? && Diverts(f.value))
      || (Diverts(b) && exists i | 0 <= i < |c| :: Diverts(c[i]))
    case _ => false
  }

  lemma {:induction false} DivertingNeverFallsThrough(o: Oracle, s: Stmt, st: State, fuel: nat)
    requires Diverts(s)
    ensures !Execute(o, s, st, fuel).Normal?
    decreases fuel, 0
  {
    if fuel > 0 && o.checkInterrupt(st).EvalTo? {
      var st1 := o.checkInterrupt(st).st;
      match s
      case Block(ss) => BlockNeverFallsThrough(o, ss, Enter(o, st1), fuel - 1);
      case If(c, t, els, e) =>
        if o.evaluate(c, st1).EvalTo? {
          var st2 := o.evaluate(c, st1).st;
          DivertingNeverFallsThrough(o, t, st2, fuel - 1);
          ElifsNeverFallThrough(o, els, e, st2, fuel - 1);
        }
      case TryCatch(b, x, c, f) => TryNeverFallsThrough(o, b, x, c, f, st1, fuel - 1);
      case _ =>
    }
  }

  lemma {:induction false} BlockNeverFallsThrough(o: Oracle, ss: seq<Stmt>, st: State, fuel: nat)
    requires exists i | 0 <= i < |ss| :: Diverts(ss[i])
    ensures !ExecuteSeq(o, ss, st, fuel).Normal?
    decreases fuel, 1, |ss|
  {
    if Diverts(ss[0]) {
      DivertingNeverFallsThrough(o, ss[0], st, fuel);
    } else if Execute(o, ss[0], st, fuel).Normal? {
      var i :| 0 <= i < |ss| && Diverts(ss[i]);
      assert ss[1..][i - 1] == ss[i];
      BlockNeverFallsThrough(o, ss[1..], Execute(o, ss[0], st, fuel).st, fuel);
    }
  }

  lemma {:induction false} ElifsNeverFallThrough(o: Oracle, els: seq<Elif>, e: Option<Stmt>, st: State, fuel: nat)
    requires e.Some? && Diverts(e.value)
    requires forall i | 0 <= i < |els| :: Diverts(els[i].body)
    ensures !ExecuteElifs(o, els, e, st, fuel).Normal?
    decreases fuel, 1, |els|
  {
    if els == [] {
      DivertingNeverFallsThrough(o, e.value, st, fuel);
    } else if o.evaluate(els[0].condition, st).EvalTo? {
      var st1 := o.evaluate(els[0].condition, st).st;
      DivertingNeverFallsThrough(o, els[0].body, st1, fuel);
      ElifsNeverFallThrough(o, els[1..], e, st1, fuel);
    }
  }

  lemma {:induction false} TryNeverFallsThrough(o: Oracle, b: Stmt, x: string, c: seq<Stmt>, f: Option<Stmt>,
                                                st: State, fuel: nat)
    requires (f.Some? && Diverts(f.value)) || (Diverts(b) && exists i | 0 <= i < |c| :: Diverts(c[i]))
    ensures !ExecuteTry(o, b, x, c, f, st, fuel).Normal?
    decreases fuel, 3
  {
    var tried := Execute(o, b, st, fuel);
    var caught := tried;
    if tried.Raised? && (tried.signal.ThrowSignal? || tried.signal.RuntimeError?) {
      var st1 := Define(Enter(o, tried.st), x, tried.signal.value);
      caught := Leave(ExecuteSeq(o, c, st1, fuel), tried.st.env);
      if exists i | 0 <= i < |c| :: Diverts(c[i]) { BlockNeverFallsThrough(o, c, st1, fuel); }
    }
    if f.Some? && Diverts(f.value) {
      if !caught.Unfinished? { DivertingNeverFallsThrough(o, f.value, caught.st, fuel); }
    } else {
      DivertingNeverFallsThrough(o, b, st, fuel);
    }
  }

  // ---------------------------------------------------------------------------
  // The check is sound
  // ---------------------------------------------------------------------------

  lemma {:induction false} TerminatorDiverts(s: Stmt)
    requires StmtTerminates(s)
    ensures Diverts(s)
  {
    match s
    case Block(ss) => TerminatorDiverts(ss[|ss| - 1]);
    case If(_, t, els, e) =>
      TerminatorDiverts(t);
      TerminatorDiverts(e.value);
      forall i | 0 <= i < |els|
        ensures Diverts(els[i].body)
      {
        TerminatorDiverts(els[i].body);
      }
    case _ =>
  }

  /** A statement that passes the check never completes normally. */
  lemma TerminatorNeverFallsThrough(o: Oracle, s: Stmt, st: State, fuel: nat)
    requires StmtTerminates(s)
    ensures !Execute(o, s, st, fuel).Normal?
  {
    TerminatorDiverts(s);
    DivertingNeverFallsThrough(o, s, st, fuel);
  }

  // ---------------------------------------------------------------------------
  // What it means to get past an `ensure`
  // ---------------------------------------------------------------------------

  /** From `st`, the guard of `g` held and left the state `after`: the condition was truthy,
      or in the `let` form the value was not nil and is what the name is bound to. */
  ghost predicate GuardHeld(o: Oracle, g: Stmt, st: State, after: State)
    requires g.Ensure?
  {
    var tick := o.checkInterrupt(st);
    && tick.EvalTo?
    && var v := o.evaluate(g.guard, tick.st);
       && v.EvalTo?
       && (if g.bindingName == "" then IsTruthy(v.value) && after == v.st
           else !v.value.Nil? && after == Define(v.st, g.bindingName, v.value))
  }

  /** An accepted `ensure` completes normally exactly when its guard held. */
  lemma EnsureIsAGuard(o: Oracle, g: Stmt, st: State, after: State, fuel: nat)
    requires g.Ensure? && Accepted(g) && fuel > 0
    ensures Execute(o, g, st, fuel) == Normal(after) <==> GuardHeld(o, g, st, after)
  {
    if o.checkInterrupt(st).EvalTo? {
      var st1 := o.checkInterrupt(st).st;
      if o.evaluate(g.guard, st1).EvalTo? {
        TerminatorNeverFallsThrough(o, g.elseBody, o.evaluate(g.guard, st1).st, fuel - 1);
      }
    }
  }

  /** The `let` form leaves the name bound to the value. */
  lemma EnsureLetBinds(o: Oracle, g: Stmt, st: State, after: State, fuel: nat)
    requires g.Ensure? && Accepted(g) && g.bindingName != ""
    requires Execute(o, g, st, fuel) == Normal(after)
    ensures Lookup(after, g.bindingName).Some? && !Lookup(after, g.bindingName).value.Nil?
  {
    EnsureIsAGuard(o, g, st, after, fuel);
  }

  /** Running a sequence is running its first part and then, if that completed normally,
      the rest. */
  lemma {:induction false} SeqSplits(o: Oracle, a: seq<Stmt>, b: seq<Stmt>, st: State, fuel: nat)
    ensures ExecuteSeq(o, a + b, st, fuel) ==
            (match ExecuteSeq(o, a, st, fuel)
             case Normal(st1) => ExecuteSeq(o, b, st1, fuel)
             case other => other)
    decreases |a|
  {
    if a == [] {
      assert a + b == b;
    } else {
      assert (a + b)[1..] == a[1..] + b;
      if Execute(o, a[0], st, fuel).Normal? {
        SeqSplits(o, a[1..], b, Execute(o, a[0], st, fuel).st, fuel);
      }
    }
  }

  /** Code after an `ensure` in its block runs only from a state in which the guard held:
      the block either runs `rest` from such a state, or ends before reaching it. */
  lemma CodeAfterEnsureIsGuarded(o: Oracle, before: seq<Stmt>, g: Stmt, rest: seq<Stmt>, st: State, fuel: nat)
    requires g.Ensure? && Accepted(g) && fuel > 0
    ensures
      var whole := ExecuteSeq(o, before + [g] + rest, st, fuel);
      match ExecuteSeq(o, before, st, fuel)
      case Normal(st1) =>
        (exists st2 :: GuardHeld(o, g, st1, st2) && whole == ExecuteSeq(o, rest, st2, fuel))
        || (!Execute(o, g, st1, fuel).Normal? && whole == Execute(o, g, st1, fuel))
      case other => whole == other
  {
    SeqSplits(o, before + [g], rest, st, fuel);
    SeqSplits(o, before, [g], st, fuel);
    if ExecuteSeq(o, before, st, fuel).Normal? {
      var st1 := ExecuteSeq(o, before, st, fuel).st;
      var r := Execute(o, g, st1, fuel);
      assert ExecuteSeq(o, [g], st1, fuel) == r by {
        if r.Normal? { assert [g][1..] == []; }
      }
      if r.Normal? { EnsureIsAGuard(o, g, st1, r.st, fuel); }
    }
  }

  // ---------------------------------------------------------------------------
  // The step budget only cuts runs short
  // ---------------------------------------------------------------------------

  /** A run that finishes gives the same result with any larger budget. */
  lemma {:induction false} MoreFuelSameResult(o: Oracle, s: Stmt, st: State, fuel: nat, more: nat)
    requires fuel <= more && !Execute(o, s, st, fuel).Unfinished?
    ensures Execute(o, s, st, more) == Execute(o, s, st, fuel)
    decreases fuel, 0
  {
    if fuel > 0 && o.checkInterrupt(st).EvalTo? {
      StmtMoreFuel(o, s, o.checkInterrupt(st).st, fuel - 1, more - 1);
    }
  }

  lemma {:induction false} StmtMoreFuel(o: Oracle, s: Stmt, st: State, fuel: nat, more: nat)
    requires fuel <= more && !ExecuteStmt(o, s, st, fuel).Unfinished?
    ensures ExecuteStmt(o, s, st, more) == ExecuteStmt(o, s, st, fuel)
    decreases fuel, 4
  {
    match s
    case Block(ss) => SeqMoreFuel(o, ss, Enter(o, st), fuel, more);
    case If(c, t, els, e) =>
      if o.evaluate(c, st).EvalTo? {
        var st1 := o.evaluate(c, st).st;
        if IsTruthy(o.evaluate(c, st).value) {
          MoreFuelSameResult(o, t, st1, fuel, more);
        } else {
          ElifsMoreFuel(o, els, e, st1, fuel, more);
        }
      }
    case While(c, b) => WhileMoreFuel(o, c, b, st, fuel, more);
    case ForIn(it, x, b) =>
      if o.evaluate(it, st).EvalTo? {
        ForMoreFuel(o, o.evaluate(it, st).value, 0, x, b, o.evaluate(it, st).st, fuel, more);
      }
    case TryCatch(b, x, c, f) => TryMoreFuel(o, b, x, c, f, st, fuel, more);
    case Ensure(x, c, e) =>
      if o.evaluate(c, st).EvalTo? {
        var v := o.evaluate(c, st).value;
        if (if x == "" then !IsTruthy(v) else v.Nil?) {
          MoreFuelSameResult(o, e, o.evaluate(c, st).st, fuel, more);
        }
      }
    case _ =>
  }

  lemma {:induction false} SeqMoreFuel(o: Oracle, ss: seq<Stmt>, st: State, fuel: nat, more: nat)
    requires fuel <= more && !ExecuteSeq(o, ss, st, fuel).Unfinished?
    ensures ExecuteSeq(o, ss, st, more) == ExecuteSeq(o, ss, st, fuel)
    decreases fuel, 1, |ss|
  {
    if ss != [] {
      MoreFuelSameResult(o, ss[0], st, fuel, more);
      if Execute(o, ss[0], st, fuel).Normal? {
        SeqMoreFuel(o, ss[1..], Execute(o, ss[0], st, fuel).st, fuel, more);
      }
    }
  }

  lemma {:induction false} ElifsMoreFuel(o: Oracle, els: seq<Elif>, e: Option<Stmt>, st: State, fuel: nat, more: nat)
    requires fuel <= more && !ExecuteElifs(o, els, e, st, fuel).Unfinished?
    ensures ExecuteElifs(o, els, e, st, more) == ExecuteElifs(o, els, e, st, fuel)
    decreases fuel, 1, |els|
  {
    if els == [] {
      if e.Some? { MoreFuelSameResult(o, e.value, st, fuel, more); }
    } else if o.evaluate(els[0].condition, st).EvalTo? {
      var st1 := o.evaluate(els[0].condition, st).st;
      if IsTruthy(o.evaluate(els[0].condition, st).value) {
        MoreFuelSameResult(o, els[0].body, st1, fuel, more);
      } else {
        ElifsMoreFuel(o, els[1..], e, st1, fuel, more);
      }
    }
  }

  lemma {:induction false} WhileMoreFuel(o: Oracle, c: Expr, b: Stmt, st: State, fuel: nat, more: nat)
    requires fuel <= more && !ExecuteWhile(o, c, b, st, fuel).Unfinished?
    ensures ExecuteWhile(o, c, b, st, more) == ExecuteWhile(o, c, b, st, fuel)
    decreases fuel, 3
  {
    if o.evaluate(c, st).EvalTo? && IsTruthy(o.evaluate(c, st).value) {
      var st1 := o.evaluate(c, st).st;
      MoreFuelSameResult(o, b, st1, fuel - 1, more - 1);
      var r := CatchContinue(Execute(o, b, st1, fuel - 1));
      if r.Normal? { WhileMoreFuel(o, c, b, r.st, fuel - 1, more - 1); }
    }
  }

  lemma {:induction false} ForMoreFuel(o: Oracle, it: Value, i: nat, x: string, b: seq<Stmt>,
                                        st: State, fuel: nat, more: nat)
    requires fuel <= more && !ExecuteFor(o, it, i, x, b, st, fuel).Unfinished?
    ensures ExecuteFor(o, it, i, x, b, st, more) == ExecuteFor(o, it, i, x, b, st, fuel)
    decreases fuel, 3
  {
    var n := o.next(it, i, st);
    if n.NextIs? {
      var st1 := Define(Enter(o, n.st), x, n.value);
      SeqMoreFuel(o, b, st1, fuel - 1, more - 1);
      var r := CatchContinue(Leave(ExecuteSeq(o, b, st1, fuel - 1), n.st.env));
      if r.Normal? { ForMoreFuel(o, it, i + 1, x, b, r.st, fuel - 1, more - 1); }
    }
  }

  lemma {:induction false} TryMoreFuel(o: Oracle, b: Stmt, x: string, c: seq<Stmt>, f: Option<Stmt>,
                                        st: State, fuel: nat, more: nat)
    requires fuel <= more && !ExecuteTry(o, b, x, c, f, st, fuel).Unfinished?
    ensures ExecuteTry(o, b, x, c, f, st, more) == ExecuteTry(o, b, x, c, f, st, fuel)
    decreases fuel, 3
  {
    MoreFuelSameResult(o, b, st, fuel, more);
    var tried := Execute(o, b, st, fuel);
    var caught := tried;
    if tried.Raised? && (tried.signal.ThrowSignal? || tried.signal.RuntimeError?) {
      var st1 := Define(Enter(o, tried.st), x, tried.signal.value);
      SeqMoreFuel(o, c, st1, fuel, more);
      caught := Leave(ExecuteSeq(o, c, st1, fuel), tried.st.env);
    }
    if f.Some? && !caught.Unfinished? {
      MoreFuelSameResult(o, f.value, caught.st, fuel, more);
    }
  }

  // ---------------------------------------------------------------------------
  // A way through every other statement
  // ---------------------------------------------------------------------------

  /** The next entry of a script, counted by the world. */
  function Next(script: seq<bool>, st: State): bool {
    0 <= st.world < |script| && script[st.world]
  }

  /** An oracle that follows a script: each evaluation gives the truth value it says next,
      each interrupt check raises an error when it says so, and iterators are empty. */
  function Scripted(script: seq<bool>): Oracle {
    Oracle(
      (e, st: State) => EvalTo(Bool(Next(script, st)), st.(world := st.world + 1)),
      (st: State) =>
        if Next(script, st) then EvalRaises(RuntimeError(Nil), st.(world := st.world + 1))
        else EvalTo(Nil, st.(world := st.world + 1)),
      (v, i, st) => IterEnds(st),
      st => 0)
  }

  /** The script says `bits` next. */
  predicate Says(script: seq<bool>, st: State, bits: seq<bool>) {
    0 <= st.world && st.world + |bits| <= |script| &&
    script[st.world..st.world + |bits|] == bits
  }

  lemma SaysSplit(script: seq<bool>, st: State, a: seq<bool>, b: seq<bool>, st': State)
    requires Says(script, st, a + b) && st'.world == st.world + |a|
    ensures Says(script, st, a) && Says(script, st', b)
  {
    assert script[st.world..st.world + |a + b|][..|a|] == script[st.world..st.world + |a|];
    assert script[st.world..st.world + |a + b|][|a|..] == script[st'.world..st'.world + |b|];
  }

  lemma SaysFirst(script: seq<bool>, st: State, bit: bool, rest: seq<bool>, st': State)
    requires Says(script, st, [bit] + rest) && st'.world == st.world + 1
    ensures Next(script, st) == bit && Says(script, st', rest)
  {
    SaysSplit(script, st, [bit], rest, st');
    assert script[st.world..st.world + 1][0] == bit;
  }

  ghost predicate Ran(r: Result, st: State, bits: seq<bool>) {
    r.Normal? && r.st.world == st.world + |bits|
  }

  /** With the script `bits`, the statement completes normally from any state. */
  ghost predicate Falls(s: Stmt, bits: seq<bool>, fuel: nat) {
    forall script, st, f {:trigger Execute(Scripted(script), s, st, f)}
      | f >= fuel && Says(script, st, bits) :: Ran(Execute(Scripted(script), s, st, f), st, bits)
  }

  /** The same after the interrupt check. */
  ghost predicate StmtFalls(s: Stmt, bits: seq<bool>, fuel: nat) {
    forall script, st, f {:trigger ExecuteStmt(Scripted(script), s, st, f)}
      | f >= fuel && Says(script, st, bits) :: Ran(ExecuteStmt(Scripted(script), s, st, f), st, bits)
  }

  ghost predicate SeqFalls(ss: seq<Stmt>, bits: seq<bool>, fuel: nat) {
    forall script, st, f {:trigger ExecuteSeq(Scripted(script), ss, st, f)}
      | f >= fuel && Says(script, st, bits) :: Ran(ExecuteSeq(Scripted(script), ss, st, f), st, bits)
  }

  ghost predicate ElifsFall(els: seq<Elif>, e: Option<Stmt>, bits: seq<bool>, fuel: nat) {
    forall script, st, f {:trigger ExecuteElifs(Scripted(script), els, e, st, f)}
      | f >= fuel && Says(script, st, bits) :: Ran(ExecuteElifs(Scripted(script), els, e, st, f), st, bits)
  }

  lemma AfterTheCheck(s: Stmt, bits: seq<bool>, fuel: nat)
    requires StmtFalls(s, bits, fuel)
    ensures Falls(s, [false] + bits, fuel + 1)
  {
    forall script, st, f | f >= fuel + 1 && Says(script, st, [false] + bits)
      ensures Ran(Execute(Scripted(script), s, st, f), st, [false] + bits)
    {
      var o, st1 := Scripted(script), st.(world := st.world + 1);
      SaysFirst(script, st, false, bits, st1);
      assert Ran(ExecuteStmt(o, s, st1, f - 1), st1, bits);
    }
  }

  /** A statement that does not divert has a script with which it completes normally. */
  lemma {:induction false} FindWayThrough(s: Stmt) returns (bits: seq<bool>, fuel: nat)
    requires !Diverts(s)
    ensures Falls(s, bits, fuel)
    decreases s, 1
  {
    OthersFall(s);
    bits, fuel := [true], 1;
    match s {
      case Block(ss) =>
        bits, fuel := FindWayThroughSeq(ss);
        BlockFalls(ss, bits, fuel);
      case If(c, t, els, e) =>
        if !Diverts(t) {
          bits, fuel := FindWayThrough(t);
          ThenFalls(c, t, els, e, bits, fuel);
          bits := [true] + bits;
        } else {
          bits, fuel := FindWayThroughElifs(s, 0);
          assert els[0..] == els;
          ElseFalls(c, t, els, e, bits, fuel);
          bits := [false] + bits;
        }
      case TryCatch(b, x, c, f) =>
        var more: seq<bool>, least := [], 0;
        if f.Some? { more, least := FindWayThrough(f.value); }
        if !Diverts(b) {
          bits, fuel := FindWayThrough(b);
          TriedFalls(b, x, c, f, bits, fuel, more, least);
          bits, fuel := bits + more, fuel + least;
        } else {
          bits, fuel := FindWayThroughSeq(c);
          CaughtFalls(b, x, c, f, bits, fuel, more, least);
          bits, fuel := [true] + (bits + more), fuel + least + 1;
        }
      case Let(_, init) =>
        bits, fuel := if init.None? then [] else [true], 0;
      case Defer(_) =>
        bits, fuel := [], 0;
      case While(_, _) =>
        bits, fuel := [false], 1;
        WhileFalls(s);
      case _ =>
    }
    AfterTheCheck(s, bits, fuel);
    bits, fuel := [false] + bits, fuel + 1;
  }

  lemma WhileFalls(s: Stmt)
    requires s.While?
    ensures StmtFalls(s, [false], 1)
  {
    forall script, st, f | f >= 1 && Says(script, st, [false])
      ensures Ran(ExecuteStmt(Scripted(script), s, st, f), st, [false])
    {
      SaysFirst(script, st, false, [], st.(world := st.world + 1));
    }
  }

  /** One evaluation that succeeds. */
  lemma OthersFall(s: Stmt)
    ensures s.ExprStmt? || s.Declare? || s.ForIn? || s.Ensure? ==> StmtFalls(s, [true], 1)
  {
    forall script, st, f | (s.ExprStmt? || s.Declare? || s.ForIn? || s.Ensure?)
                           && f >= 1 && Says(script, st, [true])
      ensures Ran(ExecuteStmt(Scripted(script), s, st, f), st, [true])
    {
      SaysFirst(script, st, true, [], st.(world := st.world + 1));
    }
  }

  lemma BlockFalls(ss: seq<Stmt>, bits: seq<bool>, fuel: nat)
    requires SeqFalls(ss, bits, fuel)
    ensures StmtFalls(Block(ss), bits, fuel)
  {
    forall script, st, f | f >= fuel && Says(script, st, bits)
      ensures Ran(ExecuteStmt(Scripted(script), Block(ss), st, f), st, bits)
    {
      var o := Scripted(script);
      assert Says(script, Enter(o, st), bits);
      assert Ran(ExecuteSeq(o, ss, Enter(o, st), f), Enter(o, st), bits);
    }
  }

  lemma ThenFalls(c: Expr, t: Stmt, els: seq<Elif>, e: Option<Stmt>, bits: seq<bool>, fuel: nat)
    requires Falls(t, bits, fuel)
    ensures StmtFalls(If(c, t, els, e), [true] + bits, fuel)
  {
    forall script, st, f | f >= fuel && Says(script, st, [true] + bits)
      ensures Ran(ExecuteStmt(Scripted(script), If(c, t, els, e), st, f), st, [true] + bits)
    {
      var o, st1 := Scripted(script), st.(world := st.world + 1);
      SaysFirst(script, st, true, bits, st1);
      assert Ran(Execute(o, t, st1, f), st1, bits);
    }
  }

  lemma ElseFalls(c: Expr, t: Stmt, els: seq<Elif>, e: Option<Stmt>, bits: seq<bool>, fuel: nat)
    requires ElifsFall(els, e, bits, fuel)
    ensures StmtFalls(If(c, t, els, e), [false] + bits, fuel)
  {
    forall script, st, f | f >= fuel && Says(script, st, [false] + bits)
      ensures Ran(ExecuteStmt(Scripted(script), If(c, t, els, e), st, f), st, [false] + bits)
    {
      var o, st1 := Scripted(script), st.(world := st.world + 1);
      SaysFirst(script, st, false, bits, st1);
      assert Ran(ExecuteElifs(o, els, e, st1, f), st1, bits);
    }
  }

  /** The tried statement completes, then the `finally`. */
  lemma TriedFalls(b: Stmt, x: string, c: seq<Stmt>, f: Option<Stmt>, bits: seq<bool>, fuel: nat,
                   more: seq<bool>, least: nat)
    requires Falls(b, bits, fuel) && if f.Some? then Falls(f.value, more, least) else more == []
    ensures StmtFalls(TryCatch(b, x, c, f), bits + more, fuel + least)
  {
    forall script, st, n | n >= fuel + least && Says(script, st, bits + more)
      ensures Ran(ExecuteStmt(Scripted(script), TryCatch(b, x, c, f), st, n), st, bits + more)
    {
      var o := Scripted(script);
      SaysSplit(script, st, bits, more, st.(world := st.world + |bits|));
      var tried := Execute(o, b, st, n);
      assert Ran(tried, st, bits);
      SaysSplit(script, st, bits, more, tried.st);
      if f.Some? { assert Ran(Execute(o, f.value, tried.st, n), tried.st, more); }
    }
  }

  /** The tried statement is interrupted by an error, and the handler completes. */
  lemma CaughtFalls(b: Stmt, x: string, c: seq<Stmt>, f: Option<Stmt>, bits: seq<bool>, fuel: nat,
                    more: seq<bool>, least: nat)
    requires SeqFalls(c, bits, fuel) && if f.Some? then Falls(f.value, more, least) else more == []
    ensures StmtFalls(TryCatch(b, x, c, f), [true] + (bits + more), fuel + least + 1)
  {
    forall script, st, n | n >= fuel + least + 1 && Says(script, st, [true] + (bits + more))
      ensures Ran(ExecuteStmt(Scripted(script), TryCatch(b, x, c, f), st, n), st, [true] + (bits + more))
    {
      var o, st1 := Scripted(script), st.(world := st.world + 1);
      SaysFirst(script, st, true, bits + more, st1);
      assert Execute(o, b, st, n) == Raised(RuntimeError(Nil), st1);
      var st2 := Define(Enter(o, st1), x, Nil);
      SaysSplit(script, st2, bits, more, st2.(world := st2.world + |bits|));
      assert Ran(ExecuteSeq(o, c, st2, n), st2, bits);
      var caught := Leave(ExecuteSeq(o, c, st2, n), st1.env);
      SaysSplit(script, st1, bits, more, caught.st);
      if f.Some? { assert Ran(Execute(o, f.value, caught.st, n), caught.st, more); }
    }
  }

  lemma {:induction false} FindWayThroughSeq(ss: seq<Stmt>) returns (bits: seq<bool>, fuel: nat)
    requires forall i | 0 <= i < |ss| :: !Diverts(ss[i])
    ensures SeqFalls(ss, bits, fuel)
    decreases ss, 2
  {
    if ss == [] {
      bits, fuel := [], 0;
    } else {
      var b1, f1 := FindWayThrough(ss[0]);
      var b2, f2 := FindWayThroughSeq(ss[1..]);
      bits, fuel := b1 + b2, if f1 >= f2 then f1 else f2;
      forall script, st, f | f >= fuel && Says(script, st, bits)
        ensures Ran(ExecuteSeq(Scripted(script), ss, st, f), st, bits)
      {
        var o := Scripted(script);
        SaysSplit(script, st, b1, b2, st.(world := st.world + |b1|));
        assert Ran(Execute(o, ss[0], st, f), st, b1);
        var st1 := Execute(o, ss[0], st, f).st;
        SaysSplit(script, st, b1, b2, st1);
        assert Ran(ExecuteSeq(o, ss[1..], st1, f), st1, b2);
      }
    }
  }

  lemma {:induction false} FindWayThroughElifs(s: Stmt, k: nat) returns (bits: seq<bool>, fuel: nat)
    requires s.If? && k <= |s.elifs|
    requires s.elseBranch.None? || !Diverts(s.elseBranch.value)
             || exists i | k <= i < |s.elifs| :: !Diverts(s.elifs[i].body)
    ensures ElifsFall(s.elifs[k..], s.elseBranch, bits, fuel)
    decreases s, 0, |s.elifs| - k
  {
    var els, e := s.elifs[k..], s.elseBranch;
    if els == [] {
      if e.None? {
        bits, fuel := [], 0;
      } else {
        bits, fuel := FindWayThrough(e.value);
        forall script, st, f | f >= fuel && Says(script, st, bits)
          ensures Ran(ExecuteElifs(Scripted(script), els, e, st, f), st, bits)
        {
          assert Ran(Execute(Scripted(script), e.value, st, f), st, bits);
        }
      }
    } else {
      var rest;
      var taken := !Diverts(s.elifs[k].body);
      if taken {
        rest, fuel := FindWayThrough(s.elifs[k].body);
      } else {
        rest, fuel := FindWayThroughElifs(s, k + 1);
      }
      bits := [taken] + rest;
      assert els[1..] == s.elifs[k + 1..];
      forall script, st, f | f >= fuel && Says(script, st, bits)
        ensures Ran(ExecuteElifs(Scripted(script), els, e, st, f), st, bits)
      {
        var o, st1 := Scripted(script), st.(world := st.world + 1);
        SaysFirst(script, st, taken, rest, st1);
        if taken {
          assert Ran(Execute(o, els[0].body, st1, f), st1, rest);
        } else {
          assert Ran(ExecuteElifs(o, els[1..], e, st1, f), st1, rest);
        }
      }
    }
  }

  /** For every statement: an execution that completes normally, unless it diverts. */
  lemma WayThrough(s: Stmt) returns (o: Oracle, st: State, fuel: nat)
    requires !Diverts(s)
    ensures Execute(o, s, st, fuel).Normal?
  {
    var bits;
    bits, fuel := FindWayThrough(s);
    st := State(0, map[], 0);
    o := Scripted(bits);
    assert Says(bits, st, bits);
    assert Ran(Execute(Scripted(bits), s, st, fuel), st, bits);
  }

  // ---------------------------------------------------------------------------
  // Where the check is exact
  // ---------------------------------------------------------------------------

  ghost predicate NeverCompletes(s: Stmt) {
    forall o, st, fuel {:trigger Execute(o, s, st, fuel)} :: !Execute(o, s, st, fuel).Normal?
  }

  /** The statements that never complete normally, whatever expressions do, are those that
      divert. */
  lemma NeverCompletesExactlyWhen(s: Stmt)
    ensures NeverCompletes(s) <==> Diverts(s)
  {
    if Diverts(s) {
      forall o, st, fuel
        ensures !Execute(o, s, st, fuel).Normal?
      {
        DivertingNeverFallsThrough(o, s, st, fuel);
      }
    } else {
      var o, st, fuel := WayThrough(s);
    }
  }

  /** The check tells whether a statement never completes, if and only if it is not one that
      diverts and is rejected all the same. */
  lemma CheckIsExact(s: Stmt)
    ensures (StmtTerminates(s) <==> NeverCompletes(s)) <==> (Diverts(s) ==> StmtTerminates(s))
  {
    NeverCompletesExactlyWhen(s);
    if StmtTerminates(s) { TerminatorDiverts(s); }
  }

  /** Blocks and ifs over simple statements and jumps, in which nothing follows a statement
      that diverts. */
  predicate Straight(s: Stmt) {
    match s
    case Block(ss) =>
      && (forall i | 0 <= i < |ss| :: Straight(ss[i]))
      && (forall i | 0 <= i < |ss| - 1 :: !Diverts(ss[i]))
    case If(_, t, els, e) =>
      && Straight(t)
      && (forall i | 0 <= i < |els| :: Straight(els[i].body))
      && (e.Some? ==> Straight(e.value))
    case TryCatch(_, _, _, _) => false
    case Export => false
    case _ => true
  }

  /** There the check is exact. */
  lemma {:induction false} StraightIsExact(s: Stmt)
    requires Straight(s)
    ensures StmtTerminates(s) <==> Diverts(s)
  {
    match s
    case Block(ss) =>
      if ss != [] { StraightIsExact(ss[|ss| - 1]); }
    case If(_, t, els, e) =>
      StraightIsExact(t);
      if e.Some? { StraightIsExact(e.value); }
      forall i | 0 <= i < |els|
        ensures StmtTerminates(els[i].body) <==> Diverts(els[i].body)
      {
        StraightIsExact(els[i].body);
      }
    case _ =>
  }

  function ReturnThenCode(): Stmt {
    Block([Return(None), ExprStmt(Expr(0))])
  }

  function ReturnsBothWays(): Stmt {
    TryCatch(Return(None), "e", [Return(None)], None)
  }

  /** Rejected although no execution completes normally: code after a jump in its block, an
      export, and a try that returns on both ways. */
  lemma RejectedThoughDiverting()
    ensures !StmtTerminates(ReturnThenCode()) && NeverCompletes(ReturnThenCode())
    ensures !StmtTerminates(Export) && NeverCompletes(Export)
    ensures !StmtTerminates(ReturnsBothWays()) && NeverCompletes(ReturnsBothWays())
  {
    var s, t := ReturnThenCode(), ReturnsBothWays();
    assert Diverts(s.statements[0]) && !StmtTerminates(s.statements[1]);
    assert Diverts(t.catchBody[0]);
    NeverCompletesExactlyWhen(s);
    NeverCompletesExactlyWhen(Export);
    NeverCompletesExactlyWhen(t);
  }
}
