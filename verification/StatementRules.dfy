/** What each statement of the tree-walking executor does (src/interpreter.cpp, `execute`),
    as rules about how executions end. The rules do not mention the step budget: an
    execution ends as `r` if it does so within some number of steps. */
module StatementRules {
  import opened Wrappers
  import opened EnsureGuard

  ghost predicate Ends(o: Oracle, s: Stmt, st: State, r: Result) {
    !r.Unfinished? && exists fuel {:trigger Execute(o, s, st, fuel)} :: Execute(o, s, st, fuel) == r
  }

  ghost predicate SeqEnds(o: Oracle, ss: seq<Stmt>, st: State, r: Result) {
    !r.Unfinished? && exists fuel {:trigger ExecuteSeq(o, ss, st, fuel)} :: ExecuteSeq(o, ss, st, fuel) == r
  }

  ghost predicate LoopEnds(o: Oracle, c: Expr, b: Stmt, st: State, r: Result) {
    !r.Unfinished? && exists fuel {:trigger ExecuteWhile(o, c, b, st, fuel)} :: ExecuteWhile(o, c, b, st, fuel) == r
  }

  ghost predicate ForEnds(o: Oracle, it: Value, i: nat, x: string, b: seq<Stmt>, st: State, r: Result) {
    && !r.Unfinished?
    && exists fuel {:trigger ExecuteFor(o, it, i, x, b, st, fuel)} :: ExecuteFor(o, it, i, x, b, st, fuel) == r
  }

  lemma EndsFrom(o: Oracle, s: Stmt, st: State, r: Result) returns (least: nat)
    requires Ends(o, s, st, r)
    ensures forall fuel | fuel >= least :: Execute(o, s, st, fuel) == r
  {
    least :| Execute(o, s, st, least) == r;
    forall fuel | fuel >= least
      ensures Execute(o, s, st, fuel) == r
    {
      MoreFuelSameResult(o, s, st, least, fuel);
    }
  }

  lemma SeqEndsFrom(o: Oracle, ss: seq<Stmt>, st: State, r: Result) returns (least: nat)
    requires SeqEnds(o, ss, st, r)
    ensures forall fuel | fuel >= least :: ExecuteSeq(o, ss, st, fuel) == r
  {
    least :| ExecuteSeq(o, ss, st, least) == r;
    forall fuel | fuel >= least
      ensures ExecuteSeq(o, ss, st, fuel) == r
    {
      SeqMoreFuel(o, ss, st, least, fuel);
    }
  }

  /** An execution ends in one way only. */
  lemma EndsOnce(o: Oracle, s: Stmt, st: State, r: Result, r': Result)
    requires Ends(o, s, st, r) && Ends(o, s, st, r')
    ensures r == r'
  {
    var n := EndsFrom(o, s, st, r);
    var n' := EndsFrom(o, s, st, r');
    assert Execute(o, s, st, n + n') == r == r';
  }

  /** The interrupt check passes. */
  ghost predicate Ticks(o: Oracle, st: State, st': State) {
    o.checkInterrupt(st).EvalTo? && o.checkInterrupt(st).st == st'
  }

  lemma AfterTick(o: Oracle, s: Stmt, st: State, st1: State, fuel: nat, r: Result)
    requires Ticks(o, st, st1) && ExecuteStmt(o, s, st1, fuel) == r && !r.Unfinished?
    ensures Ends(o, s, st, r)
  {
    assert Execute(o, s, st, fuel + 1) == r;
  }

  /** An interrupt ends any statement before it starts. */
  lemma InterruptRule(o: Oracle, s: Stmt, st: State, g: Signal, st1: State)
    requires o.checkInterrupt(st) == EvalRaises(g, st1)
    ensures Ends(o, s, st, Raised(g, st1))
  {
    assert Execute(o, s, st, 1) == Raised(g, st1);
  }

  // ---------------------------------------------------------------------------
  // Jumps and simple statements
  // ---------------------------------------------------------------------------

  /** Jumps raise their signal, with the value of their expression. */
  lemma JumpRules(o: Oracle, st: State, st1: State, e: Expr, v: Value, st2: State)
    requires Ticks(o, st, st1) && o.evaluate(e, st1) == EvalTo(v, st2)
    ensures Ends(o, Return(None), st, Raised(ReturnSignal(Nil), st1))
    ensures Ends(o, Return(Some(e)), st, Raised(ReturnSignal(v), st2))
    ensures Ends(o, Throw(e), st, Raised(ThrowSignal(v), st2))
    ensures Ends(o, Break, st, Raised(BreakSignal, st1)) && Ends(o, Continue, st, Raised(ContinueSignal, st1))
    ensures Ends(o, Export, st, Raised(ExportSignal, st1))
  {
    AfterTick(o, Return(None), st, st1, 0, Raised(ReturnSignal(Nil), st1));
    AfterTick(o, Return(Some(e)), st, st1, 0, Raised(ReturnSignal(v), st2));
    AfterTick(o, Throw(e), st, st1, 0, Raised(ThrowSignal(v), st2));
    AfterTick(o, Break, st, st1, 0, Raised(BreakSignal, st1));
    AfterTick(o, Continue, st, st1, 0, Raised(ContinueSignal, st1));
    AfterTick(o, Export, st, st1, 0, Raised(ExportSignal, st1));
  }

  /** `name` is bound in the current environment, and nothing else changes. */
  ghost predicate Binds(st: State, name: string, v: Value, st': State) {
    && Lookup(st', name) == Some(v) && st'.env == st.env && st'.world == st.world
    && (forall other | other != name :: Lookup(st', other) == Lookup(st, other))
    && (forall env | env != st.env ::
          (env in st'.vars <==> env in st.vars) && (env in st.vars ==> st'.vars[env] == st.vars[env]))
  }

  lemma DefineBinds(st: State, x: string, v: Value)
    ensures Binds(st, x, v, Define(st, x, v))
  {
  }

  /** Statements that complete: an expression; a declaration, which binds its name; a let
      without a value, which binds nil; a defer, which does nothing yet. */
  lemma SimpleRules(o: Oracle, st: State, st1: State, e: Expr, v: Value, st2: State, x: string)
    requires Ticks(o, st, st1) && o.evaluate(e, st1) == EvalTo(v, st2)
    ensures Ends(o, ExprStmt(e), st, Normal(st2)) && Ends(o, Defer(e), st, Normal(st1))
    ensures exists st3 :: Binds(st2, x, v, st3) &&
                          Ends(o, Let(x, Some(e)), st, Normal(st3)) && Ends(o, Declare(x, e), st, Normal(st3))
    ensures exists st3 :: Binds(st1, x, Nil, st3) && Ends(o, Let(x, None), st, Normal(st3))
  {
    AfterTick(o, ExprStmt(e), st, st1, 0, Normal(st2));
    AfterTick(o, Defer(e), st, st1, 0, Normal(st1));
    AfterTick(o, Let(x, Some(e)), st, st1, 0, Normal(Define(st2, x, v)));
    AfterTick(o, Declare(x, e), st, st1, 0, Normal(Define(st2, x, v)));
    AfterTick(o, Let(x, None), st, st1, 0, Normal(Define(st1, x, Nil)));
    DefineBinds(st2, x, v);
    DefineBinds(st1, x, Nil);
  }

  /** The expression a statement evaluates first. */
  function FirstExpr(s: Stmt): Option<Expr> {
    match s
    case ExprStmt(e) => Some(e)
    case Let(_, init) => init
    case If(c, _, _, _) => Some(c)
    case While(c, _) => Some(c)
    case ForIn(it, _, _) => Some(it)
    case Declare(_, e) => Some(e)
    case Return(e) => e
    case Throw(e) => Some(e)
    case Ensure(_, c, _) => Some(c)
    case _ => None
  }

  /** If evaluating it raises, the statement ends so. */
  lemma RaisingRule(o: Oracle, s: Stmt, st: State, st1: State, g: Signal, st2: State)
    requires Ticks(o, st, st1) && FirstExpr(s).Some? && !g.BreakSignal?
    requires o.evaluate(FirstExpr(s).value, st1) == EvalRaises(g, st2)
    ensures Ends(o, s, st, Raised(g, st2))
  {
    AfterTick(o, s, st, st1, 1, Raised(g, st2));
  }

  // ---------------------------------------------------------------------------
  // Blocks and branches
  // ---------------------------------------------------------------------------

  /** The result `r` in the environment `env`. */
  function InScope(r: Result, env: nat): Result
    requires !r.Unfinished?
  {
    r.(st := r.st.(env := env))
  }

  /** A block runs in an environment of its own; the old one is current again however the
      block ends. */
  lemma BlockRule(o: Oracle, ss: seq<Stmt>, st: State, st1: State, r: Result)
    requires Ticks(o, st, st1) && SeqEnds(o, ss, st1.(env := o.newEnv(st1)), r)
    ensures Ends(o, Block(ss), st, InScope(r, st1.env))
  {
    var n := SeqEndsFrom(o, ss, st1.(env := o.newEnv(st1)), r);
    AfterTick(o, Block(ss), st, st1, n, InScope(r, st1.env));
  }

  /** Statements run in order, up to the first that does not complete. */
  lemma SeqRules(o: Oracle, s: Stmt, ss: seq<Stmt>, st: State, r: Result)
    requires Ends(o, s, st, r)
    ensures SeqEnds(o, [], st, Normal(st))
    ensures r.Raised? ==> SeqEnds(o, [s] + ss, st, r)
    ensures r.Normal? ==> forall r' | SeqEnds(o, ss, r.st, r') :: SeqEnds(o, [s] + ss, st, r')
  {
    assert ExecuteSeq(o, [], st, 0) == Normal(st);
    var n := EndsFrom(o, s, st, r);
    assert ([s] + ss)[1..] == ss;
    if r.Raised? { assert ExecuteSeq(o, [s] + ss, st, n) == r; }
    forall r' | r.Normal? && SeqEnds(o, ss, r.st, r')
      ensures SeqEnds(o, [s] + ss, st, r')
    {
      var m := SeqEndsFrom(o, ss, r.st, r');
      assert ExecuteSeq(o, [s] + ss, st, n + m) == r';
    }
  }

  /** From `ss[0]`, the first `k` conditions evaluate to a false value, one after the other. */
  ghost predicate AllFalse(o: Oracle, els: seq<Elif>, k: nat, ss: seq<State>)
    requires k <= |els| && |ss| == k + 1
  {
    forall i | 0 <= i < k :: IsFalse(o, els[i].condition, ss[i], ss[i + 1])
  }

  ghost predicate IsFalse(o: Oracle, e: Expr, st: State, st': State) {
    var v := o.evaluate(e, st); v.EvalTo? && !IsTruthy(v.value) && v.st == st'
  }

  lemma {:induction false} SkipElifs(o: Oracle, els: seq<Elif>, e: Option<Stmt>, k: nat, ss: seq<State>, fuel: nat)
    requires k <= |els| && |ss| == k + 1 && AllFalse(o, els, k, ss)
    ensures ExecuteElifs(o, els, e, ss[0], fuel) == ExecuteElifs(o, els[k..], e, ss[k], fuel)
    decreases k
  {
    if k > 0 {
      assert els[1..][k - 1..] == els[k..];
      forall i | 0 <= i < k - 1
        ensures IsFalse(o, els[1..][i].condition, ss[1..][i], ss[1..][i + 1])
      {
        assert IsFalse(o, els[i + 1].condition, ss[i + 1], ss[i + 2]);
      }
      assert IsFalse(o, els[0].condition, ss[0], ss[1]);
      SkipElifs(o, els[1..], e, k - 1, ss[1..], fuel);
    }
  }

  /** The branch taken is the one behind the first true condition, the else branch if there
      is none; without an else branch the statement then completes. `ss` are the states
      after the condition of the `if` and of each skipped `elif`. */
  lemma IfRule(o: Oracle, s: Stmt, st: State, st1: State, v: Value, k: nat, ss: seq<State>)
    requires s.If? && Ticks(o, st, st1) && k <= |s.elifs| && |ss| == k + 1
    requires o.evaluate(s.condition, st1) == EvalTo(v, ss[0])
    ensures IsTruthy(v) ==> forall r | Ends(o, s.thenBranch, ss[0], r) :: Ends(o, s, st, r)
    ensures !IsTruthy(v) && AllFalse(o, s.elifs, k, ss) ==>
              && (k < |s.elifs| ==>
                    forall r, w, st2 | o.evaluate(s.elifs[k].condition, ss[k]) == EvalTo(w, st2) && IsTruthy(w)
                                       && Ends(o, s.elifs[k].body, st2, r) :: Ends(o, s, st, r))
              && (k == |s.elifs| && s.elseBranch.Some? ==>
                    forall r | Ends(o, s.elseBranch.value, ss[k], r) :: Ends(o, s, st, r))
              && (k == |s.elifs| && s.elseBranch.None? ==> Ends(o, s, st, Normal(ss[k])))
  {
    if IsTruthy(v) {
      forall r | Ends(o, s.thenBranch, ss[0], r)
        ensures Ends(o, s, st, r)
      {
        var n := EndsFrom(o, s.thenBranch, ss[0], r);
        assert Execute(o, s.thenBranch, ss[0], n) == r;
        AfterTick(o, s, st, st1, n, r);
      }
    } else if AllFalse(o, s.elifs, k, ss) {
      ElseRule(o, s, st, st1, v, k, ss);
    }
  }

  lemma ElseRule(o: Oracle, s: Stmt, st: State, st1: State, v: Value, k: nat, ss: seq<State>)
    requires s.If? && Ticks(o, st, st1) && k <= |s.elifs| && |ss| == k + 1
    requires o.evaluate(s.condition, st1) == EvalTo(v, ss[0]) && !IsTruthy(v) && AllFalse(o, s.elifs, k, ss)
    ensures k < |s.elifs| ==>
              forall r, w, st2 | o.evaluate(s.elifs[k].condition, ss[k]) == EvalTo(w, st2) && IsTruthy(w)
                                 && Ends(o, s.elifs[k].body, st2, r) :: Ends(o, s, st, r)
    ensures k == |s.elifs| && s.elseBranch.Some? ==>
              forall r | Ends(o, s.elseBranch.value, ss[k], r) :: Ends(o, s, st, r)
    ensures k == |s.elifs| && s.elseBranch.None? ==> Ends(o, s, st, Normal(ss[k]))
  {
    forall r, w, st2 | k < |s.elifs| && o.evaluate(s.elifs[k].condition, ss[k]) == EvalTo(w, st2) && IsTruthy(w)
                       && Ends(o, s.elifs[k].body, st2, r)
      ensures Ends(o, s, st, r)
    {
      var n := EndsFrom(o, s.elifs[k].body, st2, r);
      SkipElifs(o, s.elifs, s.elseBranch, k, ss, n);
      AfterTick(o, s, st, st1, n, r);
    }
    if k == |s.elifs| {
      forall r | s.elseBranch.Some? && Ends(o, s.elseBranch.value, ss[k], r)
        ensures Ends(o, s, st, r)
      {
        var n := EndsFrom(o, s.elseBranch.value, ss[k], r);
        SkipElifs(o, s.elifs, s.elseBranch, k, ss, n);
        AfterTick(o, s, st, st1, n, r);
      }
      if s.elseBranch.None? {
        SkipElifs(o, s.elifs, s.elseBranch, k, ss, 0);
        AfterTick(o, s, st, st1, 0, Normal(ss[k]));
      }
    }
  }

  /** An ensure whose condition does not hold ends as its else branch does; otherwise it
      completes, and binds its name if it has one. A bound value only has to be other than
      nil. */
  lemma EnsureRule(o: Oracle, s: Stmt, st: State, st1: State, v: Value, st2: State)
    requires s.Ensure? && Ticks(o, st, st1) && o.evaluate(s.guard, st1) == EvalTo(v, st2)
    ensures (if s.bindingName == "" then !IsTruthy(v) else v == Nil) ==>
              forall r | Ends(o, s.elseBody, st2, r) :: Ends(o, s, st, r)
    ensures s.bindingName == "" && IsTruthy(v) ==> Ends(o, s, st, Normal(st2))
    ensures s.bindingName != "" && v != Nil ==>
              exists st3 :: Binds(st2, s.bindingName, v, st3) && Ends(o, s, st, Normal(st3))
  {
    if (if s.bindingName == "" then !IsTruthy(v) else v == Nil) {
      forall r | Ends(o, s.elseBody, st2, r)
        ensures Ends(o, s, st, r)
      {
        var n := EndsFrom(o, s.elseBody, st2, r);
        assert Execute(o, s.elseBody, st2, n) == r;
        AfterTick(o, s, st, st1, n, r);
      }
    } else if s.bindingName == "" {
      AfterTick(o, s, st, st1, 0, Normal(st2));
    } else {
      DefineBinds(st2, s.bindingName, v);
      AfterTick(o, s, st, st1, 0, Normal(Define(st2, s.bindingName, v)));
    }
  }

  // ---------------------------------------------------------------------------
  // Loops
  // ---------------------------------------------------------------------------

  /** What a body's `continue` and completion mean to its loop: the next turn starts there. */
  ghost predicate GoesOn(r: Result, st: State) {
    r == Normal(st) || r == Raised(ContinueSignal, st)
  }

  /** A loop whose condition is false is over; otherwise its body runs, and after it the
      loop again, unless the body raised something other than `continue`. */
  lemma WhileTurn(o: Oracle, c: Expr, b: Stmt, st: State, v: Value, st1: State)
    requires o.evaluate(c, st) == EvalTo(v, st1)
    ensures !IsTruthy(v) ==> LoopEnds(o, c, b, st, Normal(st1))
    ensures IsTruthy(v) ==>
              forall r, st2, r' | Ends(o, b, st1, r) && GoesOn(r, st2) && LoopEnds(o, c, b, st2, r') ::
                LoopEnds(o, c, b, st, r')
    ensures IsTruthy(v) ==>
              forall g, st2 | Ends(o, b, st1, Raised(g, st2)) && !g.ContinueSignal? ::
                LoopEnds(o, c, b, st, Raised(g, st2))
  {
    if !IsTruthy(v) {
      assert ExecuteWhile(o, c, b, st, 1) == Normal(st1);
    } else {
      forall r, st2, r' | Ends(o, b, st1, r) && GoesOn(r, st2) && LoopEnds(o, c, b, st2, r')
        ensures LoopEnds(o, c, b, st, r')
      {
        var n := EndsFrom(o, b, st1, r);
        var m: nat :| ExecuteWhile(o, c, b, st2, m) == r';
        WhileMoreFuel(o, c, b, st2, m, n + m);
        assert ExecuteWhile(o, c, b, st, n + m + 1) == r';
      }
      forall g, st2 | Ends(o, b, st1, Raised(g, st2)) && !g.ContinueSignal?
        ensures LoopEnds(o, c, b, st, Raised(g, st2))
      {
        var n := EndsFrom(o, b, st1, Raised(g, st2));
        assert ExecuteWhile(o, c, b, st, n + 1) == Raised(g, st2);
      }
    }
  }

  /** `break` completes the loop; nothing else that its turns end with is changed. */
  function AfterLoop(r: Result): Result {
    if r.Raised? && r.signal == BreakSignal then Normal(r.st) else r
  }

  lemma WhileRule(o: Oracle, c: Expr, b: Stmt, st: State, st1: State, r: Result)
    requires Ticks(o, st, st1) && LoopEnds(o, c, b, st1, r)
    ensures Ends(o, While(c, b), st, AfterLoop(r))
  {
    var n: nat :| ExecuteWhile(o, c, b, st1, n) == r;
    AfterTick(o, While(c, b), st, st1, n, AfterLoop(r));
  }

  /** A loop over an iterator ends with it; otherwise the body runs in an environment of its
      own in which the variable is bound to the next value. */
  lemma ForTurn(o: Oracle, it: Value, i: nat, x: string, b: seq<Stmt>, st: State, st1: State)
    ensures o.next(it, i, st) == IterEnds(st1) ==> ForEnds(o, it, i, x, b, st, Normal(st1))
    ensures forall v | o.next(it, i, st) == NextIs(v, st1) ::
              exists inner :: Binds(st1.(env := o.newEnv(st1)), x, v, inner) &&
                forall r | SeqEnds(o, b, inner, r) ::
                  && (forall st2, r' | GoesOn(InScope(r, st1.env), st2) && ForEnds(o, it, i + 1, x, b, st2, r') ::
                        ForEnds(o, it, i, x, b, st, r'))
                  && (r.Raised? && !r.signal.ContinueSignal? ==>
                        ForEnds(o, it, i, x, b, st, InScope(r, st1.env)))
  {
    if o.next(it, i, st) == IterEnds(st1) {
      assert ExecuteFor(o, it, i, x, b, st, 1) == Normal(st1);
    }
    forall v | o.next(it, i, st) == NextIs(v, st1)
      ensures exists inner :: Binds(st1.(env := o.newEnv(st1)), x, v, inner) &&
                forall r | SeqEnds(o, b, inner, r) ::
                  && (forall st2, r' | GoesOn(InScope(r, st1.env), st2) && ForEnds(o, it, i + 1, x, b, st2, r') ::
                        ForEnds(o, it, i, x, b, st, r'))
                  && (r.Raised? && !r.signal.ContinueSignal? ==>
                        ForEnds(o, it, i, x, b, st, InScope(r, st1.env)))
    {
      var inner := Define(Enter(o, st1), x, v);
      assert Binds(st1.(env := o.newEnv(st1)), x, v, inner);
      forall r | SeqEnds(o, b, inner, r)
        ensures forall st2, r' | GoesOn(InScope(r, st1.env), st2) && ForEnds(o, it, i + 1, x, b, st2, r') ::
                  ForEnds(o, it, i, x, b, st, r')
        ensures r.Raised? && !r.signal.ContinueSignal? ==> ForEnds(o, it, i, x, b, st, InScope(r, st1.env))
      {
        ForBody(o, it, i, x, b, st, st1, v, r);
      }
    }
  }

  lemma ForBody(o: Oracle, it: Value, i: nat, x: string, b: seq<Stmt>, st: State, st1: State, v: Value, r: Result)
    requires o.next(it, i, st) == NextIs(v, st1) && SeqEnds(o, b, Define(Enter(o, st1), x, v), r)
    ensures forall st2, r' | GoesOn(InScope(r, st1.env), st2) && ForEnds(o, it, i + 1, x, b, st2, r') ::
              ForEnds(o, it, i, x, b, st, r')
    ensures r.Raised? && !r.signal.ContinueSignal? ==> ForEnds(o, it, i, x, b, st, InScope(r, st1.env))
  {
    var n := SeqEndsFrom(o, b, Define(Enter(o, st1), x, v), r);
    forall st2, r' | GoesOn(InScope(r, st1.env), st2) && ForEnds(o, it, i + 1, x, b, st2, r')
      ensures ForEnds(o, it, i, x, b, st, r')
    {
      var m: nat :| ExecuteFor(o, it, i + 1, x, b, st2, m) == r';
      ForMoreFuel(o, it, i + 1, x, b, st2, m, n + m);
      assert ExecuteFor(o, it, i, x, b, st, n + m + 1) == r';
    }
    if r.Raised? && !r.signal.ContinueSignal? {
      assert ExecuteFor(o, it, i, x, b, st, n + 1) == InScope(r, st1.env);
    }
  }

  lemma ForRule(o: Oracle, e: Expr, x: string, b: seq<Stmt>, st: State, st1: State, it: Value, st2: State, r: Result)
    requires Ticks(o, st, st1) && o.evaluate(e, st1) == EvalTo(it, st2) && ForEnds(o, it, 0, x, b, st2, r)
    ensures Ends(o, ForIn(e, x, b), st, AfterLoop(r))
  {
    var n: nat :| ExecuteFor(o, it, 0, x, b, st2, n) == r;
    AfterTick(o, ForIn(e, x, b), st, st1, n, AfterLoop(r));
  }

  // ---------------------------------------------------------------------------
  // Try, catch, finally
  // ---------------------------------------------------------------------------

  /** `r` is how a try ends whose tried part and handler ended with `caught`: the finally
      runs in any case, and changes how the whole ends only if it does not complete. */
  ghost predicate AfterFinally(o: Oracle, f: Option<Stmt>, caught: Result, r: Result)
    requires !caught.Unfinished?
  {
    if f.None? then r == caught
    else
      || (exists st :: Ends(o, f.value, caught.st, Normal(st)) && r == caught.(st := st))
      || (r.Raised? && Ends(o, f.value, caught.st, r))
  }

  /** The tried statement completed, or raised something a catch clause does not take: the
      handler is not run. */
  lemma TryPasses(o: Oracle, b: Stmt, x: string, c: seq<Stmt>, f: Option<Stmt>, st: State, st1: State,
                  tried: Result, r: Result)
    requires Ticks(o, st, st1) && Ends(o, b, st1, tried)
    requires tried.Raised? ==> !tried.signal.ThrowSignal? && !tried.signal.RuntimeError?
    requires AfterFinally(o, f, tried, r)
    ensures Ends(o, TryCatch(b, x, c, f), st, r)
  {
    var n := EndsFrom(o, b, st1, tried);
    var m := FinallyFrom(o, f, tried, r);
    assert Execute(o, b, st1, n + m) == tried && FinallyAt(o, f, tried, n + m, r);
    assert ExecuteTry(o, b, x, c, f, st1, n + m) == r;
    AfterTick(o, TryCatch(b, x, c, f), st, st1, n + m, r);
  }

  /** A thrown value and a runtime error enter the handler, which runs in an environment of
      its own with the error variable bound to the value. */
  lemma TryCatches(o: Oracle, b: Stmt, x: string, c: seq<Stmt>, f: Option<Stmt>, st: State, st1: State,
                   v: Value, st2: State)
    requires Ticks(o, st, st1)
    requires Ends(o, b, st1, Raised(ThrowSignal(v), st2)) || Ends(o, b, st1, Raised(RuntimeError(v), st2))
    ensures exists inner :: Binds(st2.(env := o.newEnv(st2)), x, v, inner) &&
              forall handled, r | SeqEnds(o, c, inner, handled)
                                  && AfterFinally(o, f, InScope(handled, st2.env), r) ::
                Ends(o, TryCatch(b, x, c, f), st, r)
  {
    var tried := if Ends(o, b, st1, Raised(ThrowSignal(v), st2)) then Raised(ThrowSignal(v), st2)
                 else Raised(RuntimeError(v), st2);
    var inner := Define(Enter(o, st2), x, v);
    assert Binds(st2.(env := o.newEnv(st2)), x, v, inner);
    forall handled, r | SeqEnds(o, c, inner, handled) && AfterFinally(o, f, InScope(handled, st2.env), r)
      ensures Ends(o, TryCatch(b, x, c, f), st, r)
    {
      HandlerEnds(o, b, x, c, f, st, st1, v, tried, handled, r);
    }
  }

  lemma HandlerEnds(o: Oracle, b: Stmt, x: string, c: seq<Stmt>, f: Option<Stmt>, st: State, st1: State,
                    v: Value, tried: Result, handled: Result, r: Result)
    requires Ticks(o, st, st1) && Ends(o, b, st1, tried)
    requires tried.Raised? && (tried.signal == ThrowSignal(v) || tried.signal == RuntimeError(v))
    requires SeqEnds(o, c, Define(Enter(o, tried.st), x, v), handled)
    requires AfterFinally(o, f, InScope(handled, tried.st.env), r)
    ensures Ends(o, TryCatch(b, x, c, f), st, r)
  {
    var n := EndsFrom(o, b, st1, tried);
    var k := SeqEndsFrom(o, c, Define(Enter(o, tried.st), x, v), handled);
    var m := FinallyFrom(o, f, InScope(handled, tried.st.env), r);
    TryAt(o, b, x, c, f, st1, v, handled, n + k + m, r);
    AfterTick(o, TryCatch(b, x, c, f), st, st1, n + k + m, r);
  }

  ghost predicate FinallyAt(o: Oracle, f: Option<Stmt>, caught: Result, fuel: nat, r: Result)
    requires !caught.Unfinished?
  {
    if f.None? then r == caught
    else
      var last := Execute(o, f.value, caught.st, fuel);
      if last.Normal? then r == caught.(st := last.st) else r == last
  }

  lemma TryAt(o: Oracle, b: Stmt, x: string, c: seq<Stmt>, f: Option<Stmt>, st: State, v: Value,
              handled: Result, fuel: nat, r: Result)
    requires var tried := Execute(o, b, st, fuel);
             && tried.Raised? && (tried.signal == ThrowSignal(v) || tried.signal == RuntimeError(v))
             && ExecuteSeq(o, c, Define(Enter(o, tried.st), x, v), fuel) == handled && !handled.Unfinished?
             && FinallyAt(o, f, InScope(handled, tried.st.env), fuel, r)
    ensures ExecuteTry(o, b, x, c, f, st, fuel) == r
  {
  }

  lemma FinallyFrom(o: Oracle, f: Option<Stmt>, caught: Result, r: Result) returns (least: nat)
    requires !caught.Unfinished? && AfterFinally(o, f, caught, r)
    ensures !r.Unfinished?
    ensures forall fuel | fuel >= least :: FinallyAt(o, f, caught, fuel, r)
  {
    least := 0;
    if f.Some? {
      if st :| Ends(o, f.value, caught.st, Normal(st)) && r == caught.(st := st) {
        least := EndsFrom(o, f.value, caught.st, Normal(st));
      } else {
        least := EndsFrom(o, f.value, caught.st, r);
      }
    }
  }

  /** `try { throw e } catch (x) {}` completes, whatever is thrown. */
  lemma ThrownIsCaught(o: Oracle, e: Expr, x: string, st: State, st1: State, st2: State, v: Value, st3: State)
    requires Ticks(o, st, st1) && Ticks(o, st1, st2) && o.evaluate(e, st2) == EvalTo(v, st3)
    ensures exists st4: State :: st4.env == st3.env && Ends(o, TryCatch(Throw(e), x, [], None), st, Normal(st4))
  {
    JumpRules(o, st1, st2, e, v, st3);
    TryCatches(o, Throw(e), x, [], None, st, st1, v, st3);
    var inner: State :| Binds(st3.(env := o.newEnv(st3)), x, v, inner) &&
      forall handled: Result, r: Result | SeqEnds(o, [], inner, handled)
                                          && AfterFinally(o, None, InScope(handled, st3.env), r) ::
        Ends(o, TryCatch(Throw(e), x, [], None), st, r);
    assert ExecuteSeq(o, [], inner, 0) == Normal(inner);
    assert SeqEnds(o, [], inner, Normal(inner));
    assert AfterFinally(o, None, InScope(Normal(inner), st3.env), Normal(inner.(env := st3.env)));
  }
}
