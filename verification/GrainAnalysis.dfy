/** When a load can be lost, read off the text of a grain that imports nothing
    (src/interpreter.cpp, `loadGrain`): its body can fail with a deferred expression
    pending that can call sys.exit. */
module GrainAnalysis {
  import opened Wrappers
  import opened GrainLoader

  // ---------------------------------------------------------------------------
  // The analysis
  // ---------------------------------------------------------------------------

  /** No import in it, at any depth. */
  predicate ImportFree(acts: seq<Act>) {
    forall a | a in acts :: ActImportFree(a)
  }

  predicate ActImportFree(a: Act) {
    match a
    case Use(_) => false
    case Branch(yes, no) =>
      (forall b | b in yes :: ActImportFree(b)) && (forall b | b in no :: ActImportFree(b))
    case Scope(body) => forall b | b in body :: ActImportFree(b)
    case Defer(body) => forall b | b in body :: ActImportFree(b)
    case TryCatch(tried, handler, finally) =>
      && (forall b | b in tried :: ActImportFree(b)) && (forall b | b in handler :: ActImportFree(b))
      && (forall b | b in finally :: ActImportFree(b))
    case _ => true
  }

  /** The statements can end with `r`, having deferred something that can exit if and only
      if `armed`. */
  predicate CanEnd(acts: seq<Act>, r: Outcome, armed: bool)
    decreases acts
  {
    if acts == [] then r.Done? && !armed
    else
      || (!r.Done? && CanAct(acts[0], r, armed))
      || (exists a, b :: armed == (a || b) && CanAct(acts[0], Done, a) && CanEnd(acts[1..], r, b))
  }

  predicate CanAct(act: Act, r: Outcome, armed: bool)
    decreases act
  {
    match act
    case Step => !armed && (r.Done? || r.Threw? || r.Diverted?)
    case Throw => !armed && r.Threw?
    case Exit => !armed && r.Exited?
    case Export => !armed && r.Exported?
    case Use(_) => false
    case Defer(body) => r.Done? && armed == (CanEnd(body, Exited, true) || CanEnd(body, Exited, false))
    case Branch(yes, no) => CanEnd(yes, r, armed) || CanEnd(no, r, armed)
    case Scope(body) => CanEnd(body, r, armed)
    case TryCatch(_, _, finally) =>
      exists r2, a, f ::
        && armed == (a || f) && CanCatch(act, r2, a)
        && ((r == r2 && CanEnd(finally, Done, f)) || (!r.Done? && CanEnd(finally, r, f)))
  }

  /** The tried statements, and the handler if they throw. */
  predicate CanCatch(act: Act, r: Outcome, armed: bool)
    requires act.TryCatch?
    decreases act, 0
  {
    || (!r.Threw? && CanEnd(act.tried, r, armed))
    || (exists a, b :: armed == (a || b) && CanEnd(act.tried, Threw, a) && CanEnd(act.handler, r, b))
  }

  predicate MayExit(acts: seq<Act>) {
    CanEnd(acts, Exited, true) || CanEnd(acts, Exited, false)
  }

  /** The body can fail with a deferred expression pending that can exit. */
  predicate MayLose(body: seq<Act>) {
    exists r: Outcome :: Fails(r) && CanEnd(body, r, true)
  }

  predicate Armed(frame: seq<seq<Act>>) {
    exists d | d in frame :: MayExit(d)
  }

  // ---------------------------------------------------------------------------
  // Every execution is foreseen
  // ---------------------------------------------------------------------------

  /** The top frame of deferred expressions. */
  function TopFrame(w: World): seq<seq<Act>>
    requires w.defers != []
  {
    w.defers[|w.defers| - 1]
  }

  /** The frame has grown, by something that can exit if and only if `armed`. */
  ghost predicate Pushes(w: World, w': World, armed: bool) {
    w.defers != [] ==>
      && w'.defers != [] && TopFrame(w) <= TopFrame(w')
      && armed == Armed(TopFrame(w')[|TopFrame(w)|..])
      && AllImportFree(TopFrame(w')[|TopFrame(w)|..])
  }

  ghost predicate AllImportFree(frame: seq<seq<Act>>) {
    forall d | d in frame :: ImportFree(d)
  }

  lemma ArmedJoins(a: seq<seq<Act>>, b: seq<seq<Act>>)
    ensures Armed(a + b) == (Armed(a) || Armed(b))
  {
    if Armed(a) { var d :| d in a && MayExit(d); assert d in a + b; }
    if Armed(b) { var d :| d in b && MayExit(d); assert d in a + b; }
  }

  lemma PushesThen(w: World, w1: World, w2: World, a: bool, b: bool)
    requires Pushes(w, w1, a) && Pushes(w1, w2, b)
    ensures Pushes(w, w2, a || b)
  {
    if w.defers != [] {
      var f, g, h := TopFrame(w), TopFrame(w1), TopFrame(w2);
      ArmedJoins(g[|f|..], h[|g|..]);
      assert h[|f|..] == g[|f|..] + h[|g|..];
    }
  }

  lemma {:induction false} ExecForeseen(c: Setup, w: World, acts: seq<Act>) returns (armed: bool)
    requires Sound(c, w) && ImportFree(acts)
    ensures var (w', r) := Exec(c, w, acts); CanEnd(acts, r, armed) && Pushes(w, w', armed)
    decreases acts, 0
  {
    if acts == [] {
      armed := false;
      if w.defers != [] { assert TopFrame(w)[|TopFrame(w)|..] == []; }
    } else {
      armed := ActForeseen(c, w, acts[0]);
      var (w1, r) := ExecAct(c, w, acts[0]);
      if r.Done? {
        var b := ExecForeseen(c, w1, acts[1..]);
        PushesThen(w, w1, Exec(c, w1, acts[1..]).0, armed, b);
        armed := armed || b;
      }
    }
  }

  lemma {:induction false} ActForeseen(c: Setup, w: World, act: Act) returns (armed: bool)
    requires Sound(c, w) && ActImportFree(act)
    ensures var (w', r) := ExecAct(c, w, act); CanAct(act, r, armed) && Pushes(w, w', armed)
    decreases act, 1
  {
    armed := false;
    if w.defers != [] { assert TopFrame(w)[|TopFrame(w)|..] == []; }
    match act
    case Branch(yes, no) =>
      armed := ExecForeseen(c, w.(choices := w.choices + 1), if c.choice(w.choices).Goes? then yes else no);
    case Scope(body) => armed := BlockForeseen(c, w, body);
    case Defer(body) =>
      armed := MayExit(body);
      DeferForeseen(w, body);
    case TryCatch(_, _, _) => armed := TryForeseen(c, w, act);
    case _ =>
  }

  lemma DeferForeseen(w: World, body: seq<Act>)
    requires ImportFree(body)
    ensures Pushes(w, Deferring(w, body), MayExit(body))
  {
    if w.defers != [] {
      var f := TopFrame(w);
      assert (f + [body])[|f|..] == [body];
      assert Armed([body]) == MayExit(body) by {
        assert body in [body];
      }
    }
  }

  lemma {:induction false} BlockForeseen(c: Setup, w: World, acts: seq<Act>) returns (armed: bool)
    requires Sound(c, w) && ImportFree(acts)
    ensures var (w', r) := ExecBlock(c, w, acts); CanEnd(acts, r, armed) && Pushes(w, w', armed)
    decreases acts, 1
  {
    armed := ExecForeseen(c, NewScope(w), acts);
  }

  lemma {:induction false} TryForeseen(c: Setup, w: World, act: Act) returns (armed: bool)
    requires Sound(c, w) && act.TryCatch? && ActImportFree(act)
    ensures var (w', r) := ExecTry(c, w, act); CanAct(act, r, armed) && Pushes(w, w', armed)
    decreases act, 0
  {
    var a := BlockForeseen(c, w, act.tried);
    var (w1, r1) := ExecBlock(c, w, act.tried);
    var (w2, r2) := if r1.Threw? then ExecBlock(c, w1, act.handler) else (w1, r1);
    if r1.Threw? {
      var b := BlockForeseen(c, w1, act.handler);
      PushesThen(w, w1, w2, a, b);
      assert CanCatch(act, r2, a || b);
      a := a || b;
    }
    var f := BlockForeseen(c, w2, act.finally);
    PushesThen(w, w2, ExecBlock(c, w2, act.finally).0, a, f);
    assert CanCatch(act, r2, a);
    armed := a || f;
  }

  // ---------------------------------------------------------------------------
  // Everything foreseen has an execution
  // ---------------------------------------------------------------------------

  /** The program's choices from `at` on are those of the script. */
  ghost predicate Says(c: Setup, at: nat, script: seq<Choice>) {
    forall i | 0 <= i < |script| :: c.choice(at + i) == script[i]
  }

  function Pushed(defers: seq<seq<seq<Act>>>, frame: seq<seq<Act>>): seq<seq<seq<Act>>> {
    var n := |defers| - 1;
    if n < 0 then defers else defers[n := defers[n] + frame]
  }

  /** The state after statements that use up `n` choices and defer `frame`, up to the
      number of environments made. */
  ghost predicate Moved(w: World, w': World, n: nat, frame: seq<seq<Act>>) {
    w' == w.(choices := w.choices + n, nextEnv := w'.nextEnv, defers := Pushed(w.defers, frame))
  }

  /** From every state, the statements use up the script, end with `r` and defer `frame`. */
  ghost predicate Follow(acts: seq<Act>, script: seq<Choice>, r: Outcome, frame: seq<seq<Act>>) {
    forall c, w {:trigger Exec(c, w, acts)} | Sound(c, w) && Says(c, w.choices, script) ::
      Moved(w, Exec(c, w, acts).0, |script|, frame) && Exec(c, w, acts).1 == r
  }

  ghost predicate ActFollows(act: Act, script: seq<Choice>, r: Outcome, frame: seq<seq<Act>>) {
    forall c, w {:trigger ExecAct(c, w, act)} | Sound(c, w) && Says(c, w.choices, script) ::
      Moved(w, ExecAct(c, w, act).0, |script|, frame) && ExecAct(c, w, act).1 == r
  }

  lemma SaysSplit(c: Setup, at: nat, s: seq<Choice>, t: seq<Choice>)
    ensures Says(c, at, s + t) <==> Says(c, at, s) && Says(c, at + |s|, t)
  {
    if Says(c, at, s + t) {
      forall i | 0 <= i < |t|
        ensures c.choice(at + |s| + i) == t[i]
      {
        assert (s + t)[|s| + i] == t[i];
      }
      assert forall i | 0 <= i < |s| :: (s + t)[i] == s[i];
    }
    if Says(c, at, s) && Says(c, at + |s|, t) {
      forall i | 0 <= i < |s + t|
        ensures c.choice(at + i) == (s + t)[i]
      {
        if i >= |s| { assert (s + t)[i] == t[i - |s|] && at + |s| + (i - |s|) == at + i; }
      }
    }
  }

  lemma MovedTwice(w: World, w1: World, w2: World, m: nat, n: nat, f: seq<seq<Act>>, g: seq<seq<Act>>)
    requires Moved(w, w1, m, f) && Moved(w1, w2, n, g)
    ensures Moved(w, w2, m + n, f + g)
  {
    if w.defers != [] {
      var k := |w.defers| - 1;
      assert w.defers[k] + f + g == w.defers[k] + (f + g);
      assert Pushed(w.defers, f + g) == Pushed(Pushed(w.defers, f), g);
    }
  }

  lemma NotMoved(w: World)
    ensures Moved(w, w, 0, [])
  {
    if w.defers != [] {
      var k := |w.defers| - 1;
      assert w.defers[k] + [] == w.defers[k];
      assert Pushed(w.defers, []) == w.defers;
    }
  }

  /** A first statement that completes, and the rest. */
  lemma FollowThen(acts: seq<Act>, s: seq<Choice>, f: seq<seq<Act>>, t: seq<Choice>, r: Outcome, g: seq<seq<Act>>)
    requires acts != [] && ActFollows(acts[0], s, Done, f) && Follow(acts[1..], t, r, g)
    ensures Follow(acts, s + t, r, f + g)
  {
    forall c, w | Sound(c, w) && Says(c, w.choices, s + t)
      ensures Moved(w, Exec(c, w, acts).0, |s + t|, f + g) && Exec(c, w, acts).1 == r
    {
      SaysSplit(c, w.choices, s, t);
      var w1 := ExecAct(c, w, acts[0]).0;
      MovedTwice(w, w1, Exec(c, w1, acts[1..]).0, |s|, |t|, f, g);
    }
  }

  lemma FollowFirst(acts: seq<Act>, s: seq<Choice>, r: Outcome, f: seq<seq<Act>>)
    requires acts != [] && !r.Done? && ActFollows(acts[0], s, r, f)
    ensures Follow(acts, s, r, f)
  {
  }

  lemma {:induction false} ExecComplete(acts: seq<Act>, r: Outcome, armed: bool)
    returns (script: seq<Choice>, frame: seq<seq<Act>>)
    requires CanEnd(acts, r, armed) && ImportFree(acts)
    ensures Follow(acts, script, r, frame) && Armed(frame) == armed && AllImportFree(frame)
    decreases acts
  {
    if acts == [] {
      script, frame := [], [];
      forall w: World ensures Moved(w, w, 0, []) { NotMoved(w); }
    } else if !r.Done? && CanAct(acts[0], r, armed) {
      script, frame := ActComplete(acts[0], r, armed);
      FollowFirst(acts, script, r, frame);
    } else {
      var a, b :| armed == (a || b) && CanAct(acts[0], Done, a) && CanEnd(acts[1..], r, b);
      var s, f := ActComplete(acts[0], Done, a);
      var t, g := ExecComplete(acts[1..], r, b);
      FollowThen(acts, s, f, t, r, g);
      ArmedJoins(f, g);
      script, frame := s + t, f + g;
    }
  }

  lemma {:induction false} ActComplete(act: Act, r: Outcome, armed: bool)
    returns (script: seq<Choice>, frame: seq<seq<Act>>)
    requires CanAct(act, r, armed) && ActImportFree(act)
    ensures ActFollows(act, script, r, frame) && Armed(frame) == armed && AllImportFree(frame)
    decreases act
  {
    script, frame := [], [];
    forall w: World ensures Moved(w, w, 0, []) { NotMoved(w); }
    match act
    case Step =>
      script := [if r.Done? then Goes else if r.Threw? then Throws else Diverts];
      StepFollows(script[0]);
    case Branch(yes, no) =>
      if CanEnd(yes, r, armed) {
        script, frame := ExecComplete(yes, r, armed);
        BranchFollows(act, Goes, script, r, frame);
        script := [Goes] + script;
      } else {
        script, frame := ExecComplete(no, r, armed);
        BranchFollows(act, Throws, script, r, frame);
        script := [Throws] + script;
      }
    case Scope(body) =>
      script, frame := ExecComplete(body, r, armed);
      ScopeFollows(act, script, r, frame);
    case Defer(body) =>
      frame := [body];
      assert Armed([body]) == MayExit(body) by { assert body in [body]; }
      DeferFollows(body);
    case TryCatch(_, _, _) =>
      script, frame := TryComplete(act, r, armed);
    case _ =>
  }

  lemma StepFollows(k: Choice)
    ensures ActFollows(Step, [k], StepEnd(k), [])
  {
    forall c, w | Sound(c, w) && Says(c, w.choices, [k])
      ensures Moved(w, ExecAct(c, w, Step).0, 1, []) && ExecAct(c, w, Step).1 == StepEnd(k)
    {
      NotMoved(w);
      assert c.choice(w.choices + 0) == [k][0];
    }
  }

  lemma BranchFollows(act: Act, k: Choice, s: seq<Choice>, r: Outcome, f: seq<seq<Act>>)
    requires act.Branch? && Follow(if k.Goes? then act.yes else act.no, s, r, f)
    ensures ActFollows(act, [k] + s, r, f)
  {
    forall c, w | Sound(c, w) && Says(c, w.choices, [k] + s)
      ensures Moved(w, ExecAct(c, w, act).0, |[k] + s|, f) && ExecAct(c, w, act).1 == r
    {
      SaysSplit(c, w.choices, [k], s);
      assert c.choice(w.choices + 0) == [k][0];
    }
  }

  lemma ScopeFollows(act: Act, s: seq<Choice>, r: Outcome, f: seq<seq<Act>>)
    requires act.Scope? && Follow(act.body, s, r, f)
    ensures ActFollows(act, s, r, f)
  {
    forall c, w | Sound(c, w) && Says(c, w.choices, s)
      ensures Moved(w, ExecAct(c, w, act).0, |s|, f) && ExecAct(c, w, act).1 == r
    {
      BlockFollows(c, w, act.body, s, r, f);
    }
  }

  lemma DeferFollows(body: seq<Act>)
    ensures ActFollows(Defer(body), [], Done, [body])
  {
  }

  lemma {:induction false} TryComplete(act: Act, r: Outcome, armed: bool)
    returns (script: seq<Choice>, frame: seq<seq<Act>>)
    requires act.TryCatch? && CanAct(act, r, armed) && ActImportFree(act)
    ensures ActFollows(act, script, r, frame) && Armed(frame) == armed && AllImportFree(frame)
    decreases act, 1
  {
    var r2, a, f :|
      && armed == (a || f) && CanCatch(act, r2, a)
      && ((r == r2 && CanEnd(act.finally, Done, f)) || (!r.Done? && CanEnd(act.finally, r, f)));
    var s, g := CatchComplete(act, r2, a);
    var r3 := if r == r2 && CanEnd(act.finally, Done, f) then Done else r;
    var t, h := ExecComplete(act.finally, r3, f);
    ArmedJoins(g, h);
    script, frame := s + t, g + h;
    TryFollows(act, s, r2, g, t, r3, h);
  }

  lemma TryFollows(act: Act, s: seq<Choice>, r2: Outcome, g: seq<seq<Act>>, t: seq<Choice>, r3: Outcome,
                   h: seq<seq<Act>>)
    requires act.TryCatch? && CatchFollows(act, s, r2, g) && Follow(act.finally, t, r3, h)
    ensures ActFollows(act, s + t, if r3.Done? then r2 else r3, g + h)
  {
    var r := if r3.Done? then r2 else r3;
    forall c, w | Sound(c, w) && Says(c, w.choices, s + t)
      ensures Moved(w, ExecTry(c, w, act).0, |s + t|, g + h) && ExecTry(c, w, act).1 == r
    {
      SaysSplit(c, w.choices, s, t);
      var w2 := Caught(c, w, act).0;
      BlockFollows(c, w2, act.finally, t, r3, h);
      MovedTwice(w, w2, ExecBlock(c, w2, act.finally).0, |s|, |t|, g, h);
    }
  }

  lemma BlockFollows(c: Setup, w: World, acts: seq<Act>, s: seq<Choice>, r: Outcome, f: seq<seq<Act>>)
    requires Sound(c, w) && Says(c, w.choices, s) && Follow(acts, s, r, f)
    ensures Moved(w, ExecBlock(c, w, acts).0, |s|, f) && ExecBlock(c, w, acts).1 == r
  {
    assert Moved(NewScope(w), Exec(c, NewScope(w), acts).0, |s|, f);
  }

  /** The tried statements and the handler, in the environment the try started in. */
  ghost function Caught(c: Setup, w: World, act: Act): (World, Outcome)
    requires Sound(c, w) && act.TryCatch?
  {
    var (w1, r1) := ExecBlock(c, w, act.tried);
    if r1.Threw? then ExecBlock(c, w1, act.handler) else (w1, r1)
  }

  ghost predicate CatchFollows(act: Act, script: seq<Choice>, r: Outcome, frame: seq<seq<Act>>)
    requires act.TryCatch?
  {
    forall c, w {:trigger Caught(c, w, act)} | Sound(c, w) && Says(c, w.choices, script) ::
      Moved(w, Caught(c, w, act).0, |script|, frame) && Caught(c, w, act).1 == r
  }

  lemma {:induction false} CatchComplete(act: Act, r: Outcome, armed: bool)
    returns (script: seq<Choice>, frame: seq<seq<Act>>)
    requires act.TryCatch? && CanCatch(act, r, armed) && ActImportFree(act)
    ensures CatchFollows(act, script, r, frame) && Armed(frame) == armed && AllImportFree(frame)
    decreases act, 0
  {
    if !r.Threw? && CanEnd(act.tried, r, armed) {
      script, frame := ExecComplete(act.tried, r, armed);
      forall c, w | Sound(c, w) && Says(c, w.choices, script)
        ensures Moved(w, Caught(c, w, act).0, |script|, frame) && Caught(c, w, act).1 == r
      {
        BlockFollows(c, w, act.tried, script, r, frame);
      }
    } else {
      var a, b :| armed == (a || b) && CanEnd(act.tried, Threw, a) && CanEnd(act.handler, r, b);
      var s, f := ExecComplete(act.tried, Threw, a);
      var t, g := ExecComplete(act.handler, r, b);
      ArmedJoins(f, g);
      script, frame := s + t, f + g;
      forall c, w | Sound(c, w) && Says(c, w.choices, script)
        ensures Moved(w, Caught(c, w, act).0, |script|, frame) && Caught(c, w, act).1 == r
      {
        SaysSplit(c, w.choices, s, t);
        BlockFollows(c, w, act.tried, s, Threw, f);
        var w1 := ExecBlock(c, w, act.tried).0;
        BlockFollows(c, w1, act.handler, t, r, g);
        MovedTwice(w, w1, ExecBlock(c, w1, act.handler).0, |s|, |t|, f, g);
      }
    }
  }

  // ---------------------------------------------------------------------------
  // When the load of a grain that imports nothing is lost
  // ---------------------------------------------------------------------------

  /** Statements that import nothing load nothing. */
  lemma {:induction false} ExecIsLocal(c: Setup, w: World, acts: seq<Act>)
    requires Sound(c, w) && ImportFree(acts)
    ensures Exec(c, w, acts).0.loads == w.loads
    decreases acts, 0
  {
    if acts != [] {
      ActIsLocal(c, w, acts[0]);
      var (w1, r) := ExecAct(c, w, acts[0]);
      if r.Done? { ExecIsLocal(c, w1, acts[1..]); }
    }
  }

  lemma {:induction false} ActIsLocal(c: Setup, w: World, act: Act)
    requires Sound(c, w) && ActImportFree(act)
    ensures ExecAct(c, w, act).0.loads == w.loads
    decreases act, 1
  {
    match act
    case Branch(yes, no) =>
      ExecIsLocal(c, w.(choices := w.choices + 1), if c.choice(w.choices).Goes? then yes else no);
    case Scope(body) => BlockIsLocal(c, w, body);
    case TryCatch(tried, handler, finally) =>
      BlockIsLocal(c, w, tried);
      var (w1, r1) := ExecBlock(c, w, tried);
      if r1.Threw? { BlockIsLocal(c, w1, handler); }
      var w2 := if r1.Threw? then ExecBlock(c, w1, handler).0 else w1;
      BlockIsLocal(c, w2, finally);
    case _ =>
  }

  lemma {:induction false} BlockIsLocal(c: Setup, w: World, acts: seq<Act>)
    requires Sound(c, w) && ImportFree(acts)
    ensures ExecBlock(c, w, acts).0.loads == w.loads
    decreases acts, 1
  {
    ExecIsLocal(c, NewScope(w), acts);
  }

  lemma {:induction false} DefersForeseen(c: Setup, w: World, frame: seq<seq<Act>>)
    requires Sound(c, w) && AllImportFree(frame)
    ensures ExecDefers(c, w, frame).0.loads == w.loads
    ensures ExecDefers(c, w, frame).1 ==> Armed(frame)
    decreases |frame|
  {
    if frame != [] {
      var n := |frame| - 1;
      var d := frame[n];
      assert d in frame && ImportFree(d);
      var armed := ExecForeseen(c, w, d);
      ExecIsLocal(c, w, d);
      var (w1, r) := Exec(c, w, d);
      if !r.Exited? {
        assert frame == frame[..n] + [d];
        DefersForeseen(c, w1, frame[..n]);
      }
    }
  }

  /** Some execution of the statements. */
  lemma SomeRun(acts: seq<Act>) returns (script: seq<Choice>, r: Outcome, frame: seq<seq<Act>>)
    requires ImportFree(acts)
    ensures Follow(acts, script, r, frame) && (r.Exited? ==> MayExit(acts))
  {
    var c, w := Setup(map[], (a, b) => None, i => Goes), Fresh("");
    var armed := ExecForeseen(c, w, acts);
    r := Exec(c, w, acts).1;
    script, frame := ExecComplete(acts, r, armed);
  }

  ghost predicate DefersExit(frame: seq<seq<Act>>, script: seq<Choice>) {
    forall c, w {:trigger ExecDefers(c, w, frame)} | Sound(c, w) && Says(c, w.choices, script) ::
      ExecDefers(c, w, frame).1
  }

  lemma {:induction false} DefersComplete(frame: seq<seq<Act>>) returns (script: seq<Choice>)
    requires Armed(frame) && AllImportFree(frame)
    ensures DefersExit(frame, script)
    decreases |frame|
  {
    var n := |frame| - 1;
    var d := frame[n];
    assert d in frame && ImportFree(d);
    if MayExit(d) {
      var f;
      script, f := ExecComplete(d, Exited, CanEnd(d, Exited, true));
    } else {
      var s, r, f := SomeRun(d);
      assert frame == frame[..n] + [d];
      var t := DefersComplete(frame[..n]);
      script := s + t;
      forall c, w | Sound(c, w) && Says(c, w.choices, script)
        ensures ExecDefers(c, w, frame).1
      {
        SaysSplit(c, w.choices, s, t);
        assert Moved(w, Exec(c, w, d).0, |s|, f);
      }
    }
  }

  /** A load whose body is run is lost if and only if the body fails and then one of the
      deferred expressions exits. */
  lemma LoadIsLostExactlyWhen(c: Setup, w: World, p: string)
    requires Sound(c, w) && p !in w.cache && Loadable(c, w, p) && ImportFree(c.files[p].body)
    ensures Sound(c, Entering(w, p))
    ensures var (w1, r) := Exec(c, Entering(w, p), c.files[p].body);
            var n := |w1.defers| - 1;
            Restored(w, ExecLoad(c, w, p).0) <==>
            !(Fails(r) && ExecDefers(c, w1.(defers := w1.defers[..n]), w1.defers[n]).1)
    ensures !Restored(w, ExecLoad(c, w, p).0) ==> p in ExecLoad(c, w, p).0.stack
  {
    EnteringIsSound(c, w, p);
    var w0, body := Entering(w, p), c.files[p].body;
    ExecLoadKeeps(c, w, p);
    var armed := ExecForeseen(c, w0, body);
    ExecIsLocal(c, w0, body);
    var (w1, r) := Exec(c, w0, body);
    var n := |w1.defers| - 1;
    assert TopFrame(w0) == [] && TopFrame(w1)[0..] == w1.defers[n];
    DefersForeseen(c, w1.(defers := w1.defers[..n]), w1.defers[n]);
    var loads := ExecGrain(c, w0, p, body).0.loads;
    assert loads[..|loads| - 1] == w.loads;
    assert p in w0.stack && w0.stack[|w.stack|] == p;
  }

  /** In the files, whatever the program chooses, the load of `p` can be lost. */
  ghost predicate CanBeLost(files: map<string, File>, resolve: (string, string) -> Option<string>,
                            w: World, p: string)
    requires Sound(Setup(files, resolve, i => Goes), w) && p !in w.cache
  {
    exists choice: nat -> Choice {:trigger Setup(files, resolve, choice)} ::
      !Restored(w, ExecLoad(Setup(files, resolve, choice), w, p).0)
  }

  /** The load of a grain that imports nothing restores everything, whatever the program
      chooses, if and only if its body cannot fail with a deferred expression pending that
      can exit. */
  lemma LeafCanBeLostExactlyWhen(files: map<string, File>, resolve: (string, string) -> Option<string>,
                                 w: World, p: string)
    requires Sound(Setup(files, resolve, i => Goes), w) && p !in w.cache && p !in w.stack
    requires p in files && files[p].Grain? && ImportFree(files[p].body)
    ensures CanBeLost(files, resolve, w, p) <==> MayLose(files[p].body)
  {
    if CanBeLost(files, resolve, w, p) {
      var choice :| !Restored(w, ExecLoad(Setup(files, resolve, choice), w, p).0);
      LostIsForeseen(Setup(files, resolve, choice), w, p);
    }
    if MayLose(files[p].body) {
      var choice := LosingChoices(files, resolve, w, p);
      assert !Restored(w, ExecLoad(Setup(files, resolve, choice), w, p).0);
    }
  }

  lemma LostIsForeseen(c: Setup, w: World, p: string)
    requires Sound(c, w) && p !in w.cache && Loadable(c, w, p) && ImportFree(c.files[p].body)
    requires !Restored(w, ExecLoad(c, w, p).0)
    ensures MayLose(c.files[p].body)
  {
    LoadIsLostExactlyWhen(c, w, p);
    var w0, body := Entering(w, p), c.files[p].body;
    var armed := ExecForeseen(c, w0, body);
    var (w1, r) := Exec(c, w0, body);
    var n := |w1.defers| - 1;
    assert TopFrame(w0) == [] && TopFrame(w1)[0..] == w1.defers[n];
    DefersForeseen(c, w1.(defers := w1.defers[..n]), w1.defers[n]);
    assert Fails(r) && CanEnd(body, r, true);
  }

  lemma LosingChoices(files: map<string, File>, resolve: (string, string) -> Option<string>,
                      w: World, p: string) returns (choice: nat -> Choice)
    requires Sound(Setup(files, resolve, i => Goes), w) && p !in w.cache && p !in w.stack
    requires p in files && files[p].Grain? && ImportFree(files[p].body) && MayLose(files[p].body)
    ensures !Restored(w, ExecLoad(Setup(files, resolve, choice), w, p).0)
  {
    var body := files[p].body;
    var r: Outcome :| Fails(r) && CanEnd(body, r, true);
    var s, frame := ExecComplete(body, r, true);
    var t := DefersComplete(frame);
    choice := Plan(w.choices, s + t);
    PlanSays(Setup(files, resolve, choice), w.choices, s + t);
    LosesUnder(Setup(files, resolve, choice), w, p, s, r, frame, t);
  }

  /** The script from `at` on, and anything elsewhere. */
  function Plan(at: nat, script: seq<Choice>): nat -> Choice {
    i => if at <= i < at + |script| then script[i - at] else Goes
  }

  lemma LosesUnder(c: Setup, w: World, p: string, s: seq<Choice>, r: Outcome, frame: seq<seq<Act>>, t: seq<Choice>)
    requires Sound(c, w) && p !in w.cache && Loadable(c, w, p) && ImportFree(c.files[p].body)
    requires Follow(c.files[p].body, s, r, frame) && Fails(r) && DefersExit(frame, t)
    requires Says(c, w.choices, s + t)
    ensures !Restored(w, ExecLoad(c, w, p).0)
  {
    SaysSplit(c, w.choices, s, t);
    FailsThenExits(c, w, p, s, r, frame, t);
    LostWhen(c, w, p);
  }

  lemma LostWhen(c: Setup, w: World, p: string)
    requires Sound(c, w) && p !in w.cache && Loadable(c, w, p) && ImportFree(c.files[p].body)
    requires Sound(c, Entering(w, p))
    requires var (w1, r) := Exec(c, Entering(w, p), c.files[p].body);
             var n := |w1.defers| - 1;
             Fails(r) && ExecDefers(c, w1.(defers := w1.defers[..n]), w1.defers[n]).1
    ensures !Restored(w, ExecLoad(c, w, p).0)
  {
    LoadIsLostExactlyWhen(c, w, p);
  }

  lemma FailsThenExits(c: Setup, w: World, p: string, s: seq<Choice>, r: Outcome, frame: seq<seq<Act>>,
                       t: seq<Choice>)
    requires Sound(c, w) && p !in w.cache && Loadable(c, w, p)
    requires Follow(c.files[p].body, s, r, frame) && Fails(r) && DefersExit(frame, t)
    requires Says(c, w.choices, s) && Says(c, w.choices + |s|, t)
    ensures Sound(c, Entering(w, p))
    ensures var (w1, r) := Exec(c, Entering(w, p), c.files[p].body);
            var n := |w1.defers| - 1;
            Fails(r) && ExecDefers(c, w1.(defers := w1.defers[..n]), w1.defers[n]).1
  {
    FrameIsPending(c, w, p, s, r, frame);
    var w1 := Exec(c, Entering(w, p), c.files[p].body).0;
    PendingExits(c, w1.(defers := w1.defers[..|w1.defers| - 1]), frame, t);
  }

  lemma PlanSays(c: Setup, at: nat, script: seq<Choice>)
    requires c.choice == Plan(at, script)
    ensures Says(c, at, script)
  {
  }

  lemma PendingExits(c: Setup, w: World, frame: seq<seq<Act>>, script: seq<Choice>)
    requires Sound(c, w) && DefersExit(frame, script) && Says(c, w.choices, script)
    ensures ExecDefers(c, w, frame).1
  {
  }

  lemma FrameIsPending(c: Setup, w: World, p: string, s: seq<Choice>, r: Outcome, frame: seq<seq<Act>>)
    requires Sound(c, w) && p !in w.cache && Loadable(c, w, p)
    requires Follow(c.files[p].body, s, r, frame) && Says(c, w.choices, s)
    ensures Sound(c, Entering(w, p))
    ensures var (w1, r1) := Exec(c, Entering(w, p), c.files[p].body);
            && r1 == r && w1.choices == w.choices + |s| && w1.defers[|w1.defers| - 1] == frame
  {
    EnteringIsSound(c, w, p);
    var w0 := Entering(w, p);
    assert Moved(w0, Exec(c, w0, c.files[p].body).0, |s|, frame);
    assert [] + frame == frame;
  }

  // ---------------------------------------------------------------------------
  // Two loads that are lost
  // ---------------------------------------------------------------------------

  const NAMES: (string, string) -> Option<string> := (name, file) => Some(name)

  /** A grain that defers sys.exit and then throws, and one that imports it under a finally
      that throws. */
  function LosingFiles(): map<string, File> {
    map["g" := Grain([Defer([Exit]), Throw]),
        "h" := Grain([TryCatch([Use("g")], [], [Throw])])]
  }

  function LosingSetup(choice: nat -> Choice): Setup {
    Setup(LosingFiles(), NAMES, choice)
  }

  lemma ExecOne(c: Setup, w: World, act: Act)
    requires Sound(c, w)
    ensures Exec(c, w, [act]) == ExecAct(c, w, act)
  {
    assert [act][1..] == [];
  }

  lemma ExecTwo(c: Setup, w: World, a: Act, b: Act)
    requires Sound(c, w) && ExecAct(c, w, a).1.Done?
    ensures Exec(c, w, [a, b]) == ExecAct(c, ExecAct(c, w, a).0, b)
  {
    assert [a, b][1..] == [b];
    ExecOne(c, ExecAct(c, w, a).0, b);
  }

  lemma BodyOfG(c: Setup, w: World)
    requires Sound(c, w)
    ensures Exec(c, w, [Defer([Exit]), Throw]) == (Deferring(w, [Exit]), Threw)
  {
    ExecTwo(c, w, Defer([Exit]), Throw);
  }

  lemma DefersOfG(c: Setup, w: World)
    requires Sound(c, w)
    ensures ExecDefers(c, w, [[Exit]]) == (w, true)
  {
    ExecOne(c, w, Exit);
  }

  /** The body of g and its defer, from a state with an empty frame on top. */
  lemma GrainG(c: Setup, w: World)
    requires Sound(c, w) && w.defers != [] && TopFrame(w) == []
    ensures var n := |w.defers| - 1;
            ExecGrain(c, w, "g", [Defer([Exit]), Throw]) ==
            (w.(defers := w.defers[..n], loads := w.loads + [Load("g", true, true)]), Exited)
  {
    var n := |w.defers| - 1;
    BodyOfG(c, w);
    PendingOfG(w);
    DefersOfG(c, w.(defers := w.defers[..n]));
  }

  lemma PendingOfG(w: World)
    requires w.defers != [] && TopFrame(w) == []
    ensures var n, w1 := |w.defers| - 1, Deferring(w, [Exit]);
            && |w1.defers| == n + 1 && w1.defers[n] == [[Exit]]
            && w1.(defers := w1.defers[..n]) == w.(defers := w.defers[..n])
  {
    assert [] + [[Exit]] == [[Exit]];
  }

  /** Importing g ends in sys.exit and leaves g on the load stack and as current file,
      whatever the program chooses. */
  lemma ExitingDeferLosesLoad(choice: nat -> Choice, w: World)
    requires Sound(LosingSetup(choice), w)
    requires "g" !in w.stack && "g" !in w.cache && "g" !in w.imported
    ensures var (w', r) := ExecUse(LosingSetup(choice), w, "g");
            r == Exited && w'.stack == w.stack + ["g"] && w'.file == "g" && w'.defers == w.defers
  {
    var c, w0 := LosingSetup(choice), w.(imported := w.imported + {"g"});
    EnteringIsSound(c, w0, "g");
    var e := Entering(w0, "g");
    GrainG(c, e);
    assert e.defers[..|w.defers|] == w.defers;
    LoadOfG(c, w0);
  }

  lemma LoadOfG(c: Setup, w: World)
    requires c.files == LosingFiles() && Sound(c, w) && "g" !in w.stack && "g" !in w.cache
    ensures ExecLoad(c, w, "g") ==
            (Entering(w, "g").(defers := w.defers, loads := w.loads + [Load("g", true, true)]), Exited)
  {
    assert Loadable(c, w, "g");
    EnteringIsSound(c, w, "g");
    var e := Entering(w, "g");
    GrainG(c, e);
    assert e.defers[..|w.defers|] == w.defers;
  }

  lemma BlockOfUse(c: Setup, w: World, name: string, u: World, r: Outcome)
    requires Sound(c, w) && ExecUse(c, NewScope(w), name) == (u, r)
    ensures ExecBlock(c, w, [Use(name)]) == (u.(env := w.env), r)
  {
    ExecOne(c, NewScope(w), Use(name));
  }

  lemma BlockOfThrow(c: Setup, w: World, act: Act)
    requires Sound(c, w) && act.Throw?
    ensures ExecBlock(c, w, [act]) == (w.(nextEnv := w.nextEnv + 1), Threw)
  {
    ExecOne(c, NewScope(w), act);
  }

  lemma TryOfBlocks(c: Setup, w: World, act: Act, t: World, u: World)
    requires Sound(c, w) && act.TryCatch? && ExecBlock(c, w, act.tried) == (t, Exited)
    requires Sound(c, t) && ExecBlock(c, t, act.finally) == (u, Threw)
    ensures ExecTry(c, w, act) == (u, Threw)
  {
  }

  /** An import that exits, and a finally that throws. */
  lemma TryHidesExit(c: Setup, w: World, act: Act, name: string, last: Act, u: World)
    requires Sound(c, w) && act.TryCatch? && act.tried == [Use(name)] && act.finally == [last] && last.Throw?
    requires ExecUse(c, NewScope(w), name) == (u, Exited)
    ensures ExecTry(c, w, act) == (u.(env := w.env, nextEnv := u.nextEnv + 1), Threw)
  {
    BlockOfUse(c, w, name, u, Exited);
    var t := u.(env := w.env);
    BlockOfThrow(c, t, last);
    TryOfBlocks(c, w, act, t, t.(nextEnv := t.nextEnv + 1));
  }

  lemma GrainH(c: Setup, w: World, u: World)
    requires Sound(c, w) && w.defers != [] && TopFrame(w) == []
    requires ExecUse(c, NewScope(w), "g") == (u, Exited) && u.defers == w.defers
    ensures var n := |w.defers| - 1;
            ExecGrain(c, w, "h", [TryCatch([Use("g")], [], [Throw])]) ==
            (u.(env := w.env, nextEnv := u.nextEnv + 1, defers := w.defers[..n],
                loads := u.loads + [Load("h", true, false)]), Threw)
  {
    TryHidesExit(c, w, TryCatch([Use("g")], [], [Throw]), "g", Throw, u);
    GrainOfThrow(c, w, TryCatch([Use("g")], [], [Throw]), "h", u.(env := w.env, nextEnv := u.nextEnv + 1));
  }

  lemma GrainOfThrow(c: Setup, w: World, act: Act, p: string, v: World)
    requires Sound(c, w) && w.defers != [] && TopFrame(w) == []
    requires ExecAct(c, w, act) == (v, Threw) && v.defers == w.defers
    ensures ExecGrain(c, w, p, [act]) ==
            (v.(defers := w.defers[..|w.defers| - 1], loads := v.loads + [Load(p, true, false)]), Threw)
  {
    ExecOne(c, w, act);
  }

  /** A finally that throws hides the exit: importing h ends in an ordinary throw, with the
      importing file restored, and still h is left on the load stack. */
  lemma FinallyHidesLoss(choice: nat -> Choice)
    ensures Sound(LosingSetup(choice), Fresh("main"))
    ensures var (w', r) := ExecUse(LosingSetup(choice), Fresh("main"), "h");
            r == Threw && w'.stack == ["h"] && w'.file == "main"
  {
    assert Fresh("main").imported + {"h"} == {"h"};
    LoadOfH(choice, Fresh("main").(imported := {"h"}));
  }

  lemma LoadOfH(choice: nat -> Choice, w: World)
    requires w == Fresh("main").(imported := {"h"})
    ensures Sound(LosingSetup(choice), w)
    ensures var (w', r) := ExecLoad(LosingSetup(choice), w, "h");
            r == Threw && w'.stack == ["h"] && w'.file == "main"
  {
    var c := LosingSetup(choice);
    assert Loadable(c, w, "h");
    EnteringIsSound(c, w, "h");
    var e := Entering(w, "h");
    ExitingDeferLosesLoad(choice, NewScope(e));
    var u := ExecUse(c, NewScope(e), "g").0;
    GrainH(c, e, u);
    LeavingH(c, w, u);
  }

  lemma LeavingH(c: Setup, w: World, u: World)
    requires c.files == LosingFiles() && Sound(c, w) && Loadable(c, w, "h") && "h" !in w.cache
    requires Sound(c, Entering(w, "h")) && u.stack == ["h", "g"]
    requires var e := Entering(w, "h");
             ExecGrain(c, e, "h", [TryCatch([Use("g")], [], [Throw])]) ==
             (u.(env := e.env, nextEnv := u.nextEnv + 1, defers := e.defers[..|e.defers| - 1],
                 loads := u.loads + [Load("h", true, false)]), Threw)
    ensures var (w', r) := ExecLoad(c, w, "h");
            r == Threw && w'.stack == ["h"] && w'.file == w.file
  {
    assert ["h", "g"][..1] == ["h"];
  }
}
