/** The module loader of the tree-walking interpreter (src/interpreter.cpp, `loadGrain`;
    src/grain_resolve.h, `FailedImportGuard`, `circularImportMessage`), over arbitrary
    finite file systems and import graphs. */
module GrainLoader {
  import opened Wrappers

  /** What a grain's statements do, as far as loading is concerned. */
  datatype Act =
    | Step                                   // anything else; may succeed, throw or divert
    | Throw
    | Exit                                   // sys.exit
    | Branch(yes: seq<Act>, no: seq<Act>)
    | Use(name: string)
    | Scope(body: seq<Act>)                  // a block: its own environment
    | TryCatch(tried: seq<Act>, handler: seq<Act>, finally: seq<Act>)  // three blocks
    | Defer(deferred: seq<Act>)
    | Export

  /** A readable file either parses to statements or does not. */
  datatype File = BadSyntax | Grain(body: seq<Act>)

  /** How a statement ends. `Threw` is what catch clauses catch; `Diverted` is return,
      break and continue; `Exited` is sys.exit. */
  datatype Outcome = Done | Threw | Exported | Diverted | Exited

  ghost predicate NoDup(s: seq<string>) {
    forall i, j | 0 <= i < j < |s| :: s[i] != s[j]
  }

  ghost predicate Within(s: seq<string>, files: set<string>) {
    forall p | p in s :: p in files
  }

  /** A list without repetition is no longer than the set it is drawn from. */
  lemma {:induction false} NoDupBounded(s: seq<string>, files: set<string>)
    requires NoDup(s) && Within(s, files)
    ensures |s| <= |files|
    ensures (exists p :: p in files && p !in s) ==> |s| < |files|
    decreases |s|
  {
    if s != [] {
      var init, last := s[..|s| - 1], s[|s| - 1];
      assert last !in init && last in s;
      forall p | p in init
        ensures p in files - {last}
      {
        assert p in s;
      }
      NoDupBounded(init, files - {last});
      if p :| p in files && p !in s {
        assert p in files - {last} && p !in init;
      }
    }
  }

  lemma NoDupPush(s: seq<string>, p: string)
    requires NoDup(s) && p !in s
    ensures NoDup(s + [p])
  {
  }

  lemma NoDupPop(s: seq<string>)
    requires NoDup(s) && s != []
    ensures NoDup(s[..|s| - 1])
  {
  }

  // ---------------------------------------------------------------------------
  // The circular-import message
  // ---------------------------------------------------------------------------

  /** The paths as the message shows them, each followed by an arrow. */
  function Arrows(paths: seq<string>, display: string -> string): string {
    if paths == [] then ""
    else Arrows(paths[..|paths| - 1], display) + (display(paths[|paths| - 1]) + " -> ")
  }

  /** The message shows the load stack from the first occurrence of `resolved`, and then
      `resolved` again. */
  method CircularImportMessage(loading: seq<string>, resolved: string, display: string -> string)
    returns (msg: string)
    requires resolved in loading
    ensures exists i | 0 <= i < |loading| ::
              && loading[i] == resolved && resolved !in loading[..i]
              && msg == "Circular import: " + Arrows(loading[i..], display) + display(resolved)
  {
    msg := "Circular import: ";
    var inCycle := false;
    ghost var start := 0;
    for i := 0 to |loading|
      invariant !inCycle ==> msg == "Circular import: " && resolved !in loading[..i]
      invariant inCycle ==> start < i && loading[start] == resolved && resolved !in loading[..start]
                            && msg == "Circular import: " + Arrows(loading[start..i], display)
    {
      assert loading[..i + 1] == loading[..i] + [loading[i]];
      if loading[i] == resolved && !inCycle {
        inCycle := true;
        start := i;
        assert loading[i..i] == [];
      }
      if inCycle {
        assert loading[start..i + 1][..i - start] == loading[start..i];
        msg := msg + (display(loading[i]) + " -> ");
      }
    }
    assert loading[start..|loading|] == loading[start..];
    msg := msg + display(resolved);
  }

  // ---------------------------------------------------------------------------
  // What a program does
  // ---------------------------------------------------------------------------

  /** How a Step ends, or which way a Branch goes. */
  datatype Choice = Goes | Throws | Diverts

  /** The file system, the path lookup (import name and importing file), and the choices
      the program makes, in order. */
  datatype Setup = Setup(files: map<string, File>, resolve: (string, string) -> Option<string>,
                         choice: nat -> Choice)

  /** A grain whose body was run: whether it failed, and whether one of its defers exited. */
  datatype Load = Load(path: string, failed: bool, exited: bool)

  /** The loader's state. `completed` lists the grains whose body completed and `loads`
      those whose body was run, both in order. */
  datatype World = World(
    env: nat, nextEnv: nat, file: string, imported: set<string>, owner: string,
    stack: seq<string>, cache: map<string, nat>, defers: seq<seq<seq<Act>>>, choices: nat,
    completed: seq<string>, loads: seq<Load>)

  ghost predicate Sound(c: Setup, w: World) {
    && NoDup(w.stack) && Within(w.stack, c.files.Keys)
    && NoDup(w.completed) && (forall p :: p in w.completed <==> p in w.cache)
  }

  /** Room left on the load stack. */
  ghost function Room(c: Setup, w: World): nat
    requires Sound(c, w)
  {
    NoDupBounded(w.stack, c.files.Keys);
    |c.files.Keys| - |w.stack|
  }

  /** What was on the load stack stays there; a grain that is being loaded is not completed
      meanwhile. */
  ghost predicate Follows(c: Setup, w: World, w': World) {
    && Sound(c, w') && w.stack <= w'.stack
    && (forall p | p in w.stack && p in w'.cache :: p in w.cache)
  }

  ghost function Exec(c: Setup, w: World, acts: seq<Act>): (res: (World, Outcome))
    requires Sound(c, w)
    ensures Follows(c, w, res.0) && |res.0.defers| == |w.defers|
    decreases Room(c, w), 1, acts, 0
  {
    if acts == [] then (w, Done)
    else
      var (w1, r) := ExecAct(c, w, acts[0]);
      if r.Done? then Exec(c, w1, acts[1..]) else (w1, r)
  }

  /** A block: its own environment, and the old one again however it ends. */
  ghost function ExecBlock(c: Setup, w: World, acts: seq<Act>): (res: (World, Outcome))
    requires Sound(c, w)
    ensures Follows(c, w, res.0) && |res.0.defers| == |w.defers|
    decreases Room(c, w), 1, acts, 1
  {
    var (w1, r) := Exec(c, NewScope(w), acts);
    (w1.(env := w.env), r)
  }

  ghost function ExecAct(c: Setup, w: World, act: Act): (res: (World, Outcome))
    requires Sound(c, w)
    ensures Follows(c, w, res.0) && |res.0.defers| == |w.defers|
    decreases Room(c, w), 1, act, 1
  {
    match act
    case Step => (w.(choices := w.choices + 1), StepEnd(c.choice(w.choices)))
    case Throw => (w, Threw)
    case Exit => (w, Exited)
    case Export => (w, Exported)
    case Branch(yes, no) =>
      Exec(c, w.(choices := w.choices + 1), if c.choice(w.choices).Goes? then yes else no)
    case Use(name) => ExecUse(c, w, name)
    case Defer(body) => (Deferring(w, body), Done)
    case Scope(body) => ExecBlock(c, w, body)
    case TryCatch(_, _, _) => ExecTry(c, w, act)
  }

  function StepEnd(k: Choice): Outcome {
    match k case Goes => Done case Throws => Threw case Diverts => Diverted
  }

  function NewScope(w: World): World {
    w.(env := w.nextEnv, nextEnv := w.nextEnv + 1)
  }

  function Deferring(w: World, body: seq<Act>): World {
    var n := |w.defers| - 1;
    if n < 0 then w else w.(defers := w.defers[n := w.defers[n] + [body]])
  }

  /** The finally body runs however the others ended, and its own ending wins. */
  ghost function ExecTry(c: Setup, w: World, act: Act): (res: (World, Outcome))
    requires Sound(c, w) && act.TryCatch?
    ensures Follows(c, w, res.0) && |res.0.defers| == |w.defers|
    decreases Room(c, w), 1, act, 0
  {
    var (w1, r1) := ExecBlock(c, w, act.tried);
    var (w2, r2) := if r1.Threw? then ExecBlock(c, w1, act.handler) else (w1, r1);
    var (w3, r3) := ExecBlock(c, w2, act.finally);
    (w3, if r3.Done? then r2 else r3)
  }

  /** loadGrain: the import set and the cache. */
  ghost function ExecUse(c: Setup, w: World, name: string): (res: (World, Outcome))
    requires Sound(c, w)
    ensures Follows(c, w, res.0) && |res.0.defers| == |w.defers|
    decreases Room(c, w), 0
  {
    var path := c.resolve(name, w.file);
    if path.None? || path.value in w.imported then (w, Threw)
    else
      var p, w0 := path.value, w.(imported := w.imported + {path.value});
      if p in w.cache then (w0, Done)
      else
        var (w1, r) := ExecLoad(c, w0, p);
        if r.Done? then (w1, r) else (w1.(imported := w1.imported - {p}), r)
  }

  predicate Loadable(c: Setup, w: World, p: string) {
    p !in w.stack && p in c.files && c.files[p].Grain?
  }

  /** The grain's own scope, and its entry on the load stack. */
  function Entering(w: World, p: string): World {
    NewScope(w).(file := p, imported := {}, owner := p, stack := w.stack + [p], defers := w.defers + [[]])
  }

  /** What the handlers of loadGrain restore; the last entry of the load stack goes. */
  function Leaving(w: World, w1: World, p: string, success: bool): World
    requires w1.stack != []
  {
    var back := w1.(env := w.env, file := w.file, imported := w.imported, owner := w.owner,
                    stack := w1.stack[..|w1.stack| - 1]);
    if success then back.(cache := back.cache[p := back.nextEnv], completed := back.completed + [p])
    else back
  }

  /** The part of loadGrain after the cache lookup. When a defer exits while the grain is
      failing, nothing is restored. */
  ghost function ExecLoad(c: Setup, w: World, p: string): (res: (World, Outcome))
    requires Sound(c, w) && p !in w.cache
    ensures Follows(c, w, res.0) && |res.0.defers| == |w.defers|
    ensures res.1.Done? ==> p in res.0.cache
    decreases Room(c, w), 0, 0
  {
    if !Loadable(c, w, p) then (w, Threw)
    else
      EnteringIsSound(c, w, p);
      var (w1, r) := ExecGrain(c, Entering(w, p), p, c.files[p].body);
      var last := w1.loads[|w1.loads| - 1];
      NoDupPop(w1.stack);
      if last.failed && last.exited then (w1, r) else (Leaving(w, w1, p, r.Done?), r)
  }

  lemma EnteringIsSound(c: Setup, w: World, p: string)
    requires Sound(c, w) && Loadable(c, w, p)
    ensures Sound(c, Entering(w, p)) && Room(c, Entering(w, p)) < Room(c, w)
  {
    NoDupPush(w.stack, p);
  }

  predicate Fails(r: Outcome) {
    !r.Done? && !r.Exported?
  }

  /** The grain's statements, then its defers. */
  ghost function ExecGrain(c: Setup, w: World, p: string, body: seq<Act>): (res: (World, Outcome))
    requires Sound(c, w) && w.defers != []
    ensures Follows(c, w, res.0) && |res.0.defers| == |w.defers| - 1 && res.0.loads != []
    ensures !res.1.Exported?
    decreases Room(c, w), 3
  {
    var (w1, r) := Exec(c, w, body);
    var n := |w1.defers| - 1;
    var (w2, exited) := ExecDefers(c, w1.(defers := w1.defers[..n]), w1.defers[n]);
    (w2.(loads := w2.loads + [Load(p, Fails(r), exited)]),
     if exited then Exited else if Fails(r) then r else Done)
  }

  /** Deferred expressions, last first; only sys.exit gets out of one. */
  ghost function ExecDefers(c: Setup, w: World, defers: seq<seq<Act>>): (res: (World, bool))
    requires Sound(c, w)
    ensures Follows(c, w, res.0) && |res.0.defers| == |w.defers|
    decreases Room(c, w), 2, |defers|
  {
    if defers == [] then (w, false)
    else
      var (w1, r) := Exec(c, w, defers[|defers| - 1]);
      if r.Exited? then (w1, true) else ExecDefers(c, w1, defers[..|defers| - 1])
  }

  // ---------------------------------------------------------------------------
  // The loader
  // ---------------------------------------------------------------------------

  class Interpreter {
    const setup: Setup
    var env: nat
    var nextEnv: nat
    var currentFile: string
    var importedInCurrentFile: set<string>
    var currentAstOwner: string
    var grainLoadStack: seq<string>
    var grainCache: map<string, nat>
    var deferStacks: seq<seq<seq<Act>>>
    var choices: nat
    ghost var completed: seq<string>
    ghost var loads: seq<Load>

    ghost function State(): World
      reads this
    {
      World(env, nextEnv, currentFile, importedInCurrentFile, currentAstOwner, grainLoadStack,
            grainCache, deferStacks, choices, completed, loads)
    }

    ghost predicate Valid()
      reads this
    {
      Sound(setup, State())
    }

    constructor (setup: Setup, script: string)
      ensures Valid() && this.setup == setup && State() == Fresh(script)
    {
      this.setup := setup;
      env, nextEnv, currentFile, importedInCurrentFile := 0, 1, script, {};
      currentAstOwner, grainLoadStack, grainCache, deferStacks := "", [], map[], [[]];
      choices, completed, loads := 0, [], [];
    }

    method RunActs(acts: seq<Act>) returns (r: Outcome)
      requires Valid()
      modifies this
      ensures Valid() && (State(), r) == Exec(setup, old(State()), acts)
      decreases Room(setup, State()), 1, acts, 0
    {
      if acts == [] { return Done; }
      r := RunAct(acts[0]);
      if r.Done? {
        r := RunActs(acts[1..]);
      }
    }

    method RunAct(act: Act) returns (r: Outcome)
      requires Valid()
      modifies this
      ensures Valid() && (State(), r) == ExecAct(setup, old(State()), act)
      decreases Room(setup, State()), 1, act, 1
    {
      match act {
        case Step =>
          var k := setup.choice(choices);
          choices := choices + 1;
          r := StepEnd(k);
        case Throw => r := Threw;
        case Exit => r := Exited;
        case Export => r := Exported;
        case Branch(yes, no) =>
          var k := setup.choice(choices);
          choices := choices + 1;
          if k.Goes? { r := RunActs(yes); } else { r := RunActs(no); }
        case Use(name) =>
          r := LoadGrain(name);
        case Defer(body) =>
          var n := |deferStacks| - 1;
          if n >= 0 { deferStacks := deferStacks[n := deferStacks[n] + [body]]; }
          r := Done;
        case Scope(body) =>
          r := RunBlock(body);
        case TryCatch(_, _, _) =>
          r := RunTry(act);
      }
    }

    method RunTry(act: Act) returns (r: Outcome)
      requires Valid() && act.TryCatch?
      modifies this
      ensures Valid() && (State(), r) == ExecTry(setup, old(State()), act)
      decreases Room(setup, State()), 1, act, 0
    {
      r := RunBlock(act.tried);
      if r.Threw? { r := RunBlock(act.handler); }
      var last := RunBlock(act.finally);
      if !last.Done? { r := last; }
    }

    /** executeBlock. */
    method RunBlock(acts: seq<Act>) returns (r: Outcome)
      requires Valid()
      modifies this
      ensures Valid() && (State(), r) == ExecBlock(setup, old(State()), acts)
      decreases Room(setup, State()), 1, acts, 1
    {
      var prevEnv := env;
      env, nextEnv := nextEnv, nextEnv + 1;
      r := RunActs(acts);
      env := prevEnv;
    }

    method RunDefers(defers: seq<seq<Act>>) returns (exited: bool)
      requires Valid()
      modifies this
      ensures Valid() && (State(), exited) == ExecDefers(setup, old(State()), defers)
      decreases Room(setup, State()), 2, |defers|
    {
      if defers == [] { return false; }
      var r := RunActs(defers[|defers| - 1]);
      if r.Exited? { return true; }
      exited := RunDefers(defers[..|defers| - 1]);
    }

    /** loadGrain. */
    method LoadGrain(name: string) returns (r: Outcome)
      requires Valid()
      modifies this
      ensures Valid() && (State(), r) == ExecUse(setup, old(State()), name)
      decreases Room(setup, State()), 0
    {
      var path := setup.resolve(name, currentFile);
      if path.None? { return Threw; }
      var resolved := path.value;
      if resolved in importedInCurrentFile { return Threw; }
      importedInCurrentFile := importedInCurrentFile + {resolved};
      if resolved in grainCache { return Done; }
      r := LoadNew(resolved);
      // FailedImportGuard
      if !r.Done? { importedInCurrentFile := importedInCurrentFile - {resolved}; }
    }

    /** The part of loadGrain after the cache lookup. */
    method LoadNew(resolved: string) returns (r: Outcome)
      requires Valid() && resolved !in grainCache
      modifies this
      ensures Valid() && (State(), r) == ExecLoad(setup, old(State()), resolved)
      decreases Room(setup, State()), 0, 0
    {
      if resolved in grainLoadStack {
        var _ := CircularImportMessage(grainLoadStack, resolved, p => p);
        return Threw;
      }
      if resolved !in setup.files || setup.files[resolved].BadSyntax? { return Threw; }
      ghost var before := State();
      EnteringIsSound(setup, before, resolved);
      var prevEnv, prevFile := env, currentFile;
      var prevImports, prevAstOwner := importedInCurrentFile, currentAstOwner;
      StartGrain(resolved);
      var lost: bool;
      r, lost := RunBody(resolved, setup.files[resolved].body);
      if lost { return; }
      FinishGrain(resolved, r.Done?, prevEnv, prevFile, prevImports, prevAstOwner, before);
    }

    method StartGrain(resolved: string)
      modifies this
      ensures State() == Entering(old(State()), resolved)
    {
      env, nextEnv := nextEnv, nextEnv + 1;
      currentFile := resolved;
      importedInCurrentFile := {};
      currentAstOwner := resolved;
      grainLoadStack := grainLoadStack + [resolved];
      deferStacks := deferStacks + [[]];
    }

    /** Restores the importing file's state, takes the last entry off the load stack, and
        caches the grain if it completed. */
    method FinishGrain(resolved: string, success: bool, prevEnv: nat, prevFile: string,
                       prevImports: set<string>, prevAstOwner: string, ghost before: World)
      requires grainLoadStack != []
      requires before.env == prevEnv && before.file == prevFile
      requires before.imported == prevImports && before.owner == prevAstOwner
      modifies this
      ensures State() == Leaving(before, old(State()), resolved, success)
    {
      env, currentFile, importedInCurrentFile, currentAstOwner := prevEnv, prevFile, prevImports, prevAstOwner;
      grainLoadStack := grainLoadStack[..|grainLoadStack| - 1];
      if success {
        grainCache := grainCache[resolved := nextEnv];
        completed := completed + [resolved];
      }
    }

    /** The grain's statements and its defers. `lost` says that a defer exited while the
        grain was failing, so that loadGrain's handler never restores anything. */
    method RunBody(resolved: string, body: seq<Act>) returns (r: Outcome, lost: bool)
      requires Valid() && deferStacks != []
      modifies this
      ensures Valid() && (State(), r) == ExecGrain(setup, old(State()), resolved, body)
      ensures var last := State().loads[|State().loads| - 1]; lost == (last.failed && last.exited)
      decreases Room(setup, State()), 3
    {
      r := RunActs(body);
      var failed := Fails(r);
      var n := |deferStacks| - 1;
      var defers := deferStacks[n];
      deferStacks := deferStacks[..n];
      var exited := RunDefers(defers);
      loads := loads + [Load(resolved, failed, exited)];
      if exited { r := Exited; } else if !failed { r := Done; }
      lost := failed && exited;
    }
  }

  function Fresh(script: string): World {
    World(0, 1, script, {}, "", [], map[], [[]], 0, [], [])
  }

  // ---------------------------------------------------------------------------
  // What a run restores
  // ---------------------------------------------------------------------------

  predicate IsLost(l: Load) {
    l.failed && l.exited
  }

  /** How many grains failed and had a defer exit. */
  function Lost(ls: seq<Load>): nat {
    if ls == [] then 0 else Lost(ls[..|ls| - 1]) + if IsLost(ls[|ls| - 1]) then 1 else 0
  }

  /** The grains whose body ran to its end, none of its defers exiting. */
  function Succeeded(ls: seq<Load>): seq<string> {
    if ls == [] then []
    else
      var init, last := Succeeded(ls[..|ls| - 1]), ls[|ls| - 1];
      if last.failed || last.exited then init else init + [last.path]
  }

  /** What is recorded as completed, and so cached, are exactly those. */
  predicate Recorded(w: World) {
    w.completed == Succeeded(w.loads)
  }

  /** The load stack grows by one for each lost load; without one, the scope is what it was.
      The record of completed grains stays right. */
  ghost predicate Keeps(w: World, w': World) {
    && w.loads <= w'.loads && (Recorded(w) ==> Recorded(w'))
    && |w'.stack| - |w.stack| == Lost(w'.loads) - Lost(w.loads) >= 0
    && (Lost(w'.loads) == Lost(w.loads) ==> Restored(w, w') && w.imported <= w'.imported)
  }

  predicate Restored(w: World, w': World) {
    w'.env == w.env && w'.file == w.file && w'.owner == w.owner && w'.stack == w.stack
  }

  lemma {:induction false} ExecKeeps(c: Setup, w: World, acts: seq<Act>)
    requires Sound(c, w)
    ensures Keeps(w, Exec(c, w, acts).0)
    decreases Room(c, w), 1, acts, 0
  {
    if acts != [] {
      ExecActKeeps(c, w, acts[0]);
      var (w1, r) := ExecAct(c, w, acts[0]);
      if r.Done? { ExecKeeps(c, w1, acts[1..]); }
    }
  }

  lemma {:induction false} ExecActKeeps(c: Setup, w: World, act: Act)
    requires Sound(c, w)
    ensures Keeps(w, ExecAct(c, w, act).0)
    decreases Room(c, w), 1, act, 1
  {
    match act
    case Branch(yes, no) =>
      ExecKeeps(c, w.(choices := w.choices + 1), if c.choice(w.choices).Goes? then yes else no);
    case Use(name) => ExecUseKeeps(c, w, name);
    case Scope(body) => ExecBlockKeeps(c, w, body);
    case TryCatch(_, _, _) => ExecTryKeeps(c, w, act);
    case _ =>
  }

  lemma {:induction false} ExecTryKeeps(c: Setup, w: World, act: Act)
    requires Sound(c, w) && act.TryCatch?
    ensures Keeps(w, ExecTry(c, w, act).0)
    decreases Room(c, w), 1, act, 0
  {
    ExecBlockKeeps(c, w, act.tried);
    var (w1, r1) := ExecBlock(c, w, act.tried);
    if r1.Threw? { ExecBlockKeeps(c, w1, act.handler); }
    var w2 := if r1.Threw? then ExecBlock(c, w1, act.handler).0 else w1;
    ExecBlockKeeps(c, w2, act.finally);
  }

  lemma {:induction false} ExecBlockKeeps(c: Setup, w: World, acts: seq<Act>)
    requires Sound(c, w)
    ensures Keeps(w, ExecBlock(c, w, acts).0)
    decreases Room(c, w), 1, acts, 1
  {
    ExecKeeps(c, NewScope(w), acts);
  }

  lemma {:induction false} ExecUseKeeps(c: Setup, w: World, name: string)
    requires Sound(c, w)
    ensures Keeps(w, ExecUse(c, w, name).0)
    decreases Room(c, w), 0
  {
    var path := c.resolve(name, w.file);
    if path.Some? && path.value !in w.imported && path.value !in w.cache {
      ExecLoadKeeps(c, w.(imported := w.imported + {path.value}), path.value);
    }
  }

  /** Moreover a load that is not lost restores the import set. */
  lemma {:induction false} ExecLoadKeeps(c: Setup, w: World, p: string)
    requires Sound(c, w) && p !in w.cache
    ensures var w' := ExecLoad(c, w, p).0;
            Keeps(w, w') && (Lost(w'.loads) == Lost(w.loads) ==> w'.imported == w.imported)
    decreases Room(c, w), 0, 0
  {
    if Loadable(c, w, p) {
      EnteringIsSound(c, w, p);
      ExecGrainKeeps(c, Entering(w, p), p, c.files[p].body);
      var (w1, r) := ExecGrain(c, Entering(w, p), p, c.files[p].body);
      if !IsLost(w1.loads[|w1.loads| - 1]) { LeavingKeeps(w, w1, p, r.Done?); }
    }
  }

  lemma LeavingKeeps(w: World, w1: World, p: string, success: bool)
    requires w1.loads != [] && w1.stack != []
    requires var (init, last) := (w1.loads[..|w1.loads| - 1], w1.loads[|w1.loads| - 1]);
             && w.loads <= w1.loads && |w.loads| < |w1.loads|
             && last.path == p && success == (!last.failed && !last.exited) && !IsLost(last)
             && |w1.stack| - |w.stack| - 1 == Lost(init) - Lost(w.loads) >= 0
             && (Lost(init) == Lost(w.loads) ==> w1.stack == w.stack + [p])
             && (Recorded(w) ==> w1.completed == Succeeded(init))
    ensures var w' := Leaving(w, w1, p, success);
            Keeps(w, w') && (Lost(w'.loads) == Lost(w.loads) ==> w'.imported == w.imported)
  {
  }

  lemma {:induction false} ExecGrainKeeps(c: Setup, w: World, p: string, body: seq<Act>)
    requires Sound(c, w) && w.defers != []
    ensures var w' := ExecGrain(c, w, p, body).0;
            && w.loads <= w'.loads && |w'.loads| > |w.loads|
            && |w'.stack| - |w.stack| ==
               Lost(w'.loads[..|w'.loads| - 1]) - Lost(w.loads) >= 0
            && (Lost(w'.loads[..|w'.loads| - 1]) == Lost(w.loads) ==> w'.stack == w.stack)
            && (Recorded(w) ==> w'.completed == Succeeded(w'.loads[..|w'.loads| - 1]))
    decreases Room(c, w), 3
  {
    ExecKeeps(c, w, body);
    var (w1, r) := Exec(c, w, body);
    var n := |w1.defers| - 1;
    ExecDefersKeeps(c, w1.(defers := w1.defers[..n]), w1.defers[n]);
    var (w2, exited) := ExecDefers(c, w1.(defers := w1.defers[..n]), w1.defers[n]);
    assert (w2.loads + [Load(p, Fails(r), exited)])[..|w2.loads|] == w2.loads;
  }

  lemma {:induction false} ExecDefersKeeps(c: Setup, w: World, defers: seq<seq<Act>>)
    requires Sound(c, w)
    ensures Keeps(w, ExecDefers(c, w, defers).0)
    decreases Room(c, w), 2, |defers|
  {
    if defers != [] {
      var n := |defers| - 1;
      ExecKeeps(c, w, defers[n]);
      var (w1, r) := Exec(c, w, defers[n]);
      if !r.Exited? { ExecDefersKeeps(c, w1, defers[..n]); }
    }
  }

  /** The new loads that were lost. */
  lemma {:induction false} LostIsCounted(ls: seq<Load>, n: nat)
    requires n <= |ls|
    ensures Lost(ls) >= Lost(ls[..n])
    ensures Lost(ls) == Lost(ls[..n]) <==> forall k | n <= k < |ls| :: !IsLost(ls[k])
    decreases |ls|
  {
    if n == |ls| {
      assert ls[..n] == ls;
    } else {
      assert ls[..|ls| - 1][..n] == ls[..n];
      LostIsCounted(ls[..|ls| - 1], n);
    }
  }

  /** An import leaves the loader's scope and load stack as they were if and only if none of
      the grains it ran failed with a defer that exited. */
  lemma ImportRestoresExactlyWhen(c: Setup, w: World, name: string)
    requires Sound(c, w)
    ensures var (w', r) := ExecUse(c, w, name);
            && w.loads <= w'.loads
            && (Restored(w, w') <==> forall k | |w.loads| <= k < |w'.loads| :: !IsLost(w'.loads[k]))
            && (Restored(w, w') && r.Done? ==>
                  c.resolve(name, w.file).Some? &&
                  w'.imported == w.imported + {c.resolve(name, w.file).value})
            && (Restored(w, w') && !r.Done? ==> w'.imported == w.imported)
  {
    var (w', r) := ExecUse(c, w, name);
    ExecUseKeeps(c, w, name);
    LostIsCounted(w'.loads, |w.loads|);
    assert w'.loads[..|w.loads|] == w.loads;
    var path := c.resolve(name, w.file);
    if path.Some? && path.value !in w.imported && path.value !in w.cache {
      ExecLoadKeeps(c, w.(imported := w.imported + {path.value}), path.value);
    }
  }

  /** Loading any grain restores everything if and only if the imports in its body do, those
      in its defers do, and it is not the case that the body fails and a defer then exits. */
  lemma LoadRestoresExactlyWhen(c: Setup, w: World, p: string)
    requires Sound(c, w) && p !in w.cache && Loadable(c, w, p)
    ensures Sound(c, Entering(w, p))
    ensures var w0 := Entering(w, p);
            var (w1, r) := Exec(c, w0, c.files[p].body);
            var n := |w1.defers| - 1;
            var (w2, exits) := ExecDefers(c, w1.(defers := w1.defers[..n]), w1.defers[n]);
            Restored(w, ExecLoad(c, w, p).0) <==>
            Restored(w0, w1) && Restored(w1, w2) && !(Fails(r) && exits)
  {
    EnteringIsSound(c, w, p);
    var w0, body := Entering(w, p), c.files[p].body;
    var (w1, r) := Exec(c, w0, body);
    ExecKeeps(c, w0, body);
    var n := |w1.defers| - 1;
    var w1' := w1.(defers := w1.defers[..n]);
    ExecDefersKeeps(c, w1', w1.defers[n]);
    var (w2, exits) := ExecDefers(c, w1', w1.defers[n]);
    ExecLoadKeeps(c, w, p);
    var loads := ExecGrain(c, w0, p, body).0.loads;
    assert loads == w2.loads + [Load(p, Fails(r), exits)];
    assert loads[..|loads| - 1] == w2.loads;
  }

  /** A load that ends in anything but success leaves the grain out of the cache, and out of
      the completed ones. */
  lemma FailedLoadIsNotCached(c: Setup, w: World, p: string)
    requires Sound(c, w) && p !in w.cache
    ensures var (w', r) := ExecLoad(c, w, p);
            && (r.Done? <==> p in w'.cache) && (r.Done? <==> p in w'.completed)
            && (Loadable(c, w, p) ==>
                  |w'.loads| > |w.loads| &&
                  var last := w'.loads[|w'.loads| - 1];
                  last.path == p && (r.Done? <==> !last.failed && !last.exited))
  {
    if Loadable(c, w, p) {
      EnteringIsSound(c, w, p);
      var e := Entering(w, p);
      assert e.stack[|w.stack|] == p && p in e.stack;
      ExecLoadKeeps(c, w, p);
      ExecGrainKeeps(c, e, p, c.files[p].body);
    }
  }

  /** An import that is neither repeated nor cached is a load. */
  lemma UseLoads(c: Setup, w: World, name: string, p: string)
    requires Sound(c, w) && c.resolve(name, w.file) == Some(p) && p !in w.imported && p !in w.cache
    requires Loadable(c, w, p)
    ensures var (w', r) := ExecUse(c, w, name);
            |w'.loads| > |w.loads| && w'.loads[|w'.loads| - 1].path == p
  {
    FailedLoadIsNotCached(c, w.(imported := w.imported + {p}), p);
  }

  lemma FailedUseCachesNothing(c: Setup, w: World, name: string, p: string)
    requires Sound(c, w) && c.resolve(name, w.file) == Some(p) && p !in w.imported && p !in w.cache
    requires !ExecUse(c, w, name).1.Done?
    ensures p !in ExecUse(c, w, name).0.cache
  {
    FailedLoadIsNotCached(c, w.(imported := w.imported + {p}), p);
  }

  lemma FailedUseRestoresImports(c: Setup, w: World, name: string, w1: World, r1: Outcome)
    requires Sound(c, w) && ExecUse(c, w, name) == (w1, r1) && !r1.Done? && Restored(w, w1)
    ensures w1.imported == w.imported
  {
    ImportRestoresExactlyWhen(c, w, name);
  }

  /** Importing a grain again that has failed runs its body again. */
  lemma FailedImportRunsAgain(c: Setup, w: World, name: string, p: string, w1: World, r1: Outcome)
    requires Sound(c, w) && c.resolve(name, w.file) == Some(p) && p !in w.imported && p !in w.cache
    requires Loadable(c, w, p) && ExecUse(c, w, name) == (w1, r1) && !r1.Done? && Restored(w, w1)
    ensures var w2 := ExecUse(c, w1, name).0;
            |w2.loads| > |w1.loads| && w2.loads[|w2.loads| - 1].path == p
  {
    FailedUseRestoresImports(c, w, name, w1, r1);
    FailedUseCachesNothing(c, w, name, p);
    assert Loadable(c, w1, p);
    UseLoads(c, w1, name, p);
  }

  /** Which imports run no code: an unresolved or repeated one fails, a cached one succeeds,
      and one of a grain that is still being loaded, or has no readable source, fails. */
  lemma ImportsWithoutLoading(c: Setup, w: World, name: string)
    requires Sound(c, w)
    ensures var (path, (w', r)) := (c.resolve(name, w.file), ExecUse(c, w, name));
            && (path.None? || path.value in w.imported ==> r.Threw? && w' == w)
            && (path.Some? && path.value !in w.imported && path.value in w.cache ==>
                  r.Done? && w' == w.(imported := w.imported + {path.value}))
            && (path.Some? && path.value !in w.imported + w.cache.Keys && !Loadable(c, w, path.value) ==>
                  r.Threw? && w' == w)
            && (r.Done? ==> path.Some? && path.value in w'.cache)
  {
    var path := c.resolve(name, w.file);
    if path.Some? && path.value !in w.imported {
      assert w.imported + {path.value} - {path.value} == w.imported;
    }
  }

  // ---------------------------------------------------------------------------
  // When no load can be lost
  // ---------------------------------------------------------------------------

  /** No statement in it, at any depth, is sys.exit or an import. */
  predicate CannotExit(acts: seq<Act>) {
    forall a | a in acts :: ActCannotExit(a)
  }

  predicate ActCannotExit(a: Act) {
    match a
    case Exit => false
    case Use(_) => false
    case Branch(yes, no) =>
      (forall b | b in yes :: ActCannotExit(b)) && (forall b | b in no :: ActCannotExit(b))
    case Scope(body) => forall b | b in body :: ActCannotExit(b)
    case Defer(body) => forall b | b in body :: ActCannotExit(b)
    case TryCatch(tried, handler, finally) =>
      && (forall b | b in tried :: ActCannotExit(b)) && (forall b | b in handler :: ActCannotExit(b))
      && (forall b | b in finally :: ActCannotExit(b))
    case _ => true
  }

  /** No deferred expression in it, at any depth, can exit. */
  predicate DefersQuietly(acts: seq<Act>) {
    forall a | a in acts :: ActDefersQuietly(a)
  }

  predicate ActDefersQuietly(a: Act) {
    match a
    case Defer(body) => CannotExit(body)
    case Branch(yes, no) =>
      (forall b | b in yes :: ActDefersQuietly(b)) && (forall b | b in no :: ActDefersQuietly(b))
    case Scope(body) => forall b | b in body :: ActDefersQuietly(b)
    case TryCatch(tried, handler, finally) =>
      && (forall b | b in tried :: ActDefersQuietly(b)) && (forall b | b in handler :: ActDefersQuietly(b))
      && (forall b | b in finally :: ActDefersQuietly(b))
    case _ => true
  }

  ghost predicate QuietFiles(c: Setup) {
    forall p | p in c.files && c.files[p].Grain? :: DefersQuietly(c.files[p].body)
  }

  /** What is deferred already cannot exit either. */
  ghost predicate QuietFrames(defers: seq<seq<seq<Act>>>) {
    forall f | f in defers :: QuietFrame(f)
  }

  ghost predicate QuietFrame(frame: seq<seq<Act>>) {
    forall d | d in frame :: CannotExit(d)
  }

  /** No load was lost on the way, and what is deferred cannot exit. */
  ghost predicate StaysQuiet(w: World, w': World) {
    Lost(w'.loads) == Lost(w.loads) && QuietFrames(w'.defers)
  }

  lemma {:induction false} NoExitIsQuiet(acts: seq<Act>)
    requires CannotExit(acts)
    ensures DefersQuietly(acts)
    decreases acts
  {
    forall a | a in acts
      ensures ActDefersQuietly(a)
    {
      match a
      case Branch(yes, no) =>
        NoExitIsQuiet(yes);
        NoExitIsQuiet(no);
      case Scope(body) => NoExitIsQuiet(body);
      case TryCatch(tried, handler, finally) =>
        NoExitIsQuiet(tried);
        NoExitIsQuiet(handler);
        NoExitIsQuiet(finally);
      case _ =>
    }
  }

  lemma {:induction false} ExecCannotExit(c: Setup, w: World, acts: seq<Act>)
    requires Sound(c, w) && CannotExit(acts)
    ensures !Exec(c, w, acts).1.Exited?
    decreases acts, 0
  {
    if acts != [] {
      ExecActCannotExit(c, w, acts[0]);
      var (w1, r) := ExecAct(c, w, acts[0]);
      if r.Done? { ExecCannotExit(c, w1, acts[1..]); }
    }
  }

  lemma {:induction false} ExecActCannotExit(c: Setup, w: World, act: Act)
    requires Sound(c, w) && ActCannotExit(act)
    ensures !ExecAct(c, w, act).1.Exited?
    decreases act, 1
  {
    match act
    case Branch(yes, no) =>
      ExecCannotExit(c, w.(choices := w.choices + 1), if c.choice(w.choices).Goes? then yes else no);
    case Scope(body) => BlockCannotExit(c, w, body);
    case TryCatch(tried, handler, finally) =>
      BlockCannotExit(c, w, tried);
      var (w1, r1) := ExecBlock(c, w, tried);
      if r1.Threw? { BlockCannotExit(c, w1, handler); }
      var w2 := if r1.Threw? then ExecBlock(c, w1, handler).0 else w1;
      BlockCannotExit(c, w2, finally);
    case _ =>
  }

  lemma {:induction false} BlockCannotExit(c: Setup, w: World, acts: seq<Act>)
    requires Sound(c, w) && CannotExit(acts)
    ensures !ExecBlock(c, w, acts).1.Exited?
    decreases acts, 1
  {
    ExecCannotExit(c, NewScope(w), acts);
  }

  lemma {:induction false} ExecQuiet(c: Setup, w: World, acts: seq<Act>)
    requires Sound(c, w) && QuietFiles(c) && QuietFrames(w.defers) && DefersQuietly(acts)
    ensures StaysQuiet(w, Exec(c, w, acts).0)
    decreases Room(c, w), 1, acts
  {
    if acts != [] {
      ExecActQuiet(c, w, acts[0]);
      var (w1, r) := ExecAct(c, w, acts[0]);
      if r.Done? { ExecQuiet(c, w1, acts[1..]); }
    }
  }

  lemma {:induction false} ExecActQuiet(c: Setup, w: World, act: Act)
    requires Sound(c, w) && QuietFiles(c) && QuietFrames(w.defers) && ActDefersQuietly(act)
    ensures StaysQuiet(w, ExecAct(c, w, act).0)
    decreases Room(c, w), 1, act
  {
    match act
    case Branch(yes, no) =>
      ExecQuiet(c, w.(choices := w.choices + 1), if c.choice(w.choices).Goes? then yes else no);
    case Use(name) => ExecUseQuiet(c, w, name);
    case Scope(body) => ExecQuiet(c, NewScope(w), body);
    case TryCatch(_, _, _) => ExecTryQuiet(c, w, act);
    case Defer(body) => DeferQuiet(w, body);
    case _ =>
  }

  lemma DeferQuiet(w: World, body: seq<Act>)
    requires QuietFrames(w.defers) && CannotExit(body)
    ensures StaysQuiet(w, Deferring(w, body))
  {
    var n := |w.defers| - 1;
    if n >= 0 {
      var w' := Deferring(w, body);
      assert w.defers[n] in w.defers && QuietFrame(w.defers[n] + [body]);
      forall f | f in w'.defers
        ensures QuietFrame(f)
      {
        assert f == w.defers[n] + [body] || f in w.defers;
      }
    }
  }

  lemma {:induction false} ExecTryQuiet(c: Setup, w: World, act: Act)
    requires Sound(c, w) && QuietFiles(c) && QuietFrames(w.defers) && act.TryCatch? && ActDefersQuietly(act)
    ensures StaysQuiet(w, ExecTry(c, w, act).0)
    decreases Room(c, w), 1, act, 0
  {
    ExecQuiet(c, NewScope(w), act.tried);
    var (w1, r1) := ExecBlock(c, w, act.tried);
    if r1.Threw? { ExecQuiet(c, NewScope(w1), act.handler); }
    var w2 := if r1.Threw? then ExecBlock(c, w1, act.handler).0 else w1;
    ExecQuiet(c, NewScope(w2), act.finally);
  }

  lemma {:induction false} ExecUseQuiet(c: Setup, w: World, name: string)
    requires Sound(c, w) && QuietFiles(c) && QuietFrames(w.defers)
    ensures StaysQuiet(w, ExecUse(c, w, name).0)
    decreases Room(c, w), 0
  {
    var path := c.resolve(name, w.file);
    if path.Some? && path.value !in w.imported && path.value !in w.cache {
      ExecLoadQuiet(c, w.(imported := w.imported + {path.value}), path.value);
    }
  }

  lemma {:induction false} ExecLoadQuiet(c: Setup, w: World, p: string)
    requires Sound(c, w) && p !in w.cache && QuietFiles(c) && QuietFrames(w.defers)
    ensures StaysQuiet(w, ExecLoad(c, w, p).0)
    decreases Room(c, w), 0, 0
  {
    if Loadable(c, w, p) {
      EnteringIsSound(c, w, p);
      var w0 := Entering(w, p);
      assert forall f | f in w0.defers :: f in w.defers || f == [];
      ExecGrainQuiet(c, w0, p, c.files[p].body);
    }
  }

  lemma {:induction false} ExecGrainQuiet(c: Setup, w: World, p: string, body: seq<Act>)
    requires Sound(c, w) && w.defers != [] && QuietFiles(c) && QuietFrames(w.defers) && DefersQuietly(body)
    ensures var w' := ExecGrain(c, w, p, body).0;
            StaysQuiet(w, w') && !w'.loads[|w'.loads| - 1].exited
    decreases Room(c, w), 3
  {
    ExecQuiet(c, w, body);
    var (w1, r) := Exec(c, w, body);
    var n := |w1.defers| - 1;
    var w2 := w1.(defers := w1.defers[..n]);
    assert w1.defers[n] in w1.defers;
    assert forall f | f in w2.defers :: f in w1.defers;
    ExecDefersQuiet(c, w2, w1.defers[n]);
    var (w3, exited) := ExecDefers(c, w2, w1.defers[n]);
    assert (w3.loads + [Load(p, Fails(r), exited)])[..|w3.loads|] == w3.loads;
  }

  lemma {:induction false} ExecDefersQuiet(c: Setup, w: World, defers: seq<seq<Act>>)
    requires Sound(c, w) && QuietFiles(c) && QuietFrames(w.defers) && QuietFrame(defers)
    ensures StaysQuiet(w, ExecDefers(c, w, defers).0) && !ExecDefers(c, w, defers).1
    decreases Room(c, w), 2, |defers|
  {
    if defers != [] {
      var n := |defers| - 1;
      assert defers[n] in defers;
      NoExitIsQuiet(defers[n]);
      ExecCannotExit(c, w, defers[n]);
      ExecQuiet(c, w, defers[n]);
      assert forall d | d in defers[..n] :: d in defers;
      ExecDefersQuiet(c, Exec(c, w, defers[n]).0, defers[..n]);
    }
  }

  /** If no file defers anything that can exit, every import restores everything, for every
      import graph and whatever choices the program makes. */
  lemma QuietFilesRestore(c: Setup, w: World, name: string)
    requires Sound(c, w) && QuietFiles(c) && QuietFrames(w.defers)
    ensures Restored(w, ExecUse(c, w, name).0)
  {
    ExecUseQuiet(c, w, name);
    ExecUseKeeps(c, w, name);
  }

  /** A whole script, from an empty interpreter: no grain body completes twice, one path is
      left on the load stack for each load that was lost, and none if nothing deferred in
      the script or in any file can exit. */
  method RunScript(setup: Setup, script: string, body: seq<Act>) returns (i: Interpreter, r: Outcome)
    ensures fresh(i) && i.Valid() && NoDup(i.completed)
    ensures |i.grainLoadStack| == Lost(i.loads)
    ensures i.completed == Succeeded(i.loads) && forall p :: p in i.grainCache <==> p in Succeeded(i.loads)
    ensures QuietFiles(setup) && DefersQuietly(body) ==> i.grainLoadStack == [] && i.currentFile == script
  {
    i := new Interpreter(setup, script);
    ExecKeeps(setup, Fresh(script), body);
    if QuietFiles(setup) && DefersQuietly(body) {
      assert QuietFrame([]) && QuietFrames(Fresh(script).defers);
      ExecQuiet(setup, Fresh(script), body);
    }
    r := i.RunActs(body);
  }
}
