/** Small import graphs, run by the loader (src/interpreter.cpp, `loadGrain`). */
module GrainCases {
  import opened Wrappers
  import opened GrainLoader
  import opened GrainAnalysis

  /** The state after an empty grain has been loaded. */
  function Loaded(w: World, p: string): World {
    w.(nextEnv := w.nextEnv + 1, imported := w.imported + {p}, cache := w.cache[p := w.nextEnv + 1],
       completed := w.completed + [p], loads := w.loads + [Load(p, false, false)])
  }

  ghost predicate CanLoad(c: Setup, w: World, name: string, p: string) {
    Sound(c, w) && c.resolve(name, w.file) == Some(p) && p !in w.imported && p !in w.cache && Loadable(c, w, p)
  }

  lemma EmptyGrain(c: Setup, w: World, p: string)
    requires Sound(c, w) && w.defers != [] && TopFrame(w) == []
    ensures ExecGrain(c, w, p, []) ==
            (w.(defers := w.defers[..|w.defers| - 1], loads := w.loads + [Load(p, false, false)]), Done)
  {
  }

  lemma LoadOfEmpty(c: Setup, w: World, p: string)
    requires Sound(c, w) && p !in w.cache && Loadable(c, w, p) && c.files[p].body == []
    ensures ExecLoad(c, w, p) == (Loaded(w, p).(imported := w.imported), Done)
  {
    EnteringIsSound(c, w, p);
    var e := Entering(w, p);
    EmptyGrain(c, e, p);
    assert e.defers[..|e.defers| - 1] == w.defers && e.stack[..|e.stack| - 1] == w.stack;
  }

  lemma UseOfEmpty(c: Setup, w: World, name: string, p: string)
    requires CanLoad(c, w, name, p) && c.files[p].body == []
    ensures ExecUse(c, w, name) == (Loaded(w, p), Done)
  {
    LoadOfEmpty(c, w.(imported := w.imported + {p}), p);
  }

  /** A grain whose one statement ends with success or an error, and defers nothing. */
  lemma GrainOfOne(c: Setup, w: World, p: string, act: Act, v: World, r: Outcome)
    requires Sound(c, w) && w.defers != [] && TopFrame(w) == []
    requires ExecAct(c, w, act) == (v, r) && v.defers == w.defers && (r.Done? || r.Threw?)
    ensures ExecGrain(c, w, p, [act]) ==
            (v.(defers := w.defers[..|w.defers| - 1], loads := v.loads + [Load(p, r.Threw?, false)]), r)
  {
    ExecOne(c, w, act);
  }

  /** Importing a grain that does nothing but import. */
  lemma UseOfUse(c: Setup, w: World, name: string, p: string, inner: string, v: World, r: Outcome)
    requires CanLoad(c, w, name, p) && c.files[p].body == [Use(inner)]
    requires var e := Entering(w.(imported := w.imported + {p}), p);
             && Sound(c, e) && ExecUse(c, e, inner) == (v, r) && (r.Done? || r.Threw?)
             && v.defers == e.defers && v.stack == e.stack
    ensures var (w', r') := ExecUse(c, w, name);
            && r' == r && w'.stack == w.stack && w'.defers == w.defers && w'.file == w.file
            && w'.imported == (if r.Done? then w.imported + {p} else w.imported)
            && w'.loads == v.loads + [Load(p, r.Threw?, false)]
            && w'.completed == if r.Done? then v.completed + [p] else v.completed
  {
    var w0 := w.(imported := w.imported + {p});
    EnteringIsSound(c, w0, p);
    var e := Entering(w0, p);
    GrainOfOne(c, e, p, Use(inner), v, r);
    assert e.defers[..|e.defers| - 1] == w.defers && e.stack[..|e.stack| - 1] == w.stack;
    assert w.imported + {p} - {p} == w.imported;
  }

  // ---------------------------------------------------------------------------
  // Two importers of one grain
  // ---------------------------------------------------------------------------

  /** a imports c; c imports nothing. */
  function Diamond(choice: nat -> Choice): Setup {
    Setup(map["a" := Grain([Use("c")]), "c" := Grain([])], (name, from) => Some(name), choice)
  }

  lemma DiamondLoadsC(choice: nat -> Choice)
    ensures var c, w := Diamond(choice), Fresh("main");
            CanLoad(c, w, "c", "c") && ExecUse(c, w, "c") == (Loaded(w, "c"), Done)
  {
    var c, w := Diamond(choice), Fresh("main");
    UseOfEmpty(c, w, "c", "c");
  }

  /** Inside a, the import of c is served from the cache: that the script has imported c
      before is no repetition in a. */
  lemma DiamondLoadsA(choice: nat -> Choice)
    ensures var c, w := Diamond(choice), Loaded(Fresh("main"), "c");
            && Sound(c, w)
            && var (w', r) := ExecUse(c, w, "a");
               r == Done && w'.completed == ["c", "a"] && w'.imported == {"c", "a"} && w'.stack == []
  {
    var c, w := Diamond(choice), Loaded(Fresh("main"), "c");
    var e := Entering(w.(imported := w.imported + {"a"}), "a");
    EnteringIsSound(c, w.(imported := w.imported + {"a"}), "a");
    UseOfUse(c, w, "a", "a", "c", e.(imported := {"c"}), Done);
  }

  /** The script imports c, then a: c runs once. */
  lemma DiamondRunsOnce(choice: nat -> Choice)
    ensures var c, w := Diamond(choice), Fresh("main");
            && Sound(c, w)
            && var (w', r) := Exec(c, w, [Use("c"), Use("a")]);
               r == Done && w'.completed == ["c", "a"] && w'.imported == {"c", "a"} && w'.stack == []
  {
    DiamondLoadsC(choice);
    DiamondLoadsA(choice);
    ExecTwo(Diamond(choice), Fresh("main"), Use("c"), Use("a"));
  }

  /** The script imports c twice: the second import is an error. */
  lemma RepeatedImportThrows(choice: nat -> Choice)
    ensures var c, w := Diamond(choice), Fresh("main");
            Sound(c, w) && Exec(c, w, [Use("c"), Use("c")]) == (Loaded(w, "c"), Threw)
  {
    DiamondLoadsC(choice);
    ExecTwo(Diamond(choice), Fresh("main"), Use("c"), Use("c"));
  }

  // ---------------------------------------------------------------------------
  // A cycle of imports
  // ---------------------------------------------------------------------------

  /** a and b import each other. */
  function Ring(choice: nat -> Choice): Setup {
    Setup(map["a" := Grain([Use("b")]), "b" := Grain([Use("a")])], (name, from) => Some(name), choice)
  }

  /** Importing a fails where b imports a; both grains fail, nothing is cached and the load
      stack is empty again. */
  lemma RingThrows(choice: nat -> Choice)
    ensures var c, w := Ring(choice), Fresh("main");
            && Sound(c, w)
            && var (w', r) := ExecUse(c, w, "a");
               && r == Threw && w'.stack == [] && w'.imported == {} && w'.completed == []
               && w'.loads == [Load("b", true, false), Load("a", true, false)]
  {
    var c, w := Ring(choice), Fresh("main");
    var wa := w.(imported := w.imported + {"a"});
    EnteringIsSound(c, wa, "a");
    var ea := Entering(wa, "a");
    var wb := ea.(imported := ea.imported + {"b"});
    EnteringIsSound(c, wb, "b");
    var eb := Entering(wb, "b");
    assert eb.stack == ["a", "b"];
    RingStops(c, eb);
    UseOfUse(c, ea, "b", "b", "a", eb, Threw);
    var v := ExecUse(c, ea, "b").0;
    UseOfUse(c, w, "a", "a", "b", v, Threw);
  }

  lemma RingStops(c: Setup, w: World)
    requires Sound(c, w) && c.resolve("a", w.file) == Some("a") && "a" in w.stack
    requires "a" !in w.cache && w.imported == {}
    ensures ExecUse(c, w, "a") == (w, Threw)
  {
    ImportsWithoutLoading(c, w, "a");
  }

  // ---------------------------------------------------------------------------
  // The order of defers
  // ---------------------------------------------------------------------------

  /** Deferred expressions run last first: of two deferred imports the second is made first. */
  lemma LastDeferRunsFirst(c: Setup, w: World, x: string, y: string)
    requires CanLoad(c, w, y, y) && c.files[y].body == []
    requires CanLoad(c, Loaded(w, y), x, x) && c.files[x].body == []
    ensures ExecDefers(c, w, [[Use(x)], [Use(y)]]) == (Loaded(Loaded(w, y), x), false)
  {
    var frame := [[Use(x)], [Use(y)]];
    UseOfEmpty(c, w, y, y);
    ExecOne(c, w, Use(y));
    var w1 := Loaded(w, y);
    UseOfEmpty(c, w1, x, x);
    ExecOne(c, w1, Use(x));
    assert frame[..1] == [[Use(x)]] && frame[..1][..0] == [];
    assert ExecDefers(c, w1, [[Use(x)]]) == (Loaded(w1, x), false);
  }

  // ---------------------------------------------------------------------------
  // How a body may end
  // ---------------------------------------------------------------------------

  lemma GrainEnds(c: Setup, w: World, p: string, act: Act, r: Outcome)
    requires Sound(c, w) && w.defers != [] && TopFrame(w) == [] && ExecAct(c, w, act) == (w, r)
    ensures ExecGrain(c, w, p, [act]) ==
            (w.(defers := w.defers[..|w.defers| - 1], loads := w.loads + [Load(p, !r.Done? && !r.Exported?, false)]),
             if r.Exported? then Done else r)
  {
    ExecOne(c, w, act);
  }

  /** A grain that ends with export has succeeded; one that throws, exits or returns at its
      top level has failed, and its importer ends the same way. */
  lemma ExportSucceeds(c: Setup, w: World, name: string, p: string, choice: Choice)
    requires CanLoad(c, w, name, p) && choice == c.choice(w.choices)
    ensures c.files[p].body == [Export] ==>
              ExecUse(c, w, name).1 == Done && p in ExecUse(c, w, name).0.cache
    ensures c.files[p].body == [Throw] ==> ExecUse(c, w, name).1 == Threw && p !in ExecUse(c, w, name).0.cache
    ensures c.files[p].body == [Exit] ==> ExecUse(c, w, name).1 == Exited && p !in ExecUse(c, w, name).0.cache
    ensures c.files[p].body == [Step] && choice == Diverts ==>
              ExecUse(c, w, name).1 == Diverted && p !in ExecUse(c, w, name).0.cache
  {
    var w0 := w.(imported := w.imported + {p});
    EnteringIsSound(c, w0, p);
    var e, body := Entering(w0, p), c.files[p].body;
    FailedLoadIsNotCached(c, w0, p);
    if body == [Export] { GrainEnds(c, e, p, Export, Exported); }
    if body == [Throw] { GrainEnds(c, e, p, Throw, Threw); }
    if body == [Exit] { GrainEnds(c, e, p, Exit, Exited); }
    if body == [Step] && choice == Diverts { StepDiverts(c, e, p); }
  }

  lemma StepDiverts(c: Setup, w: World, p: string)
    requires Sound(c, w) && w.defers != [] && TopFrame(w) == [] && c.choice(w.choices) == Diverts
    ensures ExecGrain(c, w, p, [Step]).1 == Diverted
    ensures var loads := ExecGrain(c, w, p, [Step]).0.loads; loads == w.loads + [Load(p, true, false)]
  {
    ExecOne(c, w, Step);
  }

  /** An error in a deferred expression is swallowed, an exit is not. */
  lemma DeferErrors(c: Setup, w: World)
    requires Sound(c, w)
    ensures ExecDefers(c, w, [[Throw]]) == (w, false) && ExecDefers(c, w, [[Exit]]) == (w, true)
  {
    ExecOne(c, w, Throw);
    ExecOne(c, w, Exit);
    assert [[Throw]][..0] == [];
  }
}
