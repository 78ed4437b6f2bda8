/** The cross-thread post queue (src/interpreter.cpp, `enqueuePosted`, `drainPosted`):
    any number of producer threads push calls under a mutex, and the engine thread swaps
    the queue out and runs the batch, re-entering itself from the callbacks it runs.

    Every statement that touches shared state is a step of its own. A call is identified
    by the number of calls pushed before it. */
module PostQueue {

  type Tid = nat
  type Call = nat

  datatype Holder = Free | Producer(tid: Tid) | Engine

  /** Where a producer is inside enqueuePosted. */
  datatype Phase = Idle | HasLock | Pushed | Flagged

  /** Where an activation of drainPosted is. */
  datatype Frame =
    | Checked                                             // saw the flag set
    | HoldsLock
    | Swapped(no: nat, work: seq<Call>)                   // batch number and calls
    | Cleared(no: nat, work: seq<Call>)
    | Draining(no: nat, work: seq<Call>, next: nat, running: bool) // `next` calls have been started

  datatype State = State(
    queue: seq<Call>,
    pending: bool,                  // the atomic flag
    mutex: Holder,
    producers: map<Tid, Phase>,
    frames: seq<Frame>,             // the engine's activations, innermost last
    posted: nat,                    // calls pushed so far
    started: seq<Call>,             // calls started so far, in order
    batch: map<Call, nat>,          // the swap that took a call out of the queue
    swaps: nat)

  datatype Step =
    | LockQueue(tid: Tid) | Push(tid: Tid) | SetFlag(tid: Tid) | UnlockQueue(tid: Tid)
    | SkipDrain | EnterDrain | LockDrain | Swap | ClearFlag | UnlockDrain
    | StartCall | EndCall | LeaveDrain       // a call ends by returning or by throwing

  function Top(s: State): Frame
    requires s.frames != []
  {
    s.frames[|s.frames| - 1]
  }

  function SetTop(s: State, f: Frame): State
    requires s.frames != []
  {
    s.(frames := s.frames[..|s.frames| - 1] + [f])
  }

  predicate AtPhase(s: State, t: Tid, p: Phase) {
    t in s.producers && s.producers[t] == p
  }

  /** drainPosted may be called by the interpreter loop, or from a running callback. */
  predicate MayEnter(s: State) {
    s.frames == [] || (Top(s).Draining? && Top(s).running)
  }

  predicate Enabled(s: State, step: Step) {
    match step
    case LockQueue(t) => AtPhase(s, t, Idle) && s.mutex == Free
    case Push(t) => AtPhase(s, t, HasLock)
    case SetFlag(t) => AtPhase(s, t, Pushed)
    case UnlockQueue(t) => AtPhase(s, t, Flagged)
    case SkipDrain => MayEnter(s) && !s.pending
    case EnterDrain => MayEnter(s) && s.pending
    case LockDrain => s.frames != [] && Top(s).Checked? && s.mutex == Free
    case Swap => s.frames != [] && Top(s).HoldsLock?
    case ClearFlag => s.frames != [] && Top(s).Swapped?
    case UnlockDrain => s.frames != [] && Top(s).Cleared?
    case StartCall => s.frames != [] && Top(s).Draining? && !Top(s).running && Top(s).next < |Top(s).work|
    case EndCall => s.frames != [] && Top(s).Draining? && Top(s).running
    case LeaveDrain => s.frames != [] && Top(s).Draining? && !Top(s).running && Top(s).next >= |Top(s).work|
  }

  function Next(s: State, step: Step): State
    requires Enabled(s, step)
  {
    match step
    case LockQueue(t) => s.(mutex := Producer(t), producers := s.producers[t := HasLock])
    case Push(t) =>
      s.(queue := s.queue + [s.posted], posted := s.posted + 1, producers := s.producers[t := Pushed])
    case SetFlag(t) => s.(pending := true, producers := s.producers[t := Flagged])
    case UnlockQueue(t) => s.(mutex := Free, producers := s.producers[t := Idle])
    case SkipDrain => s
    case EnterDrain => s.(frames := s.frames + [Checked])
    case LockDrain => SetTop(s, HoldsLock).(mutex := Engine)
    case Swap =>
      SetTop(s, Swapped(s.swaps, s.queue)).(queue := [], swaps := s.swaps + 1,
                                   batch := s.batch + (map c | c in s.queue :: s.swaps))
    case ClearFlag => SetTop(s, Cleared(Top(s).no, Top(s).work)).(pending := false)
    case UnlockDrain => SetTop(s, Draining(Top(s).no, Top(s).work, 0, false)).(mutex := Free)
    case StartCall =>
      var f := Top(s);
      SetTop(s, Draining(f.no, f.work, f.next + 1, true)).(started := s.started + [f.work[f.next]])
    case EndCall => SetTop(s, Top(s).(running := false))
    case LeaveDrain => s.(frames := s.frames[..|s.frames| - 1])
  }

  predicate Init(s: State) {
    && s.queue == [] && !s.pending && s.mutex == Free && s.frames == []
    && s.posted == 0 && s.started == [] && s.batch == map[] && s.swaps == 0
    && forall t | t in s.producers :: s.producers[t] == Idle
  }

  // ---------------------------------------------------------------------------
  // Where each call is
  // ---------------------------------------------------------------------------

  /** The calls an activation has taken and not yet started. */
  function Rest(f: Frame): seq<Call> {
    match f
    case Checked => []
    case HoldsLock => []
    case Swapped(_, w) => w
    case Cleared(_, w) => w
    case Draining(_, w, n, _) => if n <= |w| then w[n..] else []
  }

  /** The calls in flight, outermost activation first. */
  function InFlight(frames: seq<Frame>): seq<Call> {
    if frames == [] then [] else InFlight(frames[..|frames| - 1]) + Rest(frames[|frames| - 1])
  }

  /** Everything posted and not yet started: in flight, then queued. */
  function Waiting(s: State): seq<Call> {
    InFlight(s.frames) + s.queue
  }

  function UpTo(n: nat): seq<Call> {
    if n == 0 then [] else UpTo(n - 1) + [n - 1]
  }

  predicate Increasing(s: seq<Call>) {
    forall i, j | 0 <= i < j < |s| :: s[i] < s[j]
  }

  // ---------------------------------------------------------------------------
  // Invariants
  // ---------------------------------------------------------------------------

  /** The mutex is held by exactly the thread that is inside its critical section. */
  predicate LockInvariant(s: State) {
    && (forall t | t in s.producers :: s.producers[t] != Idle <==> s.mutex == Producer(t))
    && (s.mutex.Producer? ==> s.mutex.tid in s.producers)
    && (s.mutex == Engine <==> s.frames != [] && (Top(s).HoldsLock? || Top(s).Swapped? || Top(s).Cleared?))
    && (forall i | 0 <= i < |s.frames| - 1 :: s.frames[i].Draining? && s.frames[i].running)
  }

  /** What the flag says about the queue, at every point of both critical sections. */
  predicate FlagInvariant(s: State) {
    match s.mutex
    case Free => s.pending <==> s.queue != []
    case Producer(t) =>
      t in s.producers &&
      (match s.producers[t]
       case Pushed => s.queue != []
       case Flagged => s.queue != [] && s.pending
       case _ => s.pending <==> s.queue != [])
    case Engine =>
      s.frames != [] &&
      (match Top(s)
       case Swapped(_, _) => s.queue == []
       case Cleared(_, _) => s.queue == [] && !s.pending
       case _ => s.pending <==> s.queue != [])
  }

  /** Each posted call is queued, in flight or started, exactly once; what waits is in
      post order. */
  ghost predicate Conserved(started: seq<Call>, waiting: seq<Call>, posted: nat) {
    && multiset(started) + multiset(waiting) == multiset(UpTo(posted))
    && Increasing(waiting)
    && (forall c | c in waiting :: c < posted)
  }

  predicate HasWork(f: Frame) {
    f.Swapped? || f.Cleared? || f.Draining?
  }

  ghost predicate FrameOwns(batch: map<Call, nat>, swaps: nat, f: Frame) {
    HasWork(f) ==>
      f.no < swaps && forall c | c in Rest(f) :: c in batch && batch[c] == f.no
  }

  /** Each activation holds calls of its own batch, and inner batches are later ones. */
  ghost predicate FramesNumbered(frames: seq<Frame>, batch: map<Call, nat>, swaps: nat) {
    && (forall i {:trigger FrameOwns(batch, swaps, frames[i])} | 0 <= i < |frames| ::
          FrameOwns(batch, swaps, frames[i]))
    && (forall i, j | 0 <= i < j < |frames| && HasWork(frames[i]) && HasWork(frames[j]) ::
          frames[i].no < frames[j].no)
  }

  /** The calls of one batch are started in post order. */
  ghost predicate StartedInOrder(started: seq<Call>, batch: map<Call, nat>, swaps: nat) {
    && (forall c | c in started :: c in batch && batch[c] < swaps)
    && (forall i, j | 0 <= i < j < |started| && batch[started[i]] == batch[started[j]] ::
          started[i] < started[j])
  }

  /** The calls an activation still holds come after those of its batch already started. */
  ghost predicate ComesAfter(started: seq<Call>, batch: map<Call, nat>, f: Frame) {
    HasWork(f) ==>
      forall c, d | c in started && d in Rest(f) && c in batch && batch[c] == f.no :: c < d
  }

  ghost predicate BatchInvariant(s: State) {
    && FramesNumbered(s.frames, s.batch, s.swaps)
    && StartedInOrder(s.started, s.batch, s.swaps)
    && (forall i {:trigger ComesAfter(s.started, s.batch, s.frames[i])} | 0 <= i < |s.frames| ::
          ComesAfter(s.started, s.batch, s.frames[i]))
    && (forall c | c in s.batch :: c < s.posted && c !in s.queue)
  }

  ghost predicate Conserving(s: State) {
    Conserved(s.started, Waiting(s), s.posted)
  }

  ghost predicate Invariant(s: State) {
    LockInvariant(s) && FlagInvariant(s) && Conserving(s) && BatchInvariant(s)
  }

  // ---------------------------------------------------------------------------
  // Every step keeps them
  // ---------------------------------------------------------------------------

  lemma StepKeepsLocks(s: State, step: Step)
    requires LockInvariant(s) && Enabled(s, step)
    ensures LockInvariant(Next(s, step))
  {
  }

  lemma StepKeepsFlag(s: State, step: Step)
    requires LockInvariant(s) && FlagInvariant(s) && Enabled(s, step)
    ensures FlagInvariant(Next(s, step))
  {
  }

  lemma IncreasingSplit(a: seq<Call>, x: Call, b: seq<Call>)
    requires Increasing(a + [x] + b)
    ensures Increasing(a + b) && Increasing([x] + b)
  {
    var w := a + [x] + b;
    forall i, j | 0 <= i < j < |a + b|
      ensures (a + b)[i] < (a + b)[j]
    {
      var i', j' := if i < |a| then i else i + 1, if j < |a| then j else j + 1;
      assert w[i'] < w[j'];
    }
    forall i, j | 0 <= i < j < |[x] + b|
      ensures ([x] + b)[i] < ([x] + b)[j]
    {
      assert w[|a| + i] < w[|a| + j];
    }
  }

  /** The waiting calls, split at the top activation. */
  lemma WaitingAtTop(s: State, f: Frame)
    requires s.frames != []
    ensures Waiting(s) == InFlight(s.frames[..|s.frames| - 1]) + Rest(Top(s)) + s.queue
    ensures InFlight(SetTop(s, f).frames) == InFlight(s.frames[..|s.frames| - 1]) + Rest(f)
  {
    assert SetTop(s, f).frames[..|s.frames| - 1] == s.frames[..|s.frames| - 1];
  }

  lemma SameRestSameWaiting(s: State, f: Frame, s': State)
    requires s.frames != [] && Rest(f) == Rest(Top(s))
    requires s'.frames == SetTop(s, f).frames && s'.queue == s.queue
    ensures Waiting(s') == Waiting(s)
  {
    WaitingAtTop(s, f);
  }

  lemma SwapKeepsWaiting(s: State)
    requires Enabled(s, Swap)
    ensures Waiting(Next(s, Swap)) == Waiting(s)
  {
    var below := InFlight(s.frames[..|s.frames| - 1]);
    WaitingAtTop(s, Swapped(s.swaps, s.queue));
    assert Next(s, Swap).frames == SetTop(s, Swapped(s.swaps, s.queue)).frames;
    assert Waiting(s) == below + [] + s.queue;
    assert Waiting(Next(s, Swap)) == (below + s.queue) + [];
    QueueTaken(below, s.queue);
  }

  lemma QueueTaken(below: seq<Call>, queue: seq<Call>)
    ensures below + [] + queue == (below + queue) + []
  {
  }

  /** Steps other than pushing and starting move calls without changing what waits. */
  lemma StepKeepsWaiting(s: State, step: Step)
    requires Enabled(s, step) && !step.Push? && !step.StartCall?
    ensures Waiting(Next(s, step)) == Waiting(s)
  {
    var s' := Next(s, step);
    match step
    case EnterDrain => assert (s.frames + [Checked])[..|s.frames|] == s.frames;
    case LeaveDrain =>
      WaitingAtTop(s, Checked);
      assert Waiting(s') == Waiting(s);
    case LockDrain => SameRestSameWaiting(s, HoldsLock, s');
    case Swap => SwapKeepsWaiting(s);
    case ClearFlag => SameRestSameWaiting(s, Cleared(Top(s).no, Top(s).work), s');
    case UnlockDrain => SameRestSameWaiting(s, Draining(Top(s).no, Top(s).work, 0, false), s');
    case EndCall => SameRestSameWaiting(s, Top(s).(running := false), s');
    case _ =>
  }

  lemma ConservedPush(started: seq<Call>, w: seq<Call>, posted: nat)
    requires Conserved(started, w, posted)
    ensures Conserved(started, w + [posted], posted + 1)
  {
    var w' := w + [posted];
    assert UpTo(posted + 1) == UpTo(posted) + [posted];
    forall i, j | 0 <= i < j < |w'|
      ensures w'[i] < w'[j]
    {
      assert w[i] in w;
    }
  }

  lemma ConservedStart(started: seq<Call>, a: seq<Call>, x: Call, b: seq<Call>, posted: nat)
    requires Conserved(started, a + [x] + b, posted)
    ensures Conserved(started + [x], a + b, posted)
  {
    IncreasingSplit(a, x, b);
    assert multiset(a + [x] + b) == multiset(a + b) + multiset{x};
    forall c | c in a + b
      ensures c < posted
    {
      assert c in a + [x] + b;
    }
  }

  lemma Reassociate(a: seq<Call>, x: Call, r: seq<Call>, q: seq<Call>)
    ensures a + ([x] + r) + q == a + [x] + (r + q)
    ensures a + r + q == a + (r + q)
  {
  }

  function Started(f: Frame): Frame
    requires f.Draining?
  {
    Draining(f.no, f.work, f.next + 1, true)
  }

  /** Starting takes the first call the top activation holds. */
  lemma StartTakesFirst(s: State)
    requires Enabled(s, StartCall)
    ensures var f := Top(s);
            var a, x, r := InFlight(s.frames[..|s.frames| - 1]), f.work[f.next], f.work[f.next + 1..];
            && Rest(f) == [x] + r && Rest(Started(f)) == r
            && Waiting(s) == a + [x] + (r + s.queue)
            && Waiting(Next(s, StartCall)) == a + (r + s.queue)
  {
    var f := Top(s);
    var a, x, r := InFlight(s.frames[..|s.frames| - 1]), f.work[f.next], f.work[f.next + 1..];
    WaitingAtTop(s, Started(f));
    StartReplacesTop(s);
    FirstOfRest(f);
    Reassociate(a, x, r, s.queue);
  }

  lemma FirstOfRest(f: Frame)
    requires f.Draining? && f.next < |f.work|
    ensures Rest(f) == [f.work[f.next]] + f.work[f.next + 1..] && Rest(Started(f)) == f.work[f.next + 1..]
  {
  }

  lemma StartReplacesTop(s: State)
    requires Enabled(s, StartCall)
    ensures Next(s, StartCall)
         == SetTop(s, Started(Top(s))).(started := s.started + [Top(s).work[Top(s).next]])
  {
  }

  lemma FrontIncreasing(a: seq<Call>, r: seq<Call>, q: seq<Call>)
    requires Increasing(a + r + q)
    ensures Increasing(r)
  {
    var w := a + r + q;
    forall i, j | 0 <= i < j < |r|
      ensures r[i] < r[j]
    {
      assert w[|a| + i] < w[|a| + j];
    }
  }

  lemma TopIncreasing(s: State)
    requires Conserving(s) && s.frames != []
    ensures Increasing(Rest(Top(s)))
  {
    WaitingAtTop(s, Checked);
    FrontIncreasing(InFlight(s.frames[..|s.frames| - 1]), Rest(Top(s)), s.queue);
  }

  lemma StartConserves(s: State)
    requires Conserving(s) && Enabled(s, StartCall)
    ensures Conserving(Next(s, StartCall))
  {
    StartTakesFirst(s);
    var f := Top(s);
    ConservedStart(s.started, InFlight(s.frames[..|s.frames| - 1]), f.work[f.next],
                   f.work[f.next + 1..] + s.queue, s.posted);
  }

  lemma PushConserves(s: State, t: Tid)
    requires Conserving(s) && Enabled(s, Push(t))
    ensures Conserving(Next(s, Push(t)))
  {
    ConservedPush(s.started, Waiting(s), s.posted);
    PushWaits(s, t);
    var s' := Next(s, Push(t));
    assert s'.started == s.started && s'.posted == s.posted + 1;
  }

  lemma PushWaits(s: State, t: Tid)
    requires Enabled(s, Push(t))
    ensures Waiting(Next(s, Push(t))) == Waiting(s) + [s.posted]
  {
  }

  lemma StepKeepsConserved(s: State, step: Step)
    requires Conserving(s) && Enabled(s, step)
    ensures Conserving(Next(s, step))
  {
    if step.Push? {
      PushConserves(s, step.tid);
    } else if step.StartCall? {
      StartConserves(s);
    } else {
      StepKeepsWaiting(s, step);
    }
  }

  // Batches: what each kind of change to the activations keeps.

  /** The new top holds no more than the old one did, under the same number. */
  ghost predicate TopShrinks(s: State, f: Frame)
    requires s.frames != []
  {
    HasWork(f) ==> HasWork(Top(s)) && f.no == Top(s).no && forall c | c in Rest(f) :: c in Rest(Top(s))
  }

  lemma ShrinkKeepsBatches(s: State, f: Frame)
    requires BatchInvariant(s) && s.frames != [] && TopShrinks(s, f)
    ensures BatchInvariant(SetTop(s, f))
  {
    var s' := SetTop(s, f);
    var n := |s.frames| - 1;
    assert FrameOwns(s.batch, s.swaps, s.frames[n]) && ComesAfter(s.started, s.batch, s.frames[n]);
    forall i | 0 <= i < |s'.frames|
      ensures FrameOwns(s.batch, s.swaps, s'.frames[i]) && ComesAfter(s.started, s.batch, s'.frames[i])
    {
      if i < n {
        assert s'.frames[i] == s.frames[i];
        assert FrameOwns(s.batch, s.swaps, s.frames[i]) && ComesAfter(s.started, s.batch, s.frames[i]);
      }
    }
  }

  lemma LeaveKeepsBatches(s: State)
    requires BatchInvariant(s) && s.frames != []
    ensures BatchInvariant(s.(frames := s.frames[..|s.frames| - 1]))
  {
    var fs := s.frames[..|s.frames| - 1];
    forall i | 0 <= i < |fs|
      ensures FrameOwns(s.batch, s.swaps, fs[i]) && ComesAfter(s.started, s.batch, fs[i])
    {
      assert FrameOwns(s.batch, s.swaps, s.frames[i]) && ComesAfter(s.started, s.batch, s.frames[i]);
    }
  }

  lemma EnterKeepsBatches(s: State)
    requires BatchInvariant(s)
    ensures BatchInvariant(s.(frames := s.frames + [Checked]))
  {
    var fs := s.frames + [Checked];
    forall i | 0 <= i < |fs|
      ensures FrameOwns(s.batch, s.swaps, fs[i]) && ComesAfter(s.started, s.batch, fs[i])
    {
      if i < |s.frames| {
        assert FrameOwns(s.batch, s.swaps, s.frames[i]) && ComesAfter(s.started, s.batch, s.frames[i]);
      }
    }
  }

  lemma SwapKeepsBatches(s: State)
    requires BatchInvariant(s) && Conserving(s) && Enabled(s, Swap)
    ensures BatchInvariant(Next(s, Swap))
  {
    var s' := Next(s, Swap);
    var n := |s.frames| - 1;
    forall i | 0 <= i < |s'.frames|
      ensures FrameOwns(s'.batch, s'.swaps, s'.frames[i]) && ComesAfter(s'.started, s'.batch, s'.frames[i])
    {
      if i < n {
        assert s'.frames[i] == s.frames[i];
        assert FrameOwns(s.batch, s.swaps, s.frames[i]) && ComesAfter(s.started, s.batch, s.frames[i]);
      }
    }
    forall i, j | 0 <= i < j < |s'.frames| && HasWork(s'.frames[i]) && HasWork(s'.frames[j])
      ensures s'.frames[i].no < s'.frames[j].no
    {
      assert s'.frames[i] == s.frames[i] && FrameOwns(s.batch, s.swaps, s.frames[i]);
      if j < n { assert s'.frames[j] == s.frames[j]; }
    }
    forall c | c in s.queue
      ensures c < s.posted
    {
      assert c in Waiting(s);
    }
  }

  /** A call that starts comes after those of its batch that started before. */
  lemma StartExtendsOrder(s: State, f: Frame, x: Call)
    requires StartedInOrder(s.started, s.batch, s.swaps) && HasWork(f) && x in Rest(f)
    requires FrameOwns(s.batch, s.swaps, f) && ComesAfter(s.started, s.batch, f)
    ensures StartedInOrder(s.started + [x], s.batch, s.swaps)
  {
    var st := s.started + [x];
    forall i, j | 0 <= i < j < |st| && s.batch[st[i]] == s.batch[st[j]]
      ensures st[i] < st[j]
    {
      assert s.started[i] in s.started;
    }
  }

  lemma StartedComesBefore(started: seq<Call>, batch: map<Call, nat>, f: Frame, x: Call)
    requires ComesAfter(started, batch, f)
    requires HasWork(f) && x in batch && batch[x] == f.no ==> forall d | d in Rest(f) :: x < d
    ensures ComesAfter(started + [x], batch, f)
  {
  }

  lemma FirstIsLeast(f: Frame)
    requires f.Draining? && f.next < |f.work| && Increasing(Rest(f))
    ensures forall d | d in Rest(Started(f)) :: f.work[f.next] < d
  {
    FirstOfRest(f);
    var r := Rest(Started(f));
    forall d | d in r
      ensures f.work[f.next] < d
    {
      var k :| 0 <= k < |r| && r[k] == d;
      assert Rest(f)[0] < Rest(f)[k + 1];
    }
  }

  /** With one more call started, what the activations hold still comes after. */
  lemma StartKeepsAfter(s: State, i: nat)
    requires BatchInvariant(s) && Conserving(s) && Enabled(s, StartCall) && i < |s.frames|
    ensures var t := SetTop(s, Started(Top(s)));
            BatchInvariant(t) ==>
              ComesAfter(s.started + [Top(s).work[Top(s).next]], s.batch, t.frames[i])
  {
    var n, f := |s.frames| - 1, Top(s);
    var x := f.work[f.next];
    var t := SetTop(s, Started(f));
    FirstOfRest(f);
    TopIncreasing(s);
    FirstIsLeast(f);
    assert FrameOwns(s.batch, s.swaps, s.frames[n]);
    if BatchInvariant(t) {
      assert ComesAfter(t.started, t.batch, t.frames[i]);
      if i < n { assert t.frames[i] == s.frames[i]; }
      StartedComesBefore(s.started, s.batch, t.frames[i], x);
    }
  }

  lemma StartKeepsBatches(s: State)
    requires BatchInvariant(s) && Conserving(s) && Enabled(s, StartCall)
    ensures BatchInvariant(Next(s, StartCall))
  {
    var n, f := |s.frames| - 1, Top(s);
    var t := SetTop(s, Started(f));
    FirstOfRest(f);
    ShrinkKeepsBatches(s, Started(f));
    assert FrameOwns(s.batch, s.swaps, s.frames[n]) && ComesAfter(s.started, s.batch, s.frames[n]);
    StartExtendsOrder(s, f, f.work[f.next]);
    forall i | 0 <= i < |t.frames|
      ensures ComesAfter(s.started + [f.work[f.next]], s.batch, t.frames[i])
    {
      StartKeepsAfter(s, i);
    }
    StartReplacesTop(s);
  }

  /** A batch invariant does not depend on the mutex, the flag or the producers. */
  ghost predicate SameBatches(s: State, t: State) {
    s.frames == t.frames && s.started == t.started && s.batch == t.batch && s.swaps == t.swaps
    && s.posted <= t.posted && forall c | c in t.queue :: c in s.queue || c >= s.posted
  }

  lemma SameBatchesKept(s: State, t: State)
    requires BatchInvariant(s) && SameBatches(s, t)
    ensures BatchInvariant(t)
  {
    forall i | 0 <= i < |t.frames|
      ensures ComesAfter(t.started, t.batch, t.frames[i])
    {
      assert ComesAfter(s.started, s.batch, s.frames[i]);
    }
  }

  /** The step that only replaces the top activation, if it is one. */
  function NewTop(s: State, step: Step): Frame
    requires Enabled(s, step) && (step.LockDrain? || step.ClearFlag? || step.UnlockDrain? || step.EndCall?)
  {
    match step
    case LockDrain => HoldsLock
    case ClearFlag => Cleared(Top(s).no, Top(s).work)
    case UnlockDrain => Draining(Top(s).no, Top(s).work, 0, false)
    case EndCall => Top(s).(running := false)
  }

  lemma ReplaceTopKeepsBatches(s: State, step: Step)
    requires BatchInvariant(s) && Enabled(s, step)
    requires step.LockDrain? || step.ClearFlag? || step.UnlockDrain? || step.EndCall?
    ensures BatchInvariant(Next(s, step))
  {
    ShrinkKeepsBatches(s, NewTop(s, step));
    SameBatchesKept(SetTop(s, NewTop(s, step)), Next(s, step));
  }

  lemma StepKeepsBatches(s: State, step: Step)
    requires BatchInvariant(s) && Conserving(s) && Enabled(s, step)
    ensures BatchInvariant(Next(s, step))
  {
    if step.LockDrain? || step.ClearFlag? || step.UnlockDrain? || step.EndCall? {
      ReplaceTopKeepsBatches(s, step);
    } else if step.EnterDrain? {
      EnterKeepsBatches(s);
    } else if step.LeaveDrain? {
      LeaveKeepsBatches(s);
    } else if step.Swap? {
      SwapKeepsBatches(s);
    } else if step.StartCall? {
      StartKeepsBatches(s);
    } else {
      SameBatchesKept(s, Next(s, step));
    }
  }

  /** One step of any thread keeps the whole invariant. */
  lemma StepKeepsInvariant(s: State, step: Step)
    requires Invariant(s) && Enabled(s, step)
    ensures Invariant(Next(s, step))
  {
    StepKeepsLocks(s, step);
    StepKeepsFlag(s, step);
    StepKeepsConserved(s, step);
    StepKeepsBatches(s, step);
  }

  // ---------------------------------------------------------------------------
  // Whole runs
  // ---------------------------------------------------------------------------

  /** An interleaving of all threads, from an initial state. */
  ghost predicate IsRun(states: seq<State>, steps: seq<Step>) {
    && |states| == |steps| + 1
    && Init(states[0])
    && forall i | 0 <= i < |steps| :: Enabled(states[i], steps[i]) && states[i + 1] == Next(states[i], steps[i])
  }

  lemma {:induction false} RunKeepsInvariant(states: seq<State>, steps: seq<Step>, i: nat)
    requires IsRun(states, steps) && i <= |steps|
    ensures Invariant(states[i])
  {
    if i == 0 {
      assert UpTo(0) == [];
    } else {
      RunKeepsInvariant(states, steps, i - 1);
      StepKeepsInvariant(states[i - 1], steps[i - 1]);
      assert states[i] == Next(states[i - 1], steps[i - 1]);
    }
  }

  /** How many times a call occurs among the started, the in flight and the queued. */
  ghost function Places(s: State, c: Call): nat {
    multiset(s.started)[c] + multiset(InFlight(s.frames))[c] + multiset(s.queue)[c]
  }

  /** In every reachable state: each call posted so far is waiting or started, once in
      all; with the mutex free the flag tells whether the queue is empty; and two calls of
      one batch were started in the order they were posted. */
  lemma PostedCallsAreConserved(states: seq<State>, steps: seq<Step>, i: nat)
    requires IsRun(states, steps) && i <= |steps|
    ensures var s := states[i];
            && (forall c: Call :: Places(s, c) == if c < s.posted then 1 else 0)
            && (s.mutex == Free ==> (s.pending <==> s.queue != []))
            && StartedInOrder(s.started, s.batch, s.swaps)
  {
    RunKeepsInvariant(states, steps, i);
    var s := states[i];
    forall c: Call
      ensures Places(s, c) == if c < s.posted then 1 else 0
    {
      assert multiset(Waiting(s)) == multiset(InFlight(s.frames)) + multiset(s.queue);
      assert Places(s, c) == (multiset(s.started) + multiset(Waiting(s)))[c];
      UpToOnce(s.posted, c);
    }
  }

  lemma {:induction false} UpToOnce(n: nat, c: Call)
    ensures multiset(UpTo(n))[c] == if c < n then 1 else 0
  {
    if n > 0 { UpToOnce(n - 1, c); }
  }

  /** When the engine is idle with the flag down and no producer is in its critical
      section, every posted call has been started exactly once. */
  lemma NothingIsLost(states: seq<State>, steps: seq<Step>, i: nat)
    requires IsRun(states, steps) && i <= |steps|
    requires states[i].frames == [] && states[i].mutex == Free && !states[i].pending
    ensures forall c: Call :: multiset(states[i].started)[c] == if c < states[i].posted then 1 else 0
  {
    PostedCallsAreConserved(states, steps, i);
    forall c: Call
      ensures multiset(states[i].started)[c] == if c < states[i].posted then 1 else 0
    {
      assert Places(states[i], c) == multiset(states[i].started)[c];
    }
  }

  // ---------------------------------------------------------------------------
  // The queue can always be run empty
  // ---------------------------------------------------------------------------

  /** The steps, taken one after the other, are all enabled and lead from `s` to `s'`. */
  predicate Leads(s: State, steps: seq<Step>, s': State)
    decreases |steps|
  {
    if steps == [] then s' == s
    else Enabled(s, steps[0]) && Leads(Next(s, steps[0]), steps[1..], s')
  }

  lemma LeadsOn(s: State, step: Step, steps: seq<Step>, s': State)
    requires Enabled(s, step) && Leads(Next(s, step), steps, s')
    ensures Leads(s, [step] + steps, s')
  {
    assert ([step] + steps)[1..] == steps;
  }

  lemma {:induction false} LeadsThen(s: State, a: seq<Step>, m: State, b: seq<Step>, s': State)
    requires Leads(s, a, m) && Leads(m, b, s')
    ensures Leads(s, a + b, s')
    decreases |a|
  {
    if a == [] {
      assert a + b == b;
    } else {
      LeadsThen(Next(s, a[0]), a[1..], m, b, s');
      assert (a + b)[1..] == a[1..] + b;
    }
  }

  /** What the producer that holds the mutex does next. */
  function ProducerStep(t: Tid, p: Phase): Step {
    match p
    case HasLock => Push(t)
    case Pushed => SetFlag(t)
    case _ => UnlockQueue(t)
  }

  /** The steps it has left in its critical section, and the calls it has yet to post. */
  function Left(s: State): nat {
    if s.mutex.Producer? && s.mutex.tid in s.producers then
      (match s.producers[s.mutex.tid] case Idle => 0 case HasLock => 3 case Pushed => 2 case Flagged => 1)
    else 0
  }

  function ToPost(s: State): nat {
    if Left(s) == 3 then 1 else 0
  }

  lemma ProducerStepMoves(s: State)
    requires LockInvariant(s) && s.mutex.Producer?
    ensures s.mutex.tid in s.producers && Enabled(s, ProducerStep(s.mutex.tid, s.producers[s.mutex.tid]))
    ensures var s1 := Next(s, ProducerStep(s.mutex.tid, s.producers[s.mutex.tid]));
            && Left(s1) < Left(s) && s1.frames == s.frames && s1.posted + ToPost(s1) == s.posted + ToPost(s)
  {
  }

  /** The producer that holds the mutex, if any, can leave its critical section; it posts
      the call it is posting, and no other. */
  lemma ProducerFinishes(s: State) returns (steps: seq<Step>, s': State)
    requires Invariant(s)
    ensures Leads(s, steps, s') && Invariant(s') && !s'.mutex.Producer?
    ensures s'.frames == s.frames && s'.posted == s.posted + ToPost(s)
    decreases Left(s)
  {
    if s.mutex.Producer? {
      ProducerStepMoves(s);
      var step := ProducerStep(s.mutex.tid, s.producers[s.mutex.tid]);
      StepKeepsInvariant(s, step);
      steps, s' := ProducerFinishes(Next(s, step));
      LeadsOn(s, step, steps, s');
      steps := [step] + steps;
    } else {
      steps, s' := [], s;
    }
  }

  /** What the engine does next. */
  function EngineStep(f: Frame): Step {
    match f
    case Checked => LockDrain
    case HoldsLock => Swap
    case Swapped(_, _) => ClearFlag
    case Cleared(_, _) => UnlockDrain
    case Draining(_, w, n, running) => if running then EndCall else if n < |w| then StartCall else LeaveDrain
  }

  function Rank(f: Frame): nat {
    match f
    case Checked => 4 case HoldsLock => 3 case Swapped(_, _) => 2 case Cleared(_, _) => 1 case Draining(_, _, _, _) => 0
  }

  function Calls(f: Frame): nat {
    if f.Draining? then (if f.next < |f.work| then 2 * (|f.work| - f.next) else 0) + (if f.running then 1 else 0)
    else 0
  }

  /** Its activations can all return; one that has not yet taken the queue empties it. */
  lemma EngineReturns(s: State) returns (steps: seq<Step>, s': State)
    requires Invariant(s) && !s.mutex.Producer?
    ensures Leads(s, steps, s') && Invariant(s') && s'.frames == [] && s'.mutex == Free
    ensures s'.posted == s.posted
    ensures s.queue == [] || (s.frames != [] && (Top(s).Checked? || Top(s).HoldsLock?)) ==> s'.queue == []
    decreases |s.frames|, if s.frames == [] then 0 else Rank(Top(s)), if s.frames == [] then 0 else Calls(Top(s))
  {
    if s.frames == [] {
      steps, s' := [], s;
    } else {
      var step := EngineStep(Top(s));
      StepKeepsInvariant(s, step);
      EngineStepMoves(s);
      steps, s' := EngineReturns(Next(s, step));
      LeadsOn(s, step, steps, s');
      steps := [step] + steps;
    }
  }

  lemma EngineStepMoves(s: State)
    requires Invariant(s) && !s.mutex.Producer? && s.frames != []
    ensures Enabled(s, EngineStep(Top(s)))
    ensures var s1 := Next(s, EngineStep(Top(s)));
            && !s1.mutex.Producer? && s1.posted == s.posted
            && (s.queue == [] || Top(s).HoldsLock? ==> s1.queue == [])
            && (Top(s).Checked? ==> s1.frames != [] && Top(s1).HoldsLock?)
            && (|s1.frames| < |s.frames|
                || (|s1.frames| == |s.frames|
                    && (Rank(Top(s1)) < Rank(Top(s))
                        || (Rank(Top(s1)) == Rank(Top(s)) && Calls(Top(s1)) < Calls(Top(s))))))
  {
  }

  /** From every reachable state the program can be led to one in which each posted call has
      been started once, no call is left, the flag is down and the mutex is free: no
      interleaving of producers, drains and callbacks gets stuck. */
  lemma CanRunEmpty(s: State) returns (steps: seq<Step>, s': State)
    requires Invariant(s)
    ensures Leads(s, steps, s') && Invariant(s')
    ensures s'.frames == [] && s'.queue == [] && s'.mutex == Free && !s'.pending
    ensures s'.posted == s.posted + ToPost(s)
    ensures forall c: Call :: multiset(s'.started)[c] == if c < s'.posted then 1 else 0
  {
    var a, m := ProducerFinishes(s);
    var b, n := EngineReturns(m);
    LeadsThen(s, a, m, b, n);
    if n.queue == [] {
      steps, s' := a + b, n;
    } else {
      StepKeepsInvariant(n, EnterDrain);
      var c, e := EngineReturns(Next(n, EnterDrain));
      LeadsOn(n, EnterDrain, c, e);
      LeadsThen(s, a + b, n, [EnterDrain] + c, e);
      steps, s' := a + b + ([EnterDrain] + c), e;
    }
    AllStarted(s');
  }

  lemma AllStarted(s: State)
    requires Invariant(s) && s.frames == [] && s.queue == []
    ensures forall c: Call :: multiset(s.started)[c] == if c < s.posted then 1 else 0
  {
    assert Waiting(s) == [];
    forall c: Call
      ensures multiset(s.started)[c] == if c < s.posted then 1 else 0
    {
      assert multiset(s.started)[c] == (multiset(s.started) + multiset(Waiting(s)))[c];
      UpToOnce(s.posted, c);
    }
  }
}
