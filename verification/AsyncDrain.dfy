/** RedisMgr::addAsyncTask on the main thread and RedisMgr::OnExecRedisTask on the worker thread,
    interleaved between every two accesses to the command list, the `_postTask` flag and the
    worker's task queue. `insertHead` and `cutList` are atomic.

    A variant says how three lines are written. The code as it stands assigns instead of comparing,
    sets the flag after posting and clears it after the cut; the theorems say what each choice
    does to the protocol. */
module AsyncDrain {
  import opened ListOrder

  type Cmd = nat

  const BATCH := 16

  datatype Variant = Variant(
    compares: bool,     // `if (_postTask == false)` rather than `if (_postTask = false)`
    setsFirst: bool,    // the flag is set before StartAsync rather than after
    clearsFirst: bool,  // the drain clears the flag before cutList rather than at its end
    fifo: bool)         // cutList hands the commands out in insertion order, not reversed

  /** The code as it stands, for either order of cutList. */
  function AsWritten(fifo: bool): Variant {
    Variant(false, false, false, fifo)
  }

  datatype Main = MIdle | MInserted | MDecided | MSetDone | MPosted
  datatype Worker = WIdle | WClear | WCut | WRun | WEnd

  datatype State = State(
    queue: seq<Cmd>,     // inserted and not cut
    flag: bool,          // _postTask
    posted: nat,         // drains started and not yet begun
    main: Main, worker: Worker,
    batch: seq<Cmd>,     // cut and not yet handed over
    drained: seq<Cmd>,  // handed over to the connection and freed, whatever came of it
    submitted: seq<Cmd>) // handed to addAsyncTask so far

  datatype Action = Insert(cmd: Cmd) | Test | Set | Post | Begin | Clear | Cut | Execute | Finish

  predicate Init(s: State) {
    s == State([], false, 0, MIdle, WIdle, [], [], [])
  }

  predicate Enabled(v: Variant, s: State, a: Action) {
    match a
    case Insert(_) => s.main.MIdle?
    case Test => s.main.MInserted?
    case Set => if v.setsFirst then s.main.MDecided? else s.main.MPosted?
    case Post => if v.setsFirst then s.main.MSetDone? else s.main.MDecided?
    case Begin => s.worker.WIdle? && s.posted > 0
    case Clear => if v.clearsFirst then s.worker.WClear? else s.worker.WEnd?
    case Cut => s.worker.WCut?
    case Execute => s.worker.WRun? && s.batch != []
    case Finish => s.worker.WRun? && s.batch == []
  }

  function Apply(v: Variant, s: State, a: Action): State
    requires Enabled(v, s, a)
  {
    match a
    case Insert(c) => s.(queue := s.queue + [c], submitted := s.submitted + [c], main := MInserted)
    case Test =>
      if !v.compares then s.(flag := false, main := MIdle)
      else s.(main := if s.flag then MIdle else MDecided)
    case Set => s.(flag := true, main := if v.setsFirst then MSetDone else MIdle)
    case Post => s.(posted := s.posted + 1, main := if v.setsFirst then MIdle else MPosted)
    case Begin => s.(posted := s.posted - 1, worker := if v.clearsFirst then WClear else WCut)
    case Clear => s.(flag := false, worker := if v.clearsFirst then WCut else WIdle)
    case Cut => s.(queue := [], batch := CutOrder(v, s.queue), worker := WRun)
    case Execute =>
      var n := if |s.batch| < BATCH then |s.batch| else BATCH;
      s.(batch := s.batch[n..], drained := s.drained + s.batch[..n])
    case Finish => s.(worker := if v.clearsFirst then WIdle else WEnd)
  }

  function CutOrder(v: Variant, queue: seq<Cmd>): seq<Cmd> {
    if v.fifo then queue else Backwards(queue)
  }

  ghost predicate Reaches(v: Variant, s: State, steps: seq<Action>, t: State)
    decreases |steps|
  {
    if steps == [] then s == t
    else Enabled(v, s, steps[0]) && Reaches(v, Apply(v, s, steps[0]), steps[1..], t)
  }

  ghost predicate Reachable(v: Variant, t: State) {
    exists s, steps :: Init(s) && Reaches(v, s, steps, t)
  }

  // Conservation: every variant

  /** Every submitted command is in exactly one of the queue, the current batch and the drained ones. */
  ghost predicate Conserved(v: Variant, s: State) {
    && multiset(s.submitted) == multiset(s.queue) + multiset(s.batch) + multiset(s.drained)
    && (s.worker.WRun? || s.batch == [])
    && (v.fifo ==> s.submitted == s.drained + s.batch + s.queue)
  }

  lemma InsertConserves(v: Variant, s: State, c: Cmd)
    requires Conserved(v, s) && s.main.MIdle?
    ensures Conserved(v, Apply(v, s, Insert(c)))
  {
    hide CutOrder;
    if v.fifo {
      assert s.submitted + [c] == s.drained + s.batch + (s.queue + [c]);
    }
  }

  lemma CutConserves(v: Variant, s: State)
    requires Conserved(v, s) && s.worker.WCut?
    ensures Conserved(v, Apply(v, s, Cut))
  {
    SameElements(s.queue);
    var cut := CutOrder(v, s.queue);
    assert multiset(cut) == multiset(s.queue) && s.batch == [] && (v.fifo ==> cut == s.queue);
    hide CutOrder, Backwards;
    assert multiset(s.queue) + multiset(s.batch) == multiset([]) + multiset(cut);
    if v.fifo {
      assert s.drained + [] + s.queue == s.drained + s.queue + [];
    }
  }

  lemma Regroup(a: seq<Cmd>, b: seq<Cmd>, c: seq<Cmd>, d: seq<Cmd>)
    ensures a + (b + c) + d == (a + b) + c + d
  {
  }

  lemma ExecuteConserves(v: Variant, s: State)
    requires Conserved(v, s) && s.worker.WRun? && s.batch != []
    ensures Conserved(v, Apply(v, s, Execute))
  {
    hide CutOrder;
    var n := if |s.batch| < BATCH then |s.batch| else BATCH;
    var now, later := s.batch[..n], s.batch[n..];
    assert s.batch == now + later;
    assert multiset(s.batch) == multiset(now) + multiset(later);
    Regroup(s.drained, now, later, s.queue);
  }

  lemma ConservedStep(v: Variant, s: State, a: Action)
    requires Conserved(v, s) && Enabled(v, s, a)
    ensures Conserved(v, Apply(v, s, a))
  {
    match a
    case Insert(c) => InsertConserves(v, s, c);
    case Cut => CutConserves(v, s);
    case Execute => ExecuteConserves(v, s);
    case _ =>
      var s' := Apply(v, s, a);
      assert s'.queue == s.queue && s'.batch == s.batch && s'.drained == s.drained && s'.submitted == s.submitted;
  }

  lemma {:induction false} ConservedRun(v: Variant, s: State, steps: seq<Action>, t: State)
    requires Conserved(v, s) && Reaches(v, s, steps, t)
    ensures Conserved(v, t)
    decreases |steps|
  {
    if steps != [] {
      ConservedStep(v, s, steps[0]);
      ConservedRun(v, Apply(v, s, steps[0]), steps[1..], t);
    }
  }

  /** Over every interleaving no command is lost, duplicated or run twice, and if cutList keeps
      insertion order, commands are drained in the order they were submitted. */
  lemma NothingLost(v: Variant, t: State)
    requires Reachable(v, t)
    ensures multiset(t.submitted) == multiset(t.queue) + multiset(t.batch) + multiset(t.drained)
    ensures v.fifo ==> t.drained + t.batch + t.queue == t.submitted
  {
    var s, steps :| Init(s) && Reaches(v, s, steps, t);
    ConservedRun(v, s, steps, t);
  }

  // Stranding

  /** Nothing is running or about to run, and commands are waiting. */
  predicate Stranded(s: State) {
    s.main.MIdle? && s.worker.WIdle? && s.posted == 0 && s.queue != []
  }

  ghost predicate NeverStrands(v: Variant) {
    forall t :: Reachable(v, t) ==> !Stranded(t)
  }

  /** How many drains are promised: set but not posted, posted, or begun but not yet cleared. */
  function Promised(s: State): nat {
    s.posted + (if s.main.MSetDone? then 1 else 0) + (if s.worker.WClear? then 1 else 0)
  }

  /** With the comparison, the flag set first and cleared first, the flag counts the promise. */
  ghost predicate Covered(s: State) {
    && Promised(s) == (if s.flag then 1 else 0)
    && (s.main.MDecided? ==> !s.flag)
    && (s.queue != [] ==> s.main.MInserted? || s.main.MDecided? || s.flag || s.worker.WCut?)
    && !s.main.MPosted? && !s.worker.WEnd?
  }

  lemma {:induction false} CoveredRun(v: Variant, s: State, steps: seq<Action>, t: State)
    requires v.compares && v.setsFirst && v.clearsFirst
    requires Covered(s) && Reaches(v, s, steps, t)
    ensures Covered(t)
    decreases |steps|
  {
    if steps != [] {
      CoveredRun(v, Apply(v, s, steps[0]), steps[1..], t);
    }
  }

  lemma AndThen(v: Variant, s: State, steps: seq<Action>, t: State, a: Action) returns (steps': seq<Action>, t': State)
    requires Reaches(v, s, steps, t) && Enabled(v, t, a)
    ensures t' == Apply(v, t, a) && Reaches(v, s, steps', t')
  {
    t' := Apply(v, t, a);
    steps' := steps + [a];
    Append(v, s, steps, t, a);
  }

  lemma {:induction false} Append(v: Variant, s: State, steps: seq<Action>, t: State, a: Action)
    requires Reaches(v, s, steps, t) && Enabled(v, t, a)
    ensures Reaches(v, s, steps + [a], Apply(v, t, a))
    decreases |steps|
  {
    if steps == [] {
      assert [] + [a] == [a] && [a][1..] == [];
    } else {
      Append(v, Apply(v, s, steps[0]), steps[1..], t, a);
      assert (steps + [a])[1..] == steps[1..] + [a];
    }
  }

  const START := State([], false, 0, MIdle, WIdle, [], [], [])

  /** As written, the first command already strands: the test assigns and is false. */
  lemma AssigningStrands(v: Variant) returns (t: State)
    requires !v.compares
    ensures Reachable(v, t) && Stranded(t)
  {
    assert Reaches(v, START, [], START);
    hide Reaches;
    var steps;
    steps, t := AndThen(v, START, [], START, Insert(1));
    steps, t := AndThen(v, START, steps, t, Test);
  }

  /** One command submitted and its drain posted. */
  lemma OnePosted(v: Variant) returns (steps: seq<Action>, t: State)
    requires v.compares
    ensures Reaches(v, START, steps, t)
    ensures t == State([1], v.setsFirst, 1, if v.setsFirst then MIdle else MPosted, WIdle, [], [], [1])
  {
    assert Reaches(v, START, [], START);
    hide Reaches, CutOrder;
    steps, t := AndThen(v, START, [], START, Insert(1));
    assert t.queue == [1] && t.submitted == [1];
    steps, t := AndThen(v, START, steps, t, Test);
    if v.setsFirst {
      steps, t := AndThen(v, START, steps, t, Set);
    }
    steps, t := AndThen(v, START, steps, t, Post);
  }

  /** The drain up to its cut, with the flag cleared on the way if that is where it is cleared. */
  lemma UpToCut(v: Variant, steps: seq<Action>, t: State) returns (steps': seq<Action>, t': State)
    requires Reaches(v, START, steps, t) && t.worker.WIdle? && t.posted == 1
    ensures Reaches(v, START, steps', t')
    ensures t' == t.(queue := [], flag := t.flag && !v.clearsFirst, posted := 0,
                     worker := WRun, batch := CutOrder(v, t.queue))
  {
    hide Reaches, CutOrder;
    steps', t' := AndThen(v, START, steps, t, Begin);
    if v.clearsFirst {
      steps', t' := AndThen(v, START, steps', t', Clear);
    }
    steps', t' := AndThen(v, START, steps', t', Cut);
  }

  /** One command submitted and drained. */
  lemma OneExecuted(v: Variant) returns (steps: seq<Action>, t: State)
    requires v.compares
    ensures Reaches(v, START, steps, t)
    ensures t == State([], v.setsFirst && !v.clearsFirst, 0, if v.setsFirst then MIdle else MPosted,
                       WRun, [], [1], [1])
  {
    assert CutOrder(v, [1]) == [1] by {
      assert Backwards([1]) == [1];
    }
    hide Reaches, CutOrder;
    steps, t := OnePosted(v);
    steps, t := UpToCut(v, steps, t);
    steps, t := AndThen(v, START, steps, t, Execute);
    assert t.batch == [] && t.drained == [1];
  }

  /** A flag set after the drain has already come and gone stays set for ever. */
  lemma SettingLateStrands(v: Variant) returns (t: State)
    requires v.compares && !v.setsFirst
    ensures Reachable(v, t) && Stranded(t)
  {
    var steps;
    steps, t := OneExecuted(v);
    hide Reaches, CutOrder;
    steps, t := AndThen(v, START, steps, t, Finish);
    if !v.clearsFirst {
      steps, t := AndThen(v, START, steps, t, Clear);
    }
    steps, t := AndThen(v, START, steps, t, Set);
    steps, t := AndThen(v, START, steps, t, Insert(2));
    steps, t := AndThen(v, START, steps, t, Test);
  }

  /** A command inserted between the cut and the late clearing finds the flag still set. */
  lemma ClearingLateStrands(v: Variant) returns (t: State)
    requires v.compares && v.setsFirst && !v.clearsFirst
    ensures Reachable(v, t) && Stranded(t)
  {
    var steps;
    steps, t := OneExecuted(v);
    hide Reaches, CutOrder;
    steps, t := AndThen(v, START, steps, t, Insert(2));
    steps, t := AndThen(v, START, steps, t, Test);
    steps, t := AndThen(v, START, steps, t, Finish);
    steps, t := AndThen(v, START, steps, t, Clear);
  }

  /** No queued command is ever stranded exactly when the test compares, the flag is set before
      the drain is posted and cleared before the list is cut. */
  lemma NeverStrandsIff(v: Variant)
    ensures NeverStrands(v) <==> v.compares && v.setsFirst && v.clearsFirst
  {
    if v.compares && v.setsFirst && v.clearsFirst {
      forall t | Reachable(v, t)
        ensures !Stranded(t)
      {
        var s, steps :| Init(s) && Reaches(v, s, steps, t);
        CoveredRun(v, s, steps, t);
      }
    } else {
      var t;
      if !v.compares {
        t := AssigningStrands(v);
      } else if !v.setsFirst {
        t := SettingLateStrands(v);
      } else {
        t := ClearingLateStrands(v);
      }
    }
  }

  /** In the safe variant, when both threads rest every submitted command has been drained, and
      in the order of submission if cutList keeps it. */
  lemma RestMeansDone(v: Variant, t: State)
    requires v.compares && v.setsFirst && v.clearsFirst && Reachable(v, t)
    requires t.main.MIdle? && t.worker.WIdle? && t.posted == 0
    ensures multiset(t.drained) == multiset(t.submitted)
    ensures v.fifo ==> t.drained == t.submitted
  {
    NeverStrandsIff(v);
    var s, steps :| Init(s) && Reaches(v, s, steps, t);
    ConservedRun(v, s, steps, t);
    assert t.drained + [] + [] == t.drained;
  }

  // Progress

  predicate AtRest(s: State) {
    s.main.MIdle? && s.worker.WIdle? && s.posted == 0
  }

  /** Steps left in the safe variant until both threads rest, if nothing new is submitted. */
  function Work(s: State): nat {
    |s.queue| + |s.batch| + 4 * s.posted + MainWork(s.main) + WorkerWork(s.worker)
  }

  function MainWork(m: Main): nat {
    match m
    case MIdle => 0
    case MInserted => 7
    case MDecided => 6
    case MSetDone => 5
    case MPosted => 0
  }

  function WorkerWork(w: Worker): nat {
    match w
    case WIdle => 0
    case WClear => 3
    case WCut => 2
    case WRun => 1
    case WEnd => 0
  }

  /** In the safe variant, wherever the threads are, one can act unless both rest, and every
      action other than submitting brings them closer to rest. */
  lemma StepsWork(v: Variant, s: State, a: Action)
    requires v.compares && v.setsFirst && v.clearsFirst && Covered(s) && Conserved(v, s)
    requires Enabled(v, s, a) && !a.Insert?
    ensures Work(Apply(v, s, a)) < Work(s) && Apply(v, s, a).submitted == s.submitted
  {
    SameElements(s.queue);
    hide Backwards, Covered;
  }

  /** Some action that a thread that does not rest can take. */
  function NextAction(s: State): Action {
    match s.main
    case MInserted => Test
    case MDecided => Set
    case MSetDone => Post
    case _ =>
      match s.worker
      case WIdle => Begin
      case WClear => Clear
      case WCut => Cut
      case _ => if s.batch == [] then Finish else Execute
  }

  /** In the safe variant, from any reachable state and with nothing new submitted, every order of
      steps comes to rest after at most as many steps as there are commands waiting, plus 14. */
  lemma ComesToRest(v: Variant, s: State, steps: seq<Action>, t: State)
    requires v.compares && v.setsFirst && v.clearsFirst && Reachable(v, s)
    requires Reaches(v, s, steps, t) && forall a :: a in steps ==> !a.Insert?
    ensures |steps| <= Work(s) - Work(t) <= |s.queue| + |s.batch| + 14
    ensures !AtRest(t) ==> Enabled(v, t, NextAction(t)) && !NextAction(t).Insert?
    ensures AtRest(t) ==> multiset(t.drained) == multiset(s.submitted)
  {
    var s0, before :| Init(s0) && Reaches(v, s0, before, s);
    CoveredRun(v, s0, before, s);
    ConservedRun(v, s0, before, s);
    WorkBound(s);
    hide Apply, Enabled, Covered, Conserved, Work, AtRest;
    QuietRun(v, s, steps, t);
    AtRestOrNot(v, t);
  }

  lemma WorkBound(s: State)
    requires Covered(s)
    ensures Work(s) <= |s.queue| + |s.batch| + 14
  {
  }

  lemma AtRestOrNot(v: Variant, t: State)
    requires v.compares && v.setsFirst && v.clearsFirst && Covered(t) && Conserved(v, t)
    ensures !AtRest(t) ==> Enabled(v, t, NextAction(t)) && !NextAction(t).Insert?
    ensures AtRest(t) ==> multiset(t.drained) == multiset(t.submitted)
  {
    if AtRest(t) {
      assert t.queue == [] && t.batch == [];
    }
  }

  lemma {:induction false} QuietRun(v: Variant, s: State, steps: seq<Action>, t: State)
    requires v.compares && v.setsFirst && v.clearsFirst && Covered(s) && Conserved(v, s)
    requires Reaches(v, s, steps, t) && forall a :: a in steps ==> !a.Insert?
    ensures Covered(t) && Conserved(v, t) && t.submitted == s.submitted
    ensures |steps| + Work(t) <= Work(s)
    decreases |steps|
  {
    hide Apply, Enabled, Covered, Conserved, Work;
    if steps != [] {
      var s' := Apply(v, s, steps[0]);
      StepsWork(v, s, steps[0]);
      ConservedStep(v, s, steps[0]);
      assert Reaches(v, s, [steps[0]], s') by {
        assert [steps[0]][1..] == [];
      }
      CoveredRun(v, s, [steps[0]], s');
      QuietRun(v, s', steps[1..], t);
    }
  }

  // How many drains there can be

  /** With the comparison and the flag cleared at the end, posted and running drains together. */
  ghost predicate OneDrain(v: Variant, s: State) {
    var out := s.posted + if s.worker.WIdle? then 0 else 1;
    && out <= 1
    && (if v.setsFirst then out + (if s.main.MSetDone? then 1 else 0) == if s.flag then 1 else 0
        else !s.flag ==> out == 0 || s.main.MPosted?)
    && (s.main.MDecided? ==> !s.flag)
    && (s.main.MPosted? ==> !v.setsFirst && !s.flag)
  }

  lemma {:induction false} OneDrainRun(v: Variant, s: State, steps: seq<Action>, t: State)
    requires v.compares && !v.clearsFirst
    requires OneDrain(v, s) && Reaches(v, s, steps, t)
    ensures OneDrain(v, t)
    decreases |steps|
  {
    if steps != [] {
      OneDrainRun(v, Apply(v, s, steps[0]), steps[1..], t);
    }
  }

  /** Drains posted or running. */
  function Outstanding(s: State): nat {
    s.posted + if s.worker.WIdle? then 0 else 1
  }

  /** In the safe variant at most one drain waits to begin; one more may be running. */
  lemma AtMostOneWaits(v: Variant, t: State)
    requires v.compares && v.setsFirst && v.clearsFirst && Reachable(v, t)
    ensures t.posted <= 1
  {
    var s, steps :| Init(s) && Reaches(v, s, steps, t);
    CoveredRun(v, s, steps, t);
  }

  ghost predicate OneDrainAtATime(v: Variant) {
    forall t :: Reachable(v, t) ==> Outstanding(t) <= 1
  }

  /** At most one drain per connection is ever outstanding exactly if the test assigns, so that
      there is none, or the flag is cleared at the end. So the early clearing that keeps commands
      from being stranded costs this bound. */
  lemma AtMostOneDrain(v: Variant)
    ensures OneDrainAtATime(v) <==> !v.compares || !v.clearsFirst
  {
    if v.compares && v.clearsFirst {
      var t := TwoOutstanding(v);
    } else {
      forall t | Reachable(v, t)
        ensures Outstanding(t) <= 1
      {
        var s, steps :| Init(s) && Reaches(v, s, steps, t);
        if v.compares {
          OneDrainRun(v, s, steps, t);
        } else {
          NeverPostedRun(v, s, steps, t);
        }
      }
    }
  }

  /** A command inserted right after the early clearing posts a drain while one is running. */
  lemma TwoOutstanding(v: Variant) returns (t: State)
    requires v.compares && v.clearsFirst
    ensures Reachable(v, t) && Outstanding(t) == 2
  {
    var steps;
    steps, t := OnePosted(v);
    hide Reaches;
    if !v.setsFirst {
      steps, t := AndThen(v, START, steps, t, Set);
    }
    steps, t := AndThen(v, START, steps, t, Begin);
    steps, t := AndThen(v, START, steps, t, Clear);
    steps, t := AndThen(v, START, steps, t, Insert(2));
    steps, t := AndThen(v, START, steps, t, Test);
    if v.setsFirst {
      steps, t := AndThen(v, START, steps, t, Set);
    }
    steps, t := AndThen(v, START, steps, t, Post);
  }

  // The code as written

  ghost predicate NeverPosted(s: State) {
    && !s.flag && s.posted == 0 && s.worker.WIdle? && (s.main.MIdle? || s.main.MInserted?)
    && s.drained == [] && s.batch == [] && s.queue == s.submitted
  }

  lemma {:induction false} NeverPostedRun(v: Variant, s: State, steps: seq<Action>, t: State)
    requires !v.compares && NeverPosted(s) && Reaches(v, s, steps, t)
    ensures NeverPosted(t)
    decreases |steps|
  {
    if steps != [] {
      NeverPostedRun(v, Apply(v, s, steps[0]), steps[1..], t);
    }
  }

  /** With `=` for `==` no drain is ever posted: whatever is submitted stays queued for ever. */
  lemma AsWrittenNothingRuns(fifo: bool, t: State)
    requires Reachable(AsWritten(fifo), t)
    ensures t.posted == 0 && t.worker.WIdle? && t.drained == [] && t.queue == t.submitted
  {
    var s, steps :| Init(s) && Reaches(AsWritten(fifo), s, steps, t);
    NeverPostedRun(AsWritten(fifo), s, steps, t);
  }

  // The order of draining

  ghost predicate KeepsOrder(v: Variant) {
    forall t :: Reachable(v, t) ==> t.drained <= t.submitted
  }

  /** In the safe variant, commands are drained in submission order exactly when cutList hands
      them out in insertion order. */
  lemma KeepsOrderIff(v: Variant)
    requires v.compares && v.setsFirst && v.clearsFirst
    ensures KeepsOrder(v) <==> v.fifo
  {
    if v.fifo {
      forall t | Reachable(v, t)
        ensures t.drained <= t.submitted
      {
        NothingLost(v, t);
        assert t.drained + t.batch + t.queue == t.drained + (t.batch + t.queue);
      }
    } else {
      var t := TwoReversed(v);
    }
  }

  lemma TwoReversed(v: Variant) returns (t: State)
    requires v.compares && v.setsFirst && v.clearsFirst && !v.fifo
    ensures Reachable(v, t) && !(t.drained <= t.submitted)
  {
    assert CutOrder(v, [1, 2]) == [2, 1] by {
      assert Backwards([1, 2]) == [2, 1];
    }
    hide Reaches, CutOrder;
    var steps;
    steps, t := OnePosted(v);
    steps, t := AndThen(v, START, steps, t, Insert(2));
    assert t.queue == [1, 2] && t.submitted == [1, 2];
    steps, t := UpToCut(v, steps, t);
    steps, t := AndThen(v, START, steps, t, Execute);
    assert t.drained == [2, 1];
    assert t.drained[0] != t.submitted[0];
  }
}
