/**
 `wait_for_init_wrap`: nodes are set up by one thread each, which report through a queue to
 a collecting coordinator; when all have reported success the nodes are started the same
 way, in parallel or one after the other; only then does the wrapped method run.
 Every interleaving of the threads with the coordinator is a sequence of steps.
 Nodes are known by their index in the node list.
 */
module NodeInit {

  datatype Phase = Setup | Startup

  datatype Report = Report(node: nat, ok: bool)

  /** The threads of one phase, their queue and the coordinator's results list. */
  datatype Wave = Wave(spawned: nat, running: set<nat>, queue: seq<Report>, results: seq<nat>, failed: seq<nat>,
                       reported: map<nat, bool>)

  datatype Cause = NodeFailed(phase: Phase, node: nat) | TimedOut | NotUpAndNormal

  datatype Pc = Spawning(phase: Phase) | Collecting(phase: Phase) | CheckingUp | MethodCalled | Failed(cause: Cause)

  datatype State = State(n: nat, parallelStartup: bool, pc: Pc, setup: Wave, startup: Wave)

  function WaveOf(s: State, p: Phase): (w: Wave) {
    if p.Setup? then s.setup else s.startup
  }

  function WithWave(s: State, p: Phase, w: Wave): (s': State) {
    if p.Setup? then s.(setup := w) else s.(startup := w)
  }

  const IDLE := Wave(0, {}, [], [], [], map[])

  function Initial(n: nat, parallelStartup: bool): (s: State) {
    State(n, parallelStartup, Spawning(Setup), IDLE, IDLE)
  }

  /**
   Spawn starts the next thread (without parallel startup the coordinator runs it itself and
   waits); Finish puts a worker's outcome on the queue; Get takes one outcome off it, with the
   timeout looked at afterwards; Poll finds the queue empty; Advance leaves a finished loop;
   Verify waits for the nodes to be up and normal.
   */
  datatype Step = Spawn | Finish(phase: Phase, node: nat, ok: bool) | Get(timedOut: bool) | Poll(timedOut: bool)
                | Advance | Verify(ok: bool)

  /** A sequential startup is still in the coordinator's own hands. */
  predicate Blocked(s: State) {
    s.pc == Spawning(Startup) && !s.parallelStartup && s.startup.running != {}
  }

  predicate Enabled(s: State, step: Step) {
    match step
    case Spawn => s.pc.Spawning? && WaveOf(s, s.pc.phase).spawned < s.n && !Blocked(s)
    case Finish(p, i, _) => i in WaveOf(s, p).running
    case Get(_) => s.pc.Collecting? && |WaveOf(s, s.pc.phase).results| != s.n && WaveOf(s, s.pc.phase).queue != []
    case Poll(_) => s.pc.Collecting? && |WaveOf(s, s.pc.phase).results| != s.n && WaveOf(s, s.pc.phase).queue == []
    case Advance =>
      || (s.pc.Spawning? && WaveOf(s, s.pc.phase).spawned >= s.n && !Blocked(s))
      || (s.pc.Collecting? && |WaveOf(s, s.pc.phase).results| == s.n)
    case Verify(_) => s.pc.CheckingUp?
  }

  function SpawnNext(w: Wave): (w': Wave) {
    w.(spawned := w.spawned + 1, running := w.running + {w.spawned})
  }

  function PutReport(w: Wave, i: nat, ok: bool): (w': Wave) {
    w.(running := w.running - {i}, queue := w.queue + [Report(i, ok)], reported := w.reported[i := ok])
  }

  function TakeReport(w: Wave): (w': Wave)
    requires w.queue != []
  {
    var r := w.queue[0];
    if r.ok then w.(queue := w.queue[1..], results := w.results + [r.node])
    else w.(queue := w.queue[1..], failed := w.failed + [r.node])
  }

  function Next(s: State, step: Step): (s': State)
    requires Enabled(s, step)
  {
    match step
    case Spawn => WithWave(s, s.pc.phase, SpawnNext(WaveOf(s, s.pc.phase)))
    case Finish(p, i, ok) => WithWave(s, p, PutReport(WaveOf(s, p), i, ok))
    case Get(timedOut) =>
      var p := s.pc.phase;
      var r := WaveOf(s, p).queue[0];
      WithWave(s, p, TakeReport(WaveOf(s, p))).(pc :=
        if !r.ok then Failed(NodeFailed(p, r.node)) else if timedOut then Failed(TimedOut) else s.pc)
    case Poll(timedOut) => if timedOut then s.(pc := Failed(TimedOut)) else s
    case Advance =>
      s.(pc := match s.pc
               case Spawning(p) => Collecting(p)
               case Collecting(Setup) => Spawning(Startup)
               case _ => CheckingUp)
    case Verify(ok) => s.(pc := if ok then MethodCalled else Failed(NotUpAndNormal))
  }

  // ---- One phase

  function Nodes(q: seq<Report>): (ns: seq<nat>)
    ensures |ns| == |q| && forall i :: 0 <= i < |q| ==> ns[i] == q[i].node
  {
    seq(|q|, i requires 0 <= i < |q| => q[i].node)
  }

  ghost function Upto(k: nat): (m: multiset<nat>)
    ensures |m| == k && forall i: nat :: m[i] == if i < k then 1 else 0
  {
    if k == 0 then multiset{} else Upto(k - 1) + multiset{k - 1}
  }

  /** Every spawned thread is in exactly one place: running, on the queue, collected or failed. */
  ghost predicate Conserved(w: Wave) {
    multiset(w.running) + multiset(Nodes(w.queue)) + multiset(w.results) + multiset(w.failed) == Upto(w.spawned)
  }

  /** What is on the queue and what has been collected is what the threads reported. */
  ghost predicate Truthful(w: Wave) {
    && (forall r :: r in w.queue ==> r.node in w.reported && w.reported[r.node] == r.ok)
    && (forall i :: i in w.results ==> i in w.reported && w.reported[i])
    && (forall i :: i in w.failed ==> i in w.reported && !w.reported[i])
  }

  ghost predicate Sound(w: Wave, n: nat) {
    w.spawned <= n && Conserved(w) && Truthful(w)
  }

  /** In which places a node can be at once. */
  lemma OnePlaceOnly(w: Wave, i: nat)
    requires Conserved(w)
    ensures i >= w.spawned ==> i !in w.running && i !in multiset(Nodes(w.queue)) && i !in w.results && i !in w.failed
    ensures i in w.running ==> i !in multiset(Nodes(w.queue)) && i !in w.results && i !in w.failed
  {
    hide Nodes;
    assert Upto(w.spawned)[i] <= 1;
    assert i in w.results <==> i in multiset(w.results);
    assert i in w.failed <==> i in multiset(w.failed);
  }

  lemma SpawnSound(w: Wave, n: nat)
    requires Sound(w, n) && w.spawned < n
    ensures Sound(SpawnNext(w), n)
  {
    hide Truthful, Nodes;
    OnePlaceOnly(w, w.spawned);
    assert multiset(w.running + {w.spawned}) == multiset(w.running) + multiset{w.spawned};
    assert Truthful(SpawnNext(w)) by { SpawnTruthful(w); }
  }

  lemma SpawnTruthful(w: Wave)
    requires Truthful(w)
    ensures Truthful(SpawnNext(w))
  {
  }

  lemma FinishSound(w: Wave, n: nat, i: nat, ok: bool)
    requires Sound(w, n) && i in w.running
    ensures Sound(PutReport(w, i, ok), n)
  {
    hide Truthful, Nodes, Upto;
    var w' := PutReport(w, i, ok);
    OnePlaceOnly(w, i);
    FinishTruthful(w, i, ok);
    assert Nodes(w'.queue) == Nodes(w.queue) + [i];
    assert multiset(w.running) == multiset(w'.running) + multiset{i};
  }

  lemma FinishTruthful(w: Wave, i: nat, ok: bool)
    requires Truthful(w) && i !in multiset(Nodes(w.queue)) && i !in w.results && i !in w.failed
    ensures Truthful(PutReport(w, i, ok))
  {
    forall r | r in w.queue ensures r.node != i {
      var k :| 0 <= k < |w.queue| && w.queue[k] == r;
      assert Nodes(w.queue)[k] == r.node;
    }
  }

  lemma TakeSound(w: Wave, n: nat)
    requires Sound(w, n) && w.queue != []
    ensures Sound(TakeReport(w), n)
  {
    hide Truthful, Upto, Nodes;
    TakeTruthful(w);
    assert w.queue == [w.queue[0]] + w.queue[1..];
    assert Nodes(w.queue) == [w.queue[0].node] + Nodes(w.queue[1..]);
  }

  lemma TakeTruthful(w: Wave)
    requires Truthful(w) && w.queue != []
    ensures Truthful(TakeReport(w))
  {
  }

  /** Once as many nodes are collected as were spawned, all of them reported success and none is left elsewhere. */
  lemma AllCollected(w: Wave, n: nat)
    requires Sound(w, n) && |w.results| == n
    ensures w.spawned == n && w.running == {} && w.queue == [] && w.failed == []
    ensures multiset(w.results) == Upto(n)
    ensures forall i: nat :: i < n ==> i in w.reported && w.reported[i]
  {
    assert |multiset(w.running)| + |multiset(Nodes(w.queue))| + |multiset(w.results)| + |multiset(w.failed)|
        == w.spawned;
    assert |multiset(w.running)| == |w.running|;
    assert multiset(w.results) == Upto(n);
    forall i: nat | i < n ensures i in w.results {
      assert Upto(n)[i] == 1;
      assert i in multiset(w.results);
    }
  }

  // ---- The whole protocol

  ghost predicate PhaseOrder(s: State) {
    match s.pc
    case Spawning(Setup) => s.startup == IDLE && s.setup.results == []
    case Collecting(Setup) => s.startup == IDLE && s.setup.spawned == s.n
    case Spawning(Startup) => |s.setup.results| == s.n && s.startup.results == []
    case Collecting(Startup) => |s.setup.results| == s.n && s.startup.spawned == s.n
    case CheckingUp => |s.setup.results| == s.n && |s.startup.results| == s.n
    case MethodCalled => |s.setup.results| == s.n && |s.startup.results| == s.n
    case Failed(NodeFailed(p, i)) => i in WaveOf(s, p).failed
    case Failed(_) => s.setup.failed == [] && s.startup.failed == []
  }

  ghost predicate Inv(s: State) {
    && Sound(s.setup, s.n) && Sound(s.startup, s.n)
    && PhaseOrder(s)
    && (s.startup.spawned > 0 ==> |s.setup.results| == s.n)
    && (!s.pc.Failed? ==> s.setup.failed == [] && s.startup.failed == [])
    && (!s.parallelStartup ==> forall i :: i in s.startup.running ==> i == s.startup.spawned - 1)
  }

  lemma InitialInv(n: nat, parallelStartup: bool)
    ensures Inv(Initial(n, parallelStartup))
  {
    assert Nodes([]) == [];
  }

  lemma StepKeepsInv(s: State, step: Step)
    requires Inv(s) && Enabled(s, step)
    ensures Inv(Next(s, step))
  {
    hide Sound;
    match step
    case Spawn => SpawnStep(s);
    case Finish(p, i, ok) => FinishStep(s, p, i, ok);
    case Get(timedOut) => GetStep(s, timedOut);
    case Poll(_) =>
    case Advance => AdvanceStep(s);
    case Verify(_) =>
  }

  lemma AdvanceStep(s: State)
    requires Inv(s) && Enabled(s, Advance)
    ensures Inv(Next(s, Advance))
  {
    hide Conserved, Truthful;
  }

  lemma SpawnStep(s: State)
    requires Inv(s) && Enabled(s, Spawn)
    ensures Inv(Next(s, Spawn))
  {
    hide Conserved, Truthful;
    SpawnSound(WaveOf(s, s.pc.phase), s.n);
  }

  lemma FinishStep(s: State, p: Phase, i: nat, ok: bool)
    requires Inv(s) && Enabled(s, Finish(p, i, ok))
    ensures Inv(Next(s, Finish(p, i, ok)))
  {
    hide Conserved, Truthful;
    FinishSound(WaveOf(s, p), s.n, i, ok);
  }

  lemma GetStep(s: State, timedOut: bool)
    requires Inv(s) && Enabled(s, Get(timedOut))
    ensures Inv(Next(s, Get(timedOut)))
  {
    hide Conserved, Truthful;
    TakeSound(WaveOf(s, s.pc.phase), s.n);
  }

  // ---- Runs

  ghost predicate Legal(s: State, steps: seq<Step>)
    decreases |steps|
  {
    steps == [] || (Enabled(s, steps[0]) && Legal(Next(s, steps[0]), steps[1..]))
  }

  ghost function After(s: State, steps: seq<Step>): (s': State)
    requires Legal(s, steps)
    decreases |steps|
  {
    if steps == [] then s else After(Next(s, steps[0]), steps[1..])
  }

  lemma {:induction false} RunKeepsInv(s: State, steps: seq<Step>)
    requires Inv(s) && Legal(s, steps)
    ensures Inv(After(s, steps))
    decreases |steps|
  {
    if steps != [] {
      StepKeepsInv(s, steps[0]);
      RunKeepsInv(Next(s, steps[0]), steps[1..]);
    }
  }

  /** In every interleaving, no startup begins before the setup of every node has reported success. */
  lemma NoStartupBeforeAllSetUp(n: nat, parallelStartup: bool, steps: seq<Step>)
    requires Legal(Initial(n, parallelStartup), steps)
    ensures var s := After(Initial(n, parallelStartup), steps);
      s.startup.spawned > 0 || s.pc == Spawning(Startup) ==>
        s.setup.running == {} && forall i: nat :: i < s.n ==> i in s.setup.reported && s.setup.reported[i]
  {
    hide Sound, Legal, After;
    InitialInv(n, parallelStartup);
    RunKeepsInv(Initial(n, parallelStartup), steps);
    var s := After(Initial(n, parallelStartup), steps);
    if s.startup.spawned > 0 || s.pc == Spawning(Startup) {
      AllCollected(s.setup, s.n);
    }
  }

  /** In every interleaving, each started thread is in exactly one place, in either phase. */
  lemma EachNodeInOnePlace(n: nat, parallelStartup: bool, steps: seq<Step>, p: Phase, i: nat)
    requires Legal(Initial(n, parallelStartup), steps)
    ensures var w := WaveOf(After(Initial(n, parallelStartup), steps), p);
      (if i in w.running then 1 else 0) + multiset(Nodes(w.queue))[i] + multiset(w.results)[i] + multiset(w.failed)[i]
        == if i < w.spawned then 1 else 0
  {
    hide Legal, After, Inv, Truthful, Nodes, Upto;
    InitialInv(n, parallelStartup);
    RunKeepsInv(Initial(n, parallelStartup), steps);
    InvSound(After(Initial(n, parallelStartup), steps));
    var w := WaveOf(After(Initial(n, parallelStartup), steps), p);
    assert Upto(w.spawned)[i] == if i < w.spawned then 1 else 0;
  }

  /** The wrapped method is reached only when every setup and startup succeeded; a failure names a node that failed. */
  lemma MethodNeedsEveryStartup(n: nat, parallelStartup: bool, steps: seq<Step>)
    requires Legal(Initial(n, parallelStartup), steps)
    ensures var s := After(Initial(n, parallelStartup), steps);
      && (s.pc.MethodCalled? ==> forall p, i: nat :: i < s.n ==> i in WaveOf(s, p).reported && WaveOf(s, p).reported[i])
      && (s.pc.Failed? && s.pc.cause.NodeFailed? ==>
            var r := WaveOf(s, s.pc.cause.phase).reported; s.pc.cause.node in r && !r[s.pc.cause.node])
      // any other failure means that no node's failure had been taken from the queue
      && (s.pc.Failed? && !s.pc.cause.NodeFailed? ==> s.setup.failed == [] && s.startup.failed == [])
  {
    hide Sound, Legal, After;
    InitialInv(n, parallelStartup);
    RunKeepsInv(Initial(n, parallelStartup), steps);
    var s := After(Initial(n, parallelStartup), steps);
    if s.pc.MethodCalled? {
      AllCollected(s.setup, s.n);
      AllCollected(s.startup, s.n);
    } else if s.pc.Failed? && s.pc.cause.NodeFailed? {
      FailureWasReported(WaveOf(s, s.pc.cause.phase), s.n, s.pc.cause.node);
    }
  }

  lemma FailureWasReported(w: Wave, n: nat, i: nat)
    requires Sound(w, n) && i in w.failed
    ensures i in w.reported && !w.reported[i]
  {
  }

  /** Once failed, always failed: only the threads still running can do anything. */
  lemma {:induction false} FailedForGood(s: State, steps: seq<Step>)
    requires s.pc.Failed? && Legal(s, steps)
    ensures After(s, steps).pc == s.pc && forall step :: step in steps ==> step.Finish?
    decreases |steps|
  {
    if steps != [] {
      assert steps == [steps[0]] + steps[1..];
      FailedForGood(Next(s, steps[0]), steps[1..]);
    }
  }

  lemma {:induction false} CalledForGood(s: State, steps: seq<Step>)
    requires s.pc.MethodCalled? && Legal(s, steps)
    ensures After(s, steps).pc == s.pc && forall step :: step in steps ==> step.Finish?
    decreases |steps|
  {
    if steps != [] {
      assert steps == [steps[0]] + steps[1..];
      CalledForGood(Next(s, steps[0]), steps[1..]);
    }
  }

  /** A run that reaches the method saw no timeout and a positive check that all nodes are up and normal. */
  lemma {:induction false} MethodNeedsCheckInTime(s: State, steps: seq<Step>)
    requires Legal(s, steps) && !s.pc.MethodCalled? && After(s, steps).pc.MethodCalled?
    ensures Verify(true) in steps && Verify(false) !in steps && Get(true) !in steps && Poll(true) !in steps
    decreases |steps|
  {
    var s1 := Next(s, steps[0]);
    assert steps == [steps[0]] + steps[1..];
    if s1.pc.MethodCalled? {
      CalledForGood(s1, steps[1..]);
    } else {
      MethodNeedsCheckInTime(s1, steps[1..]);
      if s1.pc.Failed? {
        FailedForGood(s1, steps[1..]);
      }
    }
  }

  /** With parallel startup, as in the setup, nothing keeps the coordinator from starting all the threads at once. */
  lemma {:induction false} AllAtOnce(s: State, p: Phase, k: nat)
    requires s.pc == Spawning(p) && (p.Setup? || s.parallelStartup) && WaveOf(s, p).spawned + k <= s.n
    ensures var steps := seq(k, _ => Spawn);
      && Legal(s, steps) && WaveOf(After(s, steps), p).queue == WaveOf(s, p).queue
      && forall i: nat :: i in WaveOf(After(s, steps), p).running <==>
           i in WaveOf(s, p).running || WaveOf(s, p).spawned <= i < WaveOf(s, p).spawned + k
    decreases k
  {
    var steps := seq(k, _ => Spawn);
    if k > 0 {
      AllAtOnce(Next(s, Spawn), p, k - 1);
      assert steps[1..] == seq(k - 1, _ => Spawn);
    }
  }

  /** Without parallel startup at most one node is starting, the one spawned last. */
  lemma SequentialStartup(n: nat, steps: seq<Step>, i: nat)
    requires Legal(Initial(n, false), steps)
    ensures var w := After(Initial(n, false), steps).startup; i in w.running ==> i + 1 == w.spawned
  {
    InitialInv(n, false);
    RunKeepsInv(Initial(n, false), steps);
    ParametersFixed(Initial(n, false), steps);
  }

  lemma {:induction false} ParametersFixed(s: State, steps: seq<Step>)
    requires Legal(s, steps)
    ensures After(s, steps).n == s.n && After(s, steps).parallelStartup == s.parallelStartup
    decreases |steps|
  {
    if steps != [] {
      ParametersFixed(Next(s, steps[0]), steps[1..]);
    }
  }

  // ---- The bring-up always comes to an end

  function Rank(pc: Pc): (r: nat) {
    match pc
    case Spawning(Setup) => 5
    case Collecting(Setup) => 4
    case Spawning(Startup) => 3
    case Collecting(Startup) => 2
    case CheckingUp => 1
    case _ => 0
  }

  function Work(w: Wave, n: nat): (r: int) {
    3 * (n - w.spawned) + 2 * |w.running| + |w.queue|
  }

  function Measure(s: State): (r: int) {
    Work(s.setup, s.n) + Work(s.startup, s.n) + Rank(s.pc)
  }

  lemma WorkIsBounded(w: Wave, n: nat)
    requires Sound(w, n)
    ensures Work(w, n) >= 0
  {
  }

  /** Every step except an empty poll within the time limit uses up some of the work. */
  lemma StepUsesWork(s: State, step: Step)
    requires Inv(s) && Enabled(s, step) && step != Poll(false)
    ensures Measure(Next(s, step)) < Measure(s)
  {
    hide Sound, Inv, Work;
    InvSound(s);
    match step
    case Spawn => SpawnWork(WaveOf(s, s.pc.phase), s.n);
    case Finish(p, i, ok) => FinishWork(WaveOf(s, p), s.n, i, ok);
    case Get(_) => TakeWork(WaveOf(s, s.pc.phase), s.n);
    case _ =>
  }

  lemma InvSound(s: State)
    requires Inv(s)
    ensures Sound(s.setup, s.n) && Sound(s.startup, s.n)
  {
    hide Sound;
  }

  lemma SpawnWork(w: Wave, n: nat)
    requires Sound(w, n) && w.spawned < n
    ensures Work(SpawnNext(w), n) == Work(w, n) - 1
  {
    hide Conserved;
    OnePlaceOnly(w, w.spawned);
  }

  lemma FinishWork(w: Wave, n: nat, i: nat, ok: bool)
    requires i in w.running
    ensures Work(PutReport(w, i, ok), n) == Work(w, n) - 1
  {
  }

  lemma TakeWork(w: Wave, n: nat)
    requires w.queue != []
    ensures Work(TakeReport(w), n) == Work(w, n) - 1
  {
  }

  /** A state that is not final always has a step other than polling: nobody waits for a thread that is not there. */
  lemma NoDeadlock(s: State) returns (step: Step)
    requires Inv(s) && !s.pc.MethodCalled? && !s.pc.Failed?
    ensures Enabled(s, step) && !step.Poll? && Good(step)
  {
    match s.pc
    case CheckingUp => step := Verify(true);
    case Spawning(p) =>
      if Blocked(s) {
        var i :| i in s.startup.running;
        step := Finish(Startup, i, true);
      } else {
        step := if WaveOf(s, p).spawned < s.n then Spawn else Advance;
      }
    case Collecting(p) =>
      var w := WaveOf(s, p);
      if |w.results| == s.n {
        step := Advance;
      } else if w.queue != [] {
        step := Get(false);
      } else {
        SomebodyRuns(w);
        var i :| i in w.running;
        step := Finish(p, i, true);
      }
  }

  lemma SomebodyRuns(w: Wave)
    requires Conserved(w) && w.queue == [] && w.failed == [] && |w.results| != w.spawned
    ensures w.running != {}
  {
    assert |multiset(w.results)| == |w.results|;
    assert |multiset(w.running)| + |w.results| == w.spawned;
  }

  /** However the threads interleave, a run makes at most 6n + 5 steps besides empty polls. */
  lemma {:induction false} RunsAreBounded(s: State, steps: seq<Step>)
    requires Inv(s) && Legal(s, steps) && Poll(false) !in steps
    ensures |steps| <= Measure(s)
    decreases |steps|
  {
    WorkIsBounded(s.setup, s.n);
    WorkIsBounded(s.startup, s.n);
    if steps != [] {
      StepKeepsInv(s, steps[0]);
      StepUsesWork(s, steps[0]);
      RunsAreBounded(Next(s, steps[0]), steps[1..]);
    }
  }

  lemma BringUpIsBounded(n: nat, parallelStartup: bool, steps: seq<Step>)
    requires Legal(Initial(n, parallelStartup), steps) && Poll(false) !in steps
    ensures |steps| <= 6 * n + 5
  {
    InitialInv(n, parallelStartup);
    RunsAreBounded(Initial(n, parallelStartup), steps);
  }

  // ---- When the bring-up succeeds, and how it fails

  /** A step that reports nothing bad: no failure, no timeout, no negative check. */
  predicate Good(step: Step) {
    match step
    case Finish(_, _, ok) => ok
    case Get(timedOut) => !timedOut
    case Poll(timedOut) => !timedOut
    case Verify(ok) => ok
    case _ => true
  }

  ghost predicate AllGood(steps: seq<Step>) {
    forall i :: 0 <= i < |steps| ==> Good(steps[i])
  }

  ghost predicate OkQueue(queue: seq<Report>) {
    forall i :: 0 <= i < |queue| ==> queue[i].ok
  }

  lemma {:induction false} GoodRunsDoNotFail(s: State, steps: seq<Step>)
    requires Legal(s, steps) && AllGood(steps)
    requires OkQueue(s.setup.queue) && OkQueue(s.startup.queue) && !s.pc.Failed?
    ensures !After(s, steps).pc.Failed?
    decreases |steps|
  {
    if steps != [] {
      assert Good(steps[0]);
      GoodRunsDoNotFail(Next(s, steps[0]), steps[1..]);
    }
  }

  /**
   However the threads interleave, a bring-up in which nothing bad is reported does not fail, and once it can go no
   further in that way (which `BringUpIsBounded` says it comes to) the wrapped method has been called.
   */
  lemma GoodBringUpCallsMethod(n: nat, parallelStartup: bool, steps: seq<Step>)
    requires Legal(Initial(n, parallelStartup), steps) && AllGood(steps)
    ensures var s := After(Initial(n, parallelStartup), steps);
      && !s.pc.Failed?
      && ((forall step :: Good(step) && !step.Poll? ==> !Enabled(s, step)) ==> s.pc.MethodCalled?)
  {
    hide Inv, Legal, After, Enabled;
    var s := After(Initial(n, parallelStartup), steps);
    GoodRunsDoNotFail(Initial(n, parallelStartup), steps);
    InitialInv(n, parallelStartup);
    RunKeepsInv(Initial(n, parallelStartup), steps);
    if !s.pc.MethodCalled? {
      var step := NoDeadlock(s);
    }
  }

  /** The first step that reports a failure of phase `p`. */
  function FirstFailure(steps: seq<Step>, p: Phase): (r: seq<nat>)
    ensures |r| <= 1
  {
    if steps == [] then []
    else if steps[0].Finish? && steps[0].phase == p && !steps[0].ok then [steps[0].node]
    else FirstFailure(steps[1..], p)
  }

  function FirstBad(queue: seq<Report>): (r: seq<nat>)
    ensures |r| <= 1
  {
    if queue == [] then [] else if !queue[0].ok then [queue[0].node] else FirstBad(queue[1..])
  }

  /** The earlier of two failures, if there is any. */
  function Earlier(a: seq<nat>, b: seq<nat>): (r: seq<nat>) {
    if a != [] then a else b
  }

  lemma {:induction false} FirstBadAppend(queue: seq<Report>, r: Report)
    ensures FirstBad(queue + [r]) == Earlier(FirstBad(queue), if r.ok then [] else [r.node])
  {
    if queue == [] {
      assert queue + [r] == [r];
    } else {
      assert (queue + [r])[1..] == queue[1..] + [r];
      FirstBadAppend(queue[1..], r);
    }
  }

  /** What a step that does not fail does to the first bad report on a queue. */
  lemma FirstBadStep(s: State, step: Step, p: Phase)
    requires Enabled(s, step) && !Next(s, step).pc.Failed?
    ensures FirstBad(WaveOf(Next(s, step), p).queue) == Earlier(FirstBad(WaveOf(s, p).queue), FirstFailure([step], p))
  {
    if step.Finish? && step.phase == p {
      FirstBadAppend(WaveOf(s, p).queue, Report(step.node, step.ok));
    }
  }

  /** Why a bring-up has failed, told from its steps. */
  ghost predicate Explained(cause: Cause, steps: seq<Step>, waiting: seq<nat>) {
    match cause
    case NodeFailed(p, i) => Earlier(waiting, FirstFailure(steps, p)) == [i]
    case TimedOut => Get(true) in steps || Poll(true) in steps
    case NotUpAndNormal => Verify(false) in steps
  }

  /** The reports that a failure of phase `p` can already be waiting in. */
  function Waiting(s: State, cause: Cause): (r: seq<nat>) {
    if cause.NodeFailed? then FirstBad(WaveOf(s, cause.phase).queue) else []
  }

  lemma {:induction false} FailureExplainedFrom(s: State, steps: seq<Step>)
    requires Legal(s, steps) && !s.pc.Failed? && After(s, steps).pc.Failed?
    ensures var cause := After(s, steps).pc.cause; Explained(cause, steps, Waiting(s, cause))
    decreases |steps|
  {
    hide Enabled;
    var s1, cause := Next(s, steps[0]), After(s, steps).pc.cause;
    assert steps == [steps[0]] + steps[1..];
    if s1.pc.Failed? {
      FailedForGood(s1, steps[1..]);
      FailingStep(s, steps[0]);
      assert steps[0] in steps;
    } else {
      FailureExplainedFrom(s1, steps[1..]);
      if cause.NodeFailed? {
        FirstBadStep(s, steps[0], cause.phase);
        FirstFailureSplit(steps, cause.phase);
      }
    }
  }

  lemma FirstFailureSplit(steps: seq<Step>, p: Phase)
    requires steps != []
    ensures FirstFailure(steps, p) == Earlier(FirstFailure([steps[0]], p), FirstFailure(steps[1..], p))
  {
    assert FirstFailure([], p) == [];
  }

  lemma FailingStep(s: State, step: Step)
    requires Enabled(s, step) && !s.pc.Failed? && Next(s, step).pc.Failed?
    ensures match Next(s, step).pc.cause
      case NodeFailed(p, i) => FirstBad(WaveOf(s, p).queue) == [i]
      case TimedOut => step == Get(true) || step == Poll(true)
      case NotUpAndNormal => step == Verify(false)
  {
  }

  /**
   A bring-up fails only for a reason, and says which: it names the node whose failure was the first to be reported in
   its phase, or a deadline has passed, or the nodes were not found up and normal.
   */
  lemma FailureIsExplained(n: nat, parallelStartup: bool, steps: seq<Step>)
    requires Legal(Initial(n, parallelStartup), steps)
    ensures var pc := After(Initial(n, parallelStartup), steps).pc; pc.Failed? ==> Explained(pc.cause, steps, [])
  {
    hide Legal, After;
    if After(Initial(n, parallelStartup), steps).pc.Failed? {
      FailureExplainedFrom(Initial(n, parallelStartup), steps);
    }
  }
}
