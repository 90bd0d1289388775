/**
 `_update_db_binary`: five phases, each run by `run_func_parallel`, which submits one task
 per node and returns, or raises, only after every task has ended. Stop all non-seeds, stop
 all seeds, replace the binary on the requested nodes, start the seeds, start the non-seeds.
 Every interleaving of the tasks of a phase is a sequence of steps.
 */
module BinaryUpdate {

  /** The cluster's nodes are 0, 1, ...; `isSeed` says which are seeds. */
  datatype Config = Config(isSeed: seq<bool>, nodeList: seq<nat>, startService: bool)

  datatype Task = Waiting | Active | Succeeded | Failed

  /** `up`: nodes whose server may be running; `replaced`: nodes whose binary may have been touched. */
  datatype State = State(cfg: Config, phase: nat, tasks: seq<Task>, up: set<nat>, replaced: set<nat>, started: set<nat>,
                         raised: bool)

  const STOP_OTHERS: nat := 0
  const STOP_SEEDS: nat := 1
  const REPLACE: nat := 2
  const START_SEEDS: nat := 3
  const START_OTHERS: nat := 4

  /** `[node for node in self.nodes if node.is_seed == wanted]` */
  function Select(isSeed: seq<bool>, wanted: bool): (ns: seq<nat>)
    ensures forall i: nat :: i in ns <==> i < |isSeed| && isSeed[i] == wanted
    ensures forall i, j :: 0 <= i < j < |ns| ==> ns[i] < ns[j]
  {
    if isSeed == [] then []
    else
      var n := |isSeed| - 1;
      var before := Select(isSeed[..n], wanted);
      assert forall i :: 0 <= i < |before| ==> before[i] in before;
      assert forall i: nat :: i in before ==> i < n;
      if isSeed[n] == wanted then before + [n] else before
  }

  function Phases(cfg: Config): (n: nat) {
    if cfg.startService then 5 else 3
  }

  function PhaseNodes(cfg: Config, phase: nat): (ns: seq<nat>) {
    if phase == REPLACE then cfg.nodeList
    else Select(cfg.isSeed, phase == STOP_SEEDS || phase == START_SEEDS)
  }

  function Submitted(cfg: Config, phase: nat): (ts: seq<Task>)
    ensures |ts| == |PhaseNodes(cfg, phase)| && forall k :: 0 <= k < |ts| ==> ts[k] == Waiting
  {
    seq(|PhaseNodes(cfg, phase)|, _ => Waiting)
  }

  function Initial(cfg: Config, up: set<nat>): (s: State) {
    State(cfg, STOP_OTHERS, Submitted(cfg, STOP_OTHERS), up, {}, {}, false)
  }

  predicate Finished(s: State) {
    s.raised || s.phase == Phases(s.cfg)
  }

  /**
   Begin lets a worker pick up task `k`; End ends it, and `effect` says of a failed stop or start
   whether it left the server running; Barrier is the return of
   `run_func_parallel`, which raises when a task failed. Asking for the seeds of a cluster
   without any raises too.
   */
  datatype Step = Begin(k: nat) | End(k: nat, ok: bool, effect: bool) | Barrier

  predicate Enabled(s: State, step: Step) {
    !Finished(s) && |s.tasks| == |PhaseNodes(s.cfg, s.phase)| &&
    match step
    case Begin(k) => k < |s.tasks| && s.tasks[k] == Waiting
    case End(k, _, _) => k < |s.tasks| && s.tasks[k] == Active
    case Barrier => forall k :: 0 <= k < |s.tasks| ==> s.tasks[k] == Succeeded || s.tasks[k] == Failed
  }

  function With(xs: set<nat>, x: nat, present: bool): (r: set<nat>) {
    if present then xs + {x} else xs - {x}
  }

  function Next(s: State, step: Step): (s': State)
    requires Enabled(s, step)
  {
    match step
    case Begin(k) =>
      var node := PhaseNodes(s.cfg, s.phase)[k];
      var s1 := s.(tasks := s.tasks[k := Active]);
      if s.phase == REPLACE then s1.(replaced := s.replaced + {node})
      else if s.phase >= START_SEEDS then s1.(up := s.up + {node})
      else s1
    case End(k, ok, effect) =>
      var node := PhaseNodes(s.cfg, s.phase)[k];
      var s1 := s.(tasks := s.tasks[k := if ok then Succeeded else Failed]);
      if s.phase <= STOP_SEEDS then (if ok || !effect then s1.(up := s.up - {node}) else s1)
      else if s.phase == REPLACE then s1
      else s1.(up := With(s.up, node, ok || effect), started := With(s.started, node, ok))
    case Barrier =>
      if Failed in s.tasks then s.(raised := true)
      else
        var next := s.phase + 1;
        if next < Phases(s.cfg) && next != REPLACE && next != START_OTHERS && PhaseNodes(s.cfg, next) == []
        then s.(raised := true)
        else s.(phase := next, tasks := Submitted(s.cfg, next))
  }

  /** A task that succeeded, or for a replacement one that has begun, had its effect on its node. */
  ghost predicate TaskEffects(s: State) {
    |s.tasks| == |PhaseNodes(s.cfg, s.phase)| &&
    forall k :: 0 <= k < |s.tasks| ==>
      var node := PhaseNodes(s.cfg, s.phase)[k];
      if s.phase == REPLACE then s.tasks[k] != Waiting ==> node in s.replaced
      else s.tasks[k] == Succeeded ==>
        if s.phase <= STOP_SEEDS then node !in s.up else node in s.up && node in s.started
  }

  /** What the phases already over have left behind. */
  ghost predicate PhaseEffects(s: State) {
    && (s.phase == STOP_SEEDS ==> forall i :: i in s.up ==> i < |s.cfg.isSeed| && s.cfg.isSeed[i])
    && (s.phase == REPLACE || (s.phase == START_SEEDS && !s.cfg.startService) ==> s.up == {})
    && (s.phase == START_SEEDS ==> forall i :: i in s.up ==> i in Select(s.cfg.isSeed, true))
    && (s.phase > START_SEEDS ==> forall i :: i in Select(s.cfg.isSeed, true) ==> i in s.up && i in s.started)
    && (s.phase > START_OTHERS ==> forall i :: i in Select(s.cfg.isSeed, false) ==> i in s.up && i in s.started)
    && (s.phase < START_SEEDS ==> s.started == {})
    && (s.phase < START_OTHERS ==> forall i :: i in s.started ==> i in Select(s.cfg.isSeed, true))
    && (s.phase < REPLACE ==> s.replaced == {})
    && (forall i :: i in s.replaced ==> i in s.cfg.nodeList)
    && (s.phase > REPLACE ==> forall i :: i in s.cfg.nodeList ==> i in s.replaced)
  }

  ghost predicate Inv(s: State) {
    && s.phase <= Phases(s.cfg)
    && (forall i :: i in s.up ==> i < |s.cfg.isSeed|)
    && TaskEffects(s) && PhaseEffects(s)
  }

  lemma InitialInv(cfg: Config, up: set<nat>)
    requires forall i :: i in up ==> i < |cfg.isSeed|
    ensures Inv(Initial(cfg, up))
  {
  }

  lemma BeginKeepsInv(s: State, k: nat)
    requires Inv(s) && Enabled(s, Begin(k))
    ensures Inv(Next(s, Begin(k)))
  {
    hide Select;
    assert PhaseNodes(s.cfg, s.phase)[k] in PhaseNodes(s.cfg, s.phase);
  }

  lemma EndKeepsInv(s: State, k: nat, ok: bool, effect: bool)
    requires Inv(s) && Enabled(s, End(k, ok, effect))
    ensures Inv(Next(s, End(k, ok, effect)))
  {
    hide Select;
    var ns, s' := PhaseNodes(s.cfg, s.phase), Next(s, End(k, ok, effect));
    assert ns[k] in ns;
    assert TaskEffects(s') by {
      assert s.phase != REPLACE ==> forall j :: 0 <= j < |ns| && j != k ==> ns[j] != ns[k];
    }
    assert PhaseEffects(s');
  }

  /** Every task of a phase that ends without a failure has had its effect. */
  lemma AllSucceeded(s: State)
    requires Inv(s) && Enabled(s, Barrier) && Failed !in s.tasks
    ensures forall i :: i in PhaseNodes(s.cfg, s.phase) ==>
      if s.phase == REPLACE then i in s.replaced
      else if s.phase <= STOP_SEEDS then i !in s.up else i in s.up && i in s.started
  {
    hide PhaseNodes, PhaseEffects;
    var ns := PhaseNodes(s.cfg, s.phase);
    assert forall k :: 0 <= k < |ns| ==> s.tasks[k] == Succeeded;
    assert forall i :: i in ns ==> exists k :: 0 <= k < |ns| && ns[k] == i;
  }

  lemma BarrierEffects(s: State)
    requires Inv(s) && Enabled(s, Barrier) && Failed !in s.tasks
    ensures PhaseEffects(s.(phase := s.phase + 1, tasks := Submitted(s.cfg, s.phase + 1)))
  {
    hide Select, TaskEffects, Submitted;
    AllSucceeded(s);
    assert forall i :: i in s.up ==> i in Select(s.cfg.isSeed, s.cfg.isSeed[i]);
  }

  lemma BarrierKeepsInv(s: State)
    requires Inv(s) && Enabled(s, Barrier)
    ensures Inv(Next(s, Barrier))
  {
    hide Select, PhaseEffects, PhaseNodes;
    if Failed !in s.tasks {
      BarrierEffects(s);
    }
    RaisedKeeps(s);
  }

  lemma RaisedKeeps(s: State)
    requires Inv(s)
    ensures Inv(s.(raised := true))
  {
    hide Select;
  }

  lemma StepKeepsInv(s: State, step: Step)
    requires Inv(s) && Enabled(s, step)
    ensures Inv(Next(s, step)) && Next(s, step).cfg == s.cfg
  {
    match step
    case Begin(k) => BeginKeepsInv(s, k);
    case End(k, ok, effect) => EndKeepsInv(s, k, ok, effect);
    case Barrier => BarrierKeepsInv(s);
  }

  /** What the end of a stop or a start leaves: whether its node runs, and that no other node is concerned. */
  lemma EndLeaves(s: State, k: nat, ok: bool, effect: bool)
    requires Enabled(s, End(k, ok, effect)) && s.phase != REPLACE
    ensures var node, s' := PhaseNodes(s.cfg, s.phase)[k], Next(s, End(k, ok, effect));
      && (s.phase <= STOP_SEEDS ==> (node in s'.up <==> node in s.up && !ok && effect) && s'.started == s.started)
      && (s.phase >= START_SEEDS ==> (node in s'.up <==> ok || effect) && (node in s'.started <==> ok))
      && (forall i :: i != node ==> (i in s'.up <==> i in s.up) && (i in s'.started <==> i in s.started))
      && s'.replaced == s.replaced
  {
  }

  /** What the start of a task does: from then on a binary counts as touched, and a server to be started as running. */
  lemma BeginLeaves(s: State, k: nat)
    requires Enabled(s, Begin(k))
    ensures var node, s' := PhaseNodes(s.cfg, s.phase)[k], Next(s, Begin(k));
      && s'.replaced == s.replaced + (if s.phase == 2 then {node} else {})
      && s'.up == s.up + (if s.phase > 2 then {node} else {})
      && s'.started == s.started
  {
  }

  // ---- Runs

  ghost predicate Legal(s: State, steps: seq<Step>)
    decreases |steps|
  {
    steps == [] || (Enabled(s, steps[0]) && Legal(Next(s, steps[0]), steps[1..]))
  }

  ghost function After(s: State, steps: seq<Step>): (s': State)
    requires Legal(s, steps)
    decreases |steps|
  {
    if steps == [] then s else After(Next(s, steps[0]), steps[1..])
  }

  lemma {:induction false} RunKeepsInv(s: State, steps: seq<Step>)
    requires Inv(s) && Legal(s, steps)
    ensures Inv(After(s, steps)) && After(s, steps).cfg == s.cfg
    decreases |steps|
  {
    if steps != [] {
      StepKeepsInv(s, steps[0]);
      RunKeepsInv(Next(s, steps[0]), steps[1..]);
    }
  }

  /** The state reached by a run from a cluster whose running nodes are `up`. */
  ghost predicate Reached(cfg: Config, up: set<nat>, steps: seq<Step>, s: State) {
    (forall i :: i in up ==> i < |cfg.isSeed|) && Legal(Initial(cfg, up), steps) && After(Initial(cfg, up), steps) == s
  }

  lemma ReachedInv(cfg: Config, up: set<nat>, steps: seq<Step>, s: State)
    requires Reached(cfg, up, steps, s)
    ensures Inv(s) && s.cfg == cfg
  {
    InitialInv(cfg, up);
    RunKeepsInv(Initial(cfg, up), steps);
  }

  /** Whatever the interleaving and whichever tasks fail, a binary is touched only while no node of the cluster runs. */
  lemma NoReplaceWhileRunning(cfg: Config, up: set<nat>, steps: seq<Step>, s: State, step: Step)
    requires Reached(cfg, up, steps, s) && Enabled(s, step) && Next(s, step).replaced != s.replaced
    ensures s.up == {} && Next(s, step).up == {}
  {
    ReachedInv(cfg, up, steps, s);
  }

  /** No non-seed comes up before every seed has been started successfully and is up. */
  lemma SeedsStartFirst(cfg: Config, up: set<nat>, steps: seq<Step>, s: State, step: Step, i: nat)
    requires Reached(cfg, up, steps, s) && Enabled(s, step)
    requires i < |cfg.isSeed| && !cfg.isSeed[i] && i !in s.up && i in Next(s, step).up
    ensures forall j: nat :: j < |cfg.isSeed| && cfg.isSeed[j] ==> j in s.up && j in s.started
  {
    ReachedInv(cfg, up, steps, s);
    var ns := PhaseNodes(s.cfg, s.phase);
    assert step.Begin? || step.End? ==> ns[step.k] in ns;
  }

  /** No seed is stopped before every non-seed is down. */
  lemma SeedsStopLast(cfg: Config, up: set<nat>, steps: seq<Step>, s: State, step: Step, i: nat)
    requires Reached(cfg, up, steps, s) && Enabled(s, step) && s.phase < REPLACE
    requires i < |cfg.isSeed| && cfg.isSeed[i] && i in s.up && i !in Next(s, step).up
    ensures forall j: nat :: j < |cfg.isSeed| && !cfg.isSeed[j] ==> j !in s.up
  {
    ReachedInv(cfg, up, steps, s);
    var ns := PhaseNodes(s.cfg, s.phase);
    assert step.Begin? || step.End? ==> ns[step.k] in ns;
  }

  /** A raise before the third phase leaves every binary alone; a complete run replaced exactly the requested ones. */
  lemma OutcomeOfRun(cfg: Config, up: set<nat>, steps: seq<Step>, s: State)
    requires Reached(cfg, up, steps, s) && Finished(s)
    ensures s.raised && s.phase < REPLACE ==> s.replaced == {}
    ensures !s.raised ==> s.replaced == set i | i in cfg.nodeList
    ensures !s.raised && !cfg.startService ==> s.up == {}
    ensures !s.raised && cfg.startService ==> forall i: nat :: i < |cfg.isSeed| ==> i in s.up && i in s.started
  {
    ReachedInv(cfg, up, steps, s);
    if !s.raised && cfg.startService {
      forall i: nat | i < |cfg.isSeed| ensures i in s.up && i in s.started {
        assert i in Select(cfg.isSeed, cfg.isSeed[i]);
      }
    }
  }

  /** Until it is finished, a run can always go on. */
  lemma NoDeadlock(s: State) returns (step: Step)
    requires Inv(s) && !Finished(s)
    ensures Enabled(s, step) && Good(step)
  {
    if k: nat :| k < |s.tasks| && s.tasks[k] == Waiting {
      step := Begin(k);
    } else if k: nat :| k < |s.tasks| && s.tasks[k] == Active {
      step := End(k, true, true);
    } else {
      step := Barrier;
    }
  }

  // ---- When an update raises, and when it is complete

  predicate Good(step: Step) {
    step.End? ==> step.ok
  }

  ghost predicate AllGood(steps: seq<Step>) {
    forall i :: 0 <= i < |steps| ==> Good(steps[i])
  }

  ghost predicate HasSeed(cfg: Config) {
    exists i :: 0 <= i < |cfg.isSeed| && cfg.isSeed[i]
  }

  lemma SeedsOf(cfg: Config)
    ensures Select(cfg.isSeed, true) == [] <==> !HasSeed(cfg)
  {
    hide Select;
    var ns := Select(cfg.isSeed, true);
    if ns != [] {
      assert ns[0] in ns;
    }
    if HasSeed(cfg) {
      var i: nat :| i < |cfg.isSeed| && cfg.isSeed[i];
      assert i in ns;
    }
  }

  /** A phase ends in a raise exactly when one of its tasks failed or the next one asks for seeds that are not there. */
  lemma BarrierRaisesIff(s: State)
    requires Enabled(s, Barrier)
    ensures Next(s, Barrier).raised <==>
      Failed in s.tasks || (!HasSeed(s.cfg) && (s.phase == 0 || (s.phase == 2 && s.cfg.startService)))
    ensures !Next(s, Barrier).raised ==> Next(s, Barrier).phase == s.phase + 1
  {
    SeedsOf(s.cfg);
  }

  /** A failed task is not forgotten before the end of its phase. */
  lemma {:induction false} FailureRaises(s: State, steps: seq<Step>)
    requires Legal(s, steps) && !s.raised && Failed in s.tasks && Finished(After(s, steps)) && !Finished(s)
    ensures After(s, steps).raised
    decreases |steps|
  {
    hide PhaseNodes, Submitted;
    var s1 := Next(s, steps[0]);
    if steps[0].Barrier? {
      RaisedForGood(s1, steps[1..]);
    } else {
      var k := steps[0].k;
      var j :| 0 <= j < |s.tasks| && s.tasks[j] == Failed;
      assert j != k && s1.tasks[j] == Failed;
      FailureRaises(s1, steps[1..]);
    }
  }

  lemma RaisedForGood(s: State, steps: seq<Step>)
    requires s.raised && Legal(s, steps)
    ensures steps == [] && After(s, steps) == s
  {
  }

  ghost predicate NoFailedTask(s: State) {
    Failed !in s.tasks
  }

  /** From a state without a failed task: the run ends in a raise exactly when a task fails or seeds are missing. */
  lemma {:induction false} RaisedFrom(s: State, steps: seq<Step>)
    requires Legal(s, steps) && !s.raised && NoFailedTask(s) && s.phase <= Phases(s.cfg)
    requires s.phase > STOP_OTHERS ==> HasSeed(s.cfg)
    ensures After(s, steps).raised ==> !AllGood(steps) || !HasSeed(s.cfg)
    ensures Finished(After(s, steps)) && (!AllGood(steps) || !HasSeed(s.cfg)) ==> After(s, steps).raised
    decreases |steps|
  {
    hide PhaseNodes, Submitted;
    if steps == [] {
      assert Finished(s) ==> s.phase == Phases(s.cfg);
    } else {
      var s1 := Next(s, steps[0]);
      assert AllGood(steps) <==> Good(steps[0]) && AllGood(steps[1..]) by { AllGoodStep(steps); }
      if steps[0].Barrier? {
        BarrierRaisesIff(s);
        if s1.raised {
          RaisedForGood(s1, steps[1..]);
        } else {
          SubmittedIsClean(s.cfg, s1.phase);
          RaisedFrom(s1, steps[1..]);
        }
      } else if Good(steps[0]) {
        RaisedFrom(s1, steps[1..]);
      } else {
        assert s1.tasks[steps[0].k] == Failed;
        if Finished(After(s, steps)) {
          FailureRaises(s1, steps[1..]);
        }
      }
    }
  }

  lemma AllGoodStep(steps: seq<Step>)
    requires steps != []
    ensures AllGood(steps) <==> Good(steps[0]) && AllGood(steps[1..])
  {
    assert steps == [steps[0]] + steps[1..];
  }

  lemma SubmittedIsClean(cfg: Config, phase: nat)
    ensures Failed !in Submitted(cfg, phase)
  {
  }

  /**
   A finished update has raised exactly when one of its tasks failed or the cluster has no seed. So one in which
   every task succeeds, in whatever order, goes through all its phases.
   */
  lemma RaisedIff(cfg: Config, up: set<nat>, steps: seq<Step>, s: State)
    requires Reached(cfg, up, steps, s)
    ensures s.raised ==> !AllGood(steps) || !HasSeed(cfg)
    ensures Finished(s) ==> (s.raised <==> !AllGood(steps) || !HasSeed(cfg))
    ensures AllGood(steps) && HasSeed(cfg) && (forall step :: Good(step) ==> !Enabled(s, step)) ==>
      s.phase == Phases(cfg) && !s.raised
  {
    hide Legal, After, Inv;
    SubmittedIsClean(cfg, STOP_OTHERS);
    RaisedFrom(Initial(cfg, up), steps);
    ReachedInv(cfg, up, steps, s);
    if !Finished(s) {
      var step := NoDeadlock(s);
    }
  }

  // ---- Every update comes to an end

  /** The steps the tasks of a phase still take. */
  function Pending(tasks: seq<Task>): (n: nat) {
    if tasks == [] then 0
    else
      Pending(tasks[..|tasks| - 1])
      + match tasks[|tasks| - 1] { case Waiting => 2 case Active => 1 case _ => 0 }
  }

  function StepsFrom(cfg: Config, phase: nat): (n: nat)
    decreases Phases(cfg) - phase
  {
    if phase >= Phases(cfg) then 0 else 2 * |PhaseNodes(cfg, phase)| + 1 + StepsFrom(cfg, phase + 1)
  }

  function Measure(s: State): (n: nat) {
    if Finished(s) then 0 else Pending(s.tasks) + 1 + StepsFrom(s.cfg, s.phase + 1)
  }

  lemma {:induction false} PendingDrops(tasks: seq<Task>, k: nat, t: Task)
    requires k < |tasks|
    requires (tasks[k] == Waiting && t == Active) || (tasks[k] == Active && (t == Succeeded || t == Failed))
    ensures Pending(tasks[k := t]) == Pending(tasks) - 1
    decreases |tasks|
  {
    var n := |tasks| - 1;
    if k == n {
      assert tasks[k := t][..n] == tasks[..n];
    } else {
      assert tasks[k := t][..n] == tasks[..n][k := t];
      PendingDrops(tasks[..n], k, t);
    }
  }

  lemma {:induction false} PendingOfWaiting(tasks: seq<Task>)
    requires forall k :: 0 <= k < |tasks| ==> tasks[k] == Waiting
    ensures Pending(tasks) == 2 * |tasks|
  {
    if tasks != [] {
      PendingOfWaiting(tasks[..|tasks| - 1]);
    }
  }

  lemma StepLowers(s: State, step: Step)
    requires Enabled(s, step) && s.phase < Phases(s.cfg)
    ensures Measure(Next(s, step)) < Measure(s)
  {
    hide PhaseNodes, Pending;
    match step
    case Begin(k) => PendingDrops(s.tasks, k, Active);
    case End(k, ok, _) => PendingDrops(s.tasks, k, if ok then Succeeded else Failed);
    case Barrier => PendingOfWaiting(Submitted(s.cfg, s.phase + 1));
  }

  lemma {:induction false} UpdateIsBounded(s: State, steps: seq<Step>)
    requires Legal(s, steps) && s.phase <= Phases(s.cfg)
    ensures |steps| <= Measure(s)
    decreases |steps|
  {
    hide PhaseNodes, Measure, Submitted;
    if steps != [] {
      StepLowers(s, steps[0]);
      UpdateIsBounded(Next(s, steps[0]), steps[1..]);
    }
  }
}
