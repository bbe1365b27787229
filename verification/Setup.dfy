/**
 * Package setup (ssamd/src/package.rs, DefaultPackageTransitioner::setup): four tasks are spawned,
 * interleave at their await points over shared resources, and are joined.
 */
module Setup {
  import opened Wrappers
  import opened MountStack
  import LazyExecutor

  /** Everything setup leaves behind. */
  datatype Resources = Resources(
    args: bool, executor: Option<nat>, layers: Layers, bundle: bool, netns: bool, attached: bool)

  datatype Task = ExecutorTask | MountTask | PrepareTask | NetnsTask

  datatype ExecutorPc = ETake | EBuild | EDone(ok: bool)

  /** The phases of the mount task; second marks the retry after the unmount. */
  datatype MountPc =
    | MGate(second: bool) | MAttach(second: bool) | MVerity(second: bool) | MBase(second: bool)
    | MOverlay(second: bool) | MRollback(second: bool)
    | MUnmountFirst | MUnmountSecond
    | MDone(ok: bool)

  datatype PreparePc = PRun | PDone(ok: bool)

  datatype NetnsPc = NCreate | NAttach | NDone(ok: bool)

  /** The configuration and the outcome of every step that can fail. */
  datatype Env = Env(
    overlayOn: bool, bridge: bool,
    build: Option<nat>, m1: MountSteps, u: UnmountSteps, m2: MountSteps, prepare: bool, create: bool, attach: bool)

  datatype World = World(res: Resources, e: ExecutorPc, m: MountPc, p: PreparePc, n: NetnsPc)

  function Start(res: Resources): World {
    World(res, ETake, MGate(false), PRun, NCreate)
  }

  /******* One step of one task *******/

  function ExecutorStep(env: Env, w: World): World {
    match w.e
    case ETake =>
      if w.res.executor.Some? then w.(e := EDone(true))
      else if w.res.args then w.(res := w.res.(args := false), e := EBuild)
      else w.(e := EDone(false))
    case EBuild =>
      if env.build.Some? then w.(res := w.res.(executor := env.build), e := EDone(true)) else w.(e := EDone(false))
    case EDone(_) => w
  }

  /** The executor task as the only call of the once-only initialiser; n constructions were started before. */
  function AsCall(res: Resources, e: ExecutorPc, n: nat): LazyExecutor.State {
    match e
    case ETake => LazyExecutor.State(res.args, res.executor, None, map[], n)
    case EBuild => LazyExecutor.State(res.args, res.executor, Some(0), map[0 := LazyExecutor.Building], n + 1)
    case EDone(ok) =>
      LazyExecutor.State(res.args, res.executor, None,
                         map[0 := LazyExecutor.Returned(if ok then res.executor else None)], n)
  }

  /** The events of the initialiser that one step of the task stands for. */
  function Events(env: Env, e: ExecutorPc): seq<LazyExecutor.Event> {
    match e
    case ETake => [LazyExecutor.Call(0), LazyExecutor.Acquire(0), LazyExecutor.Take(0)]
    case EBuild => [LazyExecutor.Finish(0, env.build)]
    case EDone(_) => []
  }

  /** The executor task is one call of the initialiser: each of its steps is a run of that call's events. */
  lemma ExecutorRefines(env: Env, w: World, n: nat)
    requires w.e.EBuild? ==> w.res.executor.None?
    ensures var next := ExecutorStep(env, w);
            var started := if w.e.EBuild? || next.e.EBuild? then n + 1 else n;
            LazyExecutor.Run(AsCall(w.res, w.e, n), Events(env, w.e)) ==
            AsCall(next.res, next.e, if next.e.EBuild? then n else started)
  {
    var s := AsCall(w.res, w.e, n);
    assert LazyExecutor.Run(s, []) == s;
    match w.e
    case ETake => ThreeEvents(s, LazyExecutor.Call(0), LazyExecutor.Acquire(0), LazyExecutor.Take(0));
    case EBuild =>
      assert [] + [LazyExecutor.Finish(0, env.build)] == [LazyExecutor.Finish(0, env.build)];
      OneEvent(s, [], LazyExecutor.Finish(0, env.build));
    case EDone(_) =>
  }

  lemma ThreeEvents(s: LazyExecutor.State, a: LazyExecutor.Event, b: LazyExecutor.Event, c: LazyExecutor.Event)
    ensures LazyExecutor.Run(s, [a, b, c]) ==
            LazyExecutor.Step(LazyExecutor.Step(LazyExecutor.Step(s, a), b), c)
  {
    hide LazyExecutor.Step;
    assert LazyExecutor.Run(s, []) == s;
    assert [] + [a] == [a] && [a] + [b] == [a, b] && [a, b] + [c] == [a, b, c];
    OneEvent(s, [], a);
    OneEvent(s, [a], b);
    OneEvent(s, [a, b], c);
  }

  lemma OneEvent(s: LazyExecutor.State, events: seq<LazyExecutor.Event>, e: LazyExecutor.Event)
    ensures LazyExecutor.Run(s, events + [e]) == LazyExecutor.Step(LazyExecutor.Run(s, events), e)
  {
    var all := events + [e];
    assert Init(all) == events && Last(all) == e;
  }

  function Steps(env: Env, second: bool): MountSteps {
    if second then env.m2 else env.m1
  }

  /** The first mount failing leads to the unmount, the second to the end. */
  function MountFailed(second: bool): MountPc {
    if second then MDone(false) else MUnmountFirst
  }

  /** The next phase of the mount task, and the layers after the step. */
  function MountMove(env: Env, m: MountPc, layers: Layers): (MountPc, Layers) {
    match m
    case MGate(second) => (if layers != [] then MDone(true) else MAttach(second), layers)
    case MAttach(second) => (if Steps(env, second).attach then MVerity(second) else MountFailed(second), layers)
    case MVerity(second) => (if Steps(env, second).verity then MBase(second) else MountFailed(second), layers)
    case MBase(second) =>
      if Steps(env, second).base then (if env.overlayOn then MOverlay(second) else MDone(true), layers + [Base])
      else (MountFailed(second), layers)
    case MOverlay(second) =>
      if Steps(env, second).overlay then (MDone(true), layers + [Overlay]) else (MRollback(second), layers)
    case MRollback(second) => (MountFailed(second), if Steps(env, second).rollback then Pop(layers) else layers)
    case MUnmountFirst =>
      if !env.overlayOn || layers == [] then (MUnmountSecond, layers)
      else if env.u.first then (MUnmountSecond, Pop(layers))
      else (MDone(false), layers)
    case MUnmountSecond =>
      if layers == [] then (MGate(true), layers)
      else if env.u.second then (MGate(true), Pop(layers))
      else (MDone(false), layers)
    case MDone(_) => (m, layers)
  }

  function MountStep(env: Env, w: World): World {
    var (m, layers) := MountMove(env, w.m, w.res.layers);
    w.(res := w.res.(layers := layers), m := m)
  }

  /** The bundle is kept in a once cell: one that is already there is not prepared again. */
  predicate PrepareOk(env: Env, res: Resources) {
    res.bundle || env.prepare
  }

  function PrepareStep(env: Env, w: World): World {
    match w.p
    case PRun => w.(res := w.res.(bundle := PrepareOk(env, w.res)), p := PDone(PrepareOk(env, w.res)))
    case PDone(_) => w
  }

  function NetnsStep(env: Env, w: World): World {
    match w.n
    case NCreate =>
      if !env.bridge then w.(n := NDone(true))
      else if env.create then w.(res := w.res.(netns := true), n := NAttach)
      else w.(n := NDone(false))
    case NAttach =>
      if env.attach then w.(res := w.res.(attached := true), n := NDone(true)) else w.(n := NDone(false))
    case NDone(_) => w
  }

  function Step(env: Env, w: World, t: Task): World {
    match t
    case ExecutorTask => ExecutorStep(env, w)
    case MountTask => MountStep(env, w)
    case PrepareTask => PrepareStep(env, w)
    case NetnsTask => NetnsStep(env, w)
  }

  function Run(env: Env, w: World, schedule: seq<Task>): World
    decreases |schedule|
  {
    if schedule == [] then w else Step(env, Run(env, w, Init(schedule)), Last(schedule))
  }

  predicate AllDone(w: World) {
    w.e.EDone? && w.m.MDone? && w.p.PDone? && w.n.NDone?
  }

  datatype SetupError = ExecutorError | PrepareError | NetnsError | MountError

  /** try_join! waits for all four tasks; then their results are inspected in a fixed order. */
  function Joined(w: World): Result<(), SetupError>
    requires AllDone(w)
  {
    if !w.e.ok then Err(ExecutorError)
    else if !w.p.ok then Err(PrepareError)
    else if !w.n.ok then Err(NetnsError)
    else if !w.m.ok then Err(MountError)
    else Ok(())
  }

  /******* The outcome, described without any schedule *******/

  function ExecutorOk(env: Env, res: Resources): bool {
    res.executor.Some? || (res.args && env.build.Some?)
  }

  function NetnsOk(env: Env): bool {
    !env.bridge || (env.create && env.attach)
  }

  function MountOutcome(env: Env, res: Resources): (Layers, bool) {
    SetupMount(env.overlayOn, res.layers, env.m1, env.u, env.m2)
  }

  /** The resources after setup, whatever the interleaving. */
  function Expected(env: Env, res: Resources): Resources {
    Resources(
      res.args && res.executor.Some?,
      if res.executor.Some? || !res.args then res.executor else env.build,
      MountOutcome(env, res).0,
      PrepareOk(env, res),
      res.netns || (env.bridge && env.create),
      res.attached || (env.bridge && env.create && env.attach))
  }

  function ExpectedResult(env: Env, res: Resources): Result<(), SetupError> {
    if !ExecutorOk(env, res) then Err(ExecutorError)
    else if !PrepareOk(env, res) then Err(PrepareError)
    else if !NetnsOk(env) then Err(NetnsError)
    else if !MountOutcome(env, res).1 then Err(MountError)
    else Ok(())
  }

  /******* Each task keeps to its own part of the resources *******/

  /** Steps a task still needs at most. */
  function ERank(pc: ExecutorPc): nat {
    match pc case ETake => 2 case EBuild => 1 case EDone(_) => 0
  }

  function MRank(pc: MountPc): nat {
    match pc
    case MGate(second) => if second then 6 else 14
    case MAttach(second) => if second then 5 else 13
    case MVerity(second) => if second then 4 else 12
    case MBase(second) => if second then 3 else 11
    case MOverlay(second) => if second then 2 else 10
    case MRollback(second) => if second then 1 else 9
    case MUnmountFirst => 8
    case MUnmountSecond => 7
    case MDone(_) => 0
  }

  function PRank(pc: PreparePc): nat {
    match pc case PRun => 1 case PDone(_) => 0
  }

  function NRank(pc: NetnsPc): nat {
    match pc case NCreate => 2 case NAttach => 1 case NDone(_) => 0
  }

  function Rank(w: World, t: Task): nat {
    match t
    case ExecutorTask => ERank(w.e)
    case MountTask => MRank(w.m)
    case PrepareTask => PRank(w.p)
    case NetnsTask => NRank(w.n)
  }

  /** Two worlds look the same to a task. */
  predicate SameFor(t: Task, v: World, w: World) {
    match t
    case ExecutorTask => v.e == w.e && v.res.args == w.res.args && v.res.executor == w.res.executor
    case MountTask => v.m == w.m && v.res.layers == w.res.layers
    case PrepareTask => v.p == w.p && v.res.bundle == w.res.bundle
    case NetnsTask => v.n == w.n && v.res.netns == w.res.netns && v.res.attached == w.res.attached
  }

  lemma StepSeesOwn(env: Env, v: World, w: World, t: Task)
    requires SameFor(t, v, w)
    ensures SameFor(t, Step(env, v, t), Step(env, w, t))
  {
    hide MountMove;
  }

  lemma StepInvisible(env: Env, v: World, t: Task, other: Task)
    requires other != t
    ensures SameFor(other, Step(env, v, t), v)
  {
    hide MountMove;
  }

  lemma StepProgress(env: Env, v: World, t: Task)
    ensures Rank(v, t) > 0 ==> Rank(Step(env, v, t), t) < Rank(v, t)
    ensures Rank(v, t) == 0 ==> Step(env, v, t) == v
  {
    hide MountMove;
    if t == MountTask {
      MoveProgress(env, v.m, v.res.layers);
    }
  }

  /** A step depends only on what its task sees, is invisible to the other tasks, and makes progress. */
  lemma StepIsLocal(env: Env, v: World, w: World, t: Task, other: Task)
    ensures SameFor(t, v, w) ==> SameFor(t, Step(env, v, t), Step(env, w, t))
    ensures other != t ==> SameFor(other, Step(env, v, t), v)
    ensures Rank(v, t) > 0 ==> Rank(Step(env, v, t), t) < Rank(v, t)
    ensures Rank(v, t) == 0 ==> Step(env, v, t) == v
  {
    hide Step, SameFor, Rank;
    if SameFor(t, v, w) {
      StepSeesOwn(env, v, w, t);
    }
    if other != t {
      StepInvisible(env, v, t, other);
    }
    StepProgress(env, v, t);
  }

  lemma MoveProgress(env: Env, m: MountPc, layers: Layers)
    ensures MRank(m) > 0 ==> MRank(MountMove(env, m, layers).0) < MRank(m)
    ensures MRank(m) == 0 ==> MountMove(env, m, layers) == (m, layers)
  {
  }

  /** Task t running alone until it is done. */
  function Alone(env: Env, w: World, t: Task): World
    decreases Rank(w, t)
  {
    if Rank(w, t) == 0 then w
    else
      StepIsLocal(env, w, w, t, t);
      Alone(env, Step(env, w, t), t)
  }

  lemma {:induction false} AloneIsLocal(env: Env, v: World, w: World, t: Task)
    requires SameFor(t, v, w)
    ensures SameFor(t, Alone(env, v, t), Alone(env, w, t))
    ensures Rank(Alone(env, w, t), t) == 0
    decreases Rank(w, t)
  {
    assert Rank(v, t) == Rank(w, t);
    if Rank(w, t) > 0 {
      StepIsLocal(env, v, w, t, t);
      StepIsLocal(env, w, v, t, t);
      AloneIsLocal(env, Step(env, v, t), Step(env, w, t), t);
    }
  }

  function Count(schedule: seq<Task>, t: Task): nat {
    if schedule == [] then 0 else Count(Init(schedule), t) + if Last(schedule) == t then 1 else 0
  }

  /**
   * However the tasks interleave, each one is somewhere on the way to where it gets alone, and it is
   * done as soon as it was scheduled often enough.
   */
  lemma {:induction false} OnTheWay(env: Env, w: World, schedule: seq<Task>, t: Task)
    ensures var now := Run(env, w, schedule);
            && SameFor(t, Alone(env, now, t), Alone(env, w, t))
            && (Rank(now, t) + Count(schedule, t) <= Rank(w, t) || Rank(now, t) == 0)
    decreases |schedule|
  {
    if schedule == [] {
      AloneIsLocal(env, w, w, t);
    } else {
      var s := Last(schedule);
      var before := Run(env, w, Init(schedule));
      var now := Run(env, w, schedule);
      OnTheWay(env, w, Init(schedule), t);
      StepIsLocal(env, before, before, s, t);
      if s == t {
        assert Rank(before, t) > 0 ==> Alone(env, before, t) == Alone(env, now, t);
      } else {
        AloneIsLocal(env, now, before, t);
      }
    }
  }

  /******* What each task achieves alone *******/

  lemma ExecutorAlone(env: Env, res: Resources)
    ensures var w := Alone(env, Start(res), ExecutorTask);
            && w.e == EDone(ExecutorOk(env, res))
            && w.res.args == Expected(env, res).args && w.res.executor == Expected(env, res).executor
  {
    var w1 := Step(env, Start(res), ExecutorTask);
    var w2 := Step(env, w1, ExecutorTask);
    assert Alone(env, Start(res), ExecutorTask) == Alone(env, w1, ExecutorTask) == w2;
  }

  lemma PrepareAlone(env: Env, res: Resources)
    ensures var w := Alone(env, Start(res), PrepareTask);
            w.p == PDone(PrepareOk(env, res)) && w.res.bundle == Expected(env, res).bundle
  {
    assert Alone(env, Start(res), PrepareTask) == Step(env, Start(res), PrepareTask);
  }

  lemma NetnsAlone(env: Env, res: Resources)
    ensures var w := Alone(env, Start(res), NetnsTask);
            && w.n == NDone(NetnsOk(env))
            && w.res.netns == Expected(env, res).netns && w.res.attached == Expected(env, res).attached
  {
    var w1 := Step(env, Start(res), NetnsTask);
    var w2 := Step(env, w1, NetnsTask);
    assert Alone(env, Start(res), NetnsTask) == Alone(env, w1, NetnsTask) == w2;
  }

  /** The world with the mount task at pc over these layers. */
  function At(w: World, pc: MountPc, layers: Layers): World {
    w.(res := w.res.(layers := layers), m := pc)
  }

  /** The mount task alone, on what it sees. */
  function Finish(env: Env, m: MountPc, layers: Layers): (MountPc, Layers)
    decreases MRank(m)
  {
    if m.MDone? then (m, layers)
    else
      MoveProgress(env, m, layers);
      var (m1, l1) := MountMove(env, m, layers);
      Finish(env, m1, l1)
  }

  lemma {:induction false} AloneIsFinish(env: Env, w: World)
    ensures var (m, layers) := Finish(env, w.m, w.res.layers);
            Alone(env, w, MountTask) == At(w, m, layers)
    decreases MRank(w.m)
  {
    hide MountMove;
    if !w.m.MDone? {
      MoveProgress(env, w.m, w.res.layers);
      AloneIsFinish(env, MountStep(env, w));
    }
  }

  /** Where an attempt ends. */
  function After(second: bool, ok: bool): MountPc {
    if ok then MDone(true) else MountFailed(second)
  }

  lemma FinishStep(env: Env, m: MountPc, layers: Layers)
    ensures var (m1, l1) := MountMove(env, m, layers);
            Finish(env, m, layers) == Finish(env, m1, l1)
  {
    MoveProgress(env, m, layers);
  }

  /** The three moves that mount the device on an empty stack. */
  lemma DeviceMoves(env: Env, second: bool)
    ensures MountMove(env, MBase(second), []) ==
            if Steps(env, second).base then (if env.overlayOn then MOverlay(second) else MDone(true), [Base])
            else (MountFailed(second), [])
    ensures MountMove(env, MOverlay(second), [Base]) ==
            if Steps(env, second).overlay then (MDone(true), [Base, Overlay]) else (MRollback(second), [Base])
    ensures MountMove(env, MRollback(second), [Base]) ==
            (MountFailed(second), if Steps(env, second).rollback then [] else [Base])
  {
    hide Pop, Steps;
    SmallStacks();
  }

  lemma DeviceOnEmpty(overlayOn: bool, s: MountSteps)
    ensures MountDevice(overlayOn, [], s) ==
            if !s.base then ([], false)
            else if !overlayOn then ([Base], true)
            else if s.overlay then ([Base, Overlay], true)
            else (if s.rollback then [] else [Base], false)
  {
    SmallStacks();
  }

  lemma MountFromBase(env: Env, second: bool)
    ensures var (layers, ok) := MountDevice(env.overlayOn, [], Steps(env, second));
            Finish(env, MBase(second), []) == Finish(env, After(second, ok), layers)
  {
    hide Finish, MountMove, MountDevice, Steps;
    DeviceMoves(env, second);
    DeviceOnEmpty(env.overlayOn, Steps(env, second));
    FinishStep(env, MBase(second), []);
    FinishStep(env, MOverlay(second), [Base]);
    FinishStep(env, MRollback(second), [Base]);
  }

  /** One mount attempt of the task is mount_pkgfs. */
  lemma MountAttempt(env: Env, second: bool, layers: Layers)
    ensures var (l, ok) := Mount(env.overlayOn, layers, Steps(env, second));
            Finish(env, MGate(second), layers) == Finish(env, After(second, ok), l)
  {
    hide MountDevice, Finish;
    FinishStep(env, MGate(second), layers);
    if layers == [] {
      MountFromBase(env, second);
      FinishStep(env, MAttach(second), []);
      FinishStep(env, MVerity(second), []);
    }
  }

  /** The unmount of the task is unmount_pkgfs. */
  lemma UnmountAttempt(env: Env, layers: Layers)
    ensures var (l, ok) := Unmount(env.overlayOn, layers, env.u);
            Finish(env, MUnmountFirst, layers) == Finish(env, if ok then MGate(true) else MDone(false), l)
  {
    hide Finish;
    FinishStep(env, MUnmountFirst, layers);
    FinishStep(env, MUnmountSecond, layers);
    FinishStep(env, MUnmountSecond, Pop(layers));
  }

  lemma MountAlone(env: Env, res: Resources)
    ensures var w := Alone(env, Start(res), MountTask);
            w.m == MDone(MountOutcome(env, res).1) && w.res.layers == MountOutcome(env, res).0
  {
    hide Mount, Unmount, MountMove;
    AloneIsFinish(env, Start(res));
    MountAttempt(env, false, res.layers);
    var (l1, ok1) := Mount(env.overlayOn, res.layers, env.m1);
    if !ok1 {
      UnmountAttempt(env, l1);
      var (l2, ok2) := Unmount(env.overlayOn, l1, env.u);
      if ok2 {
        MountAttempt(env, true, l2);
      }
    }
  }

  /** What the mount task relies on at each of its phases. */
  predicate PhaseOk(env: Env, m: MountPc, layers: Layers) {
    && Valid(env.overlayOn, layers)
    && (m.MAttach? || m.MVerity? || m.MBase? ==> layers == [])
    && (m.MOverlay? || m.MRollback? ==> env.overlayOn && layers == [Base])
  }

  lemma PhaseKept(env: Env, m: MountPc, layers: Layers)
    requires PhaseOk(env, m, layers)
    ensures var (m', layers') := MountMove(env, m, layers); PhaseOk(env, m', layers')
  {
    match m
    case MBase(second) => DeviceMoves(env, second);
    case MOverlay(second) => DeviceMoves(env, second);
    case MRollback(second) => DeviceMoves(env, second);
    case MUnmountFirst => PopKeepsValid(env.overlayOn, layers);
    case MUnmountSecond => PopKeepsValid(env.overlayOn, layers);
    case _ =>
  }

  lemma PopKeepsValid(overlayOn: bool, layers: Layers)
    requires Valid(overlayOn, layers)
    ensures Valid(overlayOn, Pop(layers))
  {
  }

  /** Not only at the end: at every moment of every interleaving the mounted layers are a valid prefix. */
  lemma {:induction false} LayersValidThroughout(env: Env, res: Resources, schedule: seq<Task>)
    requires Valid(env.overlayOn, res.layers)
    ensures var w := Run(env, Start(res), schedule); PhaseOk(env, w.m, w.res.layers)
    decreases |schedule|
  {
    hide MountMove, PhaseOk;
    if schedule == [] {
      assert PhaseOk(env, MGate(false), res.layers) by {
        StartsValid(env, res.layers);
      }
    } else {
      var before := Run(env, Start(res), Init(schedule));
      LayersValidThroughout(env, res, Init(schedule));
      if Last(schedule) == MountTask {
        PhaseKept(env, before.m, before.res.layers);
      } else {
        StepIsLocal(env, before, before, Last(schedule), MountTask);
      }
    }
  }

  lemma StartsValid(env: Env, layers: Layers)
    requires Valid(env.overlayOn, layers)
    ensures PhaseOk(env, MGate(false), layers)
  {
  }

  /******* Confluence *******/

  /** When all tasks are done, the world is the expected one, whatever the interleaving was. */
  lemma SetupConfluent(env: Env, res: Resources, schedule: seq<Task>)
    requires AllDone(Run(env, Start(res), schedule))
    ensures Run(env, Start(res), schedule).res == Expected(env, res)
    ensures Joined(Run(env, Start(res), schedule)) == ExpectedResult(env, res)
  {
    var w := Start(res);
    var now := Run(env, w, schedule);
    OnTheWay(env, w, schedule, ExecutorTask);
    OnTheWay(env, w, schedule, MountTask);
    OnTheWay(env, w, schedule, PrepareTask);
    OnTheWay(env, w, schedule, NetnsTask);
    ExecutorAlone(env, res);
    MountAlone(env, res);
    PrepareAlone(env, res);
    NetnsAlone(env, res);
    assert forall t :: Rank(now, t) == 0 && Alone(env, now, t) == now;
  }

  /** Every schedule that gives each task its few steps runs all four to completion, failures included. */
  lemma SetupTerminates(env: Env, res: Resources, schedule: seq<Task>)
    requires Count(schedule, ExecutorTask) >= 2 && Count(schedule, MountTask) >= 14
    requires Count(schedule, PrepareTask) >= 1 && Count(schedule, NetnsTask) >= 2
    ensures AllDone(Run(env, Start(res), schedule))
  {
    var w := Start(res);
    OnTheWay(env, w, schedule, ExecutorTask);
    OnTheWay(env, w, schedule, MountTask);
    OnTheWay(env, w, schedule, PrepareTask);
    OnTheWay(env, w, schedule, NetnsTask);
  }

  /** Setup succeeds iff all four tasks do, and then the executor exists and the filesystem is mounted. */
  lemma SetupOkMeans(env: Env, res: Resources, schedule: seq<Task>)
    requires AllDone(Run(env, Start(res), schedule)) && Valid(env.overlayOn, res.layers)
    ensures var w := Run(env, Start(res), schedule);
            && Valid(env.overlayOn, w.res.layers)
            && (Joined(w).Ok? <==> w.e.ok && w.m.ok && w.p.ok && w.n.ok)
            && (Joined(w).Ok? ==>
                  && w.res.executor.Some? && w.res.layers != [] && w.res.bundle
                  && (env.bridge ==> w.res.netns && w.res.attached))
  {
    SetupConfluent(env, res, schedule);
    SetupKeepsValid(env.overlayOn, res.layers, env.m1, env.u, env.m2);
  }

  /******* The result, told from the inputs *******/

  predicate ExecutorReady(env: Env, res: Resources) {
    res.executor.Some? || (res.args && env.build.Some?)
  }

  predicate BundleReady(env: Env, res: Resources) {
    res.bundle || env.prepare
  }

  predicate NetworkReady(env: Env) {
    env.bridge ==> env.create && env.attach
  }

  predicate FilesystemReady(env: Env, res: Resources) {
    || res.layers != [] || MountsFully(env.overlayOn, env.m1)
    || ((LeavesBase(env.overlayOn, env.m1) ==> env.u.first) && MountsFully(env.overlayOn, env.m2))
  }

  /**
   * Whatever the interleaving: setup is Ok exactly if the executor, the bundle, the network and the filesystem
   * can all be had, and otherwise its error is the first that cannot, in this order. What each needs is told
   * by what was there before and by the outcomes of its steps; and each leaves behind exactly what it got.
   */
  lemma SetupResultIff(env: Env, res: Resources, schedule: seq<Task>)
    requires AllDone(Run(env, Start(res), schedule)) && Valid(env.overlayOn, res.layers)
    ensures var w := Run(env, Start(res), schedule);
            && (Joined(w) == Ok(()) <==>
                  && ExecutorReady(env, res) && BundleReady(env, res) && NetworkReady(env) && FilesystemReady(env, res))
            && (Joined(w) == Err(ExecutorError) <==> !ExecutorReady(env, res))
            && (Joined(w) == Err(PrepareError) <==> ExecutorReady(env, res) && !BundleReady(env, res))
            && (Joined(w) == Err(NetnsError) <==>
                  ExecutorReady(env, res) && BundleReady(env, res) && !NetworkReady(env))
            && (Joined(w) == Err(MountError) <==>
                  && ExecutorReady(env, res) && BundleReady(env, res) && NetworkReady(env)
                  && !FilesystemReady(env, res))
    ensures var r := Run(env, Start(res), schedule).res;
            && (r.bundle <==> BundleReady(env, res)) && (r.executor.Some? <==> ExecutorReady(env, res))
            && (res.executor.Some? ==> r.executor == res.executor)
            && (res.executor.None? && r.executor.Some? ==> r.executor == env.build)
            && (r.args <==> res.args && res.executor.Some?)
            && (r.netns <==> res.netns || (env.bridge && env.create))
            && (r.attached <==> res.attached || (env.bridge && env.create && env.attach))
  {
    SetupConfluent(env, res, schedule);
    SetupMountOkIff(env.overlayOn, res.layers, env.m1, env.u, env.m2);
    hide Run, SetupMount, MountsFully, LeavesBase;
  }
}
