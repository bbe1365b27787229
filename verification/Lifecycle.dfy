/**
 * The package state machine (ssamd/src/package/transition.rs, ssamd/src/package/state_machine.rs) over
 * the mount stack, and Package::teardown, which skips the unmount in three statuses (ssamd/src/package.rs).
 */
module Lifecycle {
  import opened Wrappers
  import opened MountStack

  datatype Status =
    | Verified | SettingUp | Ready | StartRequested | Running(state: string) | StopRequested
    | CleaningUp | Cleaned | Upgrading | Error(reason: string) | Broken(reason: string)

  /** What the container start or stop ends in. */
  datatype Execution = Active(state: string) | Inactive | Failed(reason: string)

  function FromExecution(x: Execution): Status {
    match x
    case Active(state) => Running(state)
    case Inactive => Ready
    case Failed(reason) => Error(reason)
  }

  /** Outcomes of the operations a transition may call. otherOk covers the setup tasks beside the mount. */
  datatype Steps = Steps(
    m1: MountSteps, u: UnmountSteps, m2: MountSteps, otherOk: bool, cleanup: UnmountSteps, teardown: UnmountSteps,
    execution: Execution, reason: string)

  /** The actor's status and what is mounted for the package. */
  datatype Actor = Actor(overlayOn: bool, status: Status, layers: Layers)

  /** find_transition: a handler exists for the target and applies to the current status. */
  predicate Applicable(current: Status, target: Status) {
    match target
    case Verified => false
    case SettingUp => current.Verified? || current.Cleaned?
    case StartRequested => current.Ready? || current.Running?
    case CleaningUp => current.Ready?
    case StopRequested => current.StartRequested? || current.Running? || current.Ready?
    case Ready => current.SettingUp? || current.StopRequested? || current.Running?
    case Running(_) => current.Ready? || current.StartRequested? || current.Running? || current.StopRequested?
    case Cleaned => current.CleaningUp?
    case Upgrading => current.Verified? || current.Ready? || current.Running? || current.StartRequested?
    case Error(_) => true
    case Broken(_) => true
  }

  predicate IgnoredWithoutError(current: Status, target: Status) {
    match target
    case StartRequested => current.Running? && current.state != "failed"
    case StopRequested => current == Ready
    case _ => false
  }

  /** The handler of an applicable transition: the resulting status and layers. */
  function Handle(a: Actor, target: Status, s: Steps): (Status, Layers) {
    match target
    case SettingUp =>
      var (layers, mounted) := SetupMount(a.overlayOn, a.layers, s.m1, s.u, s.m2);
      if mounted && s.otherOk then (Ready, layers)
      else (Error(s.reason), Unmount(a.overlayOn, layers, s.cleanup).0)
    case StartRequested => (FromExecution(s.execution), a.layers)
    case StopRequested => (FromExecution(s.execution), a.layers)
    case CleaningUp =>
      var (layers, ok) := Unmount(a.overlayOn, a.layers, s.cleanup);
      (if ok then Cleaned else Error(s.reason), layers)
    case Upgrading =>
      if a.status == Verified then (Upgrading, a.layers)
      else
        var (layers, ok) := Unmount(a.overlayOn, a.layers, s.teardown);
        (if ok then Upgrading else Error(s.reason), layers)
    case _ => (target, a.layers)
  }

  /** transition_to: the new actor, and whether the request succeeded. */
  function TransitionTo(a: Actor, target: Status, s: Steps): (Actor, bool) {
    if target == a.status then (a, true)
    else if !Applicable(a.status, target) then (a, false)
    else if IgnoredWithoutError(a.status, target) then (a, true)
    else
      var (status, layers) := Handle(a, target, s);
      (a.(status := status, layers := layers), !status.Error?)
  }

  datatype Message = Request(target: Status, steps: Steps) | Teardown(t: UnmountSteps) | GetStatus

  /** The actor handles one message at a time; a teardown message does not change the status. */
  function Deliver(a: Actor, m: Message): Actor {
    match m
    case Request(target, steps) => TransitionTo(a, target, steps).0
    case Teardown(t) => a.(layers := Unmount(a.overlayOn, a.layers, t).0)
    case GetStatus => a
  }

  function DeliverAll(a: Actor, ms: seq<Message>): Actor
    decreases |ms|
  {
    if ms == [] then a else Deliver(DeliverAll(a, Init(ms)), Last(ms))
  }

  /** A new actor over what an earlier daemon left at the mount point. */
  function Fresh(overlayOn: bool, left: Layers): Actor {
    Actor(overlayOn, Verified, left)
  }

  /******* The actor in its stateful form *******/

  class TransitionManager {
    const overlayOn: bool
    var status: Status
    const mount: MountPoint

    constructor (mount: MountPoint)
      ensures this.mount == mount && overlayOn == mount.overlayOn && status == Verified
    {
      this.mount, overlayOn, status := mount, mount.overlayOn, Verified;
    }

    ghost function Abs(): Actor
      reads this, mount
    {
      Actor(overlayOn, status, mount.layers)
    }

    /** transition_to; a setup failure is compensated by a cleanup. */
    method Transition(target: Status, s: Steps) returns (ok: bool)
      requires mount.overlayOn == overlayOn
      modifies this`status, mount`layers
      ensures (Abs(), ok) == TransitionTo(old(Abs()), target, s)
    {
      if target == status {
        return true;
      }
      if !Applicable(status, target) {
        return false;
      }
      if IgnoredWithoutError(status, target) {
        return true;
      }
      var current := status;
      status := target;
      match target {
        case SettingUp =>
          var mounted := mount.SetupTask(s.m1, s.u, s.m2);
          if mounted && s.otherOk {
            status := Ready;
          } else {
            var cleaned := mount.UnmountPkgfs(s.cleanup);
            status := Error(s.reason);
          }
        case StartRequested =>
          status := FromExecution(s.execution);
        case StopRequested =>
          status := FromExecution(s.execution);
        case CleaningUp =>
          var cleaned := mount.UnmountPkgfs(s.cleanup);
          status := if cleaned then Cleaned else Error(s.reason);
        case Upgrading =>
          if current != Verified {
            var unmounted := mount.UnmountPkgfs(s.teardown);
            if !unmounted {
              status := Error(s.reason);
            }
          }
        case _ =>
      }
      return !status.Error?;
    }

    /** handle_teardown */
    method HandleTeardown(t: UnmountSteps) returns (ok: bool)
      requires mount.overlayOn == overlayOn
      modifies mount`layers
      ensures status == old(status)
      ensures (mount.layers, ok) == Unmount(overlayOn, old(mount.layers), t)
    {
      ok := mount.UnmountPkgfs(t);
    }
  }

  /******* What every run keeps *******/

  /** The statuses in which Package::teardown does not unmount. */
  predicate NothingToTearDown(s: Status) {
    s.Verified? || s.Cleaned? || s.Upgrading?
  }

  /** The statuses an actor can have between messages; the others only occur while a handler runs. */
  predicate Resting(s: Status) {
    !s.SettingUp? && !s.StartRequested? && !s.StopRequested? && !s.CleaningUp?
  }

  /** Between messages no half-way status is visible, the layers are a valid prefix, and a cleaned package has none. */
  predicate Inv(a: Actor) {
    && Resting(a.status) && Valid(a.overlayOn, a.layers)
    && (a.status.Cleaned? ==> a.layers == [])
  }

  lemma HandleKeepsInv(a: Actor, target: Status, s: Steps)
    requires Inv(a) && Applicable(a.status, target)
    ensures var (status, layers) := Handle(a, target, s); Inv(a.(status := status, layers := layers))
    ensures target == Upgrading && Handle(a, target, s).0 == Upgrading ==>
              Handle(a, target, s).1 == if a.status == Verified then a.layers else []
  {
    hide SetupMount, Unmount, Valid;
    match target
    case SettingUp =>
      SetupKeepsValid(a.overlayOn, a.layers, s.m1, s.u, s.m2);
      UnmountKeepsValid(a.overlayOn, SetupMount(a.overlayOn, a.layers, s.m1, s.u, s.m2).0, s.cleanup);
    case CleaningUp => UnmountKeepsValid(a.overlayOn, a.layers, s.cleanup);
    case Upgrading => UnmountKeepsValid(a.overlayOn, a.layers, s.teardown);
    case _ =>
  }

  lemma DeliverKeepsInv(a: Actor, m: Message)
    requires Inv(a)
    ensures Inv(Deliver(a, m)) && Deliver(a, m).overlayOn == a.overlayOn
  {
    hide Handle, Unmount, Valid;
    match m
    case Request(target, steps) =>
      if target != a.status && Applicable(a.status, target) {
        HandleKeepsInv(a, target, steps);
      }
    case Teardown(t) =>
      UnmountKeepsValid(a.overlayOn, a.layers, t);
      EmptyIsLeast(Unmount(a.overlayOn, a.layers, t).0, a.layers);
    case GetStatus =>
  }

  lemma EmptyIsLeast(l: Layers, layers: Layers)
    requires l <= layers
    ensures layers == [] ==> l == []
  {
  }

  lemma {:induction false} InvAlways(overlayOn: bool, left: Layers, ms: seq<Message>)
    requires Valid(overlayOn, left)
    ensures Inv(DeliverAll(Fresh(overlayOn, left), ms)) && DeliverAll(Fresh(overlayOn, left), ms).overlayOn == overlayOn
    decreases |ms|
  {
    hide Deliver;
    if ms != [] {
      InvAlways(overlayOn, left, Init(ms));
      DeliverKeepsInv(DeliverAll(Fresh(overlayOn, left), Init(ms)), Last(ms));
    }
  }

  /** The first request that a package in its first status acts on. */
  function FirstMove(ms: seq<Message>): Option<Status>
    decreases |ms|
  {
    if ms == [] then None
    else if FirstMove(Init(ms)).Some? then FirstMove(Init(ms))
    else if Last(ms).Request? && Applicable(Verified, Last(ms).target) then Some(Last(ms).target)
    else None
  }

  /** What the teardown messages alone leave of the layers. */
  function Remaining(overlayOn: bool, left: Layers, ms: seq<Message>): Layers
    decreases |ms|
  {
    if ms == [] then left
    else
      var before := Remaining(overlayOn, left, Init(ms));
      if Last(ms).Teardown? then Unmount(overlayOn, before, Last(ms).t).0 else before
  }

  /** The package was never set up: its first move, if any, was the upgrade that skips the unmount. */
  predicate NeverSetUp(ms: seq<Message>) {
    FirstMove(ms) in {None, Some(Upgrading)}
  }

  /**
   * The status tells what was done first. A package still verified, or upgrading without ever having been
   * set up, has exactly what the teardown messages left; any other upgrading or cleaned package has nothing.
   */
  lemma {:induction false} SkippedLayers(overlayOn: bool, left: Layers, ms: seq<Message>)
    requires Valid(overlayOn, left)
    ensures var a := DeliverAll(Fresh(overlayOn, left), ms);
            && (a.status.Verified? <==> FirstMove(ms).None?)
            && (NothingToTearDown(a.status) ==>
                  a.layers == if NeverSetUp(ms) then Remaining(overlayOn, left, ms) else [])
            && (a.status.Cleaned? ==> !NeverSetUp(ms))
            && (FirstMove(ms) == Some(Upgrading) ==> Dead(a.status))
    decreases |ms|
  {
    if ms != [] {
      var before := DeliverAll(Fresh(overlayOn, left), Init(ms));
      SkippedLayers(overlayOn, left, Init(ms));
      InvAlways(overlayOn, left, Init(ms));
      hide FirstMove, Remaining, DeliverAll;
      DeliverLast(Fresh(overlayOn, left), ms);
      SkippedStep(before, overlayOn, left, ms);
    }
  }

  lemma DeliverLast(a: Actor, ms: seq<Message>)
    requires ms != []
    ensures DeliverAll(a, ms) == Deliver(DeliverAll(a, Init(ms)), Last(ms))
  {
  }

  lemma SkippedStep(before: Actor, overlayOn: bool, left: Layers, ms: seq<Message>)
    requires ms != [] && Inv(before) && before.overlayOn == overlayOn
    requires before.status.Verified? <==> FirstMove(Init(ms)).None?
    requires NothingToTearDown(before.status) ==>
               before.layers == if NeverSetUp(Init(ms)) then Remaining(overlayOn, left, Init(ms)) else []
    requires before.status.Cleaned? ==> !NeverSetUp(Init(ms))
    requires FirstMove(Init(ms)) == Some(Upgrading) ==> Dead(before.status)
    ensures var a := Deliver(before, Last(ms));
            && (a.status.Verified? <==> FirstMove(ms).None?)
            && (NothingToTearDown(a.status) ==>
                  a.layers == if NeverSetUp(ms) then Remaining(overlayOn, left, ms) else [])
            && (a.status.Cleaned? ==> !NeverSetUp(ms))
            && (FirstMove(ms) == Some(Upgrading) ==> Dead(a.status))
  {
    hide Unmount, SetupMount, Valid;
    match Last(ms)
    case Request(target, steps) =>
      if target != before.status && Applicable(before.status, target) {
        HandleKeepsInv(before, target, steps);
      }
    case Teardown(t) =>
      UnmountKeepsValid(overlayOn, before.layers, t);
      EmptyIsLeast(Unmount(overlayOn, before.layers, t).0, before.layers);
    case GetStatus =>
  }

  /**
   * After any history of requests and teardowns with any failures, over whatever an earlier daemon left: no
   * half-way status is visible, the layers are a valid prefix, and a package whose teardown is skipped has
   * something mounted exactly if it was never set up and the teardowns so far did not remove what was left.
   */
  lemma LifecycleInvariant(overlayOn: bool, left: Layers, ms: seq<Message>)
    requires Valid(overlayOn, left)
    ensures var a := DeliverAll(Fresh(overlayOn, left), ms);
            && Resting(a.status) && Valid(overlayOn, a.layers)
            && (NothingToTearDown(a.status) ==>
                  (a.layers != [] <==> NeverSetUp(ms) && Remaining(overlayOn, left, ms) != []))
  {
    hide Valid;
    InvAlways(overlayOn, left, ms);
    SkippedLayers(overlayOn, left, ms);
  }

  /** So a skipped teardown is safe after every history exactly when nothing was left in the first place. */
  lemma SkipIsSafeIff(overlayOn: bool, left: Layers)
    requires Valid(overlayOn, left)
    ensures (forall ms :: NothingToTearDown(DeliverAll(Fresh(overlayOn, left), ms).status) ==>
                            DeliverAll(Fresh(overlayOn, left), ms).layers == [])
            <==> left == []
  {
    hide Valid, DeliverAll;
    if left == [] {
      forall ms | NothingToTearDown(DeliverAll(Fresh(overlayOn, left), ms).status)
        ensures DeliverAll(Fresh(overlayOn, left), ms).layers == []
      {
        LifecycleInvariant(overlayOn, left, ms);
        NothingRemains(overlayOn, ms);
      }
    }
    var none: seq<Message> := [];
    DeliverNone(Fresh(overlayOn, left));
    assert NothingToTearDown(DeliverAll(Fresh(overlayOn, left), none).status);
  }

  lemma DeliverNone(a: Actor)
    ensures DeliverAll(a, []) == a
  {
  }

  lemma {:induction false} NothingRemains(overlayOn: bool, ms: seq<Message>)
    ensures Remaining(overlayOn, [], ms) == []
    decreases |ms|
  {
    if ms != [] {
      NothingRemains(overlayOn, Init(ms));
    }
  }

  /** Package::teardown: it reads the status and, unless it skips, has the actor unmount. */
  function PackageTeardown(a: Actor, t: UnmountSteps): (Actor, bool) {
    if NothingToTearDown(a.status) then (a, true)
    else (Deliver(a, Teardown(t)), Unmount(a.overlayOn, a.layers, t).1)
  }

  /** A teardown that returns Ok leaves something mounted exactly if it was skipped over a leftover mount. */
  lemma TeardownEmptiesIff(overlayOn: bool, left: Layers, history: seq<Message>, t: UnmountSteps)
    requires Valid(overlayOn, left)
    ensures var a := DeliverAll(Fresh(overlayOn, left), history);
            PackageTeardown(a, t).1 ==>
              (PackageTeardown(a, t).0.layers != [] <==>
                 NothingToTearDown(a.status) && NeverSetUp(history) && Remaining(overlayOn, left, history) != [])
  {
    hide Valid, Unmount, NothingToTearDown, NeverSetUp;
    LifecycleInvariant(overlayOn, left, history);
    InvAlways(overlayOn, left, history);
    UnmountKeepsValid(overlayOn, DeliverAll(Fresh(overlayOn, left), history).layers, t);
  }

  /** Other messages may come between reading the status and the teardown message: its Ok still means empty. */
  lemma TeardownEmpties(overlayOn: bool, left: Layers, history: seq<Message>, between: seq<Message>, t: UnmountSteps)
    requires Valid(overlayOn, left)
    ensures var a := DeliverAll(Fresh(overlayOn, left), history + between);
            Unmount(overlayOn, a.layers, t).1 ==> Deliver(a, Teardown(t)).layers == []
  {
    InvAlways(overlayOn, left, history + between);
    UnmountKeepsValid(overlayOn, DeliverAll(Fresh(overlayOn, left), history + between).layers, t);
  }

  /******* What can still be mounted afterwards *******/

  predicate Dead(s: Status) {
    s.Upgrading? || s.Error? || s.Broken?
  }

  lemma DeliverDead(a: Actor, m: Message)
    requires Dead(a.status)
    ensures Dead(Deliver(a, m).status)
    ensures a.status.Error? || a.status.Broken? ==> Deliver(a, m).status.Error? || Deliver(a, m).status.Broken?
    ensures a.layers == [] ==> Deliver(a, m).layers == []
  {
  }

  /** An upgrading, failed or broken package never runs again, and once unmounted stays unmounted. */
  lemma {:induction false} DeadStaysDead(a: Actor, ms: seq<Message>)
    requires Dead(a.status)
    ensures Dead(DeliverAll(a, ms).status)
    ensures a.layers == [] ==> DeliverAll(a, ms).layers == []
    decreases |ms|
  {
    hide Deliver;
    if ms != [] {
      DeadStaysDead(a, Init(ms));
      DeliverDead(DeliverAll(a, Init(ms)), Last(ms));
    }
  }

  /**
   * After a successful upgrade request nothing is ever mounted for the old package again, exactly unless
   * it was never set up and something was left mounted.
   */
  lemma UpgradeUnmountsForGoodIff(overlayOn: bool, left: Layers, history: seq<Message>, s: Steps)
    requires Valid(overlayOn, left)
    requires TransitionTo(DeliverAll(Fresh(overlayOn, left), history), Upgrading, s).1
    ensures var a := TransitionTo(DeliverAll(Fresh(overlayOn, left), history), Upgrading, s).0;
            && a.status == Upgrading
            && ((forall later :: DeliverAll(a, later).layers == []) <==>
                !(NeverSetUp(history) && Remaining(overlayOn, left, history) != []))
  {
    var before := DeliverAll(Fresh(overlayOn, left), history);
    var a := TransitionTo(before, Upgrading, s).0;
    SkippedLayers(overlayOn, left, history);
    InvAlways(overlayOn, left, history);
    if before.status != Upgrading {
      HandleKeepsInv(before, Upgrading, s);
    }
    hide TransitionTo, DeliverAll, Valid, Remaining, FirstMove;
    DeliverNone(a);
    if a.layers == [] {
      forall later ensures DeliverAll(a, later).layers == [] {
        DeadStaysDead(a, later);
      }
    }
  }

  predicate IsSetup(m: Message) {
    m.Request? && m.target == SettingUp
  }

  /** Only a setup request mounts anything. */
  lemma {:induction false} NoSetupStaysEmpty(a: Actor, ms: seq<Message>)
    requires a.layers == [] && forall i :: 0 <= i < |ms| ==> !IsSetup(ms[i])
    ensures DeliverAll(a, ms).layers == []
    decreases |ms|
  {
    if ms != [] {
      NoSetupStaysEmpty(a, Init(ms));
      assert !IsSetup(Last(ms));
    }
  }

  /** Setup with every step succeeding. */
  function AllWell(): Steps {
    var yes, done := MountSteps(true, true, true, true, true), UnmountSteps(true, true);
    Steps(yes, done, yes, true, done, done, Inactive, "")
  }

  /** With nothing mounted, a setup request can mount something exactly in the first status and after a cleanup. */
  lemma SetupMountsIff(a: Actor)
    requires Resting(a.status) && a.layers == []
    ensures (exists s :: Deliver(a, Request(SettingUp, s)).layers != []) <==> a.status.Verified? || a.status.Cleaned?
  {
    hide SetupMount, Unmount;
    if a.status.Verified? || a.status.Cleaned? {
      SetupOfNothing(a.overlayOn);
      assert Deliver(a, Request(SettingUp, AllWell())).layers == Full(a.overlayOn);
    }
  }

  lemma SetupOfNothing(overlayOn: bool)
    ensures SetupMount(overlayOn, [], AllWell().m1, AllWell().u, AllWell().m2) == (Full(overlayOn), true)
  {
    assert [] + Full(overlayOn) == Full(overlayOn);
  }

  /** A skipped teardown with nothing mounted is safe for good exactly when the package is being upgraded. */
  lemma SkipSafeForGoodIff(a: Actor)
    requires NothingToTearDown(a.status) && a.layers == []
    ensures (forall later :: DeliverAll(a, later).layers == []) <==> a.status.Upgrading?
  {
    hide DeliverAll;
    if a.status.Upgrading? {
      forall later ensures DeliverAll(a, later).layers == [] {
        DeadStaysDead(a, later);
      }
    } else {
      SetupMountsIff(a);
      var s :| Deliver(a, Request(SettingUp, s)).layers != [];
      var setup := [Request(SettingUp, s)];
      DeliverLast(a, setup);
      assert Init(setup) == [];
      DeliverNone(a);
    }
  }

  /** Concretely: a leftover mount survives a skipped teardown and a successful upgrade. */
  lemma LeftoverReachable(s: Steps)
    ensures var a := Fresh(true, [Base, Overlay]);
            && Valid(true, a.layers) && NothingToTearDown(a.status)
            && TransitionTo(a, Upgrading, s) == (a.(status := Upgrading), true)
  {
    ValidCases(true, [Base, Overlay]);
  }

  /******* Which requests are carried out, and what they end in *******/

  /** What a status can be asked to become; any status can be asked to become Error or Broken. */
  predicate Follows(current: Status, target: Status) {
    || target.Error? || target.Broken?
    || match current
       case Verified => target.SettingUp? || target.Upgrading?
       case SettingUp => target.Ready?
       case Ready =>
         target.StartRequested? || target.CleaningUp? || target.StopRequested? || target.Running? || target.Upgrading?
       case StartRequested => target.StopRequested? || target.Running? || target.Upgrading?
       case Running(_) =>
         target.StartRequested? || target.StopRequested? || target.Ready? || target.Running? || target.Upgrading?
       case StopRequested => target.Ready? || target.Running?
       case CleaningUp => target.Cleaned?
       case Cleaned => target.SettingUp?
       case Upgrading => false
       case Error(_) => false
       case Broken(_) => false
  }

  /**
   * A request is refused if the target is neither the current status nor one that follows it, and ignored if
   * it is already fulfilled; a status that only needs to be recorded is.
   */
  lemma RefusedOrRecorded(a: Actor, target: Status, s: Steps)
    ensures target != a.status && !Follows(a.status, target) ==> TransitionTo(a, target, s) == (a, false)
    ensures target == a.status ==> TransitionTo(a, target, s) == (a, true)
    ensures target != a.status && (target == StartRequested || target == StopRequested) && Follows(a.status, target) ==>
              (&& (target == StartRequested && a.status.Running? && a.status.state != "failed" ==>
                     TransitionTo(a, target, s) == (a, true))
               && (target == StopRequested && a.status == Ready ==> TransitionTo(a, target, s) == (a, true)))
    ensures target != a.status && Follows(a.status, target) &&
            (target.Ready? || target.Running? || target.Cleaned? || target.Error? || target.Broken?) ==>
              TransitionTo(a, target, s) == (a.(status := target), !target.Error?)
  {
  }

  /** A start or stop that is neither refused nor already fulfilled. */
  predicate Acts(current: Status, target: Status) {
    || (target == StartRequested && (current.Ready? || (current.Running? && current.state == "failed")))
    || (target == StopRequested && (current.StartRequested? || current.Running?))
  }

  /**
   * Such a request leaves the status that the execution ended in, Ready if the container is not active, and
   * nothing about the mount changes; it succeeds unless the execution failed.
   */
  lemma StartStopStatus(a: Actor, target: Status, s: Steps)
    requires Acts(a.status, target)
    ensures var (b, ok) := TransitionTo(a, target, s);
            && b.layers == a.layers && b.overlayOn == a.overlayOn
            && (forall x :: b.status == Running(x) <==> s.execution == Active(x))
            && (b.status == Ready <==> s.execution == Inactive)
            && (forall r :: b.status == Error(r) <==> s.execution == Failed(r))
            && (ok <==> !s.execution.Failed?)
  {
  }

  /** A setup request in a status that allows it: Ready over a mount if all succeeds, else Error after a cleanup. */
  lemma SetupStatus(a: Actor, s: Steps)
    requires Inv(a) && (a.status.Verified? || a.status.Cleaned?)
    ensures var (b, ok) := TransitionTo(a, SettingUp, s);
            var (layers, mounted) := SetupMount(a.overlayOn, a.layers, s.m1, s.u, s.m2);
            && (mounted && s.otherOk ==> ok && b == a.(status := Ready, layers := layers) && layers != [])
            && (!(mounted && s.otherOk) ==>
                  !ok && b.status == Error(s.reason) && b.layers == Unmount(a.overlayOn, layers, s.cleanup).0)
  {
    SetupKeepsValid(a.overlayOn, a.layers, s.m1, s.u, s.m2);
    hide SetupMount, Unmount, Valid;
  }

  /** A cleanup request of a ready package, and an upgrade request: the status tells whether the unmount worked. */
  lemma UnmountStatus(a: Actor, s: Steps)
    ensures a.status.Ready? ==>
              var (b, ok) := TransitionTo(a, CleaningUp, s);
              var (layers, done) := Unmount(a.overlayOn, a.layers, s.cleanup);
              b.layers == layers && ok == done && b.status == if done then Cleaned else Error(s.reason)
    ensures a.status.Ready? || a.status.Running? || a.status.StartRequested? ==>
              var (b, ok) := TransitionTo(a, Upgrading, s);
              var (layers, done) := Unmount(a.overlayOn, a.layers, s.teardown);
              b.layers == layers && ok == done && b.status == if done then Upgrading else Error(s.reason)
    ensures a.status.Verified? ==> TransitionTo(a, Upgrading, s) == (a.(status := Upgrading), true)
  {
    hide Unmount;
  }

  /** A message after which the package can be running in state x. */
  predicate MakesRunning(m: Message, x: string) {
    && m.Request?
    && (m.target == Running(x) ||
        (m.target in {StartRequested, StopRequested} && m.steps.execution == Active(x)))
  }

  /** The status after message k. */
  function StatusAfter(overlayOn: bool, left: Layers, ms: seq<Message>, k: nat): Status
    requires k < |ms|
  {
    DeliverAll(Fresh(overlayOn, left), ms[..k + 1]).status
  }

  /** Message i made the package running in state x, and every status since then is that. */
  predicate SetRunning(overlayOn: bool, left: Layers, ms: seq<Message>, i: nat, x: string)
    requires i < |ms|
  {
    MakesRunning(ms[i], x) && forall k :: i <= k < |ms| ==> StatusAfter(overlayOn, left, ms, k) == Running(x)
  }

  /**
   * A package is running only if its last start or stop ended with an active container, or it was last set to
   * running directly, in that very state; and it has been running ever since.
   */
  lemma {:induction false} RunningOnlyIf(overlayOn: bool, left: Layers, ms: seq<Message>, x: string)
    requires DeliverAll(Fresh(overlayOn, left), ms).status == Running(x)
    ensures exists i: nat :: i < |ms| && SetRunning(overlayOn, left, ms, i, x)
    decreases |ms|
  {
    hide Deliver, DeliverAll, SetRunning, StatusAfter, MakesRunning;
    NeverAtFirst(overlayOn, left, ms);
    var front := Init(ms);
    if DeliverAll(Fresh(overlayOn, left), front).status == Running(x) {
      RunningOnlyIf(overlayOn, left, front, x);
      var i: nat :| i < |front| && SetRunning(overlayOn, left, front, i, x);
      StillRunning(overlayOn, left, ms, i, x);
    } else {
      LastMadeRunning(overlayOn, left, ms, x);
    }
  }

  lemma StillRunning(overlayOn: bool, left: Layers, ms: seq<Message>, i: nat, x: string)
    requires i < |ms| - 1 && SetRunning(overlayOn, left, Init(ms), i, x)
    requires DeliverAll(Fresh(overlayOn, left), ms).status == Running(x)
    ensures SetRunning(overlayOn, left, ms, i, x)
  {
    hide Deliver, DeliverAll, MakesRunning;
    var front := Init(ms);
    assert ms[i] == front[i];
    forall k | i <= k < |ms| ensures StatusAfter(overlayOn, left, ms, k) == Running(x) {
      if k < |front| {
        assert ms[..k + 1] == front[..k + 1] && StatusAfter(overlayOn, left, front, k) == Running(x);
      } else {
        assert ms[..k + 1] == ms;
      }
    }
  }

  lemma LastMadeRunning(overlayOn: bool, left: Layers, ms: seq<Message>, x: string)
    requires ms != [] && DeliverAll(Fresh(overlayOn, left), ms).status == Running(x)
    requires DeliverAll(Fresh(overlayOn, left), Init(ms)).status != Running(x)
    ensures SetRunning(overlayOn, left, ms, |ms| - 1, x)
  {
    hide Deliver, DeliverAll, MakesRunning;
    DeliverLast(Fresh(overlayOn, left), ms);
    BecomesRunning(DeliverAll(Fresh(overlayOn, left), Init(ms)), Last(ms), x);
    assert ms[..|ms|] == ms;
  }

  lemma NeverAtFirst(overlayOn: bool, left: Layers, ms: seq<Message>)
    requires DeliverAll(Fresh(overlayOn, left), ms).status.Running?
    ensures ms != []
  {
  }

  lemma BecomesRunning(a: Actor, m: Message, x: string)
    requires a.status != Running(x) && Deliver(a, m).status == Running(x)
    ensures MakesRunning(m, x)
  {
  }
}
