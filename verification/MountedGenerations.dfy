/**
 * One package after another at a mount point: the state machine of the package that is replaced, with the
 * image each mounted layer shows, and the first mount of the package that replaces it.
 */
module MountedGenerations {
  import opened Wrappers
  import opened MountStack
  import opened Lifecycle
  import opened MountedFiles
  import opened MountedImage

  /******* The mount operations of a history *******/

  /** What the actor does to the mount point when it handles a message. */
  function OpsOf(a: Actor, m: Message): seq<Op> {
    match m
    case GetStatus => []
    case Teardown(t) => [DoTeardown(t)]
    case Request(target, s) =>
      if target == a.status || !Applicable(a.status, target) || IgnoredWithoutError(a.status, target) then []
      else
        match target
        case SettingUp =>
          var setup := DoSetup(s.m1, s.u, s.m2);
          if SetupMount(a.overlayOn, a.layers, s.m1, s.u, s.m2).1 && s.otherOk then [setup]
          else [setup, DoCleanup(s.cleanup)]
        case CleaningUp => [DoCleanup(s.cleanup)]
        case Upgrading => if a.status == Verified then [] else [DoTeardown(s.teardown)]
        case _ => []
  }

  function OpsAll(a: Actor, ms: seq<Message>): seq<Op>
    decreases |ms|
  {
    if ms == [] then [] else OpsAll(a, Init(ms)) + OpsOf(DeliverAll(a, Init(ms)), Last(ms))
  }

  lemma OneOp(overlayOn: bool, left: Layers, ops: seq<Op>, op: Op)
    ensures MountStack.Run(overlayOn, left, ops + [op]) ==
            Apply(overlayOn, MountStack.Run(overlayOn, left, ops), op).0
  {
    var all := ops + [op];
    assert all[..|all| - 1] == ops && all[|all| - 1] == op;
  }

  /** Handling a message leaves the layers that its operations leave. */
  lemma OpsOfRun(overlayOn: bool, left: Layers, ops: seq<Op>, a: Actor, m: Message)
    requires a.overlayOn == overlayOn && a.layers == MountStack.Run(overlayOn, left, ops)
    ensures Deliver(a, m).layers == MountStack.Run(overlayOn, left, ops + OpsOf(a, m))
    ensures Deliver(a, m).overlayOn == overlayOn
  {
    hide MountStack.Run, SetupMount, Unmount, Applicable, IgnoredWithoutError;
    assert ops + [] == ops;
    match m
    case GetStatus =>
    case Teardown(t) => OneOp(overlayOn, left, ops, DoTeardown(t));
    case Request(target, s) =>
      OneOp(overlayOn, left, ops, DoCleanup(s.cleanup));
      OneOp(overlayOn, left, ops, DoTeardown(s.teardown));
      var setup := DoSetup(s.m1, s.u, s.m2);
      OneOp(overlayOn, left, ops, setup);
      OneOp(overlayOn, left, ops + [setup], DoCleanup(s.cleanup));
      assert ops + [setup] + [DoCleanup(s.cleanup)] == ops + [setup, DoCleanup(s.cleanup)];
  }

  /** The state machine is a history of the mount stack. */
  lemma {:induction false} OpsAllRun(overlayOn: bool, left: Layers, ms: seq<Message>)
    ensures var a := DeliverAll(Fresh(overlayOn, left), ms);
            && a.overlayOn == overlayOn
            && a.layers == MountStack.Run(overlayOn, left, OpsAll(Fresh(overlayOn, left), ms))
    decreases |ms|
  {
    hide Deliver, OpsOf;
    if ms != [] {
      var a := Fresh(overlayOn, left);
      OpsAllRun(overlayOn, left, Init(ms));
      OpsOfRun(overlayOn, left, OpsAll(a, Init(ms)), DeliverAll(a, Init(ms)), Last(ms));
    }
  }

  /******* The same with images *******/

  /** The operations, done by the package with this image. */
  function By<I>(image: I, ops: seq<Op>): (acts: seq<Act<I>>)
    ensures |acts| == |ops|
  {
    seq(|ops|, i requires 0 <= i < |ops| => Act(image, ops[i]))
  }

  /** No mounted layer shows this image. */
  predicate Without<I(==)>(stack: seq<Shown<I>>, image: I) {
    forall i :: 0 <= i < |stack| ==> stack[i].image != image
  }

  lemma {:induction false} RunForgets<I>(overlayOn: bool, left: seq<Shown<I>>, image: I, ops: seq<Op>)
    ensures Forget(ImageRun(overlayOn, left, By(image, ops))) == MountStack.Run(overlayOn, Forget(left), ops)
  {
    if ops != [] {
      var front := ops[..|ops| - 1];
      RunForgets(overlayOn, left, image, front);
      assert By(image, ops)[..|ops| - 1] == By(image, front);
      ApplyForgets(overlayOn, ImageRun(overlayOn, left, By(image, front)), Act(image, ops[|ops| - 1]));
      hide ImageApply, Apply, Forget;
    }
  }

  /** A package mounts no other image than its own. */
  lemma {:induction false} RunWithout<I>(overlayOn: bool, left: seq<Shown<I>>, image: I, ops: seq<Op>, other: I)
    requires Without(left, other) && image != other
    ensures Without(ImageRun(overlayOn, left, By(image, ops)), other)
  {
    if ops != [] {
      var front, op := ops[..|ops| - 1], ops[|ops| - 1];
      var before := ImageRun(overlayOn, left, By(image, front));
      RunWithout(overlayOn, left, image, front, other);
      assert By(image, ops)[..|ops| - 1] == By(image, front);
      hide ImageMount, ImageUnmount, ImageSetup;
      match op
      case DoMountPkgfs(s) => MountOneImage(overlayOn, before, image, s);
      case DoSetup(m1, u1, m2) => SetupOneImage(overlayOn, before, image, m1, u1, m2);
      case DoUnmountPkgfs(u) => UnmountPrefix(overlayOn, before, u);
      case DoCleanup(c) => UnmountPrefix(overlayOn, before, c);
      case DoTeardown(t) => UnmountPrefix(overlayOn, before, t);
    }
  }

  /** What the replaced package leaves mounted after its history and its upgrade request, with images. */
  function LeftBy<I>(overlayOn: bool, left: seq<Shown<I>>, image: I, history: seq<Message>, s: Steps)
    : seq<Shown<I>>
  {
    ImageRun(overlayOn, left,
             By(image, OpsAll(Fresh(overlayOn, Forget(left)), history + [Request(Upgrading, s)])))
  }

  lemma LeftByLayers<I>(overlayOn: bool, left: seq<Shown<I>>, image: I, history: seq<Message>, s: Steps)
    ensures Forget(LeftBy(overlayOn, left, image, history, s)) ==
            TransitionTo(DeliverAll(Fresh(overlayOn, Forget(left)), history), Upgrading, s).0.layers
  {
    var ms := history + [Request(Upgrading, s)];
    assert Init(ms) == history && Last(ms) == Request(Upgrading, s);
    DeliverLast(Fresh(overlayOn, Forget(left)), ms);
    hide DeliverAll, ImageRun, Forget, OpsAll, TransitionTo;
    OpsAllRun(overlayOn, Forget(left), ms);
    RunForgets(overlayOn, left, image, OpsAll(Fresh(overlayOn, Forget(left)), ms));
  }

  /**
   * After a successful upgrade request, whatever the replaced package did before and whatever failed, the
   * first successful setup of the replacing package shows its own image exactly if the replaced package was
   * not left mounted: it had been set up, or nothing an earlier daemon left was still there.
   */
  lemma ReplacementImageIff<I>(
    overlayOn: bool, left: seq<Shown<I>>, replaced: I, image: I, history: seq<Message>, s: Steps,
    m1: MountSteps, u: UnmountSteps, m2: MountSteps)
    requires Valid(overlayOn, Forget(left)) && Without(left, image) && replaced != image
    requires TransitionTo(DeliverAll(Fresh(overlayOn, Forget(left)), history), Upgrading, s).1
    requires ImageSetup(overlayOn, LeftBy(overlayOn, left, replaced, history, s), image, m1, u, m2).1
    ensures var r := ImageSetup(overlayOn, LeftBy(overlayOn, left, replaced, history, s), image, m1, u, m2).0;
            r != [] && (Only(r, image) <==> !LeftMounted(overlayOn, Forget(left), history))
  {
    var stack := LeftBy(overlayOn, left, replaced, history, s);
    var a := TransitionTo(DeliverAll(Fresh(overlayOn, Forget(left)), history), Upgrading, s).0;
    LeftByLayers(overlayOn, left, replaced, history, s);
    RunWithout(overlayOn, left, replaced,
               OpsAll(Fresh(overlayOn, Forget(left)), history + [Request(Upgrading, s)]), image);
    SetupOneImage(overlayOn, stack, image, m1, u, m2);
    hide ImageSetup, DeliverAll, TransitionTo, Valid, OpsAll, ImageRun, NeverSetUp;
    UpgradeUnmountsForGoodIff(overlayOn, Forget(left), history, s);
    DeliverNone(a);
    if a.layers == [] {
      forall later ensures DeliverAll(a, later).layers == [] {
        DeadStaysDead(a, later);
      }
    }
    assert stack == [] <==> a.layers == [];
    if stack != [] {
      assert stack[0].image != image;
    }
  }
}
