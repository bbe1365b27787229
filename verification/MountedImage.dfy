/**
 * Which package image is mounted: the mount stack (ssamd/src/mount.rs) with the image each layer shows, over
 * the mounts of several packages that follow each other at one mount point.
 */
module MountedImage {
  import opened MountStack

  /** A layer and the package image it was mounted for. */
  datatype Shown<I> = Shown(layer: Layer, image: I)

  /** What the layer model keeps of it. */
  function Forget<I>(stack: seq<Shown<I>>): (layers: Layers)
    ensures |layers| == |stack|
  {
    seq(|stack|, i requires 0 <= i < |stack| => stack[i].layer)
  }

  function Show<I>(layers: Layers, image: I): (stack: seq<Shown<I>>)
    ensures |stack| == |layers|
  {
    seq(|layers|, i requires 0 <= i < |layers| => Shown(layers[i], image))
  }

  /** Every mounted layer shows this image. */
  predicate Only<I(==)>(stack: seq<Shown<I>>, image: I) {
    forall i :: 0 <= i < |stack| ==> stack[i].image == image
  }

  /******* The operations, with images *******/

  function ImageDevice<I>(overlayOn: bool, stack: seq<Shown<I>>, image: I, s: MountSteps): (seq<Shown<I>>, bool) {
    if !s.base then (stack, false)
    else if overlayOn && !s.overlay then (if s.rollback then stack else stack + Show([Base], image), false)
    else (stack + Show(Full(overlayOn), image), true)
  }

  /** mount_pkgfs of a package: the gate looks only at the mount point, not at what is mounted there. */
  function ImageMount<I>(overlayOn: bool, stack: seq<Shown<I>>, image: I, s: MountSteps): (seq<Shown<I>>, bool) {
    if stack != [] then (stack, true)
    else if !s.attach || !s.verity then (stack, false)
    else ImageDevice(overlayOn, stack, image, s)
  }

  function ImagePop<I>(stack: seq<Shown<I>>, ok: bool): (seq<Shown<I>>, bool) {
    if stack == [] then (stack, true) else if ok then (stack[..|stack| - 1], true) else (stack, false)
  }

  function ImageUnmount<I>(overlayOn: bool, stack: seq<Shown<I>>, u: UnmountSteps): (seq<Shown<I>>, bool) {
    var (s1, ok1) := if overlayOn then ImagePop(stack, u.first) else (stack, true);
    if !ok1 then (s1, false) else ImagePop(s1, u.second)
  }

  function ImageSetup<I>(
    overlayOn: bool, stack: seq<Shown<I>>, image: I, m1: MountSteps, u: UnmountSteps, m2: MountSteps)
    : (seq<Shown<I>>, bool)
  {
    var (s1, ok1) := ImageMount(overlayOn, stack, image, m1);
    if ok1 then (s1, true)
    else
      var (s2, ok2) := ImageUnmount(overlayOn, s1, u);
      if !ok2 then (s2, false) else ImageMount(overlayOn, s2, image, m2)
  }

  /** An operation by the package with this image. */
  datatype Act<I> = Act(image: I, op: Op)

  function ImageApply<I>(overlayOn: bool, stack: seq<Shown<I>>, act: Act<I>): (seq<Shown<I>>, bool) {
    match act.op
    case DoMountPkgfs(s) => ImageMount(overlayOn, stack, act.image, s)
    case DoUnmountPkgfs(u) => ImageUnmount(overlayOn, stack, u)
    case DoSetup(m1, u1, m2) => ImageSetup(overlayOn, stack, act.image, m1, u1, m2)
    case DoCleanup(c) => ImageUnmount(overlayOn, stack, c)
    case DoTeardown(t) => ImageUnmount(overlayOn, stack, t)
  }

  /** The stack after the operations of any packages, over what an earlier daemon left. */
  function ImageRun<I>(overlayOn: bool, left: seq<Shown<I>>, acts: seq<Act<I>>): seq<Shown<I>> {
    if acts == [] then left
    else ImageApply(overlayOn, ImageRun(overlayOn, left, acts[..|acts| - 1]), acts[|acts| - 1]).0
  }

  /******* It refines the mount stack *******/

  lemma ForgetShow<I>(stack: seq<Shown<I>>, layers: Layers, image: I)
    ensures Forget(stack + Show(layers, image)) == Forget(stack) + layers
  {
  }

  lemma MountForgets<I>(overlayOn: bool, stack: seq<Shown<I>>, image: I, s: MountSteps)
    ensures var (r, ok) := ImageMount(overlayOn, stack, image, s);
            (Forget(r), ok) == Mount(overlayOn, Forget(stack), s)
  {
    ForgetShow(stack, [Base], image);
    ForgetShow(stack, Full(overlayOn), image);
  }

  lemma UnmountForgets<I>(overlayOn: bool, stack: seq<Shown<I>>, u: UnmountSteps)
    ensures var (r, ok) := ImageUnmount(overlayOn, stack, u);
            (Forget(r), ok) == Unmount(overlayOn, Forget(stack), u)
  {
    PopForgets(stack, u.first);
    PopForgets(stack, u.second);
    PopForgets(ImagePop(stack, u.first).0, u.second);
  }

  lemma PopForgets<I>(stack: seq<Shown<I>>, ok: bool)
    ensures var (r, done) := ImagePop(stack, ok); (Forget(r), done) == GuardedPop(Forget(stack), ok)
  {
    if stack != [] {
      assert Forget(stack[..|stack| - 1]) == Forget(stack)[..|stack| - 1];
    }
  }

  /** Forgetting the images, every operation is the one on layers. */
  lemma ApplyForgets<I>(overlayOn: bool, stack: seq<Shown<I>>, act: Act<I>)
    ensures var (r, ok) := ImageApply(overlayOn, stack, act);
            (Forget(r), ok) == Apply(overlayOn, Forget(stack), act.op)
  {
    hide ImageMount, ImageUnmount, Mount, Unmount, Forget;
    match act.op
    case DoMountPkgfs(s) => MountForgets(overlayOn, stack, act.image, s);
    case DoUnmountPkgfs(u) => UnmountForgets(overlayOn, stack, u);
    case DoCleanup(c) => UnmountForgets(overlayOn, stack, c);
    case DoTeardown(t) => UnmountForgets(overlayOn, stack, t);
    case DoSetup(m1, u1, m2) =>
      var s1 := ImageMount(overlayOn, stack, act.image, m1).0;
      MountForgets(overlayOn, stack, act.image, m1);
      UnmountForgets(overlayOn, s1, u1);
      MountForgets(overlayOn, ImageUnmount(overlayOn, s1, u1).0, act.image, m2);
  }

  /******* Which image is mounted *******/

  /** One image at a time: all layers show the same. */
  predicate OneImage<I(==)>(stack: seq<Shown<I>>) {
    forall i, j :: 0 <= i < |stack| && 0 <= j < |stack| ==> stack[i].image == stack[j].image
  }

  lemma MountOneImage<I>(overlayOn: bool, stack: seq<Shown<I>>, image: I, s: MountSteps)
    ensures var (r, ok) := ImageMount(overlayOn, stack, image, s);
            (stack != [] ==> r == stack && ok) && (stack == [] ==> Only(r, image) && (ok ==> r != []))
  {
  }

  lemma UnmountPrefix<I>(overlayOn: bool, stack: seq<Shown<I>>, u: UnmountSteps)
    ensures ImageUnmount(overlayOn, stack, u).0 <= stack
  {
  }

  lemma SetupOneImage<I>(
    overlayOn: bool, stack: seq<Shown<I>>, image: I, m1: MountSteps, u: UnmountSteps, m2: MountSteps)
    ensures var (r, ok) := ImageSetup(overlayOn, stack, image, m1, u, m2);
            (stack != [] ==> r == stack && ok) && (stack == [] ==> Only(r, image) && (ok ==> r != []))
  {
    hide ImageMount, ImageUnmount;
    MountOneImage(overlayOn, stack, image, m1);
    var s1 := ImageMount(overlayOn, stack, image, m1).0;
    UnmountPrefix(overlayOn, s1, u);
    MountOneImage(overlayOn, ImageUnmount(overlayOn, s1, u).0, image, m2);
  }

  /** Whatever packages follow each other with whatever failures, no overlay ever lies over another image's base. */
  lemma {:induction false} OneImageAlways<I>(overlayOn: bool, left: seq<Shown<I>>, acts: seq<Act<I>>)
    requires OneImage(left)
    ensures OneImage(ImageRun(overlayOn, left, acts))
  {
    if acts != [] {
      var before := ImageRun(overlayOn, left, acts[..|acts| - 1]);
      var act := acts[|acts| - 1];
      OneImageAlways(overlayOn, left, acts[..|acts| - 1]);
      hide ImageMount, ImageUnmount, ImageSetup;
      match act.op
      case DoMountPkgfs(s) => MountOneImage(overlayOn, before, act.image, s);
      case DoSetup(m1, u1, m2) => SetupOneImage(overlayOn, before, act.image, m1, u1, m2);
      case DoUnmountPkgfs(u) => UnmountPrefix(overlayOn, before, u);
      case DoCleanup(c) => UnmountPrefix(overlayOn, before, c);
      case DoTeardown(t) => UnmountPrefix(overlayOn, before, t);
    }
  }

  /**
   * After a successful mount or setup of a package something is mounted, and it is the package's own image
   * exactly if nothing of another image was mounted there before.
   */
  lemma OwnImageIff<I>(overlayOn: bool, left: seq<Shown<I>>, history: seq<Act<I>>, act: Act<I>)
    requires !Unmounts(act.op) && ImageApply(overlayOn, ImageRun(overlayOn, left, history), act).1
    ensures var r := ImageApply(overlayOn, ImageRun(overlayOn, left, history), act).0;
            r != [] && (Only(r, act.image) <==> Only(ImageRun(overlayOn, left, history), act.image))
  {
    var before := ImageRun(overlayOn, left, history);
    hide ImageMount, ImageUnmount, ImageSetup, ImageRun;
    match act.op
    case DoMountPkgfs(s) => MountOneImage(overlayOn, before, act.image, s);
    case DoSetup(m1, u1, m2) => SetupOneImage(overlayOn, before, act.image, m1, u1, m2);
    case _ =>
  }

  /**
   * So after a successful unmount, cleanup or teardown the next successful mount or setup shows the right
   * image, whatever came before; a package that skips its unmount can leave the next one the wrong image.
   */
  lemma UnmountedThenOwn<I>(overlayOn: bool, left: seq<Shown<I>>, history: seq<Act<I>>, gone: Act<I>, act: Act<I>)
    requires Valid(overlayOn, Forget(ImageRun(overlayOn, left, history)))
    requires Unmounts(gone.op) && ImageApply(overlayOn, ImageRun(overlayOn, left, history), gone).1
    requires !Unmounts(act.op) && ImageApply(overlayOn, ImageRun(overlayOn, left, history + [gone]), act).1
    ensures Only(ImageApply(overlayOn, ImageRun(overlayOn, left, history + [gone]), act).0, act.image)
  {
    var before := ImageRun(overlayOn, left, history);
    var all := history + [gone];
    assert all[..|all| - 1] == history && all[|all| - 1] == gone;
    assert ImageRun(overlayOn, left, all) == ImageApply(overlayOn, before, gone).0;
    ApplyForgets(overlayOn, before, gone);
    hide ImageRun, ImageApply, Apply;
    UnmountsAll(overlayOn, Forget(before), gone.op);
    OwnImageIff(overlayOn, left, all, act);
  }

  lemma UnmountsAll(overlayOn: bool, layers: Layers, op: Op)
    requires Valid(overlayOn, layers) && Unmounts(op) && Apply(overlayOn, layers, op).1
    ensures Apply(overlayOn, layers, op).0 == []
  {
    hide Unmount;
    match op
    case DoUnmountPkgfs(u) => UnmountKeepsValid(overlayOn, layers, u);
    case DoCleanup(c) => UnmountKeepsValid(overlayOn, layers, c);
    case DoTeardown(t) => UnmountKeepsValid(overlayOn, layers, t);
    case _ =>
  }

  /** A leftover mount of another image is taken for the package's own by every mount and setup. */
  lemma WrongImageAccepted<I>(overlayOn: bool, other: I, act: Act<I>)
    requires other != act.image && !Unmounts(act.op)
    ensures var left := Show(Full(overlayOn), other);
            ImageApply(overlayOn, left, act) == (left, true) && !Only(left, act.image)
  {
    var left := Show(Full(overlayOn), other);
    assert left[0].image == other;
  }
}
