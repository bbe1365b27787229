/**
 * The layers mounted at a package's mount point (ssamd/src/mount.rs): mounting with rollback and an
 * idempotency gate, guarded unmounting, and the mount task of setup with its retry (ssamd/src/package.rs).
 * Every kernel operation may fail; the mount table is read faithfully.
 */
module MountStack {

  datatype Layer = Base | Overlay

  type Layers = seq<Layer>

  /** Outcomes of the steps of one mount. */
  datatype MountSteps = MountSteps(attach: bool, verity: bool, base: bool, overlay: bool, rollback: bool)

  /** Outcomes of the two unmount system calls. */
  datatype UnmountSteps = UnmountSteps(first: bool, second: bool)

  function Full(overlayOn: bool): Layers {
    if overlayOn then [Base, Overlay] else [Base]
  }

  /** Only a prefix of the full stack is ever mounted. */
  predicate Valid(overlayOn: bool, layers: Layers) {
    layers <= Full(overlayOn)
  }

  /******* One operation, as functions *******/

  function Pop(layers: Layers): Layers {
    if layers == [] then [] else layers[..|layers| - 1]
  }

  /** mount_device_with */
  function MountDevice(overlayOn: bool, layers: Layers, s: MountSteps): (Layers, bool) {
    if !s.base then (layers, false)
    else if overlayOn && !s.overlay then (if s.rollback then layers else layers + [Base], false)
    else (layers + Full(overlayOn), true)
  }

  /** mount_pkgfs */
  function Mount(overlayOn: bool, layers: Layers, s: MountSteps): (Layers, bool) {
    if layers != [] then (layers, true)
    else if !s.attach || !s.verity then (layers, false)
    else MountDevice(overlayOn, layers, s)
  }

  /** One guarded unmount: a no-op on an empty stack. */
  function GuardedPop(layers: Layers, ok: bool): (Layers, bool) {
    if layers == [] then (layers, true) else if ok then (Pop(layers), true) else (layers, false)
  }

  /** unmount_pkgfs */
  function Unmount(overlayOn: bool, layers: Layers, s: UnmountSteps): (Layers, bool) {
    var (l1, ok1) := if overlayOn then GuardedPop(layers, s.first) else (layers, true);
    if !ok1 then (l1, false) else GuardedPop(l1, s.second)
  }

  /** The mount task of setup: on failure unmount and try once more. */
  function SetupMount(
    overlayOn: bool, layers: Layers, m1: MountSteps, u: UnmountSteps, m2: MountSteps): (Layers, bool) {
    var (l1, ok1) := Mount(overlayOn, layers, m1);
    if ok1 then (l1, true)
    else
      var (l2, ok2) := Unmount(overlayOn, l1, u);
      if !ok2 then (l2, false) else Mount(overlayOn, l2, m2)
  }

  /******* The operations on a mount point *******/

  class MountPoint {
    const overlayOn: bool
    var layers: Layers

    constructor (overlayOn: bool)
      ensures this.overlayOn == overlayOn && layers == []
    {
      this.overlayOn, layers := overlayOn, [];
    }

    /** is_exact_mount on a faithful mount table. */
    predicate IsExactMount()
      reads this
    {
      layers != []
    }

    /** mount(2) stacks a layer on top. */
    method DoMount(layer: Layer, ok: bool) returns (mounted: bool)
      modifies this`layers
      ensures mounted == ok && layers == if ok then old(layers) + [layer] else old(layers)
    {
      if ok {
        layers := layers + [layer];
      }
      return ok;
    }

    /** umount(2) removes the top layer and fails if there is none. */
    method DoUnmount(ok: bool) returns (unmounted: bool)
      modifies this`layers
      ensures unmounted == (ok && old(layers) != [])
      ensures layers == if unmounted then Pop(old(layers)) else old(layers)
    {
      if !ok || layers == [] {
        return false;
      }
      layers := layers[..|layers| - 1];
      return true;
    }

    method MountDeviceWith(s: MountSteps) returns (ok: bool)
      modifies this`layers
      ensures (layers, ok) == MountDevice(overlayOn, old(layers), s)
    {
      var base := DoMount(Base, s.base);
      if !base {
        return false;
      }
      if overlayOn {
        var over := DoMount(Overlay, s.overlay);
        if !over {
          var rolledBack := DoUnmount(s.rollback);
          return false;
        }
        assert old(layers) + [Base] + [Overlay] == old(layers) + [Base, Overlay];
      }
      return true;
    }

    method MountPkgfs(s: MountSteps) returns (ok: bool)
      modifies this`layers
      ensures (layers, ok) == Mount(overlayOn, old(layers), s)
    {
      if IsExactMount() {
        return true;
      }
      if !s.attach || !s.verity {
        return false;
      }
      ok := MountDeviceWith(s);
    }

    method UnmountPkgfs(s: UnmountSteps) returns (ok: bool)
      modifies this`layers
      ensures (layers, ok) == Unmount(overlayOn, old(layers), s)
    {
      if overlayOn && IsExactMount() {
        var first := DoUnmount(s.first);
        if !first {
          return false;
        }
      }
      if IsExactMount() {
        var second := DoUnmount(s.second);
        if !second {
          return false;
        }
      }
      return true;
    }

    method SetupTask(m1: MountSteps, u: UnmountSteps, m2: MountSteps) returns (ok: bool)
      modifies this`layers
      ensures (layers, ok) == SetupMount(overlayOn, old(layers), m1, u, m2)
    {
      ok := MountPkgfs(m1);
      if !ok {
        ok := UnmountPkgfs(u);
        if ok {
          ok := MountPkgfs(m2);
        }
      }
    }
  }

  /******* What every run keeps *******/

  datatype Op =
    | DoMountPkgfs(s: MountSteps)
    | DoUnmountPkgfs(u: UnmountSteps)
    | DoSetup(m1: MountSteps, u1: UnmountSteps, m2: MountSteps)
    | DoCleanup(c: UnmountSteps)
    | DoTeardown(t: UnmountSteps)

  /** Cleanup and teardown end with an unmount; their executor and network steps only log failures. */
  function Apply(overlayOn: bool, layers: Layers, op: Op): (Layers, bool) {
    match op
    case DoMountPkgfs(s) => Mount(overlayOn, layers, s)
    case DoUnmountPkgfs(u) => Unmount(overlayOn, layers, u)
    case DoSetup(m1, u1, m2) => SetupMount(overlayOn, layers, m1, u1, m2)
    case DoCleanup(c) => Unmount(overlayOn, layers, c)
    case DoTeardown(t) => Unmount(overlayOn, layers, t)
  }

  /** The layers after ops, starting from what an earlier daemon left at the mount point. */
  function Run(overlayOn: bool, left: Layers, ops: seq<Op>): Layers {
    if ops == [] then left else Apply(overlayOn, Run(overlayOn, left, ops[..|ops| - 1]), ops[|ops| - 1]).0
  }

  predicate Unmounts(op: Op) {
    op.DoUnmountPkgfs? || op.DoCleanup? || op.DoTeardown?
  }

  lemma SmallStacks()
    ensures [] + [Base] == [Base] && [Base] + [Overlay] == [Base, Overlay] && [] + [Base, Overlay] == [Base, Overlay]
    ensures Pop([Base]) == [] && Pop([Base, Overlay]) == [Base]
  {
  }

  lemma ValidCases(overlayOn: bool, layers: Layers)
    ensures Valid(overlayOn, layers) <==> layers == [] || layers == [Base] || (overlayOn && layers == [Base, Overlay])
  {
    if Valid(overlayOn, layers) {
      assert layers == Full(overlayOn)[..|layers|];
      assert Full(overlayOn)[..1] == [Base] && Full(overlayOn)[..0] == [];
      assert [Base, Overlay][..2] == [Base, Overlay];
    }
  }

  lemma MountKeepsValid(overlayOn: bool, layers: Layers, s: MountSteps)
    requires Valid(overlayOn, layers)
    ensures Valid(overlayOn, Mount(overlayOn, layers, s).0)
    ensures Mount(overlayOn, layers, s).1 ==>
              (Mount(overlayOn, layers, s).0 == Full(overlayOn) <==> layers == [] || layers == Full(overlayOn))
  {
    ValidCases(overlayOn, layers);
    assert [] + [Base] == [Base] && [] + Full(overlayOn) == Full(overlayOn);
  }

  lemma UnmountKeepsValid(overlayOn: bool, layers: Layers, s: UnmountSteps)
    requires Valid(overlayOn, layers)
    ensures Valid(overlayOn, Unmount(overlayOn, layers, s).0)
    ensures Unmount(overlayOn, layers, s).1 ==> Unmount(overlayOn, layers, s).0 == []
    ensures Unmount(overlayOn, layers, s).0 <= layers
  {
    ValidCases(overlayOn, layers);
    assert Pop([Base]) == [] && Pop([Base, Overlay]) == [Base];
  }

  lemma SetupKeepsValid(overlayOn: bool, layers: Layers, m1: MountSteps, u: UnmountSteps, m2: MountSteps)
    requires Valid(overlayOn, layers)
    ensures Valid(overlayOn, SetupMount(overlayOn, layers, m1, u, m2).0)
    ensures SetupMount(overlayOn, layers, m1, u, m2).1 && !Mount(overlayOn, layers, m1).1 ==>
              SetupMount(overlayOn, layers, m1, u, m2).0 == Full(overlayOn)
    ensures SetupMount(overlayOn, layers, m1, u, m2).1 ==>
              SetupMount(overlayOn, layers, m1, u, m2).0 != []
  {
    var (l1, ok1) := Mount(overlayOn, layers, m1);
    MountKeepsValid(overlayOn, layers, m1);
    UnmountKeepsValid(overlayOn, l1, u);
    var (l2, ok2) := Unmount(overlayOn, l1, u);
    MountKeepsValid(overlayOn, l2, m2);
  }

  /**
   * Whatever part of the stack an earlier daemon left mounted, after any history of operations with any
   * failures the mounted layers are a prefix of the full stack.
   */
  lemma {:induction false} StackInvariant(overlayOn: bool, left: Layers, ops: seq<Op>)
    requires Valid(overlayOn, left)
    ensures Valid(overlayOn, Run(overlayOn, left, ops))
  {
    if ops != [] {
      var before := Run(overlayOn, left, ops[..|ops| - 1]);
      StackInvariant(overlayOn, left, ops[..|ops| - 1]);
      match ops[|ops| - 1]
      case DoMountPkgfs(s) => MountKeepsValid(overlayOn, before, s);
      case DoUnmountPkgfs(u) => UnmountKeepsValid(overlayOn, before, u);
      case DoSetup(m1, u1, m2) => SetupKeepsValid(overlayOn, before, m1, u1, m2);
      case DoCleanup(c) => UnmountKeepsValid(overlayOn, before, c);
      case DoTeardown(t) => UnmountKeepsValid(overlayOn, before, t);
    }
  }

  /** In any history, an unmounting operation that succeeds leaves nothing mounted. */
  lemma UnmountEmpties(overlayOn: bool, left: Layers, ops: seq<Op>, op: Op)
    requires Valid(overlayOn, left)
    requires Unmounts(op) && Apply(overlayOn, Run(overlayOn, left, ops), op).1
    ensures Apply(overlayOn, Run(overlayOn, left, ops), op).0 == []
  {
    StackInvariant(overlayOn, left, ops);
    var layers := Run(overlayOn, left, ops);
    match op
    case DoUnmountPkgfs(u) => UnmountKeepsValid(overlayOn, layers, u);
    case DoCleanup(c) => UnmountKeepsValid(overlayOn, layers, c);
    case DoTeardown(t) => UnmountKeepsValid(overlayOn, layers, t);
    case _ =>
  }

  /** On a stack of any height, a successful unmount empties it exactly when it is no higher than the full stack. */
  lemma UnmountEmptiesIff(overlayOn: bool, layers: Layers, s: UnmountSteps)
    requires Unmount(overlayOn, layers, s).1
    ensures Unmount(overlayOn, layers, s).0 == [] <==> |layers| <= |Full(overlayOn)|
  {
  }

  /**
   * A mount or setup that reports success leaves the complete stack, with one exception: the gate
   * took a base layer left without its overlay for a finished mount.
   */
  lemma SuccessIsCompleteIff(overlayOn: bool, left: Layers, ops: seq<Op>, op: Op)
    requires Valid(overlayOn, left)
    requires !Unmounts(op) && Apply(overlayOn, Run(overlayOn, left, ops), op).1
    ensures Apply(overlayOn, Run(overlayOn, left, ops), op).0 == Full(overlayOn) <==>
            !(overlayOn && Run(overlayOn, left, ops) == [Base])
  {
    StackInvariant(overlayOn, left, ops);
    var layers := Run(overlayOn, left, ops);
    ValidCases(overlayOn, layers);
    match op
    case DoMountPkgfs(s) => MountKeepsValid(overlayOn, layers, s);
    case DoSetup(m1, u1, m2) =>
      MountKeepsValid(overlayOn, layers, m1);
      SetupKeepsValid(overlayOn, layers, m1, u1, m2);
    case _ =>
  }

  /** The exception is reachable: the overlay fails and so does the rollback of the base. */
  lemma PartialStackReachable()
    ensures var failed := DoMountPkgfs(MountSteps(true, true, true, false, false));
            var again := DoMountPkgfs(MountSteps(true, true, true, true, true));
            && Run(true, [], [failed]) == [Base]
            && Apply(true, Run(true, [], [failed]), again) == ([Base], true)
  {
    var failed := DoMountPkgfs(MountSteps(true, true, true, false, false));
    assert [failed][..0] == [];
    assert Run(true, [], [failed]) == Apply(true, Run(true, [], []), failed).0;
  }

  /******* Exactly what each operation does *******/

  /** Every step of a mount succeeds. */
  predicate MountsFully(overlayOn: bool, s: MountSteps) {
    s.attach && s.verity && s.base && (overlayOn ==> s.overlay)
  }

  /** The overlay fails after the base was mounted, and so does taking the base down again. */
  predicate LeavesBase(overlayOn: bool, s: MountSteps) {
    s.attach && s.verity && s.base && overlayOn && !s.overlay && !s.rollback
  }

  /** A mount over something does nothing; over nothing it mounts everything, or at most the base remains. */
  lemma MountExactly(overlayOn: bool, layers: Layers, s: MountSteps)
    ensures layers != [] ==> Mount(overlayOn, layers, s) == (layers, true)
    ensures layers == [] ==>
              Mount(overlayOn, layers, s) ==
              if MountsFully(overlayOn, s) then (if overlayOn then [Base, Overlay] else [Base], true)
              else if LeavesBase(overlayOn, s) then ([Base], false)
              else ([], false)
  {
    SmallStacks();
  }

  /** An unmount takes down layer by layer until a step fails, and succeeds exactly when nothing is left. */
  lemma UnmountExactly(overlayOn: bool, layers: Layers, u: UnmountSteps)
    requires Valid(overlayOn, layers)
    ensures layers == [] ==> Unmount(overlayOn, layers, u) == ([], true)
    ensures layers == [Base] ==>
              Unmount(overlayOn, layers, u) ==
              if (if overlayOn then u.first else u.second) then ([], true) else ([Base], false)
    ensures layers == [Base, Overlay] ==>
              Unmount(overlayOn, layers, u) ==
              if !u.first then ([Base, Overlay], false) else if !u.second then ([Base], false) else ([], true)
  {
    ValidCases(overlayOn, layers);
    SmallStacks();
    assert !overlayOn ==> layers != [Base, Overlay];
  }

  /**
   * The mount task of setup succeeds exactly if something is mounted already, or the first mount succeeds, or
   * what it left can be taken down and the second one succeeds.
   */
  lemma SetupMountOkIff(overlayOn: bool, layers: Layers, m1: MountSteps, u: UnmountSteps, m2: MountSteps)
    requires Valid(overlayOn, layers)
    ensures SetupMount(overlayOn, layers, m1, u, m2).1 <==>
            || layers != [] || MountsFully(overlayOn, m1)
            || ((LeavesBase(overlayOn, m1) ==> u.first) && MountsFully(overlayOn, m2))
  {
    hide Mount, Unmount, Valid;
    ValidCases(overlayOn, []);
    ValidCases(overlayOn, [Base]);
    MountExactly(overlayOn, layers, m1);
    var l1 := Mount(overlayOn, layers, m1).0;
    MountKeepsValid(overlayOn, layers, m1);
    UnmountExactly(overlayOn, l1, u);
    MountExactly(overlayOn, Unmount(overlayOn, l1, u).0, m2);
  }
}
