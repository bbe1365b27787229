/**
 * The package manager and the package state machine together: whether a remove or an upgrade touches files
 * while its package is mounted (ssamd/src/package_manager.rs, ssamd/src/package.rs).
 */
module MountedFiles {
  import opened MountStack
  import opened Lifecycle
  import InstallTransaction
  import PM = PackageManager
  import Proofs = PackageManagerProofs

  /** The package whose actor handled history, over what an earlier daemon left mounted. */
  function After(overlayOn: bool, left: Layers, history: seq<Message>): Actor {
    DeliverAll(Fresh(overlayOn, left), history)
  }

  /** The package is still mounted after its teardown or upgrade although that returned Ok. */
  predicate LeftMounted(overlayOn: bool, left: Layers, history: seq<Message>) {
    NeverSetUp(history) && Remaining(overlayOn, left, history) != []
  }

  /**
   * When a removal touches a file or the store of a live package, that package was torn down first: then
   * nothing is mounted for it, exactly unless the teardown was skipped for a package never set up over a
   * leftover mount. What is not mounted stays so unless a queued setup follows.
   */
  lemma RemoveTouchesMountedIff(
    cfg: PM.Config, st: PM.State, ra: PM.RemoveArgs, overlayOn: bool, left: Layers, history: seq<Message>,
    t: UnmountSteps, later: seq<Message>)
    requires PM.PathsNonEmpty(st) && ra.name in st.live && Valid(overlayOn, left)
    requires ra.teardownOk == PackageTeardown(After(overlayOn, left, history), t).1
    requires PM.HandleRemove(cfg, st, ra).0 != st
    ensures var torn := PackageTeardown(After(overlayOn, left, history), t).0;
            && (torn.layers != [] <==>
                  NothingToTearDown(After(overlayOn, left, history).status) && LeftMounted(overlayOn, left, history))
            && (torn.layers == [] && (forall i :: 0 <= i < |later| ==> !IsSetup(later[i])) ==>
                  DeliverAll(torn, later).layers == [])
  {
    var a := After(overlayOn, left, history);
    RemoveNeedsTeardown(cfg, st, ra);
    TeardownEmptiesIff(overlayOn, left, history, t);
    hide DeliverAll, NothingToTearDown, NeverSetUp;
    if PackageTeardown(a, t).0.layers == [] && forall i :: 0 <= i < |later| ==> !IsSetup(later[i]) {
      NoSetupStaysEmpty(PackageTeardown(a, t).0, later);
    }
  }

  lemma RemoveNeedsTeardown(cfg: PM.Config, st: PM.State, ra: PM.RemoveArgs)
    requires PM.PathsNonEmpty(st) && ra.name in st.live && PM.HandleRemove(cfg, st, ra).0 != st
    ensures ra.teardownOk
  {
    hide PM.RemoveFileAndRestore, PM.TryRecover;
  }

  /** An upgrade that touches a file has had its package unmounted for good, with the same exception only. */
  lemma UpgradeTouchesMountedIff(
    cfg: PM.Config, st: PM.State, ia: PM.InstallArgs, overlayOn: bool, left: Layers, history: seq<Message>, s: Steps)
    requires PM.PathsNonEmpty(st) && Proofs.Subject(st, Proofs.OpInstall(ia)) in st.live && Valid(overlayOn, left)
    requires ia.upgradeOk == TransitionTo(After(overlayOn, left, history), Upgrading, s).1
    requires PM.HandleInstall(cfg, st, ia).0.files != st.files
    ensures var a := TransitionTo(After(overlayOn, left, history), Upgrading, s).0;
            (forall later :: DeliverAll(a, later).layers == []) <==> !LeftMounted(overlayOn, left, history)
  {
    UpgradeNeedsRequest(cfg, st, ia);
    hide PM.HandleInstall, Proofs.Subject;
    UpgradeUnmountsForGoodIff(overlayOn, left, history, s);
  }

  lemma UpgradeNeedsRequest(cfg: PM.Config, st: PM.State, ia: PM.InstallArgs)
    requires PM.PathsNonEmpty(st) && Proofs.Subject(st, Proofs.OpInstall(ia)) in st.live
    requires PM.HandleInstall(cfg, st, ia).0.files != st.files
    ensures ia.upgradeOk
  {
    hide InstallTransaction.Install, PM.TryRecover;
  }
}
