/**
 * Package file transactions (ssamd/src/package_manager/pkg_file.rs): installing a file with backup and
 * rollback, and removing one. Every step may fail.
 */
module InstallTransaction {
  import opened Wrappers

  /** A canonical absolute path by its components. */
  type Path = seq<string>

  /** What verifying a package file yields: its metadata, or nothing. */
  datatype Image = Verified(name: string, version: int, content: nat) | Unverifiable(content: nat)

  type Files = map<Path, Image>

  /** A package that was built from the file at path. */
  datatype Package = Package(path: Path, image: Image)

  function Parent(p: Path): Option<Path> {
    if p == [] then None else Some(Init(p))
  }

  /**
   * backup_path_of: the file name with ".old" appended. (Installed files always have an extension, for
   * which with_extension(ext + ".old") is exactly this.)
   */
  function BackupPath(p: Path): (b: Path)
    requires p != []
    ensures b != [] && b != p && Parent(b) == Parent(p)
  {
    var b := Init(p) + [Last(p) + ".old"];
    assert Init(b) == Init(p) && Last(b) != Last(p);
    b
  }

  datatype Mode = Fresh | UpgradeBundled | UpgradeDownloaded(installed: Path)

  /** Outcomes of the fallible steps. */
  datatype Steps = Steps(
    backup: bool, copy: bool, dataBackup: bool, acquire: bool, build: bool, rollback: bool, dropBackup: bool)

  /******* File operations *******/

  function Rename(files: Files, from: Path, to: Path, ok: bool): (Files, bool) {
    if ok && from in files then ((files - {from})[to := files[from]], true) else (files, false)
  }

  /** Copy through a temporary file and an atomic rename: the destination is never partly written. */
  function Copy(files: Files, from: Path, to: Path, ok: bool): (Files, bool) {
    if ok && from in files then (files[to := files[from]], true) else (files, false)
  }

  /** remove_file_if_exists: a missing file is not an error. */
  function RemoveIfExists(files: Files, p: Path, ok: bool): (Files, bool) {
    if p !in files then (files, true) else if ok then (files - {p}, true) else (files, false)
  }

  /** rollback_file_ops; the flag says whether it succeeded. */
  function Rollback(files: Files, mode: Mode, dest: Path, ok: bool): (Files, bool)
    requires mode.UpgradeDownloaded? ==> mode.installed != []
  {
    match mode
    case UpgradeDownloaded(installed) => Rename(files, BackupPath(installed), installed, ok)
    case _ => RemoveIfExists(files, dest, ok)
  }

  /** The state after the backup step, or None if it failed. */
  function Backup(files: Files, mode: Mode, ok: bool): Option<Files>
    requires mode.UpgradeDownloaded? ==> mode.installed != []
  {
    match mode
    case UpgradeDownloaded(installed) =>
      var (f, renamed) := Rename(files, installed, BackupPath(installed), ok);
      if renamed then Some(f) else None
    case _ => Some(files)
  }

  /** The first step after the copy that fails: backing up data, acquiring the volume, building the package. */
  predicate LateFailure(mode: Mode, removeData: bool, s: Steps) {
    (removeData && !mode.Fresh? && !s.dataBackup) || !s.acquire || !s.build
  }

  /** The part after the copy. */
  function AfterCopy(files: Files, image: Image, dest: Path, removeData: bool, mode: Mode, s: Steps)
    : (Files, Option<Package>)
    requires mode.UpgradeDownloaded? ==> mode.installed != []
  {
    if LateFailure(mode, removeData, s) then (Rollback(files, mode, dest, s.rollback).0, None)
    else if mode.UpgradeDownloaded? && s.dropBackup then
      (files - {BackupPath(mode.installed)}, Some(Package(dest, image)))
    else (files, Some(Package(dest, image)))
  }

  /** execute_install_inner: the files afterwards, and the installed package, built from the parsed image. */
  function Install(files: Files, src: Path, image: Image, dest: Path, removeData: bool, mode: Mode, s: Steps)
    : (Files, Option<Package>)
    requires mode.UpgradeDownloaded? ==> mode.installed != []
  {
    match Backup(files, mode, s.backup)
    case None => (files, None)
    case Some(f1) =>
      var (f2, copied) := Copy(f1, src, dest, s.copy);
      if copied then AfterCopy(f2, image, dest, removeData, mode, s)
      else (Rollback(f2, mode, dest, s.rollback).0, None)
  }

  /******* The transaction actor *******/

  class TransactionActor {
    var files: Files

    constructor (files: Files)
      ensures this.files == files
    {
      this.files := files;
    }

    method RenameFile(from: Path, to: Path, ok: bool) returns (done: bool)
      modifies this
      ensures (files, done) == Rename(old(files), from, to, ok)
    {
      done := ok && from in files;
      if done {
        files := (files - {from})[to := files[from]];
      }
    }

    method RemoveFileIfExists(p: Path, ok: bool) returns (done: bool)
      modifies this
      ensures (files, done) == RemoveIfExists(old(files), p, ok)
    {
      if p !in files {
        return true;
      }
      if ok {
        files := files - {p};
      }
      return ok;
    }

    method RollbackFileOps(mode: Mode, dest: Path, ok: bool) returns (done: bool)
      requires mode.UpgradeDownloaded? ==> mode.installed != []
      modifies this
      ensures (files, done) == Rollback(old(files), mode, dest, ok)
    {
      if mode.UpgradeDownloaded? {
        done := RenameFile(BackupPath(mode.installed), mode.installed, ok);
      } else {
        done := RemoveFileIfExists(dest, ok);
      }
    }

    /** copy_to_pkg_dir */
    method CopyToPkgDir(src: Path, dest: Path, ok: bool) returns (done: bool)
      modifies this
      ensures (files, done) == Copy(old(files), src, dest, ok)
    {
      done := ok && src in files;
      if done {
        files := files[dest := files[src]];
      }
    }

    method FinishInstall(image: Image, dest: Path, removeData: bool, mode: Mode, s: Steps) returns (r: Option<Package>)
      requires mode.UpgradeDownloaded? ==> mode.installed != []
      modifies this
      ensures (files, r) == AfterCopy(old(files), image, dest, removeData, mode, s)
    {
      hide Rollback, BackupPath;
      if removeData && (mode.UpgradeBundled? || mode.UpgradeDownloaded?) {
        if !s.dataBackup {
          var rolledBack := RollbackFileOps(mode, dest, s.rollback);
          return None;
        }
      }
      if !s.acquire {
        var rolledBack := RollbackFileOps(mode, dest, s.rollback);
        return None;
      }
      if s.build {
        if mode.UpgradeDownloaded? && s.dropBackup {
          files := files - {BackupPath(mode.installed)};
        }
        return Some(Package(dest, image));
      }
      var rolledBack := RollbackFileOps(mode, dest, s.rollback);
      return None;
    }

    /** execute_install_inner; image is what was parsed from the source before. */
    method ExecuteInstall(src: Path, image: Image, dest: Path, removeData: bool, mode: Mode, s: Steps)
      returns (r: Option<Package>)
      requires mode.UpgradeDownloaded? ==> mode.installed != []
      modifies this
      ensures (files, r) == Install(old(files), src, image, dest, removeData, mode, s)
    {
      hide Rename, Copy, Rollback, BackupPath, AfterCopy;
      if mode.UpgradeDownloaded? {
        var backedUp := RenameFile(mode.installed, BackupPath(mode.installed), s.backup);
        if !backedUp {
          BackupFailed(old(files), mode.installed);
          return None;
        }
      }
      var copied := CopyToPkgDir(src, dest, s.copy);
      if !copied {
        var rolledBack := RollbackFileOps(mode, dest, s.rollback);
        return None;
      }
      r := FinishInstall(image, dest, removeData, mode, s);
    }
  }

  /** A rename that fails changes nothing. */
  lemma BackupFailed(files: Files, installed: Path)
    requires installed != []
    ensures forall ok :: !Rename(files, installed, BackupPath(installed), ok).1 ==>
              Rename(files, installed, BackupPath(installed), ok).0 == files
  {
  }

  /******* What a transaction does to the files *******/

  /** Only the destination, the installed file and its backup can change. */
  lemma InstallFrame(files: Files, src: Path, image: Image, dest: Path, removeData: bool, mode: Mode, s: Steps, p: Path)
    requires mode.UpgradeDownloaded? ==> mode.installed != []
    requires p != dest && (mode.UpgradeDownloaded? ==> p != mode.installed && p != BackupPath(mode.installed))
    ensures var (f, r) := Install(files, src, image, dest, removeData, mode, s);
            (p in f <==> p in files) && (p in files ==> f[p] == files[p])
  {
  }

  /**
   * A successful install leaves the source image at the destination. An upgrade leaves no old file beside it,
   * but its backup stays exactly when removing it fails, which is only logged.
   */
  lemma InstallSucceeds(files: Files, src: Path, image: Image, dest: Path, removeData: bool, mode: Mode, s: Steps)
    requires mode.UpgradeDownloaded? ==>
      && mode.installed != [] && dest != BackupPath(mode.installed)
      && src != mode.installed && src != BackupPath(mode.installed)
    requires Install(files, src, image, dest, removeData, mode, s).1.Some?
    ensures var (f, r) := Install(files, src, image, dest, removeData, mode, s);
            && src in files && r == Some(Package(dest, image))
            && dest in f && f[dest] == files[src]
            && (mode.UpgradeDownloaded? && mode.installed != dest ==> mode.installed !in f)
            && (mode.UpgradeDownloaded? ==> (BackupPath(mode.installed) in f <==> !s.dropBackup))
  {
  }

  /** The install got as far as writing the destination. */
  predicate Copied(files: Files, src: Path, mode: Mode, s: Steps)
    requires mode.UpgradeDownloaded? ==> mode.installed != []
  {
    Backup(files, mode, s.backup).Some? && s.copy && src in Backup(files, mode, s.backup).value
  }

  /** The rollback ran and succeeded, or was not needed. */
  predicate RolledBack(files: Files, src: Path, dest: Path, mode: Mode, s: Steps)
    requires mode.UpgradeDownloaded? ==> mode.installed != []
  {
    match Backup(files, mode, s.backup)
    case None => true
    case Some(f1) => Rollback(Copy(f1, src, dest, s.copy).0, mode, dest, s.rollback).1
  }

  /** The image the copy writes: the source as it is after the backup. */
  function CopiedImage(files: Files, src: Path, mode: Mode, s: Steps): Image
    requires mode.UpgradeDownloaded? ==> mode.installed != []
    requires Copied(files, src, mode, s)
  {
    Backup(files, mode, s.backup).value[src]
  }

  /**
   * Nothing is lost by a failed install whose rollback succeeds. For an upgrade of a downloaded package:
   * the backup failed, or no older backup was there to be overwritten and then renamed away, and a
   * destination other than the installed file was not written, or not changed by it. For the others: no
   * file was at the destination, which the rollback deletes even if the copy itself failed.
   */
  predicate Undone(files: Files, src: Path, dest: Path, mode: Mode, s: Steps)
    requires mode.UpgradeDownloaded? ==> mode.installed != []
  {
    match mode
    case UpgradeDownloaded(installed) =>
      var b := BackupPath(installed);
      || Backup(files, mode, s.backup).None?
      || (&& b !in files
          && (Copied(files, src, mode, s) && dest != installed ==>
                var place := if dest == b then installed else dest;
                place in files && files[place] == CopiedImage(files, src, mode, s)))
    case _ => dest !in files
  }

  /** A failed install whose rollback succeeds restores every file exactly when the above holds. */
  lemma FailedInstallRestoresIff(
    files: Files, src: Path, image: Image, dest: Path, removeData: bool, mode: Mode, s: Steps)
    requires mode.UpgradeDownloaded? ==> mode.installed != []
    requires Install(files, src, image, dest, removeData, mode, s).1.None? && RolledBack(files, src, dest, mode, s)
    ensures Install(files, src, image, dest, removeData, mode, s).0 == files <==> Undone(files, src, dest, mode, s)
  {
    match mode
    case UpgradeDownloaded(installed) =>
      if Backup(files, mode, s.backup).Some? {
        RestoredUpgrade(files, src, image, dest, removeData, installed, s);
      }
    case _ =>
      assert Install(files, src, image, dest, removeData, mode, s).0 == files - {dest};
  }

  /** The files after a rolled-back upgrade, in one map expression. */
  function RestoredFiles(files: Files, src: Path, dest: Path, installed: Path, s: Steps): Files
    requires installed != [] && Backup(files, UpgradeDownloaded(installed), s.backup).Some?
  {
    var b := BackupPath(installed);
    if !Copied(files, src, UpgradeDownloaded(installed), s) || dest == installed then files - {b}
    else
      var place := if dest == b then installed else dest;
      (files - {b})[place := CopiedImage(files, src, UpgradeDownloaded(installed), s)]
  }

  lemma RestoredUpgrade(
    files: Files, src: Path, image: Image, dest: Path, removeData: bool, installed: Path, s: Steps)
    requires installed != []
    requires var mode := UpgradeDownloaded(installed);
             && Backup(files, mode, s.backup).Some?
             && Install(files, src, image, dest, removeData, mode, s).1.None? && RolledBack(files, src, dest, mode, s)
    ensures var mode := UpgradeDownloaded(installed);
            Install(files, src, image, dest, removeData, mode, s).0 == files <==> Undone(files, src, dest, mode, s)
  {
    RestoredIs(files, src, image, dest, removeData, installed, s);
    hide Install, BackupPath, RolledBack, Backup;
    RestoredIff(files, src, dest, installed, s);
  }

  lemma RestoredIs(files: Files, src: Path, image: Image, dest: Path, removeData: bool, installed: Path, s: Steps)
    requires installed != []
    requires var mode := UpgradeDownloaded(installed);
             && Backup(files, mode, s.backup).Some?
             && Install(files, src, image, dest, removeData, mode, s).1.None? && RolledBack(files, src, dest, mode, s)
    ensures Install(files, src, image, dest, removeData, UpgradeDownloaded(installed), s).0 ==
            RestoredFiles(files, src, dest, installed, s)
  {
    hide BackupPath;
  }

  lemma RestoredIff(files: Files, src: Path, dest: Path, installed: Path, s: Steps)
    requires installed != [] && Backup(files, UpgradeDownloaded(installed), s.backup).Some?
    ensures RestoredFiles(files, src, dest, installed, s) == files <==>
            Undone(files, src, dest, UpgradeDownloaded(installed), s)
  {
    hide BackupPath;
    var b := BackupPath(installed);
    assert b !in files ==> files - {b} == files;
  }

  /** A backup that an earlier upgrade could not remove is lost by the next upgrade that fails. */
  lemma StaleBackupLost(files: Files, src: Path, image: Image, dest: Path, removeData: bool, installed: Path, s: Steps)
    requires installed in files && installed != [] && BackupPath(installed) in files && s.backup
    requires var mode := UpgradeDownloaded(installed);
             Install(files, src, image, dest, removeData, mode, s).1.None? && RolledBack(files, src, dest, mode, s)
    ensures BackupPath(installed) !in Install(files, src, image, dest, removeData, UpgradeDownloaded(installed), s).0
  {
  }

  /******* Exactly what a transaction changes *******/

  /** The source is still readable after the backup, and all steps up to the built package succeed. */
  predicate Succeeds(files: Files, src: Path, mode: Mode, removeData: bool, s: Steps)
    requires mode.UpgradeDownloaded? ==> mode.installed != []
  {
    && (mode.UpgradeDownloaded? ==> s.backup && mode.installed in files && src != mode.installed)
    && (src in files || (mode.UpgradeDownloaded? && src == BackupPath(mode.installed)))
    && s.copy && s.acquire && s.build && (removeData && !mode.Fresh? ==> s.dataBackup)
  }

  /** An install of image at dest, from a source elsewhere, changes or removes the file at p. */
  predicate Clobbers(
    files: Files, src: Path, image: Image, dest: Path, mode: Mode, removeData: bool, s: Steps, p: Path)
    requires p in files && (mode.UpgradeDownloaded? ==> mode.installed != [])
  {
    var differs := files[p] != image;
    match mode
    case UpgradeDownloaded(installed) =>
      var b := BackupPath(installed);
      if !s.backup || installed !in files then false
      else
        var overBackup := p == b && files[b] != files[installed];
        if Succeeds(files, src, mode, removeData, s) then
          if p == dest then differs || (dest == b && s.dropBackup)
          else p == installed || (p == b && s.dropBackup) || overBackup
        else if s.rollback then
          p == b || (s.copy && differs && ((p == dest && dest != installed) || (p == installed && dest == b)))
        else if s.copy && p == dest then differs
        else p == installed || overBackup
    case _ =>
      if Succeeds(files, src, mode, removeData, s) then p == dest && differs
      else p == dest && (s.rollback || (s.copy && differs))
  }

  /** Clobbers is exact, for every combination of failures. */
  lemma ClobbersIff(
    files: Files, src: Path, image: Image, dest: Path, removeData: bool, mode: Mode, s: Steps, p: Path)
    requires mode.UpgradeDownloaded? ==>
      mode.installed != [] && src != mode.installed && src != BackupPath(mode.installed)
    requires src != dest && src in files && files[src] == image && p in files
    ensures var f := Install(files, src, image, dest, removeData, mode, s).0;
            Clobbers(files, src, image, dest, mode, removeData, s, p) <==> !(p in f && f[p] == files[p])
  {
    match mode
    case UpgradeDownloaded(installed) =>
      if s.backup && installed in files {
        ClobbersUpgrade(files, src, image, dest, removeData, installed, s, p);
      }
    case _ =>
  }

  lemma ClobbersUpgrade(
    files: Files, src: Path, image: Image, dest: Path, removeData: bool, installed: Path, s: Steps, p: Path)
    requires installed != [] && src != installed && src != BackupPath(installed)
    requires src != dest && src in files && files[src] == image && p in files
    requires s.backup && installed in files
    ensures var f := Install(files, src, image, dest, removeData, UpgradeDownloaded(installed), s).0;
            Clobbers(files, src, image, dest, UpgradeDownloaded(installed), removeData, s, p) <==>
            !(p in f && f[p] == files[p])
  {
    hide BackupPath;
    var b := BackupPath(installed);
    var mode := UpgradeDownloaded(installed);
    var f1 := (files - {installed})[b := files[installed]];
    assert Backup(files, mode, s.backup) == Some(f1);
    assert Succeeds(files, src, mode, removeData, s) <==> s.copy && !LateFailure(mode, removeData, s);
  }

  /** Whether a transaction succeeds can be told from the files before it and the outcomes of its steps. */
  lemma SucceedsIff(
    files: Files, src: Path, image: Image, dest: Path, removeData: bool, mode: Mode, s: Steps)
    requires mode.UpgradeDownloaded? ==> mode.installed != []
    ensures Install(files, src, image, dest, removeData, mode, s).1.Some? <==>
            Succeeds(files, src, mode, removeData, s)
  {
  }

  /** Even when the rollback fails, the old image survives: at its own path or at the backup path. */
  lemma OldImageSurvives(files: Files, src: Path, image: Image, dest: Path, removeData: bool, installed: Path, s: Steps)
    requires installed in files && installed != [] && dest != BackupPath(installed)
    requires Install(files, src, image, dest, removeData, UpgradeDownloaded(installed), s).1.None?
    ensures var f := Install(files, src, image, dest, removeData, UpgradeDownloaded(installed), s).0;
            || (installed in f && f[installed] == files[installed])
            || (BackupPath(installed) in f && f[BackupPath(installed)] == files[installed])
  {
  }
}
