/**
 * The package manager (ssamd/src/package_manager.rs) with its store (ssamd/src/package_manager/store.rs)
 * and directory parser (ssamd/src/package_manager/parser.rs): reload, install, upgrade, remove and
 * recovery over two package directories. The outcome of every fallible step is an argument.
 */
module PackageManager {
  import opened Wrappers
  import Paths
  import opened InstallTransaction

  /** Canonical directories, and the extension of package files. */
  datatype Config = Config(bundledDir: Path, downloadedDir: Path, ext: string)

  /** The store's three maps and the file system; built collects the paths handed to create_package. */
  datatype State = State(
    files: Files, live: map<string, Package>, broken: map<string, Path>, bundled: map<string, Path>, built: set<Path>)

  /******* Parsing *******/

  function Lower(c: char): char {
    if 'A' <= c <= 'Z' then ((c as int) + 32) as char else c
  }

  predicate EqIgnoreAsciiCase(a: string, b: string) {
    |a| == |b| && forall i :: 0 <= i < |a| ==> Lower(a[i]) == Lower(b[i])
  }

  /** Path::extension: what follows the last dot, if something precedes it. */
  function Extension(name: string): Option<string> {
    if name == "" then None
    else if Last(name) == '.' then (if |name| > 1 then Some("") else None)
    else match Extension(Init(name))
         case None => None
         case Some(e) => Some(e + [Last(name)])
  }

  /** The name test of is_package_file. */
  predicate IsPackageName(ext: string, name: string) {
    Extension(name).Some? && EqIgnoreAsciiCase(Extension(name).value, ext)
  }

  predicate IsPackageFile(cfg: Config, files: Files, p: Path) {
    p != [] && p in files && IsPackageName(cfg.ext, Last(p))
  }

  /** PackageParseResult: an unreadable or unverifiable file is named after the file. */
  datatype Parsed = Parsed(name: string, path: Path, image: Option<Image>)

  function Parse(files: Files, p: Path, readable: bool): Parsed
    requires p != []
  {
    if readable && p in files && files[p].Verified? then Parsed(files[p].name, p, Some(files[p]))
    else Parsed(Last(p), p, None)
  }

  /** The package files directly in dir, in the order the directory stream yields them. */
  function Listing(cfg: Config, files: Files, dir: Path, order: seq<Path>): (r: seq<Path>)
    ensures forall i :: 0 <= i < |r| ==> r[i] in order && r[i] != [] && r[i] in files && Init(r[i]) == dir
  {
    if order == [] then []
    else
      var p := Last(order);
      Listing(cfg, files, dir, Init(order)) +
      if IsPackageFile(cfg, files, p) && Init(p) == dir then [p] else []
  }

  function ParseAll(files: Files, ps: seq<Path>, readable: Path -> bool): (r: seq<Parsed>)
    requires forall i :: 0 <= i < |ps| ==> ps[i] != []
    ensures |r| == |ps| && forall i :: 0 <= i < |ps| ==> r[i] == Parse(files, ps[i], readable(ps[i]))
  {
    seq(|ps|, i requires 0 <= i < |ps| => Parse(files, ps[i], readable(ps[i])))
  }

  function Names(ps: seq<Parsed>): set<string> {
    set i | 0 <= i < |ps| :: ps[i].name
  }

  /******* Reload *******/

  /** The package can be created: it parsed, and building it succeeds. */
  predicate Creates(p: Parsed, builds: Path -> bool) {
    p.image.Some? && builds(p.path)
  }

  /** load_parsed_package: any failure degrades this one package to broken. */
  function LoadParsed(st: State, p: Parsed, builds: Path -> bool): State {
    var st1 := if p.image.Some? then st.(built := st.built + {p.path}) else st;
    if Creates(p, builds) then st1.(live := st1.live[p.name := Package(p.path, p.image.value)])
    else st1.(broken := st1.broken[p.name := p.path])
  }

  function LoadAll(st: State, ps: seq<Parsed>, builds: Path -> bool): State {
    if ps == [] then st else LoadParsed(LoadAll(st, Init(ps), builds), Last(ps), builds)
  }

  /** Phase 1 for one package: record the path; load it unless a downloaded package overrides it. */
  function LoadBundledOne(st: State, p: Parsed, overridden: set<string>, builds: Path -> bool): State {
    var st1 := st.(bundled := st.bundled[p.name := p.path]);
    if p.name in overridden then st1 else LoadParsed(st1, p, builds)
  }

  function LoadBundled(st: State, ps: seq<Parsed>, overridden: set<string>, builds: Path -> bool): State {
    if ps == [] then st else LoadBundledOne(LoadBundled(st, Init(ps), overridden, builds), Last(ps), overridden, builds)
  }

  function Cleared(st: State): State {
    State(st.files, map[], map[], map[], {})
  }

  /** The directory orders and the outcomes of reading and building during a reload. */
  datatype ReloadArgs = ReloadArgs(
    bundledOrder: seq<Path>, downloadedOrder: seq<Path>, readable: Path -> bool, builds: Path -> bool)

  function BundledParsed(cfg: Config, files: Files, a: ReloadArgs): seq<Parsed> {
    ParseAll(files, Listing(cfg, files, cfg.bundledDir, a.bundledOrder), a.readable)
  }

  function DownloadedParsed(cfg: Config, files: Files, a: ReloadArgs): seq<Parsed> {
    ParseAll(files, Listing(cfg, files, cfg.downloadedDir, a.downloadedOrder), a.readable)
  }

  /** reload_packages */
  function Reload(cfg: Config, st: State, a: ReloadArgs): State {
    var downloaded := DownloadedParsed(cfg, st.files, a);
    var phase1 := LoadBundled(Cleared(st), BundledParsed(cfg, st.files, a), Names(downloaded), a.builds);
    LoadAll(phase1, downloaded, a.builds)
  }

  /******* Recovery *******/

  /** try_recover: reparse and rebuild the package at path, or drop the name. */
  function TryRecover(st: State, name: string, path: Path, readable: bool, builds: bool): State
    requires path != []
  {
    var p := Parse(st.files, path, readable);
    if p.image.None? then st.(live := st.live - {name})
    else
      var st1 := st.(built := st.built + {path});
      if builds then st1.(live := st1.live[name := Package(path, p.image.value)])
      else st1.(live := st1.live - {name})
  }

  predicate IsBundled(cfg: Config, p: Path) {
    Parent(p) == Some(cfg.bundledDir)
  }

  /******* Install *******/

  datatype InstallArgs = InstallArgs(
    src: Path, force: bool, removeData: bool,
    exists_: bool, canonical: bool, readable: bool, volumeMeta: bool, upgradeOk: bool, steps: Steps,
    recoverReadable: bool, recoverBuilds: bool)

  datatype Outcome =
    | Done
    | FileNotFound | NotAPackageFile | InternalSource | Unparsable | NotNewer | InvalidName | NoVolumeMeta
    | UpgradeRefused | InstallFailed
    | UnknownPackage | SystemProvided | TeardownFailed | PurgeFailed | FileRemovalFailed

  function DestName(cfg: Config, name: string): string {
    name + "." + cfg.ext
  }

  function Dest(cfg: Config, name: string): Path {
    cfg.downloadedDir + [DestName(cfg, name)]
  }

  /** ensure_external_source */
  predicate External(cfg: Config, a: InstallArgs) {
    a.canonical && !(cfg.downloadedDir <= a.src) && !(cfg.bundledDir <= a.src)
  }

  /** prepare_install_package, after the file was parsed; None accepts. */
  function PrepareError(st: State, p: Parsed, a: InstallArgs): Option<Outcome> {
    if p.image.None? then Some(Unparsable)
    else if && p.name in st.live && p.image.value.Verified? && st.live[p.name].image.Verified?
            && p.image.value.version <= st.live[p.name].image.version && !a.force then Some(NotNewer)
    else if !Paths.IsSafePathSegment(p.name) then Some(InvalidName)
    else if !a.volumeMeta then Some(NoVolumeMeta)
    else None
  }

  function InstallMode(cfg: Config, installed: Path): Mode {
    if IsBundled(cfg, installed) then UpgradeBundled else UpgradeDownloaded(installed)
  }

  /** The part of handle_install_package after the package was accepted. */
  function InstallPrepared(cfg: Config, st: State, p: Parsed, a: InstallArgs): (State, Outcome)
    requires p.image.Some? && (p.name in st.live ==> st.live[p.name].path != [])
  {
    var st1 := st.(broken := st.broken - {DestName(cfg, p.name)});
    if p.name in st.live then
      var installed := st.live[p.name].path;
      if !a.upgradeOk then (st1, UpgradeRefused)
      else
        var (files, built) :=
          Install(st.files, a.src, p.image.value, Dest(cfg, p.name), a.removeData, InstallMode(cfg, installed),
                  a.steps);
        var st2 := st1.(files := files);
        if built.Some? then (st2.(live := st2.live[p.name := built.value]), Done)
        else (TryRecover(st2, p.name, installed, a.recoverReadable, a.recoverBuilds), InstallFailed)
    else
      var (files, built) := Install(st.files, a.src, p.image.value, Dest(cfg, p.name), false, Fresh, a.steps);
      var st2 := st1.(files := files);
      if built.Some? then (st2.(live := st2.live[p.name := built.value]), Done) else (st2, InstallFailed)
  }

  /** What the store guarantees about live paths: they name files. */
  predicate PathsNonEmpty(st: State) {
    && (forall n :: n in st.live ==> st.live[n].path != [])
    && (forall n :: n in st.bundled ==> st.bundled[n] != [])
    && (forall n :: n in st.broken ==> st.broken[n] != [])
  }

  /** handle_install_package */
  function HandleInstall(cfg: Config, st: State, a: InstallArgs): (State, Outcome)
    requires PathsNonEmpty(st)
  {
    if !a.exists_ || a.src == [] then (st, FileNotFound)
    else if !IsPackageFile(cfg, st.files, a.src) then (st, NotAPackageFile)
    else if !External(cfg, a) then (st, InternalSource)
    else
      var p := Parse(st.files, a.src, a.readable);
      match PrepareError(st, p, a)
      case Some(e) => (st, e)
      case None => InstallPrepared(cfg, st, p, a)
  }

  /******* Remove *******/

  datatype RemoveArgs = RemoveArgs(
    name: string, purge: bool, teardownOk: bool, purgeOk: bool, removeOk: bool, readable: bool, builds: bool)

  /** Removing the file of a package, then restoring the bundled version if there is one. */
  function RemoveFileAndRestore(st: State, path: Path, a: RemoveArgs): (State, Outcome)
    requires PathsNonEmpty(st)
  {
    var (files, removed) := RemoveIfExists(st.files, path, a.removeOk);
    var st1 := st.(files := files);
    if !removed then (st1, FileRemovalFailed)
    else if a.name in st.bundled then (TryRecover(st1, a.name, st.bundled[a.name], a.readable, a.builds), Done)
    else (st1, Done)
  }

  /** remove_package */
  function HandleRemove(cfg: Config, st: State, a: RemoveArgs): (State, Outcome)
    requires PathsNonEmpty(st)
  {
    if a.name in st.live then
      var path := st.live[a.name].path;
      if IsBundled(cfg, path) then (st, SystemProvided)
      else if !a.teardownOk then (st, TeardownFailed)
      else
        var st1 := st.(live := st.live - {a.name});
        if a.purge && !a.purgeOk then (TryRecover(st1, a.name, path, a.readable, a.builds), PurgeFailed)
        else RemoveFileAndRestore(st1, path, a)
    else if a.name in st.broken then
      var path := st.broken[a.name];
      if IsBundled(cfg, path) then (st, SystemProvided)
      else RemoveFileAndRestore(st.(broken := st.broken - {a.name}), path, a)
    else (st, UnknownPackage)
  }

  /******* The actor *******/

  class Manager {
    const cfg: Config
    const tx: TransactionActor
    var live: map<string, Package>
    var broken: map<string, Path>
    var bundled: map<string, Path>
    var built: set<Path>

    constructor (cfg: Config, tx: TransactionActor)
      ensures this.cfg == cfg && this.tx == tx
      ensures live == map[] && broken == map[] && bundled == map[] && built == {}
    {
      this.cfg, this.tx := cfg, tx;
      live, broken, bundled, built := map[], map[], map[], {};
    }

    ghost function Abs(): State
      reads this, tx
    {
      State(tx.files, live, broken, bundled, built)
    }

    method ClearAll()
      modifies this
      ensures Abs() == Cleared(old(Abs()))
    {
      live, broken, bundled, built := map[], map[], map[], {};
    }

    /** create_package as one step that may fail. */
    method CreatePackage(path: Path, image: Image, ok: bool) returns (r: Option<Package>)
      modifies this`built
      ensures built == old(built) + {path}
      ensures r == if ok then Some(Package(path, image)) else None
    {
      built := built + {path};
      return if ok then Some(Package(path, image)) else None;
    }

    method LoadParsedPackage(p: Parsed, ok: bool)
      modifies this
      ensures Abs() == LoadParsed(old(Abs()), p, _ => ok)
    {
      var created: Option<Package> := None;
      if p.image.Some? {
        created := CreatePackage(p.path, p.image.value, ok);
      }
      if created.Some? {
        live := live[p.name := created.value];
      } else {
        broken := broken[p.name := p.path];
      }
    }

    method ReloadPackages(a: ReloadArgs)
      modifies this
      ensures Abs() == Reload(cfg, old(Abs()), a)
    {
      ClearAll();
      var downloaded := DownloadedParsed(cfg, tx.files, a);
      var overridden := Names(downloaded);
      var bundledPackages := BundledParsed(cfg, tx.files, a);
      for i := 0 to |bundledPackages|
        invariant tx.files == old(tx.files)
        invariant Abs() == LoadBundled(Cleared(old(Abs())), bundledPackages[..i], overridden, a.builds)
      {
        var p := bundledPackages[i];
        assert Init(bundledPackages[..i + 1]) == bundledPackages[..i] && Last(bundledPackages[..i + 1]) == p;
        bundled := bundled[p.name := p.path];
        if p.name in overridden {
          continue;
        }
        LoadParsedPackage(p, a.builds(p.path));
      }
      assert bundledPackages[..|bundledPackages|] == bundledPackages;
      ghost var phase1 := Abs();
      for i := 0 to |downloaded|
        invariant tx.files == old(tx.files)
        invariant Abs() == LoadAll(phase1, downloaded[..i], a.builds)
      {
        var p := downloaded[i];
        assert Init(downloaded[..i + 1]) == downloaded[..i] && Last(downloaded[..i + 1]) == p;
        LoadParsedPackage(p, a.builds(p.path));
      }
      assert downloaded[..|downloaded|] == downloaded;
    }

    /** try_recover with recover_package. */
    method Recover(name: string, path: Path, readable: bool, builds: bool)
      requires path != []
      modifies this
      ensures Abs() == TryRecover(old(Abs()), name, path, readable, builds)
    {
      var parsed := Parse(tx.files, path, readable);
      var restored: Option<Package> := None;
      if parsed.image.Some? {
        restored := CreatePackage(path, parsed.image.value, builds);
      }
      if restored.Some? {
        live := live[name := restored.value];
      } else {
        live := live - {name};
      }
    }

    method InstallPackage(a: InstallArgs) returns (o: Outcome)
      requires PathsNonEmpty(Abs())
      modifies this, tx
      ensures (Abs(), o) == HandleInstall(cfg, old(Abs()), a)
    {
      if !a.exists_ || a.src == [] {
        return FileNotFound;
      }
      if !IsPackageFile(cfg, tx.files, a.src) {
        return NotAPackageFile;
      }
      if !External(cfg, a) {
        return InternalSource;
      }
      var p := Parse(tx.files, a.src, a.readable);
      if p.image.None? {
        return Unparsable;
      }
      if p.name in live && p.image.value.Verified? && live[p.name].image.Verified? {
        if p.image.value.version <= live[p.name].image.version && !a.force {
          return NotNewer;
        }
      }
      if !Paths.IsSafePathSegment(p.name) {
        return InvalidName;
      }
      if !a.volumeMeta {
        return NoVolumeMeta;
      }
      o := InstallAccepted(p, a);
    }

    method InstallAccepted(p: Parsed, a: InstallArgs) returns (o: Outcome)
      requires p.image.Some? && PathsNonEmpty(Abs())
      modifies this, tx
      ensures (Abs(), o) == InstallPrepared(cfg, old(Abs()), p, a)
    {
      var dest := Dest(cfg, p.name);
      broken := broken - {DestName(cfg, p.name)};
      if p.name in live {
        var installed := live[p.name].path;
        if !a.upgradeOk {
          return UpgradeRefused;
        }
        var mode := if IsBundled(cfg, installed) then UpgradeBundled else UpgradeDownloaded(installed);
        var package := tx.ExecuteInstall(a.src, p.image.value, dest, a.removeData, mode, a.steps);
        if package.Some? {
          live := live[p.name := package.value];
          return Done;
        }
        Recover(p.name, installed, a.recoverReadable, a.recoverBuilds);
        return InstallFailed;
      }
      var package := tx.ExecuteInstall(a.src, p.image.value, dest, false, Fresh, a.steps);
      if package.None? {
        return InstallFailed;
      }
      live := live[p.name := package.value];
      return Done;
    }

    /** The common end of both removal branches. */
    method RemoveAndRestore(path: Path, a: RemoveArgs) returns (o: Outcome)
      requires PathsNonEmpty(Abs())
      modifies this, tx
      ensures (Abs(), o) == RemoveFileAndRestore(old(Abs()), path, a)
    {
      var removed := tx.RemoveFileIfExists(path, a.removeOk);
      if !removed {
        return FileRemovalFailed;
      }
      if a.name in bundled {
        Recover(a.name, bundled[a.name], a.readable, a.builds);
      }
      return Done;
    }

    method RemovePackage(a: RemoveArgs) returns (o: Outcome)
      requires PathsNonEmpty(Abs())
      modifies this, tx
      ensures (Abs(), o) == HandleRemove(cfg, old(Abs()), a)
    {
      if a.name in live {
        var path := live[a.name].path;
        if IsBundled(cfg, path) {
          return SystemProvided;
        }
        if !a.teardownOk {
          return TeardownFailed;
        }
        live := live - {a.name};
        if a.purge && !a.purgeOk {
          Recover(a.name, path, a.readable, a.builds);
          return PurgeFailed;
        }
        o := RemoveAndRestore(path, a);
      } else if a.name in broken {
        var path := broken[a.name];
        if IsBundled(cfg, path) {
          return SystemProvided;
        }
        broken := broken - {a.name};
        o := RemoveAndRestore(path, a);
      } else {
        return UnknownPackage;
      }
    }
  }
}
