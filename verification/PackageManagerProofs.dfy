/** What every run of the package manager keeps, and what a failed or successful change leaves behind. */
module PackageManagerProofs {
  import opened Wrappers
  import Paths
  import opened InstallTransaction
  import opened PackageManager

  /******* Runs *******/

  datatype Op = OpReload(reload: ReloadArgs) | OpInstall(install: InstallArgs) | OpRemove(remove: RemoveArgs)

  function Step(cfg: Config, st: State, op: Op): State
    requires PathsNonEmpty(st)
  {
    match op
    case OpReload(a) => Reload(cfg, st, a)
    case OpInstall(a) => HandleInstall(cfg, st, a).0
    case OpRemove(a) => HandleRemove(cfg, st, a).0
  }

  /** The daemon's state before its first reload. */
  function Initial(files: Files): State {
    State(files, map[], map[], map[], {})
  }

  predicate Within(cfg: Config, p: Path) {
    Parent(p) == Some(cfg.bundledDir) || Parent(p) == Some(cfg.downloadedDir)
  }

  /** Every path in the store lies directly in one of the two directories. */
  predicate Placed(cfg: Config, st: State) {
    && (forall n :: n in st.live ==> Within(cfg, st.live[n].path))
    && (forall n :: n in st.broken ==> Within(cfg, st.broken[n]))
    && (forall n :: n in st.bundled ==> Parent(st.bundled[n]) == Some(cfg.bundledDir))
  }

  /** The state after a sequence of operations, each with its own failures. */
  function Run(cfg: Config, st: State, ops: seq<Op>): (r: State)
    requires cfg.bundledDir != cfg.downloadedDir && Placed(cfg, st)
    ensures Placed(cfg, r)
  {
    if ops == [] then st
    else
      var before := Run(cfg, st, Init(ops));
      StepSafe(cfg, before, Last(ops));
      Step(cfg, before, Last(ops))
  }

  /******* Safety *******/

  /** Exactly the same files, with the same contents, directly in dir. */
  ghost predicate SameIn(dir: Path, f: Files, g: Files) {
    forall p :: Parent(p) == Some(dir) ==> (p in f <==> p in g) && (p in f ==> f[p] == g[p])
  }

  predicate AllWithin(cfg: Config, ps: seq<Parsed>) {
    forall i :: 0 <= i < |ps| ==> Within(cfg, ps[i].path)
  }

  lemma LoadParsedSafe(cfg: Config, st: State, p: Parsed, builds: Path -> bool)
    requires Placed(cfg, st) && Within(cfg, p.path)
    ensures var r := LoadParsed(st, p, builds); Placed(cfg, r) && r.files == st.files && r.bundled == st.bundled
  {
    hide Within;
  }

  lemma {:induction false} LoadAllSafe(cfg: Config, st: State, ps: seq<Parsed>, builds: Path -> bool)
    requires Placed(cfg, st) && AllWithin(cfg, ps)
    ensures var r := LoadAll(st, ps, builds); Placed(cfg, r) && r.files == st.files && r.bundled == st.bundled
  {
    hide LoadParsed, Placed, Within;
    if ps != [] {
      LoadAllSafe(cfg, st, Init(ps), builds);
      LoadParsedSafe(cfg, LoadAll(st, Init(ps), builds), Last(ps), builds);
    }
  }

  lemma LoadBundledOneSafe(cfg: Config, st: State, p: Parsed, overridden: set<string>, builds: Path -> bool)
    requires Placed(cfg, st) && Parent(p.path) == Some(cfg.bundledDir)
    ensures var r := LoadBundledOne(st, p, overridden, builds); Placed(cfg, r) && r.files == st.files
  {
    hide LoadParsed;
    var st1 := st.(bundled := st.bundled[p.name := p.path]);
    assert Placed(cfg, st1);
    LoadParsedSafe(cfg, st1, p, builds);
  }

  lemma {:induction false} LoadBundledSafe(
    cfg: Config, st: State, ps: seq<Parsed>, overridden: set<string>, builds: Path -> bool)
    requires Placed(cfg, st) && forall i :: 0 <= i < |ps| ==> Parent(ps[i].path) == Some(cfg.bundledDir)
    ensures var r := LoadBundled(st, ps, overridden, builds); Placed(cfg, r) && r.files == st.files
  {
    hide LoadBundledOne, Placed;
    if ps != [] {
      LoadBundledSafe(cfg, st, Init(ps), overridden, builds);
      LoadBundledOneSafe(cfg, LoadBundled(st, Init(ps), overridden, builds), Last(ps), overridden, builds);
    }
  }

  lemma ReloadSafe(cfg: Config, st: State, a: ReloadArgs)
    ensures Placed(cfg, Reload(cfg, st, a)) && Reload(cfg, st, a).files == st.files
  {
    var b := BundledParsed(cfg, st.files, a);
    var d := DownloadedParsed(cfg, st.files, a);
    LoadBundledSafe(cfg, Cleared(st), b, Names(d), a.builds);
    LoadAllSafe(cfg, LoadBundled(Cleared(st), b, Names(d), a.builds), d, a.builds);
  }

  /** The destination of an accepted name lies directly in the downloaded directory. */
  lemma DestPlaced(cfg: Config, name: string)
    ensures Dest(cfg, name) != [] && Parent(Dest(cfg, name)) == Some(cfg.downloadedDir)
    ensures Last(Dest(cfg, name)) == DestName(cfg, name)
  {
    assert Init(Dest(cfg, name)) == cfg.downloadedDir;
  }

  lemma DestInjective(cfg: Config, m: string, n: string)
    ensures Dest(cfg, m) == Dest(cfg, n) <==> m == n
  {
    DestPlaced(cfg, m);
    DestPlaced(cfg, n);
    var tail := "." + cfg.ext;
    assert DestName(cfg, m) == m + tail && DestName(cfg, n) == n + tail;
    if m + tail == n + tail {
      assert m == (m + tail)[..|m|] && n == (n + tail)[..|n|];
    }
  }

  /**
   * The destination of an accepted package is one plain component below the downloaded directory: as text,
   * the file name resolves to itself.
   */
  lemma DestConfined(cfg: Config, name: string)
    requires Paths.IsSafePathSegment(name) && '/' !in cfg.ext
    ensures Paths.Components(DestName(cfg, name)) == [Paths.Normal(DestName(cfg, name))]
    ensures Dest(cfg, name) == cfg.downloadedDir + [name + "." + cfg.ext]
    ensures Parent(Dest(cfg, name)) == Some(cfg.downloadedDir)
  {
    DestPlaced(cfg, name);
    Paths.SafeSegmentIff(name);
    var d := DestName(cfg, name);
    assert '/' !in name && |d| >= 2 && d[0] == name[0] && d[|name|] == '.';
    assert '/' !in d;
    assert name == d[..|name|] && d != "..";
    Paths.PlainName(d);
  }

  lemma InstalledPath(files: Files, src: Path, image: Image, dest: Path, removeData: bool, mode: Mode, s: Steps)
    requires mode.UpgradeDownloaded? ==> mode.installed != []
    ensures var r := Install(files, src, image, dest, removeData, mode, s).1;
            r.Some? ==> r.value == Package(dest, image)
  {
  }

  /******* The shape of a change *******/

  /** The name a change is about. */
  function Subject(st: State, op: Op): string
    requires !op.OpReload?
  {
    match op
    case OpInstall(a) => if a.src == [] then "" else Parse(st.files, a.src, a.readable).name
    case OpRemove(a) => a.name
  }

  /** The entry for n is exactly what the file system has now at path. */
  predicate LiveAsOnDisk(st: State, n: string, path: Path) {
    n in st.live && path in st.files && st.files[path].Verified? && st.live[n] == Package(path, st.files[path])
  }

  /** Only the live entry of n may change, to one at a path in paths; broken entries may go. */
  ghost predicate Changes(st: State, r: State, n: string, paths: set<Path>) {
    && r.bundled == st.bundled
    && (forall k :: k in r.broken ==> k in st.broken && r.broken[k] == st.broken[k])
    && (forall k :: k != n ==> (k in r.live <==> k in st.live) && (k in r.live ==> r.live[k] == st.live[k]))
    && (n in r.live ==> (n in st.live && r.live[n] == st.live[n]) || r.live[n].path in paths)
  }

  /** The paths a package's live entry may take in a change. */
  function Homes(cfg: Config, st: State, n: string): set<Path> {
    {Dest(cfg, n)} +
    (if n in st.live then {st.live[n].path} else {}) +
    (if n in st.bundled then {st.bundled[n]} else {})
  }

  lemma RecoverShape(st: State, n: string, path: Path, readable: bool, builds: bool)
    requires path != []
    ensures var r := TryRecover(st, n, path, readable, builds);
            && r.files == st.files && r.broken == st.broken && Changes(st, r, n, {path})
            && (n in r.live <==> readable && builds && path in st.files && st.files[path].Verified?)
            && (n in r.live ==> LiveAsOnDisk(r, n, path))
  {
  }

  lemma PreparedShape(cfg: Config, st: State, p: Parsed, a: InstallArgs)
    requires PathsNonEmpty(st) && p.image.Some?
    ensures Changes(st, InstallPrepared(cfg, st, p, a).0, p.name, Homes(cfg, st, p.name))
  {
    hide Install, TryRecover, Dest;
    var dest := Dest(cfg, p.name);
    if p.name in st.live {
      var mode := InstallMode(cfg, st.live[p.name].path);
      var files := Install(st.files, a.src, p.image.value, dest, a.removeData, mode, a.steps).0;
      InstalledPath(st.files, a.src, p.image.value, dest, a.removeData, mode, a.steps);
      var st2 := st.(broken := st.broken - {DestName(cfg, p.name)}, files := files);
      RecoverShape(st2, p.name, st.live[p.name].path, a.recoverReadable, a.recoverBuilds);
    } else {
      InstalledPath(st.files, a.src, p.image.value, dest, false, Fresh, a.steps);
    }
  }

  lemma InstallShape(cfg: Config, st: State, a: InstallArgs)
    requires PathsNonEmpty(st)
    ensures var n := Subject(st, OpInstall(a)); Changes(st, HandleInstall(cfg, st, a).0, n, Homes(cfg, st, n))
  {
    hide InstallPrepared, Homes;
    if a.src != [] {
      var p := Parse(st.files, a.src, a.readable);
      if p.image.Some? {
        PreparedShape(cfg, st, p, a);
      }
    }
  }

  lemma RestoreShape(cfg: Config, st: State, path: Path, a: RemoveArgs)
    requires PathsNonEmpty(st)
    ensures Changes(st, RemoveFileAndRestore(st, path, a).0, a.name, Homes(cfg, st, a.name))
  {
    hide TryRecover;
    var st1 := st.(files := RemoveIfExists(st.files, path, a.removeOk).0);
    if a.name in st.bundled {
      RecoverShape(st1, a.name, st.bundled[a.name], a.readable, a.builds);
    }
  }

  lemma RemoveShape(cfg: Config, st: State, a: RemoveArgs)
    requires PathsNonEmpty(st)
    ensures Changes(st, HandleRemove(cfg, st, a).0, a.name, Homes(cfg, st, a.name))
  {
    hide RemoveFileAndRestore, TryRecover, Dest;
    if a.name in st.live {
      var st1 := st.(live := st.live - {a.name});
      RestoreShape(cfg, st1, st.live[a.name].path, a);
      RecoverShape(st1, a.name, st.live[a.name].path, a.readable, a.builds);
    } else if a.name in st.broken {
      RestoreShape(cfg, st.(broken := st.broken - {a.name}), st.broken[a.name], a);
    }
  }

  lemma ChangeShape(cfg: Config, st: State, op: Op)
    requires PathsNonEmpty(st) && !op.OpReload?
    ensures var n := Subject(st, op); Changes(st, Step(cfg, st, op), n, Homes(cfg, st, n))
  {
    hide HandleInstall, HandleRemove, Homes;
    match op
    case OpInstall(a) => InstallShape(cfg, st, a);
    case OpRemove(a) => RemoveShape(cfg, st, a);
  }

  /** The files a change works on are not in the bundled directory. */
  lemma InstallFrozen(cfg: Config, st: State, a: InstallArgs)
    requires cfg.bundledDir != cfg.downloadedDir && Placed(cfg, st)
    ensures SameIn(cfg.bundledDir, st.files, HandleInstall(cfg, st, a).0.files)
  {
    hide InstallPrepared;
    if a.src != [] {
      var p := Parse(st.files, a.src, a.readable);
      if p.image.Some? {
        PreparedFrozen(cfg, st, p, a);
      }
    }
  }

  lemma PreparedFrozen(cfg: Config, st: State, p: Parsed, a: InstallArgs)
    requires cfg.bundledDir != cfg.downloadedDir && Placed(cfg, st) && p.image.Some?
    ensures SameIn(cfg.bundledDir, st.files, InstallPrepared(cfg, st, p, a).0.files)
  {
    hide Install, BackupPath, Dest;
    DestPlaced(cfg, p.name);
    var mode := if p.name in st.live then InstallMode(cfg, st.live[p.name].path) else Fresh;
    var removeData := p.name in st.live && a.removeData;
    forall q | Parent(q) == Some(cfg.bundledDir)
      ensures var f := Install(st.files, a.src, p.image.value, Dest(cfg, p.name), removeData, mode, a.steps).0;
              (q in st.files <==> q in f) && (q in st.files ==> st.files[q] == f[q])
    {
      if mode.UpgradeDownloaded? {
        assert Parent(BackupPath(mode.installed)) == Parent(mode.installed) == Some(cfg.downloadedDir);
      }
      InstallFrame(st.files, a.src, p.image.value, Dest(cfg, p.name), removeData, mode, a.steps, q);
    }
  }

  /** A removal deletes at most the package's own file, which is directly in the downloaded directory. */
  lemma RemoveFiles(cfg: Config, st: State, a: RemoveArgs)
    requires Placed(cfg, st)
    ensures var f := HandleRemove(cfg, st, a).0.files;
            || f == st.files
            || (&& (a.name in st.live || a.name in st.broken)
                && var path := if a.name in st.live then st.live[a.name].path else st.broken[a.name];
                   Parent(path) == Some(cfg.downloadedDir) && f == st.files - {path})
  {
    hide TryRecover;
    forall s: State, path, readable, builds | path != []
      ensures TryRecover(s, a.name, path, readable, builds).files == s.files
    {
      RecoverShape(s, a.name, path, readable, builds);
    }
  }

  lemma RemoveFrozen(cfg: Config, st: State, a: RemoveArgs)
    requires cfg.bundledDir != cfg.downloadedDir && Placed(cfg, st)
    ensures SameIn(cfg.bundledDir, st.files, HandleRemove(cfg, st, a).0.files)
  {
    hide HandleRemove;
    RemoveFiles(cfg, st, a);
  }

  lemma ShapePlaced(cfg: Config, st: State, r: State, n: string)
    requires Placed(cfg, st) && Changes(st, r, n, Homes(cfg, st, n))
    ensures Placed(cfg, r)
  {
    hide Dest;
    DestPlaced(cfg, n);
    forall k | k in r.live ensures Within(cfg, r.live[k].path) {
      if k != n {
        assert k in st.live && r.live[k] == st.live[k];
      }
    }
  }

  lemma ChangePlaced(cfg: Config, st: State, op: Op)
    requires Placed(cfg, st) && !op.OpReload?
    ensures Placed(cfg, Step(cfg, st, op))
  {
    ChangeShape(cfg, st, op);
    hide Step, Subject, Dest, Placed, Changes, Homes;
    ShapePlaced(cfg, st, Step(cfg, st, op), Subject(st, op));
  }

  /** One operation, with any of its steps failing. */
  lemma StepSafe(cfg: Config, st: State, op: Op)
    requires cfg.bundledDir != cfg.downloadedDir && Placed(cfg, st)
    ensures var r := Step(cfg, st, op); Placed(cfg, r) && SameIn(cfg.bundledDir, st.files, r.files)
  {
    match op
    case OpReload(a) => ReloadSafe(cfg, st, a);
    case OpInstall(a) =>
      InstallFrozen(cfg, st, a);
      ChangePlaced(cfg, st, op);
    case OpRemove(a) =>
      RemoveFrozen(cfg, st, a);
      ChangePlaced(cfg, st, op);
  }

  /** No run changes, adds or deletes a file in the bundled directory, and the store never points elsewhere. */
  lemma {:induction false} SafetyOfRuns(cfg: Config, st: State, ops: seq<Op>)
    requires cfg.bundledDir != cfg.downloadedDir && Placed(cfg, st)
    ensures SameIn(cfg.bundledDir, st.files, Run(cfg, st, ops).files)
    ensures Placed(cfg, Run(cfg, st, ops))
  {
    if ops != [] {
      SafetyOfRuns(cfg, st, Init(ops));
      StepSafe(cfg, Run(cfg, st, Init(ops)), Last(ops));
    }
  }

  /******* Where live packages come from *******/

  /** Every live entry is at its recorded bundled path or directly in the downloaded directory. */
  predicate Owned(cfg: Config, st: State) {
    forall n :: n in st.live ==>
      || Parent(st.live[n].path) == Some(cfg.downloadedDir)
      || (n in st.bundled && st.bundled[n] == st.live[n].path)
  }

  /** One file per name. */
  predicate OneEach(ps: seq<Parsed>) {
    forall i, j :: 0 <= i < |ps| && 0 <= j < |ps| && ps[i].name == ps[j].name ==> ps[i] == ps[j]
  }

  /** Every live name is among ps, at its recorded path, and every name in ps is recorded with its path. */
  predicate Recorded(r: State, ps: seq<Parsed>) {
    && (forall n :: n in r.live ==> n in r.bundled && r.bundled[n] == r.live[n].path && n in Names(ps))
    && (forall i :: 0 <= i < |ps| ==> ps[i].name in r.bundled && r.bundled[ps[i].name] == ps[i].path)
  }

  lemma LoadBundledOneOwned(st: State, ps: seq<Parsed>, overridden: set<string>, builds: Path -> bool)
    requires ps != [] && OneEach(ps) && Recorded(st, Init(ps))
    ensures Recorded(LoadBundledOne(st, Last(ps), overridden, builds), ps)
  {
    var r := LoadBundledOne(st, Last(ps), overridden, builds);
    var last := Last(ps);
    var front := Init(ps);
    assert last == ps[|ps| - 1] && forall i :: 0 <= i < |front| ==> front[i] == ps[i];
    forall i | 0 <= i < |ps| ensures ps[i].name in r.bundled && r.bundled[ps[i].name] == ps[i].path {
      if ps[i].name != last.name {
        assert ps[i] == front[i];
      }
    }
    forall n | n in r.live ensures n in r.bundled && r.bundled[n] == r.live[n].path && n in Names(ps) {
      if n in st.live {
        var i :| 0 <= i < |front| && front[i].name == n;
        assert ps[i].name == n;
      } else {
        assert n == last.name;
      }
    }
  }

  lemma {:induction false} LoadBundledOwned(
    st: State, ps: seq<Parsed>, overridden: set<string>, builds: Path -> bool)
    requires OneEach(ps) && st.live == map[]
    ensures Recorded(LoadBundled(st, ps, overridden, builds), ps)
  {
    hide LoadBundledOne, OneEach;
    if ps != [] {
      OneEachInit(ps);
      LoadBundledOwned(st, Init(ps), overridden, builds);
      hide Recorded;
      LoadBundledOneOwned(LoadBundled(st, Init(ps), overridden, builds), ps, overridden, builds);
    }
  }

  lemma OneEachInit(ps: seq<Parsed>)
    requires OneEach(ps) && ps != []
    ensures OneEach(Init(ps))
  {
    var front := Init(ps);
    assert forall i :: 0 <= i < |front| ==> front[i] == ps[i];
  }

  lemma {:induction false} LoadAllOwned(cfg: Config, st: State, ps: seq<Parsed>, builds: Path -> bool)
    requires Owned(cfg, st) && forall i :: 0 <= i < |ps| ==> Parent(ps[i].path) == Some(cfg.downloadedDir)
    ensures Owned(cfg, LoadAll(st, ps, builds)) && LoadAll(st, ps, builds).bundled == st.bundled
  {
    if ps != [] {
      LoadAllOwned(cfg, st, Init(ps), builds);
    }
  }

  lemma ReloadOwned(cfg: Config, st: State, a: ReloadArgs)
    requires OneEach(BundledParsed(cfg, st.files, a))
    ensures Owned(cfg, Reload(cfg, st, a))
  {
    var b := BundledParsed(cfg, st.files, a);
    var d := DownloadedParsed(cfg, st.files, a);
    LoadBundledOwned(Cleared(st), b, Names(d), a.builds);
    LoadAllOwned(cfg, LoadBundled(Cleared(st), b, Names(d), a.builds), d, a.builds);
  }

  lemma ShapeOwned(cfg: Config, st: State, r: State, n: string)
    requires Owned(cfg, st) && Changes(st, r, n, Homes(cfg, st, n))
    ensures Owned(cfg, r)
  {
    hide Dest;
    DestPlaced(cfg, n);
    forall k | k in r.live
      ensures Parent(r.live[k].path) == Some(cfg.downloadedDir) || (k in r.bundled && r.bundled[k] == r.live[k].path)
    {
      if k != n {
        assert k in st.live && r.live[k] == st.live[k];
      }
    }
  }

  lemma ChangeOwned(cfg: Config, st: State, op: Op)
    requires PathsNonEmpty(st) && Owned(cfg, st) && !op.OpReload?
    ensures Owned(cfg, Step(cfg, st, op))
  {
    ChangeShape(cfg, st, op);
    hide Step, Subject, Dest, Owned, Changes, Homes;
    ShapeOwned(cfg, st, Step(cfg, st, op), Subject(st, op));
  }

  /** What the bundled directory parses to depends only on its own files. */
  lemma {:induction false} ListingFrozen(cfg: Config, f: Files, g: Files, dir: Path, order: seq<Path>)
    requires SameIn(dir, f, g)
    ensures Listing(cfg, f, dir, order) == Listing(cfg, g, dir, order)
  {
    if order != [] {
      ListingFrozen(cfg, f, g, dir, Init(order));
    }
  }

  lemma BundledParsedFrozen(cfg: Config, f: Files, g: Files, a: ReloadArgs)
    requires SameIn(cfg.bundledDir, f, g)
    ensures BundledParsed(cfg, f, a) == BundledParsed(cfg, g, a)
  {
    ListingFrozen(cfg, f, g, cfg.bundledDir, a.bundledOrder);
  }

  /** With one bundled file per name, as the files were at the start, every live entry of every run is owned. */
  lemma {:induction false} LiveEntriesOwned(cfg: Config, st: State, ops: seq<Op>)
    requires cfg.bundledDir != cfg.downloadedDir && Placed(cfg, st) && Owned(cfg, st)
    requires forall i :: 0 <= i < |ops| && ops[i].OpReload? ==> OneEach(BundledParsed(cfg, st.files, ops[i].reload))
    ensures Owned(cfg, Run(cfg, st, ops))
  {
    if ops != [] {
      var front, op := Init(ops), Last(ops);
      assert forall i :: 0 <= i < |front| ==> front[i] == ops[i];
      assert op == ops[|ops| - 1];
      LiveEntriesOwned(cfg, st, front);
      SafetyOfRuns(cfg, st, front);
      var before := Run(cfg, st, front);
      match op
      case OpReload(a) =>
        BundledParsedFrozen(cfg, st.files, before.files, a);
        ReloadOwned(cfg, before, a);
      case _ => ChangeOwned(cfg, before, op);
    }
  }

  /******* File names of packages *******/

  lemma {:induction false} ExtensionOf(a: string, e: string)
    requires '.' !in e
    ensures Extension(a + "." + e) == if a == "" then None else Some(e)
  {
    var s := a + "." + e;
    if e == "" {
      assert Last(s) == '.';
    } else {
      assert Last(s) == Last(e) && Init(s) == a + "." + Init(e);
      assert Last(e) in e && forall c :: c in Init(e) ==> c in e;
      ExtensionOf(a, Init(e));
      assert e == Init(e) + [Last(e)];
    }
  }

  lemma {:induction false} ExtensionStem(name: string) returns (stem: string)
    requires Extension(name).Some?
    ensures stem != "" && '.' !in Extension(name).value && name == stem + "." + Extension(name).value
  {
    if Last(name) == '.' {
      stem := Init(name);
    } else {
      stem := ExtensionStem(Init(name));
    }
    assert name == Init(name) + [Last(name)];
  }

  function UpperAscii(s: string): (r: string)
    ensures |r| == |s|
  {
    seq(|s|, i requires 0 <= i < |s| => if 'a' <= s[i] <= 'z' then ((s[i] as int) - 32) as char else s[i])
  }

  /**
   * A package file name is something before a dot, and behind it the configured extension, in any case, with
   * no further dot.
   */
  lemma PackageNameIff(ext: string, name: string)
    ensures IsPackageName(ext, name) <==>
            exists stem: string, e: string ::
              stem != "" && name == stem + "." + e && '.' !in e && EqIgnoreAsciiCase(e, ext)
    ensures '.' !in ext && name != "" ==>
              IsPackageName(ext, name + "." + ext) && IsPackageName(ext, name + "." + UpperAscii(ext))
  {
    if IsPackageName(ext, name) {
      var stem := ExtensionStem(name);
    }
    if stem: string, e: string :|
      stem != "" && name == stem + "." + e && '.' !in e && EqIgnoreAsciiCase(e, ext)
    {
      ExtensionOf(stem, e);
    }
    if '.' !in ext && name != "" {
      ExtensionOf(name, ext);
      var upper := UpperAscii(ext);
      assert forall i :: 0 <= i < |ext| ==> upper[i] != '.';
      ExtensionOf(name, upper);
    }
  }

  /** Only letters differ in case: ASCII case is ignored, and nothing else. */
  lemma CaseIff(a: string, b: string)
    ensures EqIgnoreAsciiCase(a, b) <==> UpperAscii(a) == UpperAscii(b)
  {
    var x, y := UpperAscii(a), UpperAscii(b);
    if |a| == |b| {
      forall i | 0 <= i < |a| ensures Lower(a[i]) == Lower(b[i]) <==> x[i] == y[i] {
      }
    }
  }

  /******* Which installs are carried out *******/

  function ModeFor(cfg: Config, st: State, n: string): Mode {
    if n !in st.live then Fresh
    else if Parent(st.live[n].path) == Some(cfg.bundledDir) then UpgradeBundled
    else UpgradeDownloaded(st.live[n].path)
  }

  /** The source exists, and its name has the package extension. */
  predicate IsPackage(cfg: Config, st: State, a: InstallArgs) {
    a.exists_ && a.src != [] && a.src in st.files && IsPackageName(cfg.ext, Last(a.src))
  }

  /** It lies outside both package directories. */
  predicate Outside(cfg: Config, a: InstallArgs) {
    a.canonical && !(cfg.downloadedDir <= a.src) && !(cfg.bundledDir <= a.src)
  }

  predicate ParsesHere(st: State, a: InstallArgs) {
    a.readable && a.src in st.files && st.files[a.src].Verified?
  }

  /** A live package of that name is older, or the install is forced. */
  predicate NewEnough(st: State, a: InstallArgs)
    requires ParsesHere(st, a)
  {
    var image := st.files[a.src];
    image.name in st.live && st.live[image.name].image.Verified? ==>
      a.force || st.live[image.name].image.version < image.version
  }

  predicate SafeName(name: string) {
    && name != "" && name != "." && name != ".."
    && '/' !in name && '\0' !in name && ',' !in name && '\\' !in name
  }

  /** The request passes every check before the transaction. */
  predicate Reaches(cfg: Config, st: State, a: InstallArgs) {
    && IsPackage(cfg, st, a) && Outside(cfg, a) && ParsesHere(st, a) && NewEnough(st, a)
    && SafeName(st.files[a.src].name) && a.volumeMeta && (st.files[a.src].name in st.live ==> a.upgradeOk)
  }

  /** It also gets through the transaction. */
  predicate WillInstall(cfg: Config, st: State, a: InstallArgs)
    requires PathsNonEmpty(st)
  {
    && Reaches(cfg, st, a)
    && var n := st.files[a.src].name;
       Succeeds(st.files, a.src, ModeFor(cfg, st, n), n in st.live && a.removeData, a.steps)
  }

  /** Each refusal comes exactly if its own check is the first to fail; only then the transaction is reached. */
  lemma RefusalsIff(cfg: Config, st: State, a: InstallArgs)
    requires PathsNonEmpty(st)
    ensures var o := HandleInstall(cfg, st, a).1;
            var here := IsPackage(cfg, st, a);
            && (o == FileNotFound <==> !a.exists_ || a.src == [])
            && (o == NotAPackageFile <==> a.exists_ && a.src != [] && !here)
            && (o == InternalSource <==> here && !Outside(cfg, a))
            && (o == Unparsable <==> here && Outside(cfg, a) && !ParsesHere(st, a))
            && (o == NotNewer <==> here && Outside(cfg, a) && ParsesHere(st, a) && !NewEnough(st, a))
            && (o == InvalidName <==>
                  here && Outside(cfg, a) && ParsesHere(st, a) && NewEnough(st, a) && !SafeName(st.files[a.src].name))
            && (o == NoVolumeMeta <==>
                  && here && Outside(cfg, a) && ParsesHere(st, a) && NewEnough(st, a)
                  && SafeName(st.files[a.src].name) && !a.volumeMeta)
            && (o == UpgradeRefused <==>
                  && here && Outside(cfg, a) && ParsesHere(st, a) && NewEnough(st, a)
                  && SafeName(st.files[a.src].name) && a.volumeMeta
                  && st.files[a.src].name in st.live && !a.upgradeOk)
            && (o in {Done, InstallFailed} <==> Reaches(cfg, st, a))
  {
    hide InstallPrepared, IsPackageName, Paths.IsSafePathSegment;
    if a.src != [] {
      var p := Parse(st.files, a.src, a.readable);
      if p.image.Some? {
        Paths.SafeSegmentIff(p.name);
        PreparedOutcomes(cfg, st, p, a);
      }
    }
  }

  lemma PreparedOutcomes(cfg: Config, st: State, p: Parsed, a: InstallArgs)
    requires PathsNonEmpty(st) && p.image.Some?
    ensures var o := InstallPrepared(cfg, st, p, a).1;
            && o in {Done, InstallFailed, UpgradeRefused}
            && (o == UpgradeRefused <==> p.name in st.live && !a.upgradeOk)
  {
    hide Install, TryRecover, Dest;
  }

  lemma ReachesIff(cfg: Config, st: State, a: InstallArgs)
    requires PathsNonEmpty(st)
    ensures HandleInstall(cfg, st, a).1 in {Done, InstallFailed} <==> Reaches(cfg, st, a)
  {
    hide HandleInstall, Reaches;
    RefusalsIff(cfg, st, a);
  }

  /** Whether an install succeeds can be told before it, for every request, state and outcome of its steps. */
  lemma DoneIff(cfg: Config, st: State, a: InstallArgs)
    requires PathsNonEmpty(st)
    ensures HandleInstall(cfg, st, a).1 == Done <==> WillInstall(cfg, st, a)
  {
    ReachesIff(cfg, st, a);
    InstallUnfolds(cfg, st, a);
    hide HandleInstall, InstallPrepared, IsPackageName;
    if Reaches(cfg, st, a) {
      var p := Parse(st.files, a.src, a.readable);
      PreparedDoneIff(cfg, st, p, a);
    }
  }

  lemma PreparedDoneIff(cfg: Config, st: State, p: Parsed, a: InstallArgs)
    requires PathsNonEmpty(st) && p.image.Some? && (p.name in st.live ==> a.upgradeOk)
    ensures InstallPrepared(cfg, st, p, a).1 == Done <==>
            Succeeds(st.files, a.src, ModeFor(cfg, st, p.name), p.name in st.live && a.removeData, a.steps)
  {
    hide Install, TryRecover, Dest, Succeeds;
    SucceedsIff(st.files, a.src, p.image.value, Dest(cfg, p.name), p.name in st.live && a.removeData,
                ModeFor(cfg, st, p.name), a.steps);
  }

  /******* What one change leaves behind *******/

  function OutcomeOf(cfg: Config, st: State, op: Op): Outcome
    requires PathsNonEmpty(st) && !op.OpReload?
  {
    match op
    case OpInstall(a) => HandleInstall(cfg, st, a).1
    case OpRemove(a) => HandleRemove(cfg, st, a).1
  }

  /** A change never touches the live entry of another package. */
  lemma OthersUntouched(cfg: Config, st: State, op: Op)
    requires PathsNonEmpty(st) && !op.OpReload?
    ensures Step(cfg, st, op).live - {Subject(st, op)} == st.live - {Subject(st, op)}
    ensures Step(cfg, st, op).bundled == st.bundled
  {
    ChangeShape(cfg, st, op);
    hide Step, Subject;
  }

  /** Recovering n at path succeeds on these files. */
  predicate Recoverable(files: Files, path: Path, readable: bool, builds: bool) {
    readable && builds && path in files && files[path].Verified?
  }

  lemma FailedPrepared(cfg: Config, st: State, p: Parsed, a: InstallArgs)
    requires PathsNonEmpty(st) && p.image.Some?
    ensures var (r, o) := InstallPrepared(cfg, st, p, a);
            && o in {Done, InstallFailed, UpgradeRefused}
            && r.bundled == st.bundled && r.broken == st.broken - {p.name + "." + cfg.ext}
            && (o == UpgradeRefused ==> r.live == st.live && r.files == st.files)
            && (o == InstallFailed && p.name !in st.live ==> r.live == st.live)
            && (o == InstallFailed && p.name in st.live ==>
                  var path := st.live[p.name].path;
                  && (p.name in r.live <==> Recoverable(r.files, path, a.recoverReadable, a.recoverBuilds))
                  && (p.name in r.live ==> LiveAsOnDisk(r, p.name, path)))
  {
    hide Install, Dest;
  }

  /**
   * After an install whose transaction failed, the name is live exactly when it was before and the file at
   * its old path still reads and builds; then it is what that file now holds.
   */
  lemma FailedInstall(cfg: Config, st: State, a: InstallArgs)
    requires PathsNonEmpty(st) && HandleInstall(cfg, st, a).1 == InstallFailed
    ensures var r, n := HandleInstall(cfg, st, a).0, Subject(st, OpInstall(a));
            && r.broken == st.broken - {n + "." + cfg.ext} && r.bundled == st.bundled
            && (n in r.live <==>
                  n in st.live && Recoverable(r.files, st.live[n].path, a.recoverReadable, a.recoverBuilds))
            && (n in r.live ==> LiveAsOnDisk(r, n, st.live[n].path))
  {
    var p := Parse(st.files, a.src, a.readable);
    if p.image.Some? {
      FailedPrepared(cfg, st, p, a);
    }
    hide InstallPrepared, LiveAsOnDisk, Recoverable;
  }

  /** After a failed purge all files are as they were, and the name is live exactly when its file reads and builds. */
  lemma FailedPurge(cfg: Config, st: State, a: RemoveArgs)
    requires PathsNonEmpty(st) && HandleRemove(cfg, st, a).1 == PurgeFailed
    ensures var r, n := HandleRemove(cfg, st, a).0, a.name;
            && r.files == st.files && r.broken == st.broken && n in st.live
            && (n in r.live <==> Recoverable(r.files, st.live[n].path, a.readable, a.builds))
            && (n in r.live ==> LiveAsOnDisk(r, n, st.live[n].path))
  {
    hide RemoveIfExists;
  }

  /** After a failed file removal every file is still there, but the name is not live. */
  lemma FailedFileRemoval(cfg: Config, st: State, a: RemoveArgs)
    requires PathsNonEmpty(st) && HandleRemove(cfg, st, a).1 == FileRemovalFailed
    ensures var r := HandleRemove(cfg, st, a).0;
            && r.files == st.files && a.name !in r.live
            && r.broken == if a.name in st.live then st.broken else st.broken - {a.name}
  {
    hide TryRecover;
  }

  /** An install either stops early, changing nothing, or goes on with the package parsed from outside. */
  lemma InstallUnfolds(cfg: Config, st: State, a: InstallArgs)
    requires PathsNonEmpty(st)
    ensures var h := HandleInstall(cfg, st, a);
            || (h.0 == st && h.1 !in {Done, InstallFailed, UpgradeRefused})
            || (&& a.src != [] && !(cfg.downloadedDir <= a.src)
                && var p := Parse(st.files, a.src, a.readable);
                   p.image.Some? && h == InstallPrepared(cfg, st, p, a))
  {
    hide InstallPrepared;
  }

  lemma RefusedInstall(cfg: Config, st: State, a: InstallArgs)
    requires PathsNonEmpty(st) && HandleInstall(cfg, st, a).1 !in {Done, InstallFailed}
    ensures var (r, o) := HandleInstall(cfg, st, a);
            && r.live == st.live && r.files == st.files && r.bundled == st.bundled
            && (if o == UpgradeRefused then r.broken == st.broken - {Subject(st, OpInstall(a)) + "." + cfg.ext}
                else r == st)
  {
    InstallUnfolds(cfg, st, a);
    hide HandleInstall, InstallPrepared, Homes, Recoverable, LiveAsOnDisk;
    if HandleInstall(cfg, st, a).0 != st {
      FailedPrepared(cfg, st, Parse(st.files, a.src, a.readable), a);
    }
  }

  lemma RefusedRemove(cfg: Config, st: State, a: RemoveArgs)
    requires PathsNonEmpty(st) && HandleRemove(cfg, st, a).1 !in {Done, PurgeFailed, FileRemovalFailed}
    ensures HandleRemove(cfg, st, a).0 == st
  {
    hide TryRecover, RemoveIfExists;
  }

  /**
   * Every refusal before the transaction leaves the live packages and all files exactly as they were; only a
   * refused upgrade changes anything, a broken entry under the name of its destination file.
   */
  lemma RefusedChange(cfg: Config, st: State, op: Op)
    requires PathsNonEmpty(st) && !op.OpReload?
    requires OutcomeOf(cfg, st, op) !in {Done, InstallFailed, PurgeFailed, FileRemovalFailed}
    ensures var r := Step(cfg, st, op);
            && r.live == st.live && r.files == st.files && r.bundled == st.bundled
            && (if OutcomeOf(cfg, st, op) == UpgradeRefused
                then r.broken == st.broken - {Subject(st, op) + "." + cfg.ext}
                else r == st)
  {
    hide HandleInstall, HandleRemove;
    OutcomeKinds(cfg, st, op);
    match op
    case OpInstall(a) => RefusedInstall(cfg, st, a);
    case OpRemove(a) => RefusedRemove(cfg, st, a);
  }

  /**
   * A failed change leaves its package untouched, absent, or live at the path it was live at before, as
   * re-read from disk; it never makes a package live that was not.
   */
  lemma FailedChange(cfg: Config, st: State, op: Op)
    requires PathsNonEmpty(st) && !op.OpReload? && OutcomeOf(cfg, st, op) != Done
    ensures var r, n := Step(cfg, st, op), Subject(st, op);
            n in r.live ==> n in st.live && (r.live[n] == st.live[n] || LiveAsOnDisk(r, n, st.live[n].path))
  {
    hide HandleInstall, HandleRemove, LiveAsOnDisk, Recoverable;
    OutcomeKinds(cfg, st, op);
    match op
    case OpInstall(a) =>
      if HandleInstall(cfg, st, a).1 == InstallFailed {
        FailedInstall(cfg, st, a);
      } else {
        RefusedChange(cfg, st, op);
      }
    case OpRemove(a) =>
      match HandleRemove(cfg, st, a).1 {
        case PurgeFailed => FailedPurge(cfg, st, a);
        case FileRemovalFailed => FailedFileRemoval(cfg, st, a);
        case _ => RefusedChange(cfg, st, op);
      }
  }

  lemma OutcomeKinds(cfg: Config, st: State, op: Op)
    requires PathsNonEmpty(st) && !op.OpReload?
    ensures op.OpInstall? ==> OutcomeOf(cfg, st, op) !in {PurgeFailed, FileRemovalFailed}
    ensures op.OpRemove? ==> OutcomeOf(cfg, st, op) !in {InstallFailed, UpgradeRefused}
  {
    hide Install, TryRecover, Dest, RemoveIfExists;
  }

  /**
   * A successful removal deletes the package's file and nothing else; afterwards the name is live exactly
   * when a bundled version is recorded that can be read and built, and then it is that version.
   */
  lemma RemoveSucceeds(cfg: Config, st: State, a: RemoveArgs)
    requires cfg.bundledDir != cfg.downloadedDir && Placed(cfg, st) && HandleRemove(cfg, st, a).1 == Done
    ensures var r := HandleRemove(cfg, st, a).0;
            && (a.name in st.live || a.name in st.broken)
            && var path := if a.name in st.live then st.live[a.name].path else st.broken[a.name];
               && Parent(path) == Some(cfg.downloadedDir) && r.files == st.files - {path}
               && r.broken == (if a.name in st.live then st.broken else st.broken - {a.name})
               && (a.name in r.live <==>
                   && a.name in st.bundled && a.readable && a.builds
                   && st.bundled[a.name] in st.files && st.files[st.bundled[a.name]].Verified?)
               && (a.name in r.live ==> LiveAsOnDisk(r, a.name, st.bundled[a.name]))
  {
    hide RemoveIfExists, TryRecover;
    var path := if a.name in st.live then st.live[a.name].path else st.broken[a.name];
    var st1 := if a.name in st.live then st.(live := st.live - {a.name}) else st.(broken := st.broken - {a.name});
    var files := RemoveIfExists(st.files, path, a.removeOk).0;
    RemovedFile(st.files, path, a.removeOk);
    if a.name in st.bundled {
      RecoverShape(st1.(files := files), a.name, st.bundled[a.name], a.readable, a.builds);
    }
  }

  lemma RemovedFile(files: Files, path: Path, ok: bool)
    ensures RemoveIfExists(files, path, ok).1 ==> RemoveIfExists(files, path, ok).0 == files - {path}
  {
  }

  /** A successful install makes exactly the source image live, at the name's own destination. */
  lemma InstallSucceedsLive(cfg: Config, st: State, a: InstallArgs)
    requires PathsNonEmpty(st) && HandleInstall(cfg, st, a).1 == Done
    ensures var r := HandleInstall(cfg, st, a).0;
            && a.src in st.files && st.files[a.src].Verified?
            && var image := st.files[a.src];
               var file := image.name + "." + cfg.ext;
               && r.live == st.live[image.name := Package(cfg.downloadedDir + [file], image)]
               && r.broken == st.broken - {file}
               && Paths.IsSafePathSegment(image.name)
               && !(cfg.downloadedDir <= a.src) && !(cfg.bundledDir <= a.src)
               && (image.name in st.live && st.live[image.name].image.Verified? && !a.force ==>
                     st.live[image.name].image.version < image.version)
  {
    hide Install;
    var image := Parse(st.files, a.src, a.readable).image;
    forall rd, mode: Mode | image.Some? && (mode.UpgradeDownloaded? ==> mode.installed != [])
      ensures var r := Install(st.files, a.src, image.value, Dest(cfg, image.value.name), rd, mode, a.steps).1;
              r.Some? ==> r.value == Package(Dest(cfg, image.value.name), image.value)
    {
      InstalledPath(st.files, a.src, image.value, Dest(cfg, image.value.name), rd, mode, a.steps);
    }
  }

  /******* Live and broken names *******/

  predicate Disjoint(st: State) {
    st.live.Keys !! st.broken.Keys
  }

  /**
   * Live and broken names stay apart in every change but one: an install that will succeed under a name that
   * is broken. It clears the broken entry named after the destination file, not after the package.
   */
  lemma DisjointIff(cfg: Config, st: State, op: Op)
    requires PathsNonEmpty(st) && !op.OpReload? && Disjoint(st)
    ensures Disjoint(Step(cfg, st, op)) <==>
            !(op.OpInstall? && WillInstall(cfg, st, op.install) && Subject(st, op) in st.broken)
  {
    hide HandleInstall, HandleRemove, WillInstall, Subject, Disjoint;
    match op
    case OpInstall(a) => InstallDisjointIff(cfg, st, a);
    case OpRemove(a) => RemoveDisjoint(cfg, st, a);
  }

  lemma RemoveDisjoint(cfg: Config, st: State, a: RemoveArgs)
    requires PathsNonEmpty(st) && Disjoint(st)
    ensures Disjoint(HandleRemove(cfg, st, a).0)
  {
  }

  lemma InstallDisjointIff(cfg: Config, st: State, a: InstallArgs)
    requires PathsNonEmpty(st) && Disjoint(st)
    ensures Disjoint(HandleInstall(cfg, st, a).0) <==>
            !(WillInstall(cfg, st, a) && Subject(st, OpInstall(a)) in st.broken)
  {
    DoneIff(cfg, st, a);
    hide HandleInstall, WillInstall, Subject;
    if HandleInstall(cfg, st, a).1 == Done {
      InstallSucceedsLive(cfg, st, a);
      DoneSubject(cfg, st, a);
      var r, n := HandleInstall(cfg, st, a).0, Subject(st, OpInstall(a));
      assert |n + "." + cfg.ext| > |n|;
      assert n in r.live && (n in st.broken <==> n in r.broken);
    } else {
      FailedInstallStore(cfg, st, a);
    }
  }

  lemma DoneSubject(cfg: Config, st: State, a: InstallArgs)
    requires PathsNonEmpty(st) && HandleInstall(cfg, st, a).1 == Done
    ensures a.src in st.files && st.files[a.src].Verified? && Subject(st, OpInstall(a)) == st.files[a.src].name
  {
    hide InstallPrepared;
  }

  lemma FailedInstallStore(cfg: Config, st: State, a: InstallArgs)
    requires PathsNonEmpty(st) && HandleInstall(cfg, st, a).1 != Done
    ensures HandleInstall(cfg, st, a).0.live.Keys <= st.live.Keys
    ensures HandleInstall(cfg, st, a).0.broken.Keys <= st.broken.Keys
  {
    hide Install;
  }
}
