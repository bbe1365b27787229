/** Over whole runs, the live packages are what the files on disk say. */
module ConsistencyProofs {
  import opened Wrappers
  import Paths
  import opened InstallTransaction
  import opened PackageManager
  import opened PackageManagerProofs
  import opened ReloadProofs

  /******* The invariant *******/

  /** The package extension is one component, and backups do not carry it. */
  predicate GoodExt(cfg: Config) {
    '.' !in cfg.ext && !EqIgnoreAsciiCase("old", cfg.ext)
  }

  predicate Downloaded(cfg: Config, p: Path) {
    Parent(p) == Some(cfg.downloadedDir)
  }

  /** Every readable package in the downloaded directory has the file name an install would give it. */
  predicate Tidy(cfg: Config, files: Files) {
    forall p :: p in files && Downloaded(cfg, p) && IsPackageFile(cfg, files, p) && files[p].Verified? ==>
      p == Dest(cfg, files[p].name)
  }

  /** Every live package is exactly what its file holds. */
  predicate OnDisk(st: State) {
    forall n :: n in st.live ==> LiveAsOnDisk(st, n, st.live[n].path)
  }

  predicate AtDest(cfg: Config, st: State) {
    forall n :: n in st.live && Downloaded(cfg, st.live[n].path) ==> st.live[n].path == Dest(cfg, n)
  }

  predicate BrokenNamed(cfg: Config, st: State) {
    forall n :: n in st.broken && Downloaded(cfg, st.broken[n]) ==>
      n == Last(st.broken[n]) || st.broken[n] == Dest(cfg, n)
  }

  /** A broken entry shares a downloaded file only with the live entry of its own name. */
  predicate NoClash(cfg: Config, st: State) {
    forall n, m ::
      n in st.broken && m in st.live && st.broken[n] == st.live[m].path && Downloaded(cfg, st.broken[n]) ==> n == m
  }

  predicate Consistent(cfg: Config, st: State) {
    Placed(cfg, st) && Tidy(cfg, st.files) && OnDisk(st) && AtDest(cfg, st) && BrokenNamed(cfg, st) && NoClash(cfg, st)
  }

  /******* File names *******/

  /** A backup is not a package file, and never takes a destination. */
  lemma BackupIsNoPackage(cfg: Config, p: Path, name: string)
    requires GoodExt(cfg) && p != []
    ensures !IsPackageName(cfg.ext, Last(BackupPath(p))) && BackupPath(p) != Dest(cfg, name)
  {
    var a := Last(p);
    assert Last(BackupPath(p)) == a + ".old" == a + "." + "old";
    OldHasNoDot();
    ExtensionOf(a, "old");
    DestPlaced(cfg, name);
    assert DestName(cfg, name) == name + "." + cfg.ext;
    ExtensionOf(name, cfg.ext);
    EqReflexive(cfg.ext);
    if BackupPath(p) == Dest(cfg, name) {
      assert a + ".old" == DestName(cfg, name);
      LongerHasName(a, name, cfg.ext);
    }
  }

  lemma OldHasNoDot()
    ensures '.' !in "old"
  {
  }

  lemma EqReflexive(s: string)
    ensures EqIgnoreAsciiCase(s, s)
  {
  }

  /** If a file name plus ".old" were a destination, the extension would be "old". */
  lemma LongerHasName(a: string, name: string, ext: string)
    requires '.' !in ext && a + ".old" == name + "." + ext
    ensures ext == "old"
  {
    var s, t := a + ".old", name + "." + ext;
    var n := |s|;
    assert s[n - 4] == '.' && s[n - 3] == 'o' && s[n - 2] == 'l' && s[n - 1] == 'd';
    assert t[n - 1 - |ext|] == '.' && t[n - |ext|..] == ext;
    assert forall i :: 0 <= i < |ext| ==> ext[i] == s[n - |ext| + i] && ext[i] != '.';
    assert |ext| == 3;
    assert s[n - 3..] == "old";
  }

  /******* Reload *******/

  /** Every entry comes from a package in c: live ones were created, broken ones were not. */
  ghost predicate From(st: State, c: set<Parsed>, builds: Path -> bool) {
    && (forall n :: n in st.live ==>
          var p := Parsed(n, st.live[n].path, Some(st.live[n].image)); p in c && Creates(p, builds))
    && (forall n :: n in st.broken ==>
          exists p :: p in c && p.name == n && p.path == st.broken[n] && !Creates(p, builds))
  }

  lemma LoadParsedFrom(st: State, c: set<Parsed>, p: Parsed, builds: Path -> bool)
    requires From(st, c, builds) && p in c
    ensures From(LoadParsed(st, p, builds), c, builds)
  {
    var r := LoadParsed(st, p, builds);
    forall n | n in r.broken
      ensures exists q :: q in c && q.name == n && q.path == r.broken[n] && !Creates(q, builds)
    {
      if n in st.broken && r.broken[n] == st.broken[n] {
        var q :| q in c && q.name == n && q.path == st.broken[n] && !Creates(q, builds);
      } else {
        assert p.name == n && p.path == r.broken[n];
      }
    }
  }

  lemma {:induction false} LoadAllFrom(st: State, c: set<Parsed>, ps: seq<Parsed>, builds: Path -> bool)
    requires From(st, c, builds) && forall i :: 0 <= i < |ps| ==> ps[i] in c
    ensures From(LoadAll(st, ps, builds), c, builds)
  {
    if ps != [] {
      hide From, LoadParsed;
      LoadAllFrom(st, c, Init(ps), builds);
      LoadParsedFrom(LoadAll(st, Init(ps), builds), c, Last(ps), builds);
    }
  }

  lemma {:induction false} LoadBundledFrom(
    st: State, c: set<Parsed>, ps: seq<Parsed>, overridden: set<string>, builds: Path -> bool)
    requires From(st, c, builds) && forall i :: 0 <= i < |ps| ==> ps[i] in c
    ensures From(LoadBundled(st, ps, overridden, builds), c, builds)
  {
    if ps != [] {
      LoadBundledFrom(st, c, Init(ps), overridden, builds);
      var st0, last := LoadBundled(st, Init(ps), overridden, builds), Last(ps);
      var st1 := st0.(bundled := st0.bundled[last.name := last.path]);
      assert From(st1, c, builds);
      hide From, LoadParsed;
      LoadParsedFrom(st1, c, last, builds);
    }
  }

  /** Where the parsed packages come from. */
  predicate ParsedIn(cfg: Config, files: Files, readable: Path -> bool, p: Parsed) {
    && p.path != [] && IsPackageFile(cfg, files, p.path) && p == Parse(files, p.path, readable(p.path))
  }

  lemma {:induction false} ListingPackages(cfg: Config, files: Files, dir: Path, order: seq<Path>)
    ensures forall i :: 0 <= i < |Listing(cfg, files, dir, order)| ==>
              IsPackageFile(cfg, files, Listing(cfg, files, dir, order)[i])
  {
    if order != [] {
      ListingPackages(cfg, files, dir, Init(order));
    }
  }

  /** The package files a directory parses to. */
  function ParsedDir(cfg: Config, files: Files, dir: Path, order: seq<Path>, readable: Path -> bool): seq<Parsed> {
    ParseAll(files, Listing(cfg, files, dir, order), readable)
  }

  lemma ParsedDirIn(cfg: Config, files: Files, dir: Path, order: seq<Path>, readable: Path -> bool)
    ensures forall p :: p in Elems(ParsedDir(cfg, files, dir, order, readable)) ==> ParsedIn(cfg, files, readable, p)
  {
    hide IsPackageFile;
    ListingPackages(cfg, files, dir, order);
  }

  lemma LoadedFrom(st: State, c: set<Parsed>, b: seq<Parsed>, d: seq<Parsed>, builds: Path -> bool)
    requires st == Cleared(st) && c == Elems(b) + Elems(d)
    ensures From(LoadAll(LoadBundled(st, b, Names(d), builds), d, builds), c, builds)
  {
    assert From(st, c, builds);
    assert forall i :: 0 <= i < |b| ==> b[i] in Elems(b);
    assert forall i :: 0 <= i < |d| ==> d[i] in Elems(d);
    hide From, LoadBundled, LoadAll, Names, Elems;
    LoadBundledFrom(st, c, b, Names(d), builds);
    LoadAllFrom(LoadBundled(st, b, Names(d), builds), c, d, builds);
  }

  lemma ReloadFrom(cfg: Config, st: State, a: ReloadArgs) returns (c: set<Parsed>)
    ensures From(Reload(cfg, st, a), c, a.builds) && forall p :: p in c ==> ParsedIn(cfg, st.files, a.readable, p)
  {
    var b, d := BundledParsed(cfg, st.files, a), DownloadedParsed(cfg, st.files, a);
    c := Elems(b) + Elems(d);
    LoadedFrom(Cleared(st), c, b, d, a.builds);
    hide From, LoadBundled, LoadAll, Listing, ParsedIn, Names, Elems;
    ParsedDirIn(cfg, st.files, cfg.bundledDir, a.bundledOrder, a.readable);
    ParsedDirIn(cfg, st.files, cfg.downloadedDir, a.downloadedOrder, a.readable);
  }

  /** A reload makes the store consistent with a tidy directory, whatever it held before. */
  lemma ReloadConsistent(cfg: Config, st: State, a: ReloadArgs)
    requires Tidy(cfg, st.files)
    ensures Consistent(cfg, Reload(cfg, st, a))
  {
    ReloadSafe(cfg, st, a);
    var r := Reload(cfg, st, a);
    var c := ReloadFrom(cfg, st, a);
    hide Reload, Placed, IsPackageName, Dest;
    assert OnDisk(r) && AtDest(cfg, r) by {
      forall n | n in r.live
        ensures LiveAsOnDisk(r, n, r.live[n].path)
        ensures Downloaded(cfg, r.live[n].path) ==> r.live[n].path == Dest(cfg, n)
      {
        var p := Parsed(n, r.live[n].path, Some(r.live[n].image));
        assert ParsedIn(cfg, st.files, a.readable, p);
      }
    }
    forall n | n in r.broken && Downloaded(cfg, r.broken[n])
      ensures n == Last(r.broken[n]) || r.broken[n] == Dest(cfg, n)
    {
      var p :| p in c && p.name == n && p.path == r.broken[n] && !Creates(p, a.builds);
      assert ParsedIn(cfg, st.files, a.readable, p);
    }
    forall n, m | n in r.broken && m in r.live
      ensures r.broken[n] != r.live[m].path
    {
      var p :| p in c && p.name == n && p.path == r.broken[n] && !Creates(p, a.builds);
      var q := Parsed(m, r.live[m].path, Some(r.live[m].image));
      assert ParsedIn(cfg, st.files, a.readable, p) && ParsedIn(cfg, st.files, a.readable, q);
      assert p.path == q.path ==> p == q;
    }
  }

  /******* Changes *******/

  /** The files of the live packages other than n are as in f. */
  predicate OthersKept(st: State, f: Files, n: string) {
    forall m :: m in st.live && m != n ==>
      var p := st.live[m].path;
      p in f && p in st.files && f[p] == st.files[p]
  }

  /** What a change to n must respect for the invariant to survive. */
  lemma ChangeConsistent(cfg: Config, st: State, r: State, n: string)
    requires cfg.bundledDir != cfg.downloadedDir
    requires Consistent(cfg, st) && Placed(cfg, r) && Tidy(cfg, r.files) && Changes(st, r, n, Homes(cfg, st, n))
    requires OthersKept(st, r.files, n)
    requires n in r.live ==> LiveAsOnDisk(r, n, r.live[n].path)
    requires n in r.live && r.live[n].path == Dest(cfg, n) ==>
               (n in st.live && st.live[n].path == Dest(cfg, n)) || DestName(cfg, n) !in r.broken
    ensures Consistent(cfg, r)
  {
    DestPlaced(cfg, n);
    hide Placed, Tidy, Dest, DestName;
    forall m | m in r.live
      ensures LiveAsOnDisk(r, m, r.live[m].path)
      ensures Downloaded(cfg, r.live[m].path) ==> r.live[m].path == Dest(cfg, m)
    {
      if m != n {
        assert m in st.live && r.live[m] == st.live[m];
        assert LiveAsOnDisk(st, m, st.live[m].path);
      } else {
        LiveHome(cfg, st, r, n);
      }
    }
    forall k, m | k in r.broken && m in r.live && r.broken[k] == r.live[m].path && Downloaded(cfg, r.broken[k])
      ensures k == m
    {
      assert k in st.broken && st.broken[k] == r.broken[k];
      if m != n {
        assert m in st.live && r.live[m] == st.live[m];
      } else {
        LiveHome(cfg, st, r, n);
        DestInjective(cfg, k, n);
      }
    }
  }

  lemma LiveHome(cfg: Config, st: State, r: State, n: string)
    requires cfg.bundledDir != cfg.downloadedDir
    requires Placed(cfg, st) && AtDest(cfg, st) && Changes(st, r, n, Homes(cfg, st, n)) && n in r.live
    ensures Downloaded(cfg, r.live[n].path) ==> r.live[n].path == Dest(cfg, n)
  {
    hide Dest;
  }

  /** What an install into dest may leave at dest, and that a success leaves the new image there. */
  lemma DestAfterInstall(files: Files, src: Path, image: Image, dest: Path, removeData: bool, mode: Mode, s: Steps)
    requires dest != [] && src != dest && src != BackupPath(dest)
    requires mode.UpgradeDownloaded? ==> mode.installed == dest
    ensures var (f, r) := Install(files, src, image, dest, removeData, mode, s);
            && (dest in f ==> (src in files && f[dest] == files[src]) || (dest in files && f[dest] == files[dest]))
            && (r.Some? ==> src in files && dest in f && f[dest] == files[src])
  {
  }

  /** The files after an install of n from outside: nothing changes but the destination and the backup beside it. */
  lemma InstallTidy(cfg: Config, st: State, n: string, src: Path, image: Image, removeData: bool, mode: Mode, s: Steps)
    requires GoodExt(cfg) && Tidy(cfg, st.files)
    requires !(cfg.downloadedDir <= src) && src in st.files && st.files[src] == image
    requires image.Verified? && image.name == n
    requires mode.UpgradeDownloaded? ==> mode.installed == Dest(cfg, n)
    ensures Dest(cfg, n) != []
    ensures var (f, r) := Install(st.files, src, image, Dest(cfg, n), removeData, mode, s);
            && Tidy(cfg, f)
            && (r.Some? ==> Dest(cfg, n) in f && f[Dest(cfg, n)] == image)
  {
    var dest := Dest(cfg, n);
    DestPlaced(cfg, n);
    BackupIsNoPackage(cfg, dest, n);
    assert cfg.downloadedDir <= dest && cfg.downloadedDir <= BackupPath(dest);
    DestAfterInstall(st.files, src, image, dest, removeData, mode, s);
    var f := Install(st.files, src, image, dest, removeData, mode, s).0;
    forall p | p in f && Downloaded(cfg, p) && IsPackageFile(cfg, f, p) && f[p].Verified?
      ensures p == Dest(cfg, f[p].name)
    {
      hide Install, BackupPath, IsPackageName, Dest;
      if p != dest {
        InstallFrame(st.files, src, image, dest, removeData, mode, s, p);
        assert IsPackageFile(cfg, st.files, p);
      } else if f[p] != image {
        assert IsPackageFile(cfg, st.files, p);
      }
    }
  }

  /** The live packages of other names keep their files. */
  lemma InstallKeepsOthers(
    cfg: Config, st: State, n: string, m: string, src: Path, image: Image, removeData: bool, mode: Mode, s: Steps)
    requires cfg.bundledDir != cfg.downloadedDir && GoodExt(cfg) && Consistent(cfg, st) && m in st.live && m != n
    requires mode.UpgradeDownloaded? ==> mode.installed == Dest(cfg, n) && mode.installed != []
    ensures var f := Install(st.files, src, image, Dest(cfg, n), removeData, mode, s).0;
            st.live[m].path in f && f[st.live[m].path] == st.files[st.live[m].path]
  {
    var p := st.live[m].path;
    assert LiveAsOnDisk(st, m, p) && Within(cfg, p);
    DestPlaced(cfg, n);
    DestInjective(cfg, m, n);
    BackupIsNoPackage(cfg, Dest(cfg, n), m);
    hide Install, Tidy, BrokenNamed, NoClash, Dest;
    InstallFrame(st.files, src, image, Dest(cfg, n), removeData, mode, s, p);
  }

  lemma TransactionEffects(
    cfg: Config, st: State, n: string, src: Path, image: Image, removeData: bool, mode: Mode, s: Steps)
    requires cfg.bundledDir != cfg.downloadedDir && GoodExt(cfg) && Consistent(cfg, st)
    requires !(cfg.downloadedDir <= src) && src in st.files && st.files[src] == image
    requires image.Verified? && image.name == n
    requires mode.UpgradeDownloaded? ==> mode.installed == Dest(cfg, n) && mode.installed != []
    ensures var (f, r) := Install(st.files, src, image, Dest(cfg, n), removeData, mode, s);
            && Tidy(cfg, f) && OthersKept(st, f, n)
            && (r.Some? ==> Dest(cfg, n) in f && f[Dest(cfg, n)] == image)
  {
    InstallTidy(cfg, st, n, src, image, removeData, mode, s);
    hide Consistent, Install, Dest, Tidy;
    forall m | m in st.live && m != n
      ensures var f := Install(st.files, src, image, Dest(cfg, n), removeData, mode, s).0;
              st.live[m].path in f && st.live[m].path in st.files && f[st.live[m].path] == st.files[st.live[m].path]
    {
      LiveFile(cfg, st, m);
      InstallKeepsOthers(cfg, st, n, m, src, image, removeData, mode, s);
    }
  }

  lemma LiveFile(cfg: Config, st: State, n: string)
    requires Consistent(cfg, st) && n in st.live
    ensures LiveAsOnDisk(st, n, st.live[n].path) && Within(cfg, st.live[n].path)
    ensures Downloaded(cfg, st.live[n].path) ==> st.live[n].path == Dest(cfg, n)
  {
  }

  lemma PreparedEffects(cfg: Config, st: State, p: Parsed, a: InstallArgs)
    requires cfg.bundledDir != cfg.downloadedDir && GoodExt(cfg) && Consistent(cfg, st)
    requires a.src != [] && p == Parse(st.files, a.src, a.readable) && p.image.Some? && !(cfg.downloadedDir <= a.src)
    ensures var (r, o) := InstallPrepared(cfg, st, p, a);
            && Tidy(cfg, r.files) && OthersKept(st, r.files, p.name)
            && (o == Done ==> Dest(cfg, p.name) in r.files && r.files[Dest(cfg, p.name)] == p.image.value)
  {
    var n := p.name;
    var mode := if n in st.live then InstallMode(cfg, st.live[n].path) else Fresh;
    var removeData := n in st.live && a.removeData;
    PreparedFiles(cfg, st, p, a, mode, removeData);
    if n in st.live {
      LiveFile(cfg, st, n);
    }
    NothingChanged(cfg, st, n);
    hide InstallPrepared, Install, Dest, Consistent, Tidy, OthersKept, LiveAsOnDisk;
    TransactionEffects(cfg, st, n, a.src, p.image.value, removeData, mode, a.steps);
  }

  lemma NothingChanged(cfg: Config, st: State, n: string)
    requires Consistent(cfg, st)
    ensures Tidy(cfg, st.files) && OthersKept(st, st.files, n)
  {
    forall m | m in st.live ensures st.live[m].path in st.files {
      LiveFile(cfg, st, m);
    }
  }

  lemma PreparedConsistent(cfg: Config, st: State, p: Parsed, a: InstallArgs)
    requires cfg.bundledDir != cfg.downloadedDir && GoodExt(cfg) && Consistent(cfg, st)
    requires a.src != [] && p == Parse(st.files, a.src, a.readable) && p.image.Some? && !(cfg.downloadedDir <= a.src)
    requires Placed(cfg, InstallPrepared(cfg, st, p, a).0)
    ensures Consistent(cfg, InstallPrepared(cfg, st, p, a).0)
  {
    hide InstallPrepared, Dest, DestName, Homes, Parse;
    assert PathsNonEmpty(st);
    hide Consistent, Placed, Tidy, OthersKept, LiveAsOnDisk, Changes, PathsNonEmpty;
    var n, r := p.name, InstallPrepared(cfg, st, p, a).0;
    PreparedShape(cfg, st, p, a);
    PreparedLive(cfg, st, p, a);
    PreparedEffects(cfg, st, p, a);
    ChangeConsistent(cfg, st, r, n);
  }

  /** The entry for the installed name is true to disk, and only a success moves it to the destination. */
  lemma PreparedLive(cfg: Config, st: State, p: Parsed, a: InstallArgs)
    requires cfg.bundledDir != cfg.downloadedDir && GoodExt(cfg) && Consistent(cfg, st)
    requires a.src != [] && p == Parse(st.files, a.src, a.readable) && p.image.Some? && !(cfg.downloadedDir <= a.src)
    ensures var (r, o) := InstallPrepared(cfg, st, p, a);
            p.name in r.live ==>
              && LiveAsOnDisk(r, p.name, r.live[p.name].path)
              && (DestName(cfg, p.name) !in r.broken)
  {
    var n := p.name;
    var mode := if n in st.live then InstallMode(cfg, st.live[n].path) else Fresh;
    FailedPrepared(cfg, st, p, a);
    PreparedFiles(cfg, st, p, a, mode, n in st.live && a.removeData);
    PreparedEffects(cfg, st, p, a);
    if n in st.live {
      LiveFile(cfg, st, n);
    }
    hide InstallPrepared, Install, Dest, DestName, Tidy, Consistent;
  }

  /** The state after the transaction, in terms of its result. */
  lemma PreparedFiles(cfg: Config, st: State, p: Parsed, a: InstallArgs, mode: Mode, removeData: bool)
    requires PathsNonEmpty(st) && p.image.Some?
    requires mode == if p.name in st.live then InstallMode(cfg, st.live[p.name].path) else Fresh
    requires removeData == (p.name in st.live && a.removeData)
    ensures var (r, o) := InstallPrepared(cfg, st, p, a);
            var (f, built) := Install(st.files, a.src, p.image.value, Dest(cfg, p.name), removeData, mode, a.steps);
            && r.files == (if o == UpgradeRefused then st.files else f)
            && (o == Done ==>
                  built.Some? && p.name in r.live && r.live[p.name] == Package(Dest(cfg, p.name), p.image.value))
            && r.broken == st.broken - {DestName(cfg, p.name)}
  {
    InstalledPath(st.files, a.src, p.image.value, Dest(cfg, p.name), removeData, mode, a.steps);
    hide Install, Dest;
  }

  lemma InstallConsistent(cfg: Config, st: State, a: InstallArgs)
    requires cfg.bundledDir != cfg.downloadedDir && GoodExt(cfg) && Consistent(cfg, st)
    ensures Consistent(cfg, HandleInstall(cfg, st, a).0)
  {
    hide InstallPrepared, HandleInstall;
    ChangePlaced(cfg, st, OpInstall(a));
    InstallUnfolds(cfg, st, a);
    var h := HandleInstall(cfg, st, a);
    hide Consistent, Placed;
    if h.0 != st {
      PreparedConsistent(cfg, st, Parse(st.files, a.src, a.readable), a);
    }
  }

  lemma RemoveEffects(cfg: Config, st: State, a: RemoveArgs)
    requires cfg.bundledDir != cfg.downloadedDir && Consistent(cfg, st)
    ensures var r := HandleRemove(cfg, st, a).0;
            Tidy(cfg, r.files) && OthersKept(st, r.files, a.name)
  {
    hide HandleRemove, IsPackageName, Dest;
    var r := HandleRemove(cfg, st, a).0;
    RemoveFiles(cfg, st, a);
    hide AtDest, BrokenNamed, OnDisk, Placed;
    forall p | p in r.files && Downloaded(cfg, p) && IsPackageFile(cfg, r.files, p) && r.files[p].Verified?
      ensures p == Dest(cfg, r.files[p].name)
    {
      assert IsPackageFile(cfg, st.files, p);
    }
    hide Tidy;
    if a.name in st.live {
      LiveFile(cfg, st, a.name);
    }
    forall m | m in st.live && m != a.name
      ensures var p := st.live[m].path; p in r.files && p in st.files && r.files[p] == st.files[p]
    {
      LiveFile(cfg, st, m);
      DestInjective(cfg, m, a.name);
    }
  }

  lemma RemoveConsistent(cfg: Config, st: State, a: RemoveArgs)
    requires cfg.bundledDir != cfg.downloadedDir && Consistent(cfg, st)
    ensures Consistent(cfg, HandleRemove(cfg, st, a).0)
  {
    var r := HandleRemove(cfg, st, a).0;
    var n := a.name;
    ChangePlaced(cfg, st, OpRemove(a));
    RemoveShape(cfg, st, a);
    RemoveEffects(cfg, st, a);
    RemoveLive(cfg, st, a);
    DestPlaced(cfg, n);
    assert n in st.bundled ==> st.bundled[n] != Dest(cfg, n);
    hide HandleRemove, Dest, DestName, Tidy, Placed, AtDest, OnDisk, BrokenNamed, NoClash, Changes, Homes;
    ChangeConsistent(cfg, st, r, n);
  }

  /** After a removal the name is live only as its file now is, at its old path or its bundled one. */
  lemma RemoveLive(cfg: Config, st: State, a: RemoveArgs)
    requires cfg.bundledDir != cfg.downloadedDir && Placed(cfg, st) && OnDisk(st)
    ensures var r := HandleRemove(cfg, st, a).0;
            a.name in r.live ==>
              && LiveAsOnDisk(r, a.name, r.live[a.name].path)
              && ((a.name in st.live && r.live[a.name].path == st.live[a.name].path)
                  || (a.name in st.bundled && r.live[a.name].path == st.bundled[a.name]))
  {
    hide HandleRemove, Recoverable;
    OutcomeKinds(cfg, st, OpRemove(a));
    match HandleRemove(cfg, st, a).1 {
      case Done => RemoveSucceeds(cfg, st, a);
      case PurgeFailed => FailedPurge(cfg, st, a);
      case FileRemovalFailed => FailedFileRemoval(cfg, st, a);
      case _ => RefusedChange(cfg, st, OpRemove(a));
    }
  }

  /******* Runs *******/

  lemma StepConsistent(cfg: Config, st: State, op: Op)
    requires cfg.bundledDir != cfg.downloadedDir && GoodExt(cfg) && Consistent(cfg, st)
    ensures Consistent(cfg, Step(cfg, st, op))
  {
    match op
    case OpReload(a) => ReloadConsistent(cfg, st, a);
    case OpInstall(a) => InstallConsistent(cfg, st, a);
    case OpRemove(a) => RemoveConsistent(cfg, st, a);
  }

  /**
   * From a tidy downloaded directory, whatever fails in whatever run: the directory stays tidy, every live
   * package is exactly what its file holds, and a downloaded one is at the file named after it.
   */
  lemma {:induction false} RunsConsistent(cfg: Config, files: Files, ops: seq<Op>)
    requires cfg.bundledDir != cfg.downloadedDir && GoodExt(cfg) && Tidy(cfg, files)
    ensures Consistent(cfg, Run(cfg, Initial(files), ops))
  {
    if ops != [] {
      RunsConsistent(cfg, files, Init(ops));
      hide Consistent, Tidy, GoodExt;
      StepConsistent(cfg, Run(cfg, Initial(files), Init(ops)), Last(ops));
    }
  }

  /** A failed transaction whose rollback works leaves the installed file as it was. */
  lemma RollbackRestores(
    files: Files, src: Path, image: Image, dest: Path, removeData: bool, mode: Mode, s: Steps, p: Path)
    requires dest != [] && p in files && s.rollback
    requires if mode.UpgradeDownloaded? then mode.installed == dest == p else p != dest
    requires Install(files, src, image, dest, removeData, mode, s).1.None?
    ensures var f := Install(files, src, image, dest, removeData, mode, s).0; p in f && f[p] == files[p]
  {
  }

  /**
   * A failed upgrade is undone: when rollback and recovery work, exactly the same packages are live as
   * before, the upgraded one at its old version.
   */
  lemma FailedUpgradeUndone(cfg: Config, st: State, a: InstallArgs)
    requires cfg.bundledDir != cfg.downloadedDir && Consistent(cfg, st)
    requires HandleInstall(cfg, st, a).1 == InstallFailed && Subject(st, OpInstall(a)) in st.live
    requires a.steps.rollback && a.recoverReadable && a.recoverBuilds
    ensures HandleInstall(cfg, st, a).0.live == st.live
  {
    var r, n := HandleInstall(cfg, st, a).0, Subject(st, OpInstall(a));
    var path := st.live[n].path;
    LiveFile(cfg, st, n);
    FailedInstall(cfg, st, a);
    InstallShape(cfg, st, a);
    UndoneFile(cfg, st, a);
    hide HandleInstall, Subject, Consistent, Homes, Changes, Within, Dest;
    assert r.live[n] == st.live[n];
    OneEntryBack(st, r, n, Homes(cfg, st, n));
  }

  lemma OneEntryBack(st: State, r: State, n: string, paths: set<Path>)
    requires Changes(st, r, n, paths) && n in st.live && n in r.live && r.live[n] == st.live[n]
    ensures r.live == st.live
  {
  }

  lemma UndoneFile(cfg: Config, st: State, a: InstallArgs)
    requires cfg.bundledDir != cfg.downloadedDir && Consistent(cfg, st)
    requires HandleInstall(cfg, st, a).1 == InstallFailed && Subject(st, OpInstall(a)) in st.live && a.steps.rollback
    ensures var path, f := st.live[Subject(st, OpInstall(a))].path, HandleInstall(cfg, st, a).0.files;
            path in f && path in st.files && f[path] == st.files[path]
  {
    hide InstallPrepared, HandleInstall;
    InstallUnfolds(cfg, st, a);
    hide Consistent;
    UndonePrepared(cfg, st, Parse(st.files, a.src, a.readable), a);
  }

  lemma UndonePrepared(cfg: Config, st: State, p: Parsed, a: InstallArgs)
    requires cfg.bundledDir != cfg.downloadedDir && Consistent(cfg, st)
    requires p.image.Some? && p.name in st.live && a.steps.rollback
    requires InstallPrepared(cfg, st, p, a).1 == InstallFailed
    ensures var path, f := st.live[p.name].path, InstallPrepared(cfg, st, p, a).0.files;
            path in f && path in st.files && f[path] == st.files[path]
  {
    hide Install, InstallPrepared, Dest;
    assert PathsNonEmpty(st);
    var path, mode := st.live[p.name].path, InstallMode(cfg, st.live[p.name].path);
    LiveFile(cfg, st, p.name);
    DestPlaced(cfg, p.name);
    hide Consistent, PathsNonEmpty;
    PreparedFiles(cfg, st, p, a, mode, a.removeData);
    FailedTransaction(cfg, st, p, a);
    RollbackRestores(st.files, a.src, p.image.value, Dest(cfg, p.name), a.removeData, mode, a.steps, path);
  }

  lemma FailedTransaction(cfg: Config, st: State, p: Parsed, a: InstallArgs)
    requires PathsNonEmpty(st) && p.image.Some? && p.name in st.live
    requires InstallPrepared(cfg, st, p, a).1 == InstallFailed
    ensures Install(st.files, a.src, p.image.value, Dest(cfg, p.name), a.removeData,
              InstallMode(cfg, st.live[p.name].path), a.steps).1.None?
  {
    hide Install, Dest, TryRecover;
  }

  /******* What installs do to other packages, tidy or not *******/

  /** The transaction of this install changes or removes the file at p. */
  predicate InstallClobbers(cfg: Config, st: State, a: InstallArgs, image: Image, p: Path)
    requires PathsNonEmpty(st) && image.Verified? && p in st.files
  {
    Clobbers(st.files, a.src, image, Dest(cfg, image.name), ModeFor(cfg, st, image.name),
             image.name in st.live && a.removeData, a.steps, p)
  }

  /** The copy went over the backup of the old file, and the backup was removed: possible if the extension is "old". */
  predicate DropsItself(cfg: Config, st: State, a: InstallArgs, name: string)
    requires PathsNonEmpty(st)
  {
    var mode := ModeFor(cfg, st, name);
    mode.UpgradeDownloaded? && Dest(cfg, name) == BackupPath(mode.installed) && a.steps.dropBackup
  }

  /** The paths a transaction works on are not its source. */
  lemma SourceElsewhere(cfg: Config, st: State, n: string, src: Path)
    requires Placed(cfg, st) && !(cfg.downloadedDir <= src)
    ensures src != Dest(cfg, n)
    ensures var mode := ModeFor(cfg, st, n);
            mode.UpgradeDownloaded? ==>
              mode.installed != [] && src != mode.installed && src != BackupPath(mode.installed)
  {
    DestPlaced(cfg, n);
    if n in st.live {
      assert Within(cfg, st.live[n].path);
      if !IsBundled(cfg, st.live[n].path) {
        assert cfg.downloadedDir <= BackupPath(st.live[n].path);
      }
    }
  }

  /** The installed package itself is true to disk after its transaction, except when it drops its own file. */
  lemma OwnEntry(cfg: Config, st: State, p: Parsed, a: InstallArgs)
    requires Placed(cfg, st) && !(cfg.downloadedDir <= a.src) && a.src != []
    requires p == Parse(st.files, a.src, a.readable) && p.image.Some?
    requires InstallPrepared(cfg, st, p, a).1 in {Done, InstallFailed}
    ensures var (r, o) := InstallPrepared(cfg, st, p, a);
            p.name in r.live ==>
              (LiveAsOnDisk(r, p.name, r.live[p.name].path) <==> !(o == Done && DropsItself(cfg, st, a, p.name)))
  {
    var n, mode := p.name, ModeFor(cfg, st, p.name);
    var removeData := n in st.live && a.removeData;
    FailedPrepared(cfg, st, p, a);
    PreparedFiles(cfg, st, p, a, mode, removeData);
    SourceElsewhere(cfg, st, n, a.src);
    DestAfterSuccess(st.files, a.src, p.image.value, Dest(cfg, n), removeData, mode, a.steps);
    hide InstallPrepared, Install, Dest, BackupPath, Placed;
  }

  lemma DestAfterSuccess(files: Files, src: Path, image: Image, dest: Path, removeData: bool, mode: Mode, s: Steps)
    requires mode.UpgradeDownloaded? ==>
      mode.installed != [] && src != mode.installed && src != BackupPath(mode.installed)
    requires src != dest
    ensures var (f, r) := Install(files, src, image, dest, removeData, mode, s);
            r.Some? ==>
              && src in files
              && (dest in f <==> !(mode.UpgradeDownloaded? && dest == BackupPath(mode.installed) && s.dropBackup))
              && (dest in f ==> f[dest] == files[src])
  {
  }

  lemma OtherEntry(cfg: Config, st: State, p: Parsed, a: InstallArgs, m: string)
    requires Placed(cfg, st) && !(cfg.downloadedDir <= a.src) && a.src != []
    requires p == Parse(st.files, a.src, a.readable) && p.image.Some?
    requires InstallPrepared(cfg, st, p, a).1 in {Done, InstallFailed}
    requires m in st.live && m != p.name && LiveAsOnDisk(st, m, st.live[m].path)
    ensures var r := InstallPrepared(cfg, st, p, a).0;
            m in r.live && r.live[m] == st.live[m] &&
            (LiveAsOnDisk(r, m, r.live[m].path) <==> !InstallClobbers(cfg, st, a, p.image.value, st.live[m].path))
  {
    var n, mode := p.name, ModeFor(cfg, st, p.name);
    var removeData := n in st.live && a.removeData;
    PreparedShape(cfg, st, p, a);
    PreparedFiles(cfg, st, p, a, mode, removeData);
    SourceElsewhere(cfg, st, n, a.src);
    hide InstallPrepared, Install, Dest, BackupPath, Placed, Clobbers, Homes;
    ClobbersIff(st.files, a.src, p.image.value, Dest(cfg, n), removeData, mode, a.steps, st.live[m].path);
  }

  /**
   * Every install that reaches its transaction, fresh or upgrade, succeeding or failing at any step, keeps
   * the live packages true to disk exactly when it changes no other live package's file, and does not
   * drop its own. The other installs change no file and no live package (ReachesIff, RefusedChange).
   */
  lemma InstallOnDiskIff(cfg: Config, st: State, a: InstallArgs)
    requires Placed(cfg, st) && OnDisk(st) && Reaches(cfg, st, a)
    ensures a.src in st.files && st.files[a.src].Verified?
    ensures var r := HandleInstall(cfg, st, a).0;
            var image := st.files[a.src];
            OnDisk(r) <==>
              && (forall m :: m in st.live && m != image.name ==>
                    st.live[m].path in st.files && !InstallClobbers(cfg, st, a, image, st.live[m].path))
              && !(WillInstall(cfg, st, a) && DropsItself(cfg, st, a, image.name))
  {
    ReachesIff(cfg, st, a);
    DoneIff(cfg, st, a);
    InstallUnfolds(cfg, st, a);
    hide HandleInstall, InstallPrepared, Placed, Reaches, WillInstall;
    var p := Parse(st.files, a.src, a.readable);
    var (r, o) := InstallPrepared(cfg, st, p, a);
    OwnEntry(cfg, st, p, a);
    PreparedShape(cfg, st, p, a);
    if o == Done {
      DoneIsLive(cfg, st, p, a);
    }
    hide InstallClobbers, DropsItself, Homes;
    forall m | m in st.live && m != p.name
      ensures st.live[m].path in st.files
      ensures m in r.live && r.live[m] == st.live[m] &&
              (LiveAsOnDisk(r, m, r.live[m].path) <==> !InstallClobbers(cfg, st, a, p.image.value, st.live[m].path))
    {
      assert LiveAsOnDisk(st, m, st.live[m].path);
      OtherEntry(cfg, st, p, a, m);
    }
    hide LiveAsOnDisk;
    if OnDisk(r) {
      forall m | m in st.live && m != p.name ensures LiveAsOnDisk(r, m, r.live[m].path) {
      }
    }
  }

  lemma DoneIsLive(cfg: Config, st: State, p: Parsed, a: InstallArgs)
    requires PathsNonEmpty(st) && p.image.Some? && InstallPrepared(cfg, st, p, a).1 == Done
    ensures p.name in InstallPrepared(cfg, st, p, a).0.live
  {
    hide Install, Dest;
  }

  /******* What removals do to other packages, tidy or not *******/

  /** The file a removal is about. */
  function RemovalPath(st: State, name: string): Path
    requires name in st.live || name in st.broken
  {
    if name in st.live then st.live[name].path else st.broken[name]
  }

  /** The request gets as far as removing its file. */
  predicate WillRemove(cfg: Config, st: State, a: RemoveArgs) {
    && (a.name in st.live || a.name in st.broken)
    && Parent(RemovalPath(st, a.name)) != Some(cfg.bundledDir)
    && (RemovalPath(st, a.name) in st.files ==> a.removeOk)
    && (a.name in st.live ==> a.teardownOk && (a.purge ==> a.purgeOk))
  }

  lemma RemovalDoneIff(cfg: Config, st: State, a: RemoveArgs)
    requires PathsNonEmpty(st)
    ensures HandleRemove(cfg, st, a).1 == Done <==> WillRemove(cfg, st, a)
    ensures !WillRemove(cfg, st, a) ==> HandleRemove(cfg, st, a).0.files == st.files
  {
    hide TryRecover;
    RecoverFiles();
  }

  /** Each refusal of a removal comes exactly if its own check is the first to fail. */
  lemma RemovalRefusalsIff(cfg: Config, st: State, a: RemoveArgs)
    requires PathsNonEmpty(st)
    ensures var o := HandleRemove(cfg, st, a).1;
            var known := a.name in st.live || a.name in st.broken;
            && (o == UnknownPackage <==> !known)
            && (known ==>
                  var own := Parent(RemovalPath(st, a.name)) != Some(cfg.bundledDir);
                  var stopped := own && (a.name in st.live ==> a.teardownOk);
                  var purged := stopped && (a.name in st.live && a.purge ==> a.purgeOk);
                  && (o == SystemProvided <==> !own)
                  && (o == TeardownFailed <==> own && !stopped)
                  && (o == PurgeFailed <==> stopped && !purged)
                  && (o == FileRemovalFailed <==> purged && RemovalPath(st, a.name) in st.files && !a.removeOk))
  {
    hide TryRecover;
    RecoverFiles();
  }

  lemma RecoverFiles()
    ensures forall s: State, n, path, readable, builds :: path != [] ==>
              TryRecover(s, n, path, readable, builds).files == s.files
  {
    forall s: State, n, path, readable, builds | path != []
      ensures TryRecover(s, n, path, readable, builds).files == s.files
    {
      RecoverShape(s, n, path, readable, builds);
    }
  }

  /**
   * A removal, whatever fails, keeps the live packages true to disk exactly unless it removes a file that is
   * also another live package's.
   */
  lemma RemoveOnDiskIff(cfg: Config, st: State, a: RemoveArgs)
    requires cfg.bundledDir != cfg.downloadedDir && Placed(cfg, st) && OnDisk(st)
    ensures OnDisk(HandleRemove(cfg, st, a).0) <==>
            !(WillRemove(cfg, st, a) &&
              exists m :: m in st.live && m != a.name && st.live[m].path == RemovalPath(st, a.name))
  {
    var r := HandleRemove(cfg, st, a).0;
    RemoveShape(cfg, st, a);
    RemoveLive(cfg, st, a);
    hide HandleRemove, Homes, WillRemove, RemovalPath;
    assert PathsNonEmpty(st);
    forall m | m in st.live && m != a.name
      ensures m in r.live && r.live[m] == st.live[m]
      ensures LiveAsOnDisk(r, m, r.live[m].path) <==>
              !(WillRemove(cfg, st, a) && st.live[m].path == RemovalPath(st, a.name))
    {
      RemovalSpares(cfg, st, a, m);
    }
    hide Placed, LiveAsOnDisk;
    if OnDisk(r) {
      forall m | m in st.live && m != a.name ensures LiveAsOnDisk(r, m, r.live[m].path) {
      }
    }
  }

  lemma RemovalSpares(cfg: Config, st: State, a: RemoveArgs, m: string)
    requires cfg.bundledDir != cfg.downloadedDir && Placed(cfg, st) && OnDisk(st) && m in st.live && m != a.name
    ensures WillRemove(cfg, st, a) ==> a.name in st.live || a.name in st.broken
    ensures var r := HandleRemove(cfg, st, a).0;
            && m in r.live && r.live[m] == st.live[m]
            && (LiveAsOnDisk(r, m, r.live[m].path) <==>
                !(WillRemove(cfg, st, a) && st.live[m].path == RemovalPath(st, a.name)))
  {
    RemovalDoneIff(cfg, st, a);
    RemoveShape(cfg, st, a);
    assert LiveAsOnDisk(st, m, st.live[m].path);
    if WillRemove(cfg, st, a) {
      RemoveSucceeds(cfg, st, a);
    }
    hide HandleRemove, Placed, Homes;
  }

  /******* A broken package installed again *******/

  /** A reload that finds only p, reads it, and cannot build it. */
  function NothingBuilds(p: Path): ReloadArgs {
    ReloadArgs([], [p], _ => true, _ => false)
  }

  /** An install from src in which every step succeeds. */
  function AllSucceeds(src: Path): InstallArgs {
    var steps := Steps(true, true, true, true, true, true, true);
    InstallArgs(src, false, false, true, true, true, true, true, steps, true, true)
  }

  lemma BrokenAfterReload(cfg: Config, files: Files, p: Path)
    requires p in files && files[p].Verified? && IsPackageFile(cfg, files, p) && Parent(p) == Some(cfg.downloadedDir)
    ensures var st := Reload(cfg, Initial(files), NothingBuilds(p));
            && PathsNonEmpty(st) && st.files == files
            && st.live == map[] && st.broken == map[files[p].name := p]
  {
    var a := NothingBuilds(p);
    var parsed := Parsed(files[p].name, p, Some(files[p]));
    assert Init([p]) == [] && Last([p]) == p;
    assert Listing(cfg, files, cfg.downloadedDir, []) == [];
    assert Listing(cfg, files, cfg.downloadedDir, [p]) == [p];
    var d := DownloadedParsed(cfg, files, a);
    assert d == [parsed] && Init(d) == [] && Last(d) == parsed;
    assert BundledParsed(cfg, files, a) == [];
    assert LoadBundled(Cleared(Initial(files)), [], Names(d), a.builds) == Cleared(Initial(files));
    assert LoadAll(Cleared(Initial(files)), [], a.builds) == Cleared(Initial(files));
  }

  /**
   * The exception to disjoint names is reached: a downloaded package that cannot be built is broken under
   * its own name; installing it again succeeds, and the name is then both live and broken.
   */
  lemma ReinstallBreaksDisjoint(cfg: Config, downloaded: Image, image: Image, src: Path)
    requires '.' !in cfg.ext && src != [] && IsPackageName(cfg.ext, Last(src))
    requires !(cfg.downloadedDir <= src) && !(cfg.bundledDir <= src)
    requires downloaded.Verified? && image.Verified? && downloaded.name == image.name
    requires Paths.IsSafePathSegment(image.name)
    ensures var files := map[Dest(cfg, image.name) := downloaded, src := image];
            var st := Reload(cfg, Initial(files), NothingBuilds(Dest(cfg, image.name)));
            && PathsNonEmpty(st) && Disjoint(st) && WillInstall(cfg, st, AllSucceeds(src))
            && var r := HandleInstall(cfg, st, AllSucceeds(src)).0;
               image.name in r.live && image.name in r.broken && !Disjoint(r)
  {
    var dest := Dest(cfg, image.name);
    DestPlaced(cfg, image.name);
    var files := map[dest := downloaded, src := image];
    assert DestName(cfg, image.name) == image.name + "." + cfg.ext;
    ExtensionOf(image.name, cfg.ext);
    EqReflexive(cfg.ext);
    assert cfg.downloadedDir <= dest;
    BrokenAfterReload(cfg, files, dest);
    hide Reload, Dest;
    ReinstallBroken(cfg, Reload(cfg, Initial(files), NothingBuilds(dest)), image, src);
  }

  lemma ReinstallBroken(cfg: Config, st: State, image: Image, src: Path)
    requires PathsNonEmpty(st) && st.live == map[] && image.Verified? && image.name in st.broken
    requires src in st.files && st.files[src] == image && IsPackageFile(cfg, st.files, src)
    requires !(cfg.downloadedDir <= src) && !(cfg.bundledDir <= src) && Paths.IsSafePathSegment(image.name)
    ensures WillInstall(cfg, st, AllSucceeds(src))
    ensures var r := HandleInstall(cfg, st, AllSucceeds(src)).0; image.name in r.live && image.name in r.broken
  {
    hide IsPackageName, Paths.IsSafePathSegment;
    var a := AllSucceeds(src);
    Paths.SafeSegmentIff(image.name);
    assert WillInstall(cfg, st, a);
    DoneIff(cfg, st, a);
    hide WillInstall, HandleInstall;
    InstallSucceedsLive(cfg, st, a);
    assert |DestName(cfg, image.name)| > |image.name|;
  }
}
