/** A reload refines a simple override: downloaded packages replace bundled ones of the same name. */
module ReloadProofs {
  import opened Wrappers
  import opened InstallTransaction
  import opened PackageManager
  import opened PackageManagerProofs

  /******* The unordered specification *******/

  function Elems(ps: seq<Parsed>): set<Parsed> {
    set i | 0 <= i < |ps| :: ps[i]
  }

  function NamesOf(c: set<Parsed>): set<string> {
    set p | p in c :: p.name
  }

  /** One file per name. */
  predicate Functional(c: set<Parsed>) {
    forall p, q :: p in c && q in c && p.name == q.name ==> p == q
  }

  /** The downloaded packages, and the bundled ones they do not override. */
  function Chosen(bundled: set<Parsed>, downloaded: set<Parsed>): set<Parsed> {
    downloaded + set p | p in bundled && p.name !in NamesOf(downloaded)
  }

  /** The store has p as live if it can be created and as broken otherwise, and not both. */
  predicate Holds(st: State, p: Parsed, builds: Path -> bool) {
    if p.image.Some? && builds(p.path) then
      p.name in st.live && st.live[p.name] == Package(p.path, p.image.value) && p.name !in st.broken
    else
      p.name in st.broken && st.broken[p.name] == p.path && p.name !in st.live
  }

  function BuildPaths(c: set<Parsed>): set<Path> {
    set p | p in c && p.image.Some? :: p.path
  }

  /** The store holds exactly the packages in c, and exactly those that parsed were built. */
  predicate Loaded(st: State, c: set<Parsed>, builds: Path -> bool) {
    && (forall p :: p in c ==> Holds(st, p, builds))
    && st.live.Keys + st.broken.Keys == NamesOf(c)
    && st.built == BuildPaths(c)
  }

  /** The recorded paths are exactly those of c. */
  predicate RecordedAll(st: State, c: set<Parsed>) {
    && (forall p :: p in c ==> p.name in st.bundled && st.bundled[p.name] == p.path)
    && st.bundled.Keys == NamesOf(c)
  }

  /******* The ordered load meets it *******/

  lemma LoadParsedHolds(st: State, c: set<Parsed>, p: Parsed, q: Parsed, builds: Path -> bool)
    requires Loaded(st, c, builds) && (forall x :: x in c && x.name == p.name ==> x == p)
    requires q in c + {p}
    ensures Holds(LoadParsed(st, p, builds), q, builds)
  {
    if q != p {
      assert Holds(st, q, builds) && q.name != p.name;
    } else if p in c {
      assert Holds(st, p, builds);
    } else {
      assert p.name !in NamesOf(c);
      assert p.name !in st.live.Keys + st.broken.Keys;
    }
  }

  lemma LoadParsedKeys(st: State, c: set<Parsed>, p: Parsed, builds: Path -> bool)
    requires st.live.Keys + st.broken.Keys == NamesOf(c) && st.built == BuildPaths(c)
    ensures var r := LoadParsed(st, p, builds);
            r.live.Keys + r.broken.Keys == NamesOf(c + {p}) && r.built == BuildPaths(c + {p})
  {
    assert NamesOf(c + {p}) == NamesOf(c) + {p.name};
    assert BuildPaths(c + {p}) == BuildPaths(c) + if p.image.Some? then {p.path} else {};
  }

  lemma LoadParsedStep(st: State, c: set<Parsed>, p: Parsed, builds: Path -> bool)
    requires Loaded(st, c, builds) && (forall q :: q in c && q.name == p.name ==> q == p)
    ensures Loaded(LoadParsed(st, p, builds), c + {p}, builds)
    ensures LoadParsed(st, p, builds).bundled == st.bundled && LoadParsed(st, p, builds).files == st.files
  {
    LoadParsedKeys(st, c, p, builds);
    forall q | q in c + {p} ensures Holds(LoadParsed(st, p, builds), q, builds) {
      LoadParsedHolds(st, c, p, q, builds);
    }
    hide Holds, NamesOf, BuildPaths;
  }

  lemma ElemsSplit(ps: seq<Parsed>)
    requires ps != []
    ensures Elems(ps) == Elems(Init(ps)) + {Last(ps)}
  {
    var front := Init(ps);
    assert Last(ps) == ps[|ps| - 1] && forall i :: 0 <= i < |front| ==> front[i] == ps[i];
    forall p | p in Elems(ps) ensures p in Elems(front) + {Last(ps)} {
      var i :| 0 <= i < |ps| && ps[i] == p;
      if i < |front| {
        assert front[i] == p;
      }
    }
    forall p | p in Elems(front) ensures p in Elems(ps) {
      var i :| 0 <= i < |front| && front[i] == p;
      assert ps[i] == p;
    }
  }

  lemma {:induction false} LoadAllLoaded(st: State, c: set<Parsed>, ps: seq<Parsed>, builds: Path -> bool)
    requires Loaded(st, c, builds) && Functional(c + Elems(ps))
    ensures var r := LoadAll(st, ps, builds);
            Loaded(r, c + Elems(ps), builds) && r.bundled == st.bundled && r.files == st.files
  {
    hide Loaded, LoadParsed;
    if ps == [] {
      assert c + Elems(ps) == c;
    } else {
      ElemsSplit(ps);
      var front, last := Init(ps), Last(ps);
      LoadAllLoaded(st, c, front, builds);
      LoadParsedStep(LoadAll(st, front, builds), c + Elems(front), last, builds);
      assert c + Elems(ps) == c + Elems(front) + {last};
    }
  }

  /** The part of c that a set of names does not override. */
  function Kept(c: set<Parsed>, overridden: set<string>): set<Parsed> {
    set p | p in c && p.name !in overridden
  }

  lemma LoadBundledStep(st: State, c: set<Parsed>, p: Parsed, overridden: set<string>, builds: Path -> bool)
    requires Loaded(st, Kept(c, overridden), builds) && RecordedAll(st, c)
    requires forall q :: q in c && q.name == p.name ==> q == p
    ensures var r := LoadBundledOne(st, p, overridden, builds);
            Loaded(r, Kept(c + {p}, overridden), builds) && RecordedAll(r, c + {p}) && r.files == st.files
  {
    var st1 := st.(bundled := st.bundled[p.name := p.path]);
    RecordStep(st, c, p);
    LoadedElsewhere(st, st1, Kept(c, overridden), builds);
    hide Loaded, LoadParsed, RecordedAll;
    if p.name in overridden {
      assert Kept(c + {p}, overridden) == Kept(c, overridden);
    } else {
      assert Kept(c + {p}, overridden) == Kept(c, overridden) + {p};
      LoadParsedStep(st1, Kept(c, overridden), p, builds);
      SameRecorded(st1, LoadParsed(st1, p, builds), c + {p});
    }
  }

  lemma RecordStep(st: State, c: set<Parsed>, p: Parsed)
    requires RecordedAll(st, c) && (forall q :: q in c && q.name == p.name ==> q == p)
    ensures RecordedAll(st.(bundled := st.bundled[p.name := p.path]), c + {p})
  {
    assert NamesOf(c + {p}) == NamesOf(c) + {p.name};
  }

  lemma LoadedElsewhere(st: State, st1: State, c: set<Parsed>, builds: Path -> bool)
    requires Loaded(st, c, builds) && st1.live == st.live && st1.broken == st.broken && st1.built == st.built
    ensures Loaded(st1, c, builds)
  {
    forall p | p in c ensures Holds(st1, p, builds) {
      assert Holds(st, p, builds);
    }
  }

  lemma {:induction false} LoadBundledLoaded(
    st: State, ps: seq<Parsed>, overridden: set<string>, builds: Path -> bool)
    requires st == Cleared(st) && Functional(Elems(ps))
    ensures var r := LoadBundled(st, ps, overridden, builds);
            Loaded(r, Kept(Elems(ps), overridden), builds) && RecordedAll(r, Elems(ps)) && r.files == st.files
  {
    if ps != [] {
      ElemsSplit(ps);
      hide Loaded, LoadBundledOne, RecordedAll;
      LoadBundledLoaded(st, Init(ps), overridden, builds);
      LoadBundledStep(LoadBundled(st, Init(ps), overridden, builds), Elems(Init(ps)), Last(ps), overridden, builds);
    }
  }

  /******* The refinement *******/

  /**
   * With one file per name in each directory, after a reload each parsed name has exactly one live or broken
   * entry: that of the downloaded file if there is one, else of the bundled one. Every bundled path is
   * recorded, and no overridden bundled package was built.
   */
  lemma ReloadIsOverride(cfg: Config, st: State, a: ReloadArgs)
    requires Functional(Elems(BundledParsed(cfg, st.files, a))) && Functional(Elems(DownloadedParsed(cfg, st.files, a)))
    ensures var r := Reload(cfg, st, a);
            var b, d := Elems(BundledParsed(cfg, st.files, a)), Elems(DownloadedParsed(cfg, st.files, a));
            Loaded(r, Chosen(b, d), a.builds) && RecordedAll(r, b) && r.files == st.files
  {
    var bs, ds := BundledParsed(cfg, st.files, a), DownloadedParsed(cfg, st.files, a);
    var b, d := Elems(bs), Elems(ds);
    NamesElems(ds);
    hide Loaded, RecordedAll, LoadBundled, LoadAll;
    LoadBundledLoaded(Cleared(st), bs, Names(ds), a.builds);
    var phase1 := LoadBundled(Cleared(st), bs, Names(ds), a.builds);
    assert Chosen(b, d) == Kept(b, Names(ds)) + d;
    ChosenFunctional(b, d);
    LoadAllLoaded(phase1, Kept(b, Names(ds)), ds, a.builds);
    SameRecorded(phase1, LoadAll(phase1, ds, a.builds), b);
  }

  lemma SameRecorded(st: State, r: State, c: set<Parsed>)
    requires RecordedAll(st, c) && r.bundled == st.bundled
    ensures RecordedAll(r, c)
  {
  }

  lemma NamesElems(ps: seq<Parsed>)
    ensures Names(ps) == NamesOf(Elems(ps))
  {
    forall n | n in Names(ps) ensures n in NamesOf(Elems(ps)) {
      var i :| 0 <= i < |ps| && ps[i].name == n;
      assert ps[i] in Elems(ps);
    }
  }

  lemma ChosenFunctional(b: set<Parsed>, d: set<Parsed>)
    requires Functional(b) && Functional(d)
    ensures Functional(Chosen(b, d))
  {
    forall p, q | p in Chosen(b, d) && q in Chosen(b, d) && p.name == q.name ensures p == q {
      assert p in d ==> p.name in NamesOf(d);
      assert q in d ==> q.name in NamesOf(d);
    }
  }

  /** The specification leaves no choice: it determines the whole store. */
  lemma OverrideDetermines(r: State, s: State, b: set<Parsed>, c: set<Parsed>, builds: Path -> bool)
    requires Loaded(r, c, builds) && Loaded(s, c, builds) && RecordedAll(r, b) && RecordedAll(s, b)
    requires r.files == s.files
    ensures r == s
  {
    forall n | n in r.live.Keys + r.broken.Keys
      ensures (n in r.live <==> n in s.live) && (n in r.live ==> r.live[n] == s.live[n])
      ensures (n in r.broken <==> n in s.broken) && (n in r.broken ==> r.broken[n] == s.broken[n])
    {
      var p :| p in c && p.name == n;
      assert Holds(r, p, builds) && Holds(s, p, builds);
    }
    forall n | n in s.live.Keys + s.broken.Keys ensures n in r.live.Keys + r.broken.Keys {
    }
    assert r.live == s.live && r.broken == s.broken;
    forall n | n in r.bundled ensures n in s.bundled && r.bundled[n] == s.bundled[n] {
      var p :| p in b && p.name == n;
    }
    assert r.bundled == s.bundled;
  }

  lemma {:induction false} ListingElems(cfg: Config, files: Files, dir: Path, order: seq<Path>, p: Path)
    ensures p in Listing(cfg, files, dir, order) <==> p in order && IsPackageFile(cfg, files, p) && Init(p) == dir
  {
    if order != [] {
      ListingElems(cfg, files, dir, Init(order), p);
      assert order == Init(order) + [Last(order)];
    }
  }

  lemma ParsedSameElems(files: Files, ps: seq<Path>, qs: seq<Path>, readable: Path -> bool)
    requires (forall i :: 0 <= i < |ps| ==> ps[i] != []) && (forall i :: 0 <= i < |qs| ==> qs[i] != [])
    requires forall p :: p in ps ==> p in qs
    ensures Elems(ParseAll(files, ps, readable)) <= Elems(ParseAll(files, qs, readable))
  {
    var a, b := ParseAll(files, ps, readable), ParseAll(files, qs, readable);
    forall x | x in Elems(a) ensures x in Elems(b) {
      var i :| 0 <= i < |a| && a[i] == x;
      assert ps[i] in qs;
      var j :| 0 <= j < |qs| && qs[j] == ps[i];
      assert b[j] == x;
    }
  }

  lemma ListingOrderElems(cfg: Config, files: Files, dir: Path, o1: seq<Path>, o2: seq<Path>, readable: Path -> bool)
    requires forall p :: p in o1 <==> p in o2
    ensures Elems(ParseAll(files, Listing(cfg, files, dir, o1), readable)) ==
            Elems(ParseAll(files, Listing(cfg, files, dir, o2), readable))
  {
    forall p ensures p in Listing(cfg, files, dir, o1) <==> p in Listing(cfg, files, dir, o2) {
      ListingElems(cfg, files, dir, o1, p);
      ListingElems(cfg, files, dir, o2, p);
    }
    ParsedSameElems(files, Listing(cfg, files, dir, o1), Listing(cfg, files, dir, o2), readable);
    ParsedSameElems(files, Listing(cfg, files, dir, o2), Listing(cfg, files, dir, o1), readable);
  }

  /** The order in which the directories list their entries does not matter. */
  lemma ReloadOrderIndependent(cfg: Config, st: State, a: ReloadArgs, a2: ReloadArgs)
    requires a2.readable == a.readable && a2.builds == a.builds
    requires forall p :: p in a.bundledOrder <==> p in a2.bundledOrder
    requires forall p :: p in a.downloadedOrder <==> p in a2.downloadedOrder
    requires Functional(Elems(BundledParsed(cfg, st.files, a))) && Functional(Elems(DownloadedParsed(cfg, st.files, a)))
    ensures Reload(cfg, st, a) == Reload(cfg, st, a2)
  {
    ListingOrderElems(cfg, st.files, cfg.bundledDir, a.bundledOrder, a2.bundledOrder, a.readable);
    ListingOrderElems(cfg, st.files, cfg.downloadedDir, a.downloadedOrder, a2.downloadedOrder, a.readable);
    hide Loaded, RecordedAll, Reload;
    ReloadIsOverride(cfg, st, a);
    ReloadIsOverride(cfg, st, a2);
    var b, d := Elems(BundledParsed(cfg, st.files, a)), Elems(DownloadedParsed(cfg, st.files, a));
    OverrideDetermines(Reload(cfg, st, a), Reload(cfg, st, a2), b, Chosen(b, d), a.builds);
  }

  /** After such a reload no name is both live and broken. */
  lemma ReloadDisjoint(cfg: Config, st: State, a: ReloadArgs)
    requires Functional(Elems(BundledParsed(cfg, st.files, a))) && Functional(Elems(DownloadedParsed(cfg, st.files, a)))
    ensures Disjoint(Reload(cfg, st, a))
  {
    ReloadIsOverride(cfg, st, a);
    var r := Reload(cfg, st, a);
    var b, d := Elems(BundledParsed(cfg, st.files, a)), Elems(DownloadedParsed(cfg, st.files, a));
    hide Reload;
    forall n | n in r.live.Keys + r.broken.Keys ensures !(n in r.live && n in r.broken) {
      var p :| p in Chosen(b, d) && p.name == n;
      assert Holds(r, p, a.builds);
    }
  }

  /** A reload forgets: its result depends only on the files, so reloading twice is reloading once. */
  lemma ReloadForgets(cfg: Config, st: State, a: ReloadArgs, before: ReloadArgs)
    ensures Reload(cfg, Reload(cfg, st, before), a) == Reload(cfg, st, a)
  {
    assert Placed(cfg, Reload(cfg, st, before)) && Reload(cfg, st, before).files == st.files by {
      ReloadSafe(cfg, st, before);
    }
    assert Cleared(Reload(cfg, st, before)) == Cleared(st);
  }

  /******* What becomes of each file *******/

  /** A package file directly in dir that the directory lists. */
  predicate Listed(cfg: Config, files: Files, dir: Path, order: seq<Path>, p: Path) {
    p in order && p != [] && p in files && Init(p) == dir && IsPackageName(cfg.ext, Last(p))
  }

  /** Such a file is parsed under its package's name, or under its file name if it cannot be read or verified. */
  lemma ListedParsed(cfg: Config, files: Files, dir: Path, order: seq<Path>, readable: Path -> bool, p: Path)
    requires Listed(cfg, files, dir, order, p)
    ensures (if readable(p) && files[p].Verified? then Parsed(files[p].name, p, Some(files[p]))
             else Parsed(Last(p), p, None))
            in Elems(ParseAll(files, Listing(cfg, files, dir, order), readable))
  {
    ListingElems(cfg, files, dir, order, p);
    var ps := Listing(cfg, files, dir, order);
    var i :| 0 <= i < |ps| && ps[i] == p;
    assert ParseAll(files, ps, readable)[i] in Elems(ParseAll(files, ps, readable));
  }

  /** The store has p, under its own or its file's name, as its contents and the outcome of building demand. */
  predicate FileHolds(st: State, files: Files, p: Path, readable: bool, builds: bool)
    requires p != [] && p in files
  {
    if readable && files[p].Verified? then
      var name := files[p].name;
      if builds then name in st.live && st.live[name] == Package(p, files[p]) && name !in st.broken
      else name in st.broken && st.broken[name] == p && name !in st.live
    else Last(p) in st.broken && st.broken[Last(p)] == p && Last(p) !in st.live
  }

  /** The name under which a file is known. */
  function KnownAs(files: Files, p: Path, readable: bool): string
    requires p != [] && p in files
  {
    if readable && files[p].Verified? then files[p].name else Last(p)
  }

  /**
   * With one file per name in each directory: every package file of the downloaded directory is live or broken
   * after a reload as its contents say, and so is every bundled one that no downloaded one has the name of;
   * every bundled path is recorded.
   */
  lemma FilesLoaded(cfg: Config, st: State, a: ReloadArgs, p: Path)
    requires Functional(Elems(BundledParsed(cfg, st.files, a)))
    requires Functional(Elems(DownloadedParsed(cfg, st.files, a)))
    ensures var r := Reload(cfg, st, a);
            && (Listed(cfg, st.files, cfg.downloadedDir, a.downloadedOrder, p) ==>
                  FileHolds(r, st.files, p, a.readable(p), a.builds(p)))
            && (Listed(cfg, st.files, cfg.bundledDir, a.bundledOrder, p) ==>
                  var name := KnownAs(st.files, p, a.readable(p));
                  && name in r.bundled && r.bundled[name] == p
                  && (name !in Names(DownloadedParsed(cfg, st.files, a)) ==>
                        FileHolds(r, st.files, p, a.readable(p), a.builds(p))))
  {
    ReloadIsOverride(cfg, st, a);
    NamesElems(DownloadedParsed(cfg, st.files, a));
    hide Reload, Functional, IsPackageName;
    if Listed(cfg, st.files, cfg.downloadedDir, a.downloadedOrder, p) {
      ListedParsed(cfg, st.files, cfg.downloadedDir, a.downloadedOrder, a.readable, p);
    }
    if Listed(cfg, st.files, cfg.bundledDir, a.bundledOrder, p) {
      ListedParsed(cfg, st.files, cfg.bundledDir, a.bundledOrder, a.readable, p);
    }
  }

  /******* Several files of one name *******/

  function LastNamed(ps: seq<Parsed>, n: string): (r: Option<Parsed>)
    ensures r.Some? ==> r.value in ps && r.value.name == n
    ensures r.None? ==> n !in Names(ps)
  {
    if ps == [] then None
    else
      assert ps == Init(ps) + [Last(ps)];
      if Last(ps).name == n then Some(Last(ps)) else LastNamed(Init(ps), n)
  }

  /** The last package of that name that can be created. */
  function LastCreated(ps: seq<Parsed>, n: string, builds: Path -> bool): (r: Option<Parsed>)
    ensures r.Some? ==> r.value in ps && r.value.name == n && Creates(r.value, builds)
  {
    if ps == [] then None
    else
      assert ps == Init(ps) + [Last(ps)];
      if Last(ps).name == n && Creates(Last(ps), builds) then Some(Last(ps)) else LastCreated(Init(ps), n, builds)
  }

  lemma {:induction false} LastOneCreates(ps: seq<Parsed>, n: string, builds: Path -> bool)
    requires LastNamed(ps, n).Some? && Creates(LastNamed(ps, n).value, builds)
    ensures LastCreated(ps, n, builds) == LastNamed(ps, n)
  {
    if Last(ps).name != n {
      LastOneCreates(Init(ps), n, builds);
    }
  }

  /** After phase 1: the recorded path is the last one listed, the live package the last one that was created. */
  lemma {:induction false} LoadBundledLast(
    st: State, ps: seq<Parsed>, overridden: set<string>, builds: Path -> bool, n: string)
    requires st == Cleared(st)
    ensures var r := LoadBundled(st, ps, overridden, builds);
            && (n in r.bundled <==> LastNamed(ps, n).Some?)
            && (n in r.bundled ==> r.bundled[n] == LastNamed(ps, n).value.path)
            && (n in r.live <==> n !in overridden && LastCreated(ps, n, builds).Some?)
            && (n in r.live ==> r.live[n].path == LastCreated(ps, n, builds).value.path)
  {
    if ps != [] {
      LoadBundledLast(st, Init(ps), overridden, builds, n);
      hide LastNamed, LastCreated, LoadBundledOne;
      RecordedStep(LoadBundled(st, Init(ps), overridden, builds), ps, overridden, builds, n);
      LiveStep(LoadBundled(st, Init(ps), overridden, builds), ps, overridden, builds, n);
    }
  }

  lemma RecordedStep(
    st: State, ps: seq<Parsed>, overridden: set<string>, builds: Path -> bool, n: string)
    requires ps != []
    requires (n in st.bundled <==> LastNamed(Init(ps), n).Some?)
             && (n in st.bundled ==> st.bundled[n] == LastNamed(Init(ps), n).value.path)
    ensures var r := LoadBundledOne(st, Last(ps), overridden, builds);
            && (n in r.bundled <==> LastNamed(ps, n).Some?)
            && (n in r.bundled ==> r.bundled[n] == LastNamed(ps, n).value.path)
  {
    var last := Last(ps);
    LoadParsedKeeps(st.(bundled := st.bundled[last.name := last.path]), last, builds);
    hide LoadParsed;
  }

  lemma LoadParsedKeeps(st: State, p: Parsed, builds: Path -> bool)
    ensures LoadParsed(st, p, builds).bundled == st.bundled
  {
  }

  lemma LiveStep(
    st: State, ps: seq<Parsed>, overridden: set<string>, builds: Path -> bool, n: string)
    requires ps != []
    requires (n in st.live <==> n !in overridden && LastCreated(Init(ps), n, builds).Some?)
             && (n in st.live ==> st.live[n].path == LastCreated(Init(ps), n, builds).value.path)
    ensures var r := LoadBundledOne(st, Last(ps), overridden, builds);
            && (n in r.live <==> n !in overridden && LastCreated(ps, n, builds).Some?)
            && (n in r.live ==> r.live[n].path == LastCreated(ps, n, builds).value.path)
  {
    hide LastNamed;
  }

  /** Phase 2 leaves the other names alone, and what it makes live comes from ps. */
  lemma {:induction false} LoadAllElsewhere(st: State, ps: seq<Parsed>, builds: Path -> bool, n: string)
    ensures var r := LoadAll(st, ps, builds);
            && r.bundled == st.bundled
            && (n !in Names(ps) ==> (n in r.live <==> n in st.live) && (n in r.live ==> r.live[n] == st.live[n]))
            && (n in r.live && n !in st.live ==> exists i :: 0 <= i < |ps| && ps[i].path == r.live[n].path)
  {
    if ps != [] {
      var front := Init(ps);
      assert forall i :: 0 <= i < |front| ==> front[i] == ps[i];
      assert Last(ps) == ps[|ps| - 1] && Last(ps).name in Names(ps);
      assert n !in Names(ps) ==> n !in Names(front) by {
        if n in Names(front) {
          var i :| 0 <= i < |front| && front[i].name == n;
          assert ps[i].name == n;
        }
      }
      LoadAllElsewhere(st, front, builds, n);
    }
  }

  /**
   * Every bundled name without a downloaded counterpart, of which some file can be created, has a last
   * listed file that can be created.
   */
  predicate LastOnesCreate(bundled: seq<Parsed>, overridden: set<string>, builds: Path -> bool) {
    forall n :: n in Names(bundled) && n !in overridden && LastCreated(bundled, n, builds).Some? ==>
      LastNamed(bundled, n).Some? && Creates(LastNamed(bundled, n).value, builds)
  }

  /** Of one listing: the last created package is at the path of the last listed one iff that one is created. */
  lemma LastPaths(files: Files, ps: seq<Path>, readable: Path -> bool, builds: Path -> bool, n: string)
    requires forall i :: 0 <= i < |ps| ==> ps[i] != []
    requires LastCreated(ParseAll(files, ps, readable), n, builds).Some?
    ensures var b := ParseAll(files, ps, readable);
            && n in Names(b) && LastNamed(b, n).Some?
            && LastCreated(b, n, builds).value.path in ps
            && (LastNamed(b, n).value.path == LastCreated(b, n, builds).value.path <==>
                Creates(LastNamed(b, n).value, builds))
  {
    hide LastNamed, LastCreated;
    var b := ParseAll(files, ps, readable);
    var created := LastCreated(b, n, builds).value;
    var i :| 0 <= i < |b| && b[i] == created;
    assert b[i].name in Names(b);
    var last := LastNamed(b, n).value;
    var j :| 0 <= j < |b| && b[j] == last;
    if Creates(last, builds) {
      LastOneCreates(b, n, builds);
    }
  }

  lemma PhasesAt(b: seq<Parsed>, d: seq<Parsed>, st: State, builds: Path -> bool, n: string)
    requires st == Cleared(st)
    ensures var r := LoadAll(LoadBundled(st, b, Names(d), builds), d, builds);
            && (n in Names(d) && n in r.live ==> exists i :: 0 <= i < |d| && d[i].path == r.live[n].path)
            && (n in r.bundled <==> LastNamed(b, n).Some?)
            && (n in r.bundled ==> r.bundled[n] == LastNamed(b, n).value.path)
            && (n !in Names(d) ==>
                  && (n in r.live <==> LastCreated(b, n, builds).Some?)
                  && (n in r.live ==> r.live[n].path == LastCreated(b, n, builds).value.path))
  {
    hide LoadBundled, LoadAll, LastNamed, LastCreated, Names;
    LoadBundledLast(st, b, Names(d), builds, n);
    LoadAllElsewhere(LoadBundled(st, b, Names(d), builds), d, builds, n);
  }

  lemma OwnedAt(cfg: Config, st: State, a: ReloadArgs, n: string)
    requires cfg.bundledDir != cfg.downloadedDir
    ensures var r := Reload(cfg, st, a);
            var b, d := BundledParsed(cfg, st.files, a), DownloadedParsed(cfg, st.files, a);
            && (n in Names(d) && n in r.live ==> Parent(r.live[n].path) == Some(cfg.downloadedDir))
            && (n !in Names(d) ==>
                  && (n in r.live <==> LastCreated(b, n, a.builds).Some?)
                  && (n in r.live ==>
                        && Parent(r.live[n].path) == Some(cfg.bundledDir)
                        && n in Names(b) && LastNamed(b, n).Some? && n in r.bundled
                        && (r.bundled[n] == r.live[n].path <==> Creates(LastNamed(b, n).value, a.builds))))
  {
    var b, d := BundledParsed(cfg, st.files, a), DownloadedParsed(cfg, st.files, a);
    PhasesAt(b, d, Cleared(st), a.builds, n);
    hide LoadBundled, LoadAll, LastNamed, LastCreated, Names, Listing;
    if LastCreated(b, n, a.builds).Some? {
      LastPaths(st.files, Listing(cfg, st.files, cfg.bundledDir, a.bundledOrder), a.readable, a.builds, n);
    }
  }

  /** Exactly when every live package of a reload is at its recorded bundled path or in the downloaded directory. */
  lemma ReloadOwnedIff(cfg: Config, st: State, a: ReloadArgs)
    requires cfg.bundledDir != cfg.downloadedDir
    ensures Owned(cfg, Reload(cfg, st, a)) <==>
            LastOnesCreate(BundledParsed(cfg, st.files, a), Names(DownloadedParsed(cfg, st.files, a)), a.builds)
  {
    var r := Reload(cfg, st, a);
    var b, d := BundledParsed(cfg, st.files, a), DownloadedParsed(cfg, st.files, a);
    hide Reload, Names, BundledParsed, DownloadedParsed, LastNamed, LastCreated;
    forall n
      ensures n in Names(d) && n in r.live ==> Parent(r.live[n].path) == Some(cfg.downloadedDir)
      ensures n !in Names(d) ==>
                && (n in r.live <==> LastCreated(b, n, a.builds).Some?)
                && (n in r.live ==>
                      && Parent(r.live[n].path) == Some(cfg.bundledDir)
                      && n in Names(b) && LastNamed(b, n).Some? && n in r.bundled
                      && (r.bundled[n] == r.live[n].path <==> Creates(LastNamed(b, n).value, a.builds)))
    {
      OwnedAt(cfg, st, a, n);
    }
  }

  /** The arguments of a reload that lists p before q, reads both, and can build only p. */
  function FirstOnlyBuilds(p: Path, q: Path): ReloadArgs {
    ReloadArgs([p, q], [], _ => true, x => x == p)
  }

  /** Two bundled files with the same package, of which only the first listed one builds, break it. */
  lemma DuplicateNamesBreakOwned(cfg: Config, p: Path, q: Path, image: Image)
    requires cfg.bundledDir != cfg.downloadedDir && image.Verified? && p != q
    requires Parent(p) == Some(cfg.bundledDir) && IsPackageName(cfg.ext, Last(p))
    requires Parent(q) == Some(cfg.bundledDir) && IsPackageName(cfg.ext, Last(q))
    ensures !Owned(cfg, Reload(cfg, Initial(map[p := image, q := image]), FirstOnlyBuilds(p, q)))
  {
    var st, a := Initial(map[p := image, q := image]), FirstOnlyBuilds(p, q);
    var first, second := Parsed(image.name, p, Some(image)), Parsed(image.name, q, Some(image));
    hide IsPackageName;
    ListingOfTwo(cfg, st.files, p, q);
    var b := BundledParsed(cfg, st.files, a);
    assert b == [first, second];
    assert Init(b) == [first] && Last(b) == second && Last([first]) == first;
    assert DownloadedParsed(cfg, st.files, a) == [];
    assert LastNamed(b, image.name) == Some(second);
    assert LastCreated(b, image.name, a.builds) == LastCreated(Init(b), image.name, a.builds) == Some(first);
    assert b[0].name in Names(b);
    hide Reload;
    ReloadOwnedIff(cfg, st, a);
  }

  lemma ListingOfTwo(cfg: Config, files: Files, p: Path, q: Path)
    requires IsPackageFile(cfg, files, p) && IsPackageFile(cfg, files, q)
    requires Init(p) == cfg.bundledDir == Init(q)
    ensures Listing(cfg, files, cfg.bundledDir, [p, q]) == [p, q]
    ensures Listing(cfg, files, cfg.downloadedDir, []) == []
  {
    hide IsPackageFile;
    assert Init([p, q]) == [p] && Last([p, q]) == q && Init([p]) == [] && Last([p]) == p;
    assert Listing(cfg, files, cfg.bundledDir, []) == [];
    assert Listing(cfg, files, cfg.bundledDir, [p]) == [p];
  }
}
