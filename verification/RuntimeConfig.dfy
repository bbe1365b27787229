/** The OCI runtime configuration of a package (ssamd/src/executor.rs): bind mounts and the network namespace. */
module RuntimeConfig {
  import opened Wrappers
  import opened Strings
  import opened Paths

  datatype Mount = Mount(source: seq<Component>, destination: seq<Component>)

  /** strip_prefix("/"), or the path itself. */
  function Relative(dir: string): seq<Component> {
    var cs := Components(dir);
    if cs != [] && cs[0] == RootDir then cs[1..] else cs
  }

  /** None is the "escapes root" error. */
  function BindMount(root: seq<Component>, dir: string): Option<Mount> {
    var relative := Relative(dir);
    if SafeRelative(relative) then Some(Mount(root + relative, [RootDir] + relative)) else None
  }

  /** make_bind_mounts: collecting stops at the first error. */
  function MakeBindMounts(root: seq<Component>, dirs: seq<string>): Option<seq<Mount>> {
    if dirs == [] then Some([])
    else
      match BindMount(root, dirs[0])
      case None => None
      case Some(m) =>
        match MakeBindMounts(root, dirs[1..])
        case None => None
        case Some(ms) => Some([m] + ms)
  }

  /** The mount maps a place below the package root to the same place below the container root. */
  ghost predicate Confined(root: seq<Component>, dir: string, m: Mount) {
    exists segs: seq<Component> :: IsConfinedBy(root, dir, m, segs)
  }

  ghost predicate IsConfinedBy(root: seq<Component>, dir: string, m: Mount, segs: seq<Component>) {
    && SafeRelative(segs)
    && m.source == root + segs && m.destination == [RootDir] + segs
    && Resolve(m.source) == Resolve(root) + Segments(segs)
    && Resolve(m.destination) == Segments(segs)
    && (Components(dir) == segs || Components(dir) == [RootDir] + segs)
  }

  lemma BindMountConfined(root: seq<Component>, dir: string)
    ensures BindMount(root, dir).Some? <==> SafeRelative(Relative(dir))
    ensures BindMount(root, dir).Some? ==> Confined(root, dir, BindMount(root, dir).value)
  {
    var segs := Relative(dir);
    if SafeRelative(segs) {
      PlainStaysBelow(root, segs);
      PlainStaysBelow([RootDir], segs);
      assert Init([RootDir]) == [];
      assert Resolve([RootDir]) == [];
      var cs := Components(dir);
      assert cs != [] && cs[0] == RootDir ==> cs == [RootDir] + cs[1..];
      assert IsConfinedBy(root, dir, BindMount(root, dir).value, segs);
    }
  }

  /** Which data directories are accepted, in terms of the text. */
  lemma BindMountIff(root: seq<Component>, dir: string)
    ensures var pieces := Split(dir, '/');
            BindMount(root, dir).Some? <==>
            && NUL !in dir && ".." !in pieces && ("/" <= dir || pieces[0] != ".")
            && exists i :: 0 <= i < |pieces| && pieces[i] != "" && pieces[i] != "."
  {
    BindMountConfined(root, dir);
    var pieces := Split(dir, '/');
    if "/" <= dir {
      assert Relative(dir) == Pieces(pieces, false);
    } else {
      FirstPiece(dir);
      assert Relative(dir) == Components(dir) == Pieces(pieces, true);
    }
    PiecesSafeIff(pieces, !("/" <= dir));
    SplitKeeps(dir, '/', NUL);
  }

  /** Either every data directory is safe and there is one confined mount each, in order, or there are none. */
  lemma {:induction false} BindMountsConfined(root: seq<Component>, dirs: seq<string>)
    ensures MakeBindMounts(root, dirs).Some? <==> forall i :: 0 <= i < |dirs| ==> SafeRelative(Relative(dirs[i]))
    ensures MakeBindMounts(root, dirs).Some? ==>
              var ms := MakeBindMounts(root, dirs).value;
              |ms| == |dirs| && forall i :: 0 <= i < |dirs| ==> Confined(root, dirs[i], ms[i])
  {
    hide Relative, SafeRelative, Confined, BindMount;
    if dirs != [] {
      BindMountConfined(root, dirs[0]);
      BindMountsConfined(root, dirs[1..]);
      assert forall i :: 1 <= i < |dirs| ==> dirs[i] == dirs[1..][i - 1];
      assert forall i :: 0 <= i < |dirs[1..]| ==> dirs[1..][i] == dirs[i + 1];
    }
  }

  datatype NetworkMode = Host | NoNetwork | Bridge | Netns(path: string)

  datatype NamespaceKind = NetworkNs | OtherNs(name: string)

  datatype Namespace = Namespace(kind: NamespaceKind, path: Option<string>)

  /** What survives retain(typ != Network). */
  function WithoutNetwork(ns: seq<Namespace>): seq<Namespace> {
    if ns == [] then []
    else WithoutNetwork(Init(ns)) + if Last(ns).kind == NetworkNs then [] else [Last(ns)]
  }

  /** The network namespace entry for a mode, or None if the mode cannot be set up. */
  function NetworkEntry(
    mode: NetworkMode, bridgePath: Option<string>, isNetns: string -> bool): Option<seq<Namespace>> {
    match mode
    case Host => Some([])
    case NoNetwork => Some([Namespace(NetworkNs, None)])
    case Bridge => if bridgePath.Some? then Some([Namespace(NetworkNs, bridgePath)]) else None
    case Netns(path) => if isNetns(path) then Some([Namespace(NetworkNs, Some(path))]) else None
  }

  /** The parts of the OCI specification that are edited in place. */
  class Spec {
    var mounts: Option<seq<Mount>>
    var namespaces: seq<Namespace>

    constructor (mounts: Option<seq<Mount>>, namespaces: seq<Namespace>)
      ensures this.mounts == mounts && this.namespaces == namespaces
    {
      this.mounts, this.namespaces := mounts, namespaces;
    }

    /** append_mount: a specification without a mount list stays without one. */
    method AppendMount(m: Mount)
      modifies this`mounts
      ensures mounts == if old(mounts).Some? then Some(old(mounts).value + [m]) else None
    {
      if mounts.Some? {
        mounts := Some(mounts.value + [m]);
      }
    }

    /** The data mount step of TransientRuntimeConfig::new: all bind mounts are appended, or none. */
    method AppendDataMounts(root: seq<Component>, dirs: seq<string>)
      modifies this`mounts
      ensures MakeBindMounts(root, dirs).None? ==> mounts == old(mounts)
      ensures old(mounts).None? ==> mounts.None?
      ensures MakeBindMounts(root, dirs).Some? && old(mounts).Some? ==>
                mounts == Some(old(mounts).value + MakeBindMounts(root, dirs).value)
    {
      hide MakeBindMounts;
      var bind := MakeBindMounts(root, dirs);
      if bind.Some? {
        var ms := bind.value;
        assert old(mounts).Some? ==> old(mounts).value + ms[..0] == old(mounts).value;
        for i := 0 to |ms|
          invariant mounts.Some? == old(mounts).Some?
          invariant mounts.Some? ==> mounts.value == old(mounts).value + ms[..i]
        {
          AppendMount(ms[i]);
          assert ms[..i + 1] == ms[..i] + [ms[i]];
        }
        assert ms[..|ms|] == ms;
      }
    }

    /** configure_network_namespace: existing network entries go first, even if the mode then fails. */
    method ConfigureNetworkNamespace(mode: NetworkMode, bridgePath: Option<string>, isNetns: string -> bool)
      returns (ok: bool)
      modifies this`namespaces
      ensures ok == NetworkEntry(mode, bridgePath, isNetns).Some?
      ensures namespaces == WithoutNetwork(old(namespaces)) +
                            if ok then NetworkEntry(mode, bridgePath, isNetns).value else []
    {
      var kept: seq<Namespace> := [];
      for i := 0 to |namespaces|
        invariant kept == WithoutNetwork(namespaces[..i])
        invariant namespaces == old(namespaces)
      {
        assert Init(namespaces[..i + 1]) == namespaces[..i] && Last(namespaces[..i + 1]) == namespaces[i];
        if namespaces[i].kind != NetworkNs {
          kept := kept + [namespaces[i]];
        }
      }
      assert namespaces[..|namespaces|] == namespaces;
      namespaces := kept;
      match mode
      case Host => return true;
      case NoNetwork =>
        namespaces := namespaces + [Namespace(NetworkNs, None)];
        return true;
      case Bridge =>
        if bridgePath.None? {
          return false;
        }
        namespaces := namespaces + [Namespace(NetworkNs, bridgePath)];
        return true;
      case Netns(path) =>
        if !isNetns(path) {
          return false;
        }
        namespaces := namespaces + [Namespace(NetworkNs, Some(path))];
        return true;
    }
  }

  function CountNetwork(ns: seq<Namespace>): nat {
    if ns == [] then 0 else CountNetwork(Init(ns)) + if Last(ns).kind == NetworkNs then 1 else 0
  }

  lemma {:induction false} NoNetworkLeft(ns: seq<Namespace>)
    ensures CountNetwork(WithoutNetwork(ns)) == 0
  {
    if ns != [] {
      NoNetworkLeft(Init(ns));
      var kept := WithoutNetwork(Init(ns));
      if Last(ns).kind != NetworkNs {
        assert Init(kept + [Last(ns)]) == kept;
      } else {
        assert kept + [] == kept;
      }
    }
  }

  /** The positions of the network entries. */
  function NetworkAt(ns: seq<Namespace>): set<nat> {
    set i: nat | i < |ns| && ns[i].kind == NetworkNs
  }

  lemma {:induction false} NetworkCounted(ns: seq<Namespace>)
    ensures CountNetwork(ns) == |NetworkAt(ns)| && |WithoutNetwork(ns)| == |ns| - |NetworkAt(ns)|
  {
    if ns != [] {
      NetworkCounted(Init(ns));
      assert NetworkAt(ns) == NetworkAt(Init(ns)) + if Last(ns).kind == NetworkNs then {|ns| - 1} else {};
    }
  }

  /** Every other namespace is kept, in order: it moves up by the number of network entries before it. */
  lemma {:induction false} NamespacePlaced(ns: seq<Namespace>, i: nat)
    requires i < |ns| && ns[i].kind != NetworkNs
    ensures |WithoutNetwork(ns)| == |ns| - |NetworkAt(ns)|
    ensures var p := i - |NetworkAt(ns[..i])|; 0 <= p < |WithoutNetwork(ns)| && WithoutNetwork(ns)[p] == ns[i]
    decreases |ns|
  {
    NetworkCounted(ns);
    NetworkCounted(ns[..i]);
    if i < |ns| - 1 {
      NamespacePlaced(Init(ns), i);
      assert Init(ns)[..i] == ns[..i];
    } else {
      assert Init(ns) == ns[..i];
    }
  }

  /** The entry that a mode adds, and when the mode cannot be set up. */
  lemma NetworkEntryMeans(ns: seq<Namespace>, mode: NetworkMode, bridgePath: Option<string>, isNetns: string -> bool)
    ensures var entry := NetworkEntry(mode, bridgePath, isNetns);
            && (entry.None? <==> (mode == Bridge && bridgePath.None?) || (mode.Netns? && !isNetns(mode.path)))
            && (entry == Some([]) <==> mode == Host)
            && (entry == Some([Namespace(NetworkNs, None)]) <==> mode == NoNetwork)
            && (forall path :: entry == Some([Namespace(NetworkNs, Some(path))]) <==>
                  (mode == Bridge && bridgePath == Some(path)) || (mode == Netns(path) && isNetns(path)))
            && (entry.Some? ==> |entry.value| <= 1)
  {
    var path :| mode.Bridge? && bridgePath.Some? ==> bridgePath == Some(path);
    if NetworkEntry(mode, bridgePath, isNetns).Some? && |NetworkEntry(mode, bridgePath, isNetns).value| == 1 {
      var entry := NetworkEntry(mode, bridgePath, isNetns).value;
      assert forall n :: entry == [n] <==> entry[0] == n;
    }
  }

  /** Whatever the template declared, the container ends with one network namespace, or none in host mode. */
  lemma OneNetworkNamespace(ns: seq<Namespace>, mode: NetworkMode, bridgePath: Option<string>, isNetns: string -> bool)
    requires NetworkEntry(mode, bridgePath, isNetns).Some?
    ensures CountNetwork(WithoutNetwork(ns) + NetworkEntry(mode, bridgePath, isNetns).value) ==
            if mode.Host? then 0 else 1
  {
    NoNetworkLeft(ns);
    var entry := NetworkEntry(mode, bridgePath, isNetns).value;
    if mode.Host? {
      assert WithoutNetwork(ns) + entry == WithoutNetwork(ns);
    } else {
      assert Init(WithoutNetwork(ns) + entry) == WithoutNetwork(ns);
      assert Last(WithoutNetwork(ns) + entry) == entry[0];
    }
  }
}
