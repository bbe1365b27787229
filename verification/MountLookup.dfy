/** Finding the mount that holds a path (ssamd/src/mount.rs, findmnt_impl and is_exact_mount). */
module MountLookup {
  import opened Wrappers

  /** A canonical absolute path by its components; [] is the root directory. */
  type Canonical = seq<string>

  /** canonicalize, falling back to the raw path. */
  type Canonicalize = string -> Canonical

  ghost predicate ProducesPaths(canon: Canonicalize) {
    forall raw :: IsPath(canon(raw))
  }

  predicate IsPath(p: Canonical) {
    forall i :: 0 <= i < |p| ==> p[i] != ""
  }

  /** Length of the path as a string. */
  function Length(p: Canonical): nat {
    if p == [] then 1 else BodyLength(p)
  }

  function BodyLength(p: Canonical): nat {
    if p == [] then 0 else BodyLength(Init(p)) + 1 + |Last(p)|
  }

  /** The last of the longest mount points that are component prefixes of the target (max_by_key). */
  function BestMatch(mounts: seq<string>, canon: Canonicalize, target: Canonical): (r: Option<string>)
    ensures r.Some? ==> r.value in mounts && canon(r.value) <= target
  {
    if mounts == [] then None
    else
      var best := BestMatch(Init(mounts), canon, target);
      if canon(Last(mounts)) <= target &&
         (best.None? || Length(canon(Last(mounts))) >= Length(canon(best.value)))
      then Some(Last(mounts))
      else best
  }

  /** findmnt_impl; mounts is None if the mount table cannot be read. */
  function FindMount(isDir: bool, mounts: Option<seq<string>>, canon: Canonicalize, target: string): Option<string> {
    if !isDir || mounts.None? then None else BestMatch(mounts.value, canon, canon(target))
  }

  function IsExactMount(isDir: bool, mounts: Option<seq<string>>, canon: Canonicalize, mountPoint: string): bool {
    match FindMount(isDir, mounts, canon, mountPoint)
    case Some(found) => canon(found) == canon(mountPoint)
    case None => false
  }

  lemma {:induction false} PrefixLonger(p: Canonical, q: Canonical)
    requires p <= q && IsPath(q)
    ensures BodyLength(p) + 2 * (|q| - |p|) <= BodyLength(q)
    decreases |q|
  {
    if |p| < |q| {
      assert p <= Init(q);
      PrefixLonger(p, Init(q));
    } else {
      assert p == q;
    }
  }

  /** Of two prefixes of one path, the one with the longer string is the deeper one. */
  lemma LongerIsDeeper(p: Canonical, q: Canonical, target: Canonical)
    requires p <= target && q <= target && IsPath(target)
    ensures Length(p) >= Length(q) <==> q <= p
  {
    if |p| == |q| {
      assert p == target[..|p|] == q;
    } else if |p| < |q| {
      assert p <= q && IsPath(q);
      PrefixLonger(p, q);
    } else {
      assert q <= p && IsPath(p);
      PrefixLonger(q, p);
    }
  }

  /** The match is the deepest mount above the target: every other mount above the target is above it. */
  lemma {:induction false} BestMatchDeepest(mounts: seq<string>, canon: Canonicalize, target: Canonical)
    requires IsPath(target)
    ensures BestMatch(mounts, canon, target).None? <==> forall e :: e in mounts ==> !(canon(e) <= target)
    ensures BestMatch(mounts, canon, target).Some? ==>
              forall e :: e in mounts && canon(e) <= target ==>
                            canon(e) <= canon(BestMatch(mounts, canon, target).value)
  {
    if mounts != [] {
      var last := Last(mounts);
      var best := BestMatch(Init(mounts), canon, target);
      BestMatchDeepest(Init(mounts), canon, target);
      assert forall e :: e in mounts <==> e in Init(mounts) || e == last;
      if canon(last) <= target && best.Some? {
        LongerIsDeeper(canon(last), canon(best.value), target);
      }
    }
  }

  /** Entry i is above the target, every entry above the target is above it, and it is the last for its place. */
  ghost predicate DeepestAt(mounts: seq<string>, canon: Canonicalize, target: Canonical, i: nat) {
    && i < |mounts| && canon(mounts[i]) <= target
    && (forall j :: 0 <= j < |mounts| && canon(mounts[j]) <= target ==> canon(mounts[j]) <= canon(mounts[i]))
    && forall j :: i < j < |mounts| ==> canon(mounts[j]) != canon(mounts[i])
  }

  lemma {:induction false} BestMatchIsDeepest(mounts: seq<string>, canon: Canonicalize, target: Canonical)
    requires IsPath(target) && BestMatch(mounts, canon, target).Some?
    ensures exists i: nat :: DeepestAt(mounts, canon, target, i) && BestMatch(mounts, canon, target) == Some(mounts[i])
  {
    var front, last := Init(mounts), Last(mounts);
    var best := BestMatch(mounts, canon, target).value;
    BestMatchDeepest(mounts, canon, target);
    if canon(last) <= target && canon(best) == canon(last) {
      LastWins(mounts, canon, target);
      hide BestMatch;
      AtEntries(mounts, canon, target, |front|);
    } else {
      assert BestMatch(front, canon, target) == Some(best);
      hide BestMatch;
      BestMatchIsDeepest(front, canon, target);
      var i: nat :| DeepestAt(front, canon, target, i) && best == front[i];
      assert mounts[i] == front[i];
      AtEntries(mounts, canon, target, i);
    }
  }

  lemma LastWins(mounts: seq<string>, canon: Canonicalize, target: Canonical)
    requires mounts != [] && canon(Last(mounts)) <= target && BestMatch(mounts, canon, target).Some?
    requires canon(BestMatch(mounts, canon, target).value) == canon(Last(mounts))
    ensures BestMatch(mounts, canon, target) == Some(Last(mounts))
  {
  }

  lemma AtEntries(mounts: seq<string>, canon: Canonicalize, target: Canonical, i: nat)
    requires i < |mounts| && canon(mounts[i]) <= target
    requires forall e :: e in mounts && canon(e) <= target ==> canon(e) <= canon(mounts[i])
    requires forall j :: i < j < |mounts| ==> canon(mounts[j]) != canon(mounts[i])
    ensures DeepestAt(mounts, canon, target, i)
  {
  }

  /**
   * The lookup finds entry r exactly when the target is a directory, the table can be read, and r is the last
   * entry for the deepest mounted place above the target; it finds nothing exactly when there is none.
   */
  lemma FindMountIff(isDir: bool, mounts: Option<seq<string>>, canon: Canonicalize, target: string, r: string)
    requires ProducesPaths(canon)
    ensures FindMount(isDir, mounts, canon, target) == Some(r) <==>
            isDir && mounts.Some? &&
            exists i: nat :: DeepestAt(mounts.value, canon, canon(target), i) && r == mounts.value[i]
    ensures FindMount(isDir, mounts, canon, target).None? <==>
            isDir && mounts.Some? ==> forall e :: e in mounts.value ==> !(canon(e) <= canon(target))
  {
    var t := canon(target);
    assert IsPath(t);
    if isDir && mounts.Some? {
      var ms := mounts.value;
      BestMatchDeepest(ms, canon, t);
      if BestMatch(ms, canon, t).Some? {
        BestMatchIsDeepest(ms, canon, t);
        var i: nat :| DeepestAt(ms, canon, t, i) && BestMatch(ms, canon, t) == Some(ms[i]);
        forall j: nat | DeepestAt(ms, canon, t, j) ensures j == i {
          assert canon(ms[i]) <= canon(ms[j]) && canon(ms[j]) <= canon(ms[i]);
          assert canon(ms[i]) == canon(ms[j]);
        }
      }
    }
  }

  /** A directory is an exact mount point iff the table can be read and has an entry for the same place. */
  lemma ExactMountIff(isDir: bool, mounts: Option<seq<string>>, canon: Canonicalize, mountPoint: string)
    requires ProducesPaths(canon)
    ensures IsExactMount(isDir, mounts, canon, mountPoint) <==>
            isDir && mounts.Some? && exists e :: e in mounts.value && canon(e) == canon(mountPoint)
  {
    var target := canon(mountPoint);
    assert IsPath(target);
    if mounts.Some? {
      BestMatchDeepest(mounts.value, canon, target);
      if e :| e in mounts.value && canon(e) == target {
        assert canon(e) <= target;
      }
    }
  }

  /** The entries of the table at a place. */
  function EntriesAt(mounts: seq<string>, canon: Canonicalize, place: Canonical): nat {
    if mounts == [] then 0 else EntriesAt(Init(mounts), canon, place) + if canon(Last(mounts)) == place then 1 else 0
  }

  /** With a readable table, the gate says "mounted" exactly when at least one layer is mounted there. */
  lemma ExactMountMeansLayers(mounts: seq<string>, canon: Canonicalize, mountPoint: string)
    requires ProducesPaths(canon)
    ensures IsExactMount(true, Some(mounts), canon, mountPoint) <==> EntriesAt(mounts, canon, canon(mountPoint)) > 0
  {
    ExactMountIff(true, Some(mounts), canon, mountPoint);
    EntriesExist(mounts, canon, canon(mountPoint));
  }

  lemma {:induction false} EntriesExist(mounts: seq<string>, canon: Canonicalize, place: Canonical)
    ensures EntriesAt(mounts, canon, place) > 0 <==> exists e :: e in mounts && canon(e) == place
  {
    if mounts != [] {
      EntriesExist(Init(mounts), canon, place);
      assert forall e :: e in mounts <==> e in Init(mounts) || e == Last(mounts);
      assert Last(mounts) in mounts;
    }
  }
}
