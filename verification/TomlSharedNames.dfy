/** Tables of one name share a struct in the TOML macro's output: exactly when that does no harm. */
module TomlSharedNames {
  import opened Wrappers
  import opened TomlCompiler
  import opened TomlCompilerProofs

  /******* Which table a struct comes from *******/

  /** A table and its dotted path. */
  datatype Source = Source(entries: seq<Entry>, dotted: string)

  /** The last table named name whose struct is emitted for v: a table comes after the tables inside it. */
  function LastIn(v: Toml, key: string, prefix: string, name: string): Option<Source>
    decreases v, 1
  {
    match v
    case Arr(elems) => if elems == [] then None else LastIn(elems[0], key, prefix, name)
    case Table(entries) =>
      if key == name then Some(Source(entries, Child(prefix, key)))
      else LastInEntries(entries, Child(prefix, key), name)
    case _ => None
  }

  function LastInEntries(entries: seq<Entry>, prefix: string, name: string): Option<Source>
    decreases entries, 0
  {
    if entries == [] then None
    else
      var last := LastIn(Last(entries).val, Last(entries).key, prefix, name);
      if last.Some? then last else LastInEntries(Init(entries), prefix, name)
  }

  /** In the whole program; the root struct is emitted last of all. */
  function LastTable(entries: seq<Entry>, root: string, name: string): Option<Source> {
    if name == root then Some(Source(entries, root)) else LastInEntries(entries, root, name)
  }

  /** The source can be compiled. */
  predicate Sound(camel: Camel, src: Source) {
    CompilesEntries(camel, src.entries) && IsTable(src.entries)
  }

  lemma {:induction false} LastInSound(camel: Camel, v: Toml, key: string, prefix: string, name: string)
    requires Compiles(camel, v, key) && IsToml(v)
    ensures LastIn(v, key, prefix, name).Some? ==> Sound(camel, LastIn(v, key, prefix, name).value)
    decreases v, 1
  {
    match v
    case Arr(elems) => LastInSound(camel, elems[0], key, prefix, name);
    case Table(entries) => LastInEntriesSound(camel, entries, Child(prefix, key), name);
    case _ =>
  }

  lemma {:induction false} LastInEntriesSound(camel: Camel, entries: seq<Entry>, prefix: string, name: string)
    requires CompilesEntries(camel, entries) && IsTable(entries)
    ensures LastInEntries(entries, prefix, name).Some? ==> Sound(camel, LastInEntries(entries, prefix, name).value)
    decreases entries, 0
  {
    if entries != [] {
      InitTable(entries);
      LastInSound(camel, Last(entries).val, Last(entries).key, prefix, name);
      LastInEntriesSound(camel, Init(entries), prefix, name);
    }
  }

  /** The struct of a name has the fields of the last table of that name. */
  predicate Emitted(camel: Camel, opts: seq<string>, m: StructMap, after: StructMap, name: string, last: Option<Source>)
    requires last.Some? ==> Sound(camel, last.value)
  {
    if last.Some? then name in after && after[name].fields == Fields(camel, opts, last.value.entries, last.value.dotted)
    else (name in after <==> name in m) && (name in m ==> after[name] == m[name])
  }

  lemma {:induction false} LastInEmitted(
    camel: Camel, opts: seq<string>, m: StructMap, v: Toml, key: string, prefix: string, name: string)
    requires Compiles(camel, v, key) && IsToml(v) && prefix != ""
    requires LastIn(v, key, prefix, name).Some? ==> Sound(camel, LastIn(v, key, prefix, name).value)
    ensures Emitted(camel, opts, m, Structs(camel, opts, m, v, key, prefix), name, LastIn(v, key, prefix, name))
    decreases v, 1
  {
    match v
    case Arr(elems) => LastInEmitted(camel, opts, m, elems[0], key, prefix, name);
    case Table(entries) =>
      if key != name {
        LastInEntriesEmitted(camel, opts, m, entries, Child(prefix, key), name);
      }
    case _ =>
  }

  lemma {:induction false} LastInEntriesEmitted(
    camel: Camel, opts: seq<string>, m: StructMap, entries: seq<Entry>, prefix: string, name: string)
    requires CompilesEntries(camel, entries) && IsTable(entries) && prefix != ""
    requires LastInEntries(entries, prefix, name).Some? ==> Sound(camel, LastInEntries(entries, prefix, name).value)
    ensures Emitted(camel, opts, m, StructsOfEntries(camel, opts, m, entries, prefix), name,
                    LastInEntries(entries, prefix, name))
    decreases entries, 0
  {
    if entries != [] {
      var e := Last(entries);
      InitTable(entries);
      LastInSound(camel, e.val, e.key, prefix, name);
      LastInEntriesSound(camel, Init(entries), prefix, name);
      LastInEntriesEmitted(camel, opts, m, Init(entries), prefix, name);
      LastInEmitted(camel, opts, StructsOfEntries(camel, opts, m, Init(entries), prefix), e.val, e.key, prefix, name);
    }
  }

  lemma LastTableEmitted(camel: Camel, opts: seq<string>, entries: seq<Entry>, root: string, name: string)
    requires Compiles(camel, Table(entries), root) && IsTable(entries) && root != ""
    ensures var last := LastTable(entries, root, name);
            var structs := Compiled(camel, opts, entries, root);
            && (last.Some? <==> name in structs)
            && (last.Some? ==>
                  && Sound(camel, last.value)
                  && structs[name].fields == Fields(camel, opts, last.value.entries, last.value.dotted))
  {
    LastInEntriesSound(camel, entries, root, name);
    LastInEntriesEmitted(camel, opts, map[], entries, root, name);
  }

  /******* Field types name the struct of their own key *******/

  predicate NamedAfterKey(camel: Camel, f: Field) {
    match f.ty
    case RNamed(ident) => ident == camel(f.name)
    case ROption(inner) => inner.RNamed? ==> inner.ident == camel(f.name)
    case _ => true
  }

  ghost predicate FieldsNamed(camel: Camel, env: Env) {
    forall ident, i :: ident in env && 0 <= i < |env[ident]| ==> NamedAfterKey(camel, env[ident][i])
  }

  lemma TypeNamed(camel: Camel, opts: seq<string>, entries: seq<Entry>, prefix: string, i: nat)
    requires CompilesEntries(camel, entries) && i < |entries|
    ensures NamedAfterKey(camel, Fields(camel, opts, entries, prefix)[i])
  {
    var e := entries[i];
    assert TypeOf(camel, e.val, e.key).RNamed? ==> TypeOf(camel, e.val, e.key) == RNamed(camel(e.key));
  }

  lemma ProgramNamed(camel: Camel, opts: seq<string>, entries: seq<Entry>, root: string)
    requires Compiles(camel, Table(entries), root) && IsTable(entries) && root != ""
    requires DistinctIdents(Compiled(camel, opts, entries, root))
    ensures FieldsNamed(camel, EnvOf(Compiled(camel, opts, entries, root)))
  {
    var structs := Compiled(camel, opts, entries, root);
    var env := EnvOf(structs);
    forall ident, i | ident in env && 0 <= i < |env[ident]| ensures NamedAfterKey(camel, env[ident][i]) {
      var name :| name in structs && structs[name].ident == ident;
      LastTableEmitted(camel, opts, entries, root, name);
      var last := LastTable(entries, root, name).value;
      TypeNamed(camel, opts, last.entries, last.dotted, i);
    }
  }

  /******* A getter type-checks exactly if its path is a spine *******/

  function Idents(camel: Camel, root: string, path: seq<string>): (r: seq<string>)
    ensures |r| == |path| && forall k :: 0 <= k < |path| ==> r[k] == camel(Name(root, path[..k]))
  {
    seq(|path|, k requires 0 <= k < |path| => camel(Name(root, path[..k])))
  }

  function Accessed(base: Access, f: string, opt: bool): Access {
    if opt then Try(Dot(base, f)) else Dot(base, f)
  }

  /** Reading a field with a struct type, through `?` or not, fixes the field's type. */
  lemma FieldBack(env: Env, camel: Camel, self: string, returnsOption: bool, base: Access, f: string, opt: bool)
    requires FieldsNamed(camel, env)
    requires var ty := AccessType(env, self, returnsOption, Accessed(base, f, opt)); ty.Some? && ty.value.RNamed?
    ensures AccessType(env, self, returnsOption, Accessed(base, f, opt)) == Some(RNamed(camel(f)))
    ensures var from := AccessType(env, self, returnsOption, base);
            from.Some? && from.value.RNamed? && Selects(env, from.value.ident, f, opt, RNamed(camel(f)))
  {
    assert AccessType(env, self, returnsOption, Dot(base, f)).Some?;
    var ident := AccessType(env, self, returnsOption, base).value.ident;
    var i := IndexOf(env[ident], f).value;
    assert NamedAfterKey(camel, env[ident][i]) && env[ident][i].name == f;
  }

  /** The converse of ChainTyped: a chain that has a struct type followed the spine. */
  lemma {:induction false} ChainTypedBack(
    env: Env, camel: Camel, root: string, opts: seq<string>, prefix: string, path: seq<string>, leafTy: RType,
    n: nat, returnsOption: bool)
    requires FieldsNamed(camel, env) && n < |path|
    requires var ty := AccessType(env, camel(root), returnsOption, Chain(opts, prefix, path, n));
             ty.Some? && ty.value.RNamed?
    ensures AccessType(env, camel(root), returnsOption, Chain(opts, prefix, path, n)) ==
            Some(RNamed(Idents(camel, root, path)[n]))
    ensures forall k :: 0 <= k < n ==> SpineAt(env, Idents(camel, root, path), opts, prefix, path, leafTy, k)
  {
    hide FieldsNamed, Selects, Idents, OptionalAt;
    IdentsAt(camel, root, path, n);
    if n > 0 {
      var opt := OptionalAt(opts, prefix, path[..n]);
      assert Chain(opts, prefix, path, n) == Accessed(Chain(opts, prefix, path, n - 1), path[n - 1], opt);
      FieldBack(env, camel, camel(root), returnsOption, Chain(opts, prefix, path, n - 1), path[n - 1], opt);
      ChainTypedBack(env, camel, root, opts, prefix, path, leafTy, n - 1, returnsOption);
      assert SpineAt(env, Idents(camel, root, path), opts, prefix, path, leafTy, n - 1);
    } else {
      assert Chain(opts, prefix, path, n) == Self;
    }
  }

  lemma IdentsAt(camel: Camel, root: string, path: seq<string>, k: nat)
    requires k < |path|
    ensures Idents(camel, root, path)[k] == camel(if k == 0 then root else path[k - 1])
  {
    assert path[..0] == [];
    assert k > 0 ==> Last(path[..k]) == path[k - 1];
  }

  lemma GetterTypedIff(
    env: Env, camel: Camel, root: string, opts: seq<string>, prefix: string, path: seq<string>, leafTy: RType)
    requires FieldsNamed(camel, env) && path != [] && !leafTy.ROption?
    ensures WellTyped(env, camel(root), GetterFor(opts, prefix, path, leafTy)) <==>
            Spine(env, Idents(camel, root, path), opts, prefix, path, leafTy)
  {
    IdentsAt(camel, root, path, 0);
    if Spine(env, Idents(camel, root, path), opts, prefix, path, leafTy) {
      GetterTyped(env, Idents(camel, root, path), opts, prefix, path, leafTy);
    }
    if WellTyped(env, camel(root), GetterFor(opts, prefix, path, leafTy)) {
      GetterTypedBack(env, camel, root, opts, prefix, path, leafTy);
    }
  }

  /** The last field read of a getter has the declared type of its leaf. */
  lemma LastRead(env: Env, self: string, opts: seq<string>, prefix: string, path: seq<string>, leafTy: RType)
    requires path != [] && !leafTy.ROption?
    requires WellTyped(env, self, GetterFor(opts, prefix, path, leafTy))
    ensures var g := GetterFor(opts, prefix, path, leafTy);
            AccessType(env, self, g.optional, Dot(Chain(opts, prefix, path, |path| - 1), path[|path| - 1])) ==
            Some(if OptionalAt(opts, prefix, path) then ROption(leafTy) else leafTy)
  {
    hide AccessType, OptionalAt;
    assert GetterFor(opts, prefix, path, leafTy).body.access == Chain(opts, prefix, path, |path|);
  }

  lemma FieldOfRead(env: Env, self: string, returnsOption: bool, base: Access, f: string, opt: bool, ty: RType)
    requires AccessType(env, self, returnsOption, Dot(base, f)) == Some(if opt then ROption(ty) else ty)
    ensures var from := AccessType(env, self, returnsOption, base);
            from.Some? && from.value.RNamed? && Selects(env, from.value.ident, f, opt, ty)
  {
  }

  lemma GetterTypedBack(
    env: Env, camel: Camel, root: string, opts: seq<string>, prefix: string, path: seq<string>, leafTy: RType)
    requires FieldsNamed(camel, env) && path != [] && !leafTy.ROption?
    requires WellTyped(env, camel(root), GetterFor(opts, prefix, path, leafTy))
    ensures Spine(env, Idents(camel, root, path), opts, prefix, path, leafTy)
  {
    hide GetterFor, Chain, FieldsNamed, WellTyped, OptionalAt, Idents, AccessType, Selects;
    var n := |path| - 1;
    var chain, opt := Chain(opts, prefix, path, n), OptionalAt(opts, prefix, path);
    var optional := GetterFor(opts, prefix, path, leafTy).optional;
    assert path[..n + 1] == path;
    LastRead(env, camel(root), opts, prefix, path, leafTy);
    FieldOfRead(env, camel(root), optional, chain, path[n], opt, leafTy);
    ChainTypedBack(env, camel, root, opts, prefix, path, leafTy, n, optional);
    assert SpineAt(env, Idents(camel, root, path), opts, prefix, path, leafTy, n);
    hide SpineAt;
  }

  /******* The exact condition *******/

  /**
   * What path[n] is in the tree, table or leaf, optional or not, is also what the last table emitted under
   * the name of its parent has under that key.
   */
  predicate Agreeing(camel: Camel, opts: seq<string>, entries: seq<Entry>, root: string, path: seq<string>, n: nat)
    requires n < |path|
  {
    var here := NodeAt(entries, path[..n + 1]);
    var last := LastTable(entries, root, Name(root, path[..n]));
    && here.Some? && Compiles(camel, here.value, path[n])
    && last.Some? && Find(last.value.entries, path[n]).Some?
    && var there := Find(last.value.entries, path[n]).value;
       && Compiles(camel, there, path[n])
       && TypeOf(camel, there, path[n]) == TypeOf(camel, here.value, path[n])
       && (Child(last.value.dotted, path[n]) in opts <==> OptionalAt(opts, root + ".", path[..n + 1]))
  }

  lemma FindMeans(entries: seq<Entry>, key: string)
    ensures Find(entries, key).Some? <==> exists i :: 0 <= i < |entries| && entries[i].key == key
  {
    if entries != [] {
      FindMeans(Init(entries), key);
      assert forall i :: 0 <= i < |entries| - 1 ==> Init(entries)[i] == entries[i];
    }
  }

  /** A field is selected with a type exactly if the entry of the last table has it. */
  lemma SelectsIff(
    camel: Camel, opts: seq<string>, src: Source, env: Env, ident: string, key: string, opt: bool, ty: RType)
    requires Sound(camel, src) && ident in env && env[ident] == Fields(camel, opts, src.entries, src.dotted)
    requires !ty.ROption?
    ensures Selects(env, ident, key, opt, ty) <==>
            && Find(src.entries, key).Some? && Compiles(camel, Find(src.entries, key).value, key)
            && TypeOf(camel, Find(src.entries, key).value, key) == ty && (Child(src.dotted, key) in opts <==> opt)
  {
    FindMeans(src.entries, key);
    assert forall i :: 0 <= i < |src.entries| ==> env[ident][i].name == src.entries[i].key;
    if Find(src.entries, key).Some? {
      FieldFound(camel, opts, src.entries, src.dotted, key);
    }
  }

  lemma AgreeingIff(camel: Camel, opts: seq<string>, entries: seq<Entry>, root: string, path: seq<string>, n: nat)
    requires Compiles(camel, Table(entries), root) && IsTable(entries) && root != ""
    requires DistinctIdents(Compiled(camel, opts, entries, root))
    requires IsLeaf(entries, path) && n < |path| && Compiles(camel, NodeAt(entries, path).value, Last(path))
    ensures var leafTy := TypeOf(camel, NodeAt(entries, path).value, Last(path));
            SpineAt(EnvOf(Compiled(camel, opts, entries, root)), Idents(camel, root, path), opts, root + ".", path,
                    leafTy, n)
            <==> Agreeing(camel, opts, entries, root, path, n)
  {
    var structs := Compiled(camel, opts, entries, root);
    var env := EnvOf(structs);
    var leafTy := TypeOf(camel, NodeAt(entries, path).value, Last(path));
    var name := Name(root, path[..n]);
    NodeBelow(camel, entries, path, n);
    var ty := TypeOf(camel, NodeAt(entries, path[..n + 1]).value, path[n]);
    assert ty == if n + 1 < |path| then RNamed(Idents(camel, root, path)[n + 1]) else leafTy by {
      if n + 1 < |path| {
        InnerType(camel, entries, root, path, n);
      } else {
        assert path[..n + 1] == path;
      }
    }
    ParentEmitted(camel, opts, entries, root, path, n);
    LastTableEmitted(camel, opts, entries, root, name);
    var last := LastTable(entries, root, name).value;
    hide Compiled, Selects, Sound;
    SelectsIff(camel, opts, last, env, camel(name), path[n], OptionalAt(opts, root + ".", path[..n + 1]), ty);
  }

  lemma NodeBelow(camel: Camel, entries: seq<Entry>, path: seq<string>, n: nat)
    requires CompilesEntries(camel, entries) && IsTable(entries) && n < |path| && NodeAt(entries, path).Some?
    ensures NodeAt(entries, path[..n + 1]).Some? && Compiles(camel, NodeAt(entries, path[..n + 1]).value, path[n])
  {
    assert path[..|path|] == path;
    if n + 1 < |path| {
      PrefixIsTable(entries, path, n + 1);
    }
    NodeFacts(camel, entries, path[..n + 1]);
  }

  /** Every table on the way has a struct under its name and identifier. */
  lemma ParentEmitted(camel: Camel, opts: seq<string>, entries: seq<Entry>, root: string, path: seq<string>, n: nat)
    requires Compiles(camel, Table(entries), root) && IsTable(entries) && root != ""
    requires n < |path| && NodeAt(entries, path).Some?
    ensures var structs := Compiled(camel, opts, entries, root);
            Name(root, path[..n]) in structs && structs[Name(root, path[..n])].ident == camel(Name(root, path[..n]))
  {
    EntriesDomain(camel, opts, map[], entries, root);
    PrefixIsTable(entries, path, n);
    if n > 0 {
      TableNamed(entries, path[..n]);
    }
  }

  lemma {:induction false} TableNamed(entries: seq<Entry>, path: seq<string>)
    requires path != [] && NodeAt(entries, path).Some? && NodeAt(entries, path).value.Table?
    ensures Last(path) in EntryTableKeys(entries)
    decreases |path|, |entries|
  {
    var e := Last(entries);
    NodeAtLast(entries, path);
    if e.key != path[0] {
      TableNamed(Init(entries), path);
    } else if |path| > 1 {
      TableNamed(e.val.entries, path[1..]);
    }
  }

  /**
   * Without assuming distinct table names: all emitted getters are correct, that is, they type-check and
   * return what the walk to their leaf finds, exactly when every step of every leaf path agrees with the
   * last table of its parent's name. (Struct identifiers of distinct names must differ, or the program
   * declares one struct twice.)
   */
  lemma GettersCorrectIff(camel: Camel, opts: seq<string>, entries: seq<Entry>, root: string)
    requires Compiles(camel, Table(entries), root) && IsTable(entries) && root != ""
    requires DistinctIdents(Compiled(camel, opts, entries, root))
    ensures var env := EnvOf(Compiled(camel, opts, entries, root));
            var gs := Compiled(camel, opts, entries, root)[root].getters;
            && OnePerLeaf(camel, opts, root + ".", gs, entries, [])
            && (AllCorrect(env, camel(root), gs) <==> AllTyped(env, camel(root), gs))
            && (AllTyped(env, camel(root), gs) <==> AllAgreeing(camel, opts, entries, root))
  {
    hide Compiled, GetterCorrect, WellTyped, Agreeing, IsLeaf, OnePerLeaf, AllCorrect, AllTyped, AllAgreeing;
    RootGetters(camel, opts, entries, root);
    var env := EnvOf(Compiled(camel, opts, entries, root));
    var gs := Compiled(camel, opts, entries, root)[root].getters;
    ProgramNamed(camel, opts, entries, root);
    forall i | 0 <= i < |gs|
      ensures GetterCorrect(env, camel(root), gs[i]) <==> WellTyped(env, camel(root), gs[i])
      ensures WellTyped(env, camel(root), gs[i]) <==>
              forall n :: 0 <= n < |gs[i].path| ==> Agreeing(camel, opts, entries, root, gs[i].path, n)
    {
      OneGetterIff(camel, opts, entries, root, gs[i]);
    }
    TypedIffAgreeing(env, camel, opts, entries, root, gs);
  }

  ghost predicate AllCorrect(env: Env, self: string, gs: seq<Getter>) {
    forall i :: 0 <= i < |gs| ==> GetterCorrect(env, self, gs[i])
  }

  predicate AllTyped(env: Env, self: string, gs: seq<Getter>) {
    forall i :: 0 <= i < |gs| ==> WellTyped(env, self, gs[i])
  }

  ghost predicate AllAgreeing(camel: Camel, opts: seq<string>, entries: seq<Entry>, root: string) {
    forall q, n :: IsLeaf(entries, q) && 0 <= n < |q| ==> Agreeing(camel, opts, entries, root, q, n)
  }

  lemma TypedIffAgreeing(
    env: Env, camel: Camel, opts: seq<string>, entries: seq<Entry>, root: string, gs: seq<Getter>)
    requires forall i :: 0 <= i < |gs| ==>
               && IsLeaf(entries, gs[i].path)
               && (GetterCorrect(env, camel(root), gs[i]) <==> WellTyped(env, camel(root), gs[i]))
               && (WellTyped(env, camel(root), gs[i]) <==>
                   forall n :: 0 <= n < |gs[i].path| ==> Agreeing(camel, opts, entries, root, gs[i].path, n))
    requires forall q :: IsLeaf(entries, q) ==> exists i :: 0 <= i < |gs| && gs[i].path == q
    ensures AllCorrect(env, camel(root), gs) <==> AllTyped(env, camel(root), gs)
    ensures AllTyped(env, camel(root), gs) <==> AllAgreeing(camel, opts, entries, root)
  {
    hide GetterCorrect, WellTyped, Agreeing, IsLeaf;
    if AllTyped(env, camel(root), gs) {
      forall q, n | IsLeaf(entries, q) && 0 <= n < |q| ensures Agreeing(camel, opts, entries, root, q, n) {
        var i :| 0 <= i < |gs| && gs[i].path == q;
      }
    }
  }

  /** The getters of the root struct belong to the leaves. */
  lemma RootGetters(camel: Camel, opts: seq<string>, entries: seq<Entry>, root: string)
    requires Compiles(camel, Table(entries), root) && IsTable(entries) && root != ""
    ensures root in Compiled(camel, opts, entries, root)
    ensures var gs := Compiled(camel, opts, entries, root)[root].getters;
            && OnePerLeaf(camel, opts, root + ".", gs, entries, [])
            && (forall i :: 0 <= i < |gs| ==>
                  IsLeaf(entries, gs[i].path) && IsGetterOf(camel, opts, root + ".", gs[i], entries, []))
            && (forall q :: IsLeaf(entries, q) ==> exists i :: 0 <= i < |gs| && gs[i].path == q)
  {
    var gs := GettersUnder(camel, opts, root + ".", entries, []);
    assert Compiled(camel, opts, entries, root)[root].getters == gs;
    OneGetterPerLeaf(camel, opts, root + ".", entries, []);
    hide Compiled, GettersUnder, IsLeaf, IsGetterOf;
    forall i | 0 <= i < |gs| ensures IsLeaf(entries, gs[i].path) {
      LeafOf(camel, opts, root + ".", gs[i], entries);
    }
    forall q | IsLeaf(entries, q) ensures exists i :: 0 <= i < |gs| && gs[i].path == q {
      var i :| 0 <= i < |gs| && gs[i].path == [] + q;
      assert [] + q == q;
    }
  }

  lemma LeafOf(camel: Camel, opts: seq<string>, prefix: string, g: Getter, entries: seq<Entry>)
    requires IsGetterOf(camel, opts, prefix, g, entries, [])
    ensures IsLeaf(entries, g.path)
  {
    hide LeafGetter, NodeAt;
    assert g.path[0..] == g.path;
  }

  lemma OneGetterIff(camel: Camel, opts: seq<string>, entries: seq<Entry>, root: string, g: Getter)
    requires Compiles(camel, Table(entries), root) && IsTable(entries) && root != ""
    requires DistinctIdents(Compiled(camel, opts, entries, root))
    requires FieldsNamed(camel, EnvOf(Compiled(camel, opts, entries, root)))
    requires IsGetterOf(camel, opts, root + ".", g, entries, [])
    ensures IsLeaf(entries, g.path)
    ensures var env := EnvOf(Compiled(camel, opts, entries, root));
            && (GetterCorrect(env, camel(root), g) <==> WellTyped(env, camel(root), g))
            && (WellTyped(env, camel(root), g) <==>
                forall n :: 0 <= n < |g.path| ==> Agreeing(camel, opts, entries, root, g.path, n))
  {
    hide Compiled;
    var env := EnvOf(Compiled(camel, opts, entries, root));
    var path := g.path;
    assert path[0..] == path;
    var leafTy := TypeOf(camel, NodeAt(entries, path).value, Last(path));
    assert g == GetterFor(opts, root + ".", path, leafTy);
    hide LeafGetter, GetterFor, SpineAt, Agreeing, FieldsNamed, GetterCorrect, WellTyped, Idents, TypeOf;
    forall n | 0 <= n < |path|
      ensures SpineAt(env, Idents(camel, root, path), opts, root + ".", path, leafTy, n) <==>
              Agreeing(camel, opts, entries, root, path, n)
    {
      AgreeingIff(camel, opts, entries, root, path, n);
    }
    GetterTypedIff(env, camel, root, opts, root + ".", path, leafTy);
    TypedIsCorrect(env, camel, root, opts, root + ".", path, leafTy);
  }

  /** Along a spine, a getter that type-checks also means the right thing. */
  lemma TypedIsCorrect(
    env: Env, camel: Camel, root: string, opts: seq<string>, prefix: string, path: seq<string>, leafTy: RType)
    requires FieldsNamed(camel, env) && path != [] && !leafTy.ROption?
    ensures var g := GetterFor(opts, prefix, path, leafTy);
            GetterCorrect(env, camel(root), g) <==> WellTyped(env, camel(root), g)
  {
    var g := GetterFor(opts, prefix, path, leafTy);
    GetterRet(opts, prefix, path, leafTy);
    GetterTypedIff(env, camel, root, opts, prefix, path, leafTy);
    IdentsAt(camel, root, path, 0);
    hide GetterFor, WellTyped, FieldsNamed, Idents, Spine;
    if WellTyped(env, camel(root), g) {
      forall v | HasType(env, v, RNamed(camel(root)))
        ensures && Call(env, v, g) == Expected(g.optional, Walk(env, v, path))
                && Call(env, v, g) != Faulted
                && (Walk(env, v, path).Present? ==> HasType(env, Walk(env, v, path).v, leafTy))
      {
        GetterMeaning(env, Idents(camel, root, path), opts, prefix, path, leafTy, v);
      }
    }
  }

  lemma GetterRet(opts: seq<string>, prefix: string, path: seq<string>, leafTy: RType)
    ensures GetterFor(opts, prefix, path, leafTy).ret == leafTy && GetterFor(opts, prefix, path, leafTy).path == path
  {
  }

  /** The names of all tables, the root included. */
  function TableNames(entries: seq<Entry>, root: string): seq<string> {
    EntryTableKeys(entries) + [root]
  }

  /** Every struct is declared once exactly if different table names convert to different identifiers. */
  lemma DistinctIdentsIff(camel: Camel, opts: seq<string>, entries: seq<Entry>, root: string)
    requires Compiles(camel, Table(entries), root) && root != ""
    ensures DistinctIdents(Compiled(camel, opts, entries, root)) <==>
            forall a, b :: a in TableNames(entries, root) && b in TableNames(entries, root) && camel(a) == camel(b) ==>
                             a == b
  {
    var structs := Compiled(camel, opts, entries, root);
    EntriesDomain(camel, opts, map[], entries, root);
    assert forall k :: k in structs <==> k in TableNames(entries, root);
    assert forall k :: k in structs ==> structs[k].ident == camel(k);
  }

  /******* A failing tree *******/

  /** A table under key with the single entry e. */
  function Single(key: string, e: Entry): Entry {
    Entry(key, Table([e]))
  }

  function Leaf(key: string): Entry {
    Entry(key, Int(0))
  }

  lemma OneEntry(camel: Camel, m: StructMap, e: Entry, prefix: string)
    requires IsIdent(e.key) && Compiles(camel, e.val, e.key) && prefix != ""
    ensures CompilesEntries(camel, [e])
    ensures StructsOfEntries(camel, [], m, [e], prefix) == Structs(camel, [], m, e.val, e.key, prefix)
    ensures Fields(camel, [], [e], prefix) == [Field(e.key, TypeOf(camel, e.val, e.key))]
  {
    hide IsIdent, Compiles, Structs, TypeOf;
    var es := [e];
    assert Init(es) == [] && Last(es) == e;
    assert StructsOfEntries(camel, [], m, Init(es), prefix) == m;
  }

  lemma SingleStruct(camel: Camel, m: StructMap, key: string, e: Entry, prefix: string)
    requires IsIdent(e.key) && Compiles(camel, e.val, e.key) && IsIdent(camel(key)) && prefix != ""
    ensures Compiles(camel, Single(key, e).val, key)
    ensures TypeOf(camel, Single(key, e).val, key) == RNamed(camel(key))
    ensures Structs(camel, [], m, Single(key, e).val, key, prefix) ==
            Structs(camel, [], m, e.val, e.key, Child(prefix, key))[key :=
              StructDef(camel(key), [Field(e.key, TypeOf(camel, e.val, e.key))], [])]
  {
    hide IsIdent;
    OneEntry(camel, m, e, Child(prefix, key));
  }

  lemma OneGetter(camel: Camel, prefix: string, e: Entry, path: seq<string>)
    requires CompilesEntries(camel, [e]) && Compiles(camel, e.val, e.key)
    ensures GettersUnder(camel, [], prefix, [e], path) == GettersAt(camel, [], prefix, e.val, path + [e.key])
  {
    assert CompilesEntries(camel, []);
    hide IsIdent, Compiles, CompilesEntries, GettersAt;
    var es := [e];
    assert Init(es) == [] && Last(es) == e;
    assert GettersUnder(camel, [], prefix, Init(es), path) == [];
  }

  /** Root tables t and k, where t holds another table named k. */
  function TwoTables(t: string, k: string, f: string, g: string): seq<Entry> {
    [Single(t, Single(k, Leaf(f))), Single(k, Leaf(g))]
  }

  predicate Names(camel: Camel, t: string, k: string, f: string, g: string, root: string) {
    && IsIdent(t) && IsIdent(k) && IsIdent(f) && IsIdent(g) && root != "" && f != g
    && IsIdent(camel(root)) && IsIdent(camel(t)) && IsIdent(camel(k))
    && camel(root) != camel(t) && camel(root) != camel(k) && camel(t) != camel(k)
  }

  lemma TwoTablesCompile(camel: Camel, t: string, k: string, f: string, g: string, root: string)
    requires Names(camel, t, k, f, g, root)
    ensures Compiles(camel, Table(TwoTables(t, k, f, g)), root)
    ensures Fields(camel, [], TwoTables(t, k, f, g), root) == [Field(t, RNamed(camel(t))), Field(k, RNamed(camel(k)))]
    ensures StructsOfEntries(camel, [], map[], TwoTables(t, k, f, g), root) == map[
              t := StructDef(camel(t), [Field(k, RNamed(camel(k)))], []),
              k := StructDef(camel(k), [Field(g, RI64)], [])]
  {
    hide IsIdent, Single, Fields;
    var inner, later := Single(k, Leaf(f)), Single(k, Leaf(g));
    var first := Single(t, inner);
    var pt := Child(root, t);
    assert inner.key == k && later.key == k && first.key == t by { SingleKeys(t, k, inner, Leaf(f), Leaf(g)); }
    SingleStruct(camel, map[], k, Leaf(f), pt);
    SingleStruct(camel, map[], t, inner, root);
    var m1 := Structs(camel, [], map[], first.val, t, root);
    SingleStruct(camel, m1, k, Leaf(g), root);
    OneEntry(camel, map[], first, root);
    var es := TwoTables(t, k, f, g);
    assert Init(es) == [first] && Last(es) == later;
    FieldsOfTwo(camel, first, later, root);
  }

  lemma SingleKeys(t: string, k: string, inner: Entry, a: Entry, b: Entry)
    ensures Single(k, a).key == k && Single(k, b).key == k && Single(t, inner).key == t
    ensures Single(k, a).val.Table? && Single(k, b).val.Table? && Single(t, inner).val.Table?
  {
  }

  lemma FieldsOfTwo(camel: Camel, a: Entry, b: Entry, prefix: string)
    requires IsIdent(a.key) && IsIdent(b.key) && Compiles(camel, a.val, a.key) && Compiles(camel, b.val, b.key)
    ensures CompilesEntries(camel, [a, b])
    ensures Fields(camel, [], [a, b], prefix) ==
            [Field(a.key, TypeOf(camel, a.val, a.key)), Field(b.key, TypeOf(camel, b.val, b.key))]
  {
    hide IsIdent, Compiles, TypeOf;
  }

  /** The getter of the leaf at t.k.f is emitted. */
  lemma TwoTablesGetter(camel: Camel, t: string, k: string, f: string, g: string, root: string)
    requires Names(camel, t, k, f, g, root)
    ensures Compiles(camel, Table(TwoTables(t, k, f, g)), root)
    ensures LeafGetter(camel, [], root + ".", Int(0), [t, k, f]) in
            GettersUnder(camel, [], root + ".", TwoTables(t, k, f, g), [])
  {
    TwoTablesCompile(camel, t, k, f, g, root);
    var inner, later := Single(k, Leaf(f)), Single(k, Leaf(g));
    var first := Single(t, inner);
    var es := TwoTables(t, k, f, g);
    assert Init(es) == [first] && Last(es) == later;
    OneEntry(camel, map[], Leaf(f), root);
    OneEntry(camel, map[], inner, root);
    OneEntry(camel, map[], first, root);
    hide Compiles, CompilesEntries, LeafGetter, IsIdent;
    OneGetter(camel, root + ".", first, []);
    OneGetter(camel, root + ".", inner, [] + [t]);
    OneGetter(camel, root + ".", Leaf(f), [] + [t] + [k]);
    assert [] + [t] + [k] + [f] == [t, k, f];
    assert GettersAt(camel, [], root + ".", Int(0), [t, k, f]) ==
           [LeafGetter(camel, [], root + ".", Int(0), [t, k, f])];
  }

  lemma LeafAccess(camel: Camel, t: string, k: string, f: string, prefix: string)
    ensures LeafGetter(camel, [], prefix, Int(0), [t, k, f]) ==
            Getter([t, k, f], false, RI64, Ref(Dot(Dot(Dot(Self, t), k), f)))
  {
    var path := [t, k, f];
    assert Chain([], prefix, path, 1) == Dot(Self, t);
    assert Chain([], prefix, path, 2) == Dot(Dot(Self, t), k);
  }

  lemma FieldAt(fields: seq<Field>, i: nat)
    requires i < |fields| && forall j :: 0 <= j < |fields| && j != i ==> fields[j].name != fields[i].name
    ensures IndexOf(fields, fields[i].name) == Some(i)
  {
  }

  lemma NoSuchField(
    env: Env, self: string, tIdent: string, kIdent: string, t: string, k: string, f: string, g: string)
    requires self in env && tIdent in env && kIdent in env && t != k && f != g
    requires env[self] == [Field(t, RNamed(tIdent)), Field(k, RNamed(kIdent))]
    requires env[tIdent] == [Field(k, RNamed(kIdent))] && env[kIdent] == [Field(g, RI64)]
    ensures AccessType(env, self, false, Dot(Dot(Dot(Self, t), k), f)) == None
  {
    hide IndexOf;
    FieldAt(env[self], 0);
    FieldAt(env[tIdent], 0);
    assert AccessType(env, self, false, Self) == Some(RNamed(self));
    assert AccessType(env, self, false, Dot(Self, t)) == Some(RNamed(tIdent));
    assert AccessType(env, self, false, Dot(Dot(Self, t), k)) == Some(RNamed(kIdent));
  }

  lemma DistinctIdentsOf(structs: StructMap, camel: Camel, t: string, k: string, root: string)
    requires structs.Keys == {t, k, root} && camel(root) != camel(t) && camel(root) != camel(k) && camel(t) != camel(k)
    requires structs[t].ident == camel(t) && structs[k].ident == camel(k) && structs[root].ident == camel(root)
    ensures DistinctIdents(structs)
  {
  }

  /**
   * The later of two tables of one name replaces the fields of the earlier: the macro then emits, without
   * complaint, a getter that reads a field its struct does not have, which rustc rejects.
   */
  lemma SharedTableNameBreaks(camel: Camel, t: string, k: string, f: string, g: string, root: string)
    requires Names(camel, t, k, f, g, root)
    ensures Compiles(camel, Table(TwoTables(t, k, f, g)), root)
    ensures var structs := Compiled(camel, [], TwoTables(t, k, f, g), root);
            && DistinctIdents(structs)
            && exists getter :: getter in structs[root].getters && getter.path == [t, k, f] &&
                 !WellTyped(EnvOf(structs), camel(root), getter)
  {
    TwoTablesCompile(camel, t, k, f, g, root);
    TwoTablesGetter(camel, t, k, f, g, root);
    var structs := Compiled(camel, [], TwoTables(t, k, f, g), root);
    var getter := LeafGetter(camel, [], root + ".", Int(0), [t, k, f]);
    LeafAccess(camel, t, k, f, root + ".");
    DistinctIdentsOf(structs, camel, t, k, root);
    hide IsIdent, LeafGetter, GettersUnder, Fields, StructsOfEntries, Compiles, TwoTables;
    var env := EnvOf(structs);
    assert structs[k].fields == env[camel(k)] && structs[t].fields == env[camel(t)];
    assert structs[root].fields == env[camel(root)];
    NoSuchField(env, camel(root), camel(t), camel(k), t, k, f, g);
    assert !WellTyped(env, camel(root), getter);
  }
}
