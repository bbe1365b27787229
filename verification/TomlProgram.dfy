/**
 * When the program that the TOML macro emits compiles (proc_macros/src/lib.rs): what rustc demands of the
 * structs and getters together, and what that means for the tree.
 */
module TomlProgram {
  import opened Wrappers
  import opened Strings
  import opened TomlCompiler
  import opened TomlCompilerProofs
  import opened TomlSharedNames
  import opened TomlText

  /******* Structs of finite size *******/

  /** A field of this type holds the struct by value; Vec does not, since it allocates. */
  predicate HoldsStruct(ty: RType, ident: string) {
    ty == RNamed(ident) || ty == ROption(RNamed(ident))
  }

  predicate ByValue(env: Env, a: string, b: string) {
    a in env && exists i :: 0 <= i < |env[a]| && HoldsStruct(env[a][i].ty, b)
  }

  predicate HoldsChain(env: Env, p: seq<string>) {
    forall i :: 0 <= i < |p| - 1 ==> ByValue(env, p[i], p[i + 1])
  }

  /** No struct contains itself by value. */
  ghost predicate Sized(env: Env) {
    forall p :: HoldsChain(env, p) && |p| > 1 ==> p[0] != p[|p| - 1]
  }

  /******* The same on the tree *******/

  /** The last table named a has a table named b among its entries. */
  predicate Holds(entries: seq<Entry>, root: string, a: string, b: string) {
    var last := LastTable(entries, root, a);
    last.Some? && HasTable(last.value.entries, b)
  }

  predicate HasTable(entries: seq<Entry>, b: string) {
    exists i :: 0 <= i < |entries| && entries[i].key == b && entries[i].val.Table?
  }

  predicate NameChain(entries: seq<Entry>, root: string, p: seq<string>) {
    forall i :: 0 <= i < |p| - 1 ==> Holds(entries, root, p[i], p[i + 1])
  }

  /** No table name reaches itself through the last tables of each name. */
  ghost predicate NoSelfReach(entries: seq<Entry>, root: string) {
    forall p :: NameChain(entries, root, p) && |p| > 1 ==> p[0] != p[|p| - 1]
  }

  /******* Tables inside a table come before it *******/

  predicate Before(keys: seq<string>, b: string, a: string) {
    exists i, j :: 0 <= i < j < |keys| && keys[i] == b && keys[j] == a
  }

  lemma BeforeInside(x: seq<string>, keys: seq<string>, y: seq<string>, b: string, a: string)
    requires Before(keys, b, a)
    ensures Before(x + keys + y, b, a)
  {
    var i, j :| 0 <= i < j < |keys| && keys[i] == b && keys[j] == a;
    var all := x + keys + y;
    assert all[|x| + i] == b && all[|x| + j] == a;
  }

  lemma BeforeLast(keys: seq<string>, b: string, a: string)
    requires b in keys
    ensures Before(keys + [a], b, a)
  {
    var i :| 0 <= i < |keys| && keys[i] == b;
    var all := keys + [a];
    assert all[i] == b && all[|keys|] == a;
  }

  lemma {:induction false} TableListed(entries: seq<Entry>, b: string)
    requires HasTable(entries, b)
    ensures b in EntryTableKeys(entries)
  {
    var i :| 0 <= i < |entries| && entries[i].key == b && entries[i].val.Table?;
    if i < |entries| - 1 {
      assert Init(entries)[i] == entries[i];
      TableListed(Init(entries), b);
    } else {
      assert Last(entries) == entries[i];
    }
  }

  lemma {:induction false} LastInBefore(v: Toml, key: string, prefix: string, name: string, b: string)
    requires LastIn(v, key, prefix, name).Some? && HasTable(LastIn(v, key, prefix, name).value.entries, b)
    ensures Before(TableKeys(v, key), b, name)
    decreases v, 1
  {
    hide HasTable;
    match v
    case Arr(elems) => LastInBefore(elems[0], key, prefix, name, b);
    case Table(entries) =>
      if key == name {
        TableListed(entries, b);
        BeforeLast(EntryTableKeys(entries), b, key);
      } else {
        LastInEntriesBefore(entries, Child(prefix, key), name, b);
        BeforeInside([], EntryTableKeys(entries), [key], b, name);
        assert [] + EntryTableKeys(entries) + [key] == EntryTableKeys(entries) + [key];
      }
  }

  lemma {:induction false} LastInEntriesBefore(entries: seq<Entry>, prefix: string, name: string, b: string)
    requires LastInEntries(entries, prefix, name).Some?
    requires HasTable(LastInEntries(entries, prefix, name).value.entries, b)
    ensures Before(EntryTableKeys(entries), b, name)
    decreases entries, 0
  {
    hide HasTable, Before;
    var e := Last(entries);
    var front, keys := EntryTableKeys(Init(entries)), TableKeys(e.val, e.key);
    if LastIn(e.val, e.key, prefix, name).Some? {
      LastInBefore(e.val, e.key, prefix, name, b);
      BeforeInside(front, keys, [], b, name);
      assert front + keys + [] == front + keys;
    } else {
      LastInEntriesBefore(Init(entries), prefix, name, b);
      BeforeInside([], front, keys, b, name);
      assert [] + front + keys == front + keys;
    }
  }

  /** A table that a last table holds has a struct too, emitted before it. */
  lemma HeldBefore(entries: seq<Entry>, root: string, a: string, b: string)
    requires Holds(entries, root, a, b)
    ensures Before(TableNames(entries, root), b, a) && b in TableNames(entries, root)
  {
    var keys := EntryTableKeys(entries);
    if a == root {
      TableListed(entries, b);
      BeforeLast(keys, b, a);
    } else {
      LastInEntriesBefore(entries, root, a, b);
      BeforeInside([], keys, [root], b, a);
      assert [] + keys + [root] == keys + [root];
    }
  }

  /******* Both graphs are the same *******/

  lemma NamesEmitted(camel: Camel, opts: seq<string>, entries: seq<Entry>, root: string)
    requires Compiles(camel, Table(entries), root) && root != ""
    ensures var structs := Compiled(camel, opts, entries, root);
            forall k :: (k in structs <==> k in TableNames(entries, root)) &&
                        (k in structs ==> structs[k].ident == camel(k))
  {
    EntriesDomain(camel, opts, map[], entries, root);
  }

  /** A field holds a struct by value exactly if its entry is a table of that name. */
  lemma FieldHolds(camel: Camel, opts: seq<string>, src: Source, i: nat, b: string)
    requires Sound(camel, src) && i < |src.entries|
    ensures HoldsStruct(Fields(camel, opts, src.entries, src.dotted)[i].ty, b) <==>
            src.entries[i].val.Table? && camel(src.entries[i].key) == b
  {
    var e := src.entries[i];
    NamedIff(camel, e.val, e.key);
  }

  lemma NamedIff(camel: Camel, v: Toml, key: string)
    requires Compiles(camel, v, key)
    ensures TypeOf(camel, v, key).RNamed? <==> v.Table?
  {
  }

  lemma EdgeIff(
    camel: Camel, opts: seq<string>, entries: seq<Entry>, root: string, a: string, b: string)
    requires Compiles(camel, Table(entries), root) && IsTable(entries) && root != ""
    requires DistinctIdents(Compiled(camel, opts, entries, root))
    requires a in Compiled(camel, opts, entries, root) && b in Compiled(camel, opts, entries, root)
    ensures ByValue(EnvOf(Compiled(camel, opts, entries, root)), camel(a), camel(b)) <==> Holds(entries, root, a, b)
  {
    var structs := Compiled(camel, opts, entries, root);
    var env := EnvOf(structs);
    NamesEmitted(camel, opts, entries, root);
    LastTableEmitted(camel, opts, entries, root, a);
    var src := LastTable(entries, root, a).value;
    assert env[camel(a)] == structs[a].fields == Fields(camel, opts, src.entries, src.dotted);
    hide Compiled, HoldsStruct, LastTable, Sound, Fields;
    forall i | 0 <= i < |src.entries|
      ensures HoldsStruct(env[camel(a)][i].ty, camel(b)) <==> src.entries[i].val.Table? && src.entries[i].key == b
    {
      FieldHolds(camel, opts, src, i, camel(b));
      if src.entries[i].val.Table? {
        assert HasTable(src.entries, src.entries[i].key);
        HeldBefore(entries, root, a, src.entries[i].key);
      }
    }
  }

  /** The table name of a struct identifier. */
  ghost function NameFor(structs: StructMap, ident: string): (k: string)
    requires exists k :: k in structs && structs[k].ident == ident
    ensures k in structs && structs[k].ident == ident
  {
    var k :| k in structs && structs[k].ident == ident;
    k
  }

  lemma SizedIff(camel: Camel, opts: seq<string>, entries: seq<Entry>, root: string)
    requires Compiles(camel, Table(entries), root) && IsTable(entries) && root != ""
    requires DistinctIdents(Compiled(camel, opts, entries, root))
    ensures Sized(EnvOf(Compiled(camel, opts, entries, root))) <==> NoSelfReach(entries, root)
  {
    hide Compiled, ByValue, Holds;
    var structs := Compiled(camel, opts, entries, root);
    var env := EnvOf(structs);
    NamesEmitted(camel, opts, entries, root);
    if Sized(env) {
      forall p | NameChain(entries, root, p) && |p| > 1 ensures p[0] != p[|p| - 1] {
        if p[0] == p[|p| - 1] {
          var q := NameCycle(camel, opts, entries, root, p);
        }
      }
    }
    if NoSelfReach(entries, root) {
      forall q | HoldsChain(env, q) && |q| > 1 ensures q[0] != q[|q| - 1] {
        if q[0] == q[|q| - 1] {
          var p := StructCycle(camel, opts, entries, root, q);
        }
      }
    }
  }

  lemma NameCycle(camel: Camel, opts: seq<string>, entries: seq<Entry>, root: string, p: seq<string>)
    returns (q: seq<string>)
    requires Compiles(camel, Table(entries), root) && IsTable(entries) && root != ""
    requires DistinctIdents(Compiled(camel, opts, entries, root))
    requires NameChain(entries, root, p) && |p| > 1 && p[0] == p[|p| - 1]
    ensures HoldsChain(EnvOf(Compiled(camel, opts, entries, root)), q) && |q| > 1 && q[0] == q[|q| - 1]
  {
    hide Compiled, ByValue;
    q := seq(|p|, i requires 0 <= i < |p| => camel(p[i]));
    forall i | 0 <= i < |p| ensures p[i] in Compiled(camel, opts, entries, root) {
      var k := if i < |p| - 1 then i else 0;
      assert Holds(entries, root, p[k], p[k + 1]);
      LastTableEmitted(camel, opts, entries, root, p[k]);
    }
    forall i | 0 <= i < |q| - 1 ensures ByValue(EnvOf(Compiled(camel, opts, entries, root)), q[i], q[i + 1]) {
      assert Holds(entries, root, p[i], p[i + 1]);
      EdgeIff(camel, opts, entries, root, p[i], p[i + 1]);
    }
  }

  lemma StructCycle(camel: Camel, opts: seq<string>, entries: seq<Entry>, root: string, q: seq<string>)
    returns (p: seq<string>)
    requires Compiles(camel, Table(entries), root) && IsTable(entries) && root != ""
    requires DistinctIdents(Compiled(camel, opts, entries, root))
    requires HoldsChain(EnvOf(Compiled(camel, opts, entries, root)), q) && |q| > 1 && q[0] == q[|q| - 1]
    ensures NameChain(entries, root, p) && |p| > 1 && p[0] == p[|p| - 1]
  {
    hide Compiled, Holds;
    var structs := Compiled(camel, opts, entries, root);
    var env := EnvOf(structs);
    NamesEmitted(camel, opts, entries, root);
    forall i | 0 <= i < |q| ensures exists k :: k in structs && structs[k].ident == q[i] {
      var k := if i < |q| - 1 then i else 0;
      assert ByValue(env, q[k], q[k + 1]);
    }
    p := seq(|q|, i requires 0 <= i < |q| => NameFor(structs, q[i]));
    forall i | 0 <= i < |p| - 1 ensures Holds(entries, root, p[i], p[i + 1]) {
      assert ByValue(env, q[i], q[i + 1]);
      EdgeIff(camel, opts, entries, root, p[i], p[i + 1]);
    }
  }

  /******* Distinct names are enough *******/

  lemma BeforeTransitive(keys: seq<string>, c: string, b: string, a: string)
    requires Distinct(keys) && Before(keys, c, b) && Before(keys, b, a)
    ensures Before(keys, c, a)
  {
    var i, j :| 0 <= i < j < |keys| && keys[i] == c && keys[j] == b;
    var k, l :| 0 <= k < l < |keys| && keys[k] == b && keys[l] == a;
    assert j == k;
  }

  lemma {:induction false} ChainDescends(entries: seq<Entry>, root: string, p: seq<string>)
    requires Distinct(TableNames(entries, root)) && NameChain(entries, root, p) && |p| > 1
    ensures Before(TableNames(entries, root), Last(p), p[0])
  {
    hide Holds, TableNames, Before;
    var front := Init(p);
    assert Holds(entries, root, p[|p| - 2], p[|p| - 1]);
    HeldBefore(entries, root, p[|p| - 2], Last(p));
    if |p| > 2 {
      assert forall i :: 0 <= i < |front| ==> front[i] == p[i];
      ChainDescends(entries, root, front);
      BeforeTransitive(TableNames(entries, root), Last(p), Last(front), p[0]);
    }
  }

  /** With distinct table names no struct contains itself. */
  lemma DistinctNamesSized(entries: seq<Entry>, root: string)
    requires Distinct(TableNames(entries, root))
    ensures NoSelfReach(entries, root)
  {
    hide NameChain;
    var names := TableNames(entries, root);
    forall p | NameChain(entries, root, p) && |p| > 1 ensures p[0] != p[|p| - 1] {
      ChainDescends(entries, root, p);
    }
  }

  /******* Sized programs have values *******/

  /** Every struct that a field holds is declared. */
  ghost predicate Closed(env: Env) {
    forall a, b :: ByValue(env, a, b) ==> b in env
  }

  lemma ProgramClosed(camel: Camel, opts: seq<string>, entries: seq<Entry>, root: string)
    requires Compiles(camel, Table(entries), root) && IsTable(entries) && root != ""
    requires DistinctIdents(Compiled(camel, opts, entries, root))
    ensures Closed(EnvOf(Compiled(camel, opts, entries, root)))
  {
    var structs := Compiled(camel, opts, entries, root);
    var env := EnvOf(structs);
    NamesEmitted(camel, opts, entries, root);
    forall a, b | ByValue(env, a, b) ensures b in env {
      var name := NameFor(structs, a);
      LastTableEmitted(camel, opts, entries, root, name);
      var src := LastTable(entries, root, name).value;
      var i :| 0 <= i < |env[a]| && HoldsStruct(env[a][i].ty, b);
      FieldHolds(camel, opts, src, i, b);
      hide Compiled;
      assert HasTable(src.entries, src.entries[i].key);
      HeldBefore(entries, root, name, src.entries[i].key);
    }
  }

  function Visited(p: seq<string>): set<string> {
    set i | 0 <= i < |p| :: p[i]
  }

  /** A struct reached along p is not on p already. */
  lemma NotVisited(env: Env, p: seq<string>, b: string)
    requires Sized(env) && p != [] && HoldsChain(env, p) && ByValue(env, Last(p), b)
    ensures b !in Visited(p) && HoldsChain(env, p + [b])
  {
    hide ByValue;
    var all := p + [b];
    forall i | 0 <= i < |all| - 1 ensures ByValue(env, all[i], all[i + 1]) {
      if i < |p| - 1 {
        assert ByValue(env, p[i], p[i + 1]);
      }
    }
    forall k | 0 <= k < |p| ensures p[k] != b {
      var rest := all[k..];
      assert forall i :: 0 <= i < |rest| ==> rest[i] == all[k + i];
      assert HoldsChain(env, rest);
    }
  }

  lemma VisitedMore(p: seq<string>, b: string)
    ensures Visited(p + [b]) == Visited(p) + {b}
  {
    var q := p + [b];
    assert forall i :: 0 <= i < |p| ==> q[i] == p[i];
    assert q[|p|] == b;
    forall x | x in Visited(p) ensures x in Visited(q) {
      var i :| 0 <= i < |p| && p[i] == x;
      assert q[i] == x;
    }
  }

  lemma {:induction false} StructInhabited(env: Env, p: seq<string>)
    requires Sized(env) && Closed(env) && p != [] && HoldsChain(env, p)
    requires forall i :: 0 <= i < |p| ==> p[i] in env
    ensures exists v :: HasType(env, v, RNamed(Last(p)))
    decreases |env.Keys - Visited(p)|, 1
  {
    var ident := Last(p);
    var fs := env[ident];
    forall i | 0 <= i < |fs| ensures exists v :: HasType(env, v, fs[i].ty) {
      FieldInhabited(env, p, i);
    }
    var vs := seq(|fs|, i requires 0 <= i < |fs| => var v :| HasType(env, v, fs[i].ty); v);
    assert HasType(env, VStruct(ident, vs), RNamed(ident));
  }

  lemma {:induction false} FieldInhabited(env: Env, p: seq<string>, i: nat)
    requires Sized(env) && Closed(env) && p != [] && HoldsChain(env, p)
    requires forall k :: 0 <= k < |p| ==> p[k] in env
    requires i < |env[Last(p)]|
    ensures exists v :: HasType(env, v, env[Last(p)][i].ty)
    decreases |env.Keys - Visited(p)|, 0
  {
    var ty := env[Last(p)][i].ty;
    match ty
    case RString => assert HasType(env, VStr(""), ty);
    case RI64 => assert HasType(env, VI64(0), ty);
    case RBool => assert HasType(env, VBool(true), ty);
    case RVec(_) => assert HasType(env, VVec([]), ty);
    case ROption(_) => assert HasType(env, VNone, ty);
    case RNamed(b) =>
      assert HoldsStruct(ty, b) && ByValue(env, Last(p), b);
      NotVisited(env, p, b);
      var q := p + [b];
      VisitedMore(p, b);
      assert env.Keys - Visited(q) == env.Keys - Visited(p) - {b};
      StructInhabited(env, q);
  }

  /******* Built-in types *******/

  /** The built-in type names that the emitted program may write. */
  const BUILT_IN: set<string> := {"Option", "Vec", "String"}

  /** The text of the type contains this name. */
  predicate Writes(ty: RType, name: string) {
    match ty
    case RVec(elem) => name == "Vec" || Writes(elem, name)
    case ROption(inner) => name == "Option" || Writes(inner, name)
    case _ => false
  }

  /** The emitted program relies on this built-in type; the print function always returns a String. */
  predicate Relies(structs: StructMap, root: string, name: string)
    requires root in structs
  {
    || name == "String"
    || (exists k :: k in structs && FieldsWrite(structs[k].fields, name))
    || GettersWrite(structs[root].getters, name)
  }

  predicate FieldsWrite(fields: seq<Field>, name: string) {
    exists i :: 0 <= i < |fields| && Writes(fields[i].ty, name)
  }

  predicate GettersWrite(gs: seq<Getter>, name: string) {
    exists i :: 0 <= i < |gs| && ((gs[i].optional && name == "Option") || Writes(gs[i].ret, name))
  }

  /** No struct takes the name of a built-in type that the program relies on. */
  predicate NoShadow(structs: StructMap, root: string)
    requires root in structs
  {
    forall k :: k in structs && structs[k].ident in BUILT_IN ==> !Relies(structs, root, structs[k].ident)
  }

  /** The entry becomes a Vec field, or an Option field. */
  predicate EntryRelies(opts: seq<string>, src: Source, i: nat, name: string)
    requires i < |src.entries|
  {
    var e := src.entries[i];
    (name == "Vec" && e.val.Arr?) || (name == "Option" && Child(src.dotted, e.key) in opts)
  }

  predicate SourceRelies(opts: seq<string>, src: Option<Source>, name: string) {
    src.Some? && exists i :: 0 <= i < |src.value.entries| && EntryRelies(opts, src.value, i, name)
  }

  /** The tree asks for this built-in type: an array, or an optional entry, in some last table. */
  predicate TreeRelies(opts: seq<string>, entries: seq<Entry>, root: string, name: string) {
    || name == "String"
    || exists k :: k in TableNames(entries, root) && SourceRelies(opts, LastTable(entries, root, k), name)
  }

  lemma {:induction false} TypeWrites(camel: Camel, v: Toml, key: string)
    requires Compiles(camel, v, key)
    ensures !Writes(TypeOf(camel, v, key), "Option") && (Writes(TypeOf(camel, v, key), "Vec") <==> v.Arr?)
    decreases v
  {
    if v.Arr? {
      TypeWrites(camel, v.elems[0], key);
    }
  }

  lemma FieldsWriteIff(camel: Camel, opts: seq<string>, src: Source, name: string)
    requires Sound(camel, src) && name in {"Option", "Vec"}
    ensures FieldsWrite(Fields(camel, opts, src.entries, src.dotted), name) <==> SourceRelies(opts, Some(src), name)
  {
    var fs := Fields(camel, opts, src.entries, src.dotted);
    forall i | 0 <= i < |src.entries| ensures Writes(fs[i].ty, name) <==> EntryRelies(opts, src, i, name) {
      TypeWrites(camel, src.entries[i].val, src.entries[i].key);
    }
  }

  /** The step of a getter's path that makes it write the built-in type. */
  lemma GetterStep(camel: Camel, opts: seq<string>, entries: seq<Entry>, root: string, g: Getter, name: string)
    returns (n: nat)
    requires IsGetterOf(camel, opts, root + ".", g, entries, []) && name in {"Option", "Vec"}
    requires (g.optional && name == "Option") || Writes(g.ret, name)
    ensures n < |g.path|
    ensures || (name == "Option" && OptionalAt(opts, root + ".", g.path[..n + 1]))
            || (name == "Vec" && NodeAt(entries, g.path[..n + 1]).Some? && NodeAt(entries, g.path[..n + 1]).value.Arr?)
  {
    hide OptionalAt, Writes, TypeOf, NodeAt, Compiles;
    var path := g.path;
    assert path[0..] == path;
    var v := NodeAt(entries, path).value;
    TypeWrites(camel, v, Last(path));
    n := |path| - 1;
    assert path[..n + 1] == path;
    if name == "Option" && !OptionalAt(opts, root + ".", path) {
      assert AnyOptional(opts, root + ".", path, |path|);
      var i :| 0 < i <= |path| && i < |path| && OptionalAt(opts, root + ".", path[..i]);
      n := i - 1;
    }
  }

  /** What the getter of an agreeing path writes, the field of its leaf or of a table on the way writes too. */
  lemma GetterRelies(camel: Camel, opts: seq<string>, entries: seq<Entry>, root: string, g: Getter, name: string)
    requires Compiles(camel, Table(entries), root) && IsTable(entries) && root != "" && name in {"Option", "Vec"}
    requires AllAgreeing(camel, opts, entries, root) && IsGetterOf(camel, opts, root + ".", g, entries, [])
    requires (g.optional && name == "Option") || Writes(g.ret, name)
    ensures TreeRelies(opts, entries, root, name)
  {
    hide Writes, Agreeing, TreeRelies, OptionalAt;
    var n := GetterStep(camel, opts, entries, root, g, name);
    LeafOf(camel, opts, root + ".", g, entries);
    hide IsGetterOf, IsLeaf;
    StepRelies(camel, opts, entries, root, g.path, n, name);
  }

  lemma StepRelies(
    camel: Camel, opts: seq<string>, entries: seq<Entry>, root: string, path: seq<string>, n: nat, name: string)
    requires n < |path| && Agreeing(camel, opts, entries, root, path, n)
    requires Compiles(camel, Table(entries), root) && IsTable(entries) && root != ""
    requires || (name == "Option" && OptionalAt(opts, root + ".", path[..n + 1]))
             || (name == "Vec" && NodeAt(entries, path[..n + 1]).Some? && NodeAt(entries, path[..n + 1]).value.Arr?)
    ensures TreeRelies(opts, entries, root, name)
  {
    var k := Name(root, path[..n]);
    var src := LastTable(entries, root, k).value;
    var there := Find(src.entries, path[n]).value;
    var i :| 0 <= i < |src.entries| && src.entries[i] == Entry(path[n], there);
    TypeWrites(camel, there, path[n]);
    TypeWrites(camel, NodeAt(entries, path[..n + 1]).value, path[n]);
    assert EntryRelies(opts, src, i, name);
    assert SourceRelies(opts, LastTable(entries, root, k), name);
    LastTableEmitted(camel, opts, entries, root, k);
    NamesEmitted(camel, opts, entries, root);
  }

  lemma ReliesIff(camel: Camel, opts: seq<string>, entries: seq<Entry>, root: string, name: string)
    requires Compiles(camel, Table(entries), root) && IsTable(entries) && root != ""
    requires AllAgreeing(camel, opts, entries, root) && name in BUILT_IN
    ensures root in Compiled(camel, opts, entries, root)
    ensures Relies(Compiled(camel, opts, entries, root), root, name) <==> TreeRelies(opts, entries, root, name)
  {
    hide Compiled, AllAgreeing, IsGetterOf, FieldsWrite, SourceRelies, LastTable, Writes, IsLeaf, OnePerLeaf;
    RootGetters(camel, opts, entries, root);
    NamesEmitted(camel, opts, entries, root);
    var structs := Compiled(camel, opts, entries, root);
    if name != "String" {
      forall k | k in structs
        ensures FieldsWrite(structs[k].fields, name) <==> SourceRelies(opts, LastTable(entries, root, k), name)
      {
        LastTableEmitted(camel, opts, entries, root, k);
        FieldsWriteIff(camel, opts, LastTable(entries, root, k).value, name);
      }
      if GettersWrite(structs[root].getters, name) {
        var gs := structs[root].getters;
        var i :| 0 <= i < |gs| && ((gs[i].optional && name == "Option") || Writes(gs[i].ret, name));
        GetterRelies(camel, opts, entries, root, gs[i], name);
      }
    }
  }

  /******* When the emitted program compiles *******/

  /**
   * What rustc demands of the structs and getters: one struct per identifier, none that contains itself, none
   * in the place of a built-in type in use, typed getters, and one getter per name.
   */
  ghost predicate ProgramAccepted(camel: Camel, snake: Snake, structs: StructMap, root: string)
    requires root in structs
  {
    var gs := structs[root].getters;
    && DistinctIdents(structs) && Sized(EnvOf(structs)) && NoShadow(structs, root)
    && AllTyped(EnvOf(structs), camel(root), gs) && NamesDistinct(snake, Paths(gs))
  }

  /** Different table names convert to different identifiers. */
  predicate IdentsDiffer(camel: Camel, names: seq<string>) {
    forall a, b :: a in names && b in names && camel(a) == camel(b) ==> a == b
  }

  /** No table is converted to the name of a built-in type that the tree asks for. */
  predicate BuiltInsFree(camel: Camel, opts: seq<string>, entries: seq<Entry>, root: string) {
    forall k :: k in TableNames(entries, root) && camel(k) in BUILT_IN ==> !TreeRelies(opts, entries, root, camel(k))
  }

  /**
   * For every tree the macro compiles: the emitted program is accepted exactly if different table names have
   * different identifiers, no table name reaches itself through the last tables of each name, no table is
   * named as a built-in type in use, every step of every leaf path agrees with the last table of its parent's
   * name, and no two leaves have the same words. An accepted program's getters are all correct, and its root
   * struct has values.
   */
  lemma ProgramAcceptedIff(camel: Camel, snake: Snake, opts: seq<string>, entries: seq<Entry>, root: string)
    requires Compiles(camel, Table(entries), root) && IsTable(entries) && root != ""
    ensures root in Compiled(camel, opts, entries, root)
    ensures var structs := Compiled(camel, opts, entries, root);
            && (ProgramAccepted(camel, snake, structs, root) <==>
                  && IdentsDiffer(camel, TableNames(entries, root)) && NoSelfReach(entries, root)
                  && BuiltInsFree(camel, opts, entries, root) && AllAgreeing(camel, opts, entries, root)
                  && WordsDistinct(snake, entries))
            && (ProgramAccepted(camel, snake, structs, root) ==>
                  && AllCorrect(EnvOf(structs), camel(root), structs[root].getters)
                  && exists v :: HasType(EnvOf(structs), v, RNamed(camel(root))))
  {
    hide Compiled, AllAgreeing, AllCorrect, AllTyped, NamesDistinct, WordsDistinct, TableNames, OnePerLeaf;
    hide Sized, NoSelfReach, NoShadow, BuiltInsFree, IsLeaf, IsGetterOf, HasType;
    RootGetters(camel, opts, entries, root);
    var structs := Compiled(camel, opts, entries, root);
    DistinctIdentsIff(camel, opts, entries, root);
    GetterNamesDistinctIff(camel, snake, opts, entries, root);
    if DistinctIdents(structs) {
      GettersCorrectIff(camel, opts, entries, root);
      SizedIff(camel, opts, entries, root);
      if AllAgreeing(camel, opts, entries, root) {
        ShadowIff(camel, opts, entries, root);
      }
      if Sized(EnvOf(structs)) {
        RootInhabited(camel, opts, entries, root);
      }
    }
  }

  lemma ShadowIff(camel: Camel, opts: seq<string>, entries: seq<Entry>, root: string)
    requires Compiles(camel, Table(entries), root) && IsTable(entries) && root != ""
    requires AllAgreeing(camel, opts, entries, root) && root in Compiled(camel, opts, entries, root)
    ensures NoShadow(Compiled(camel, opts, entries, root), root) <==> BuiltInsFree(camel, opts, entries, root)
  {
    hide Compiled, AllAgreeing, Relies, TreeRelies, TableNames;
    NamesEmitted(camel, opts, entries, root);
    forall k | k in TableNames(entries, root) && camel(k) in BUILT_IN
      ensures Relies(Compiled(camel, opts, entries, root), root, camel(k)) <==>
              TreeRelies(opts, entries, root, camel(k))
    {
      ReliesIff(camel, opts, entries, root, camel(k));
    }
  }

  lemma RootInhabited(camel: Camel, opts: seq<string>, entries: seq<Entry>, root: string)
    requires Compiles(camel, Table(entries), root) && IsTable(entries) && root != ""
    requires DistinctIdents(Compiled(camel, opts, entries, root)) && Sized(EnvOf(Compiled(camel, opts, entries, root)))
    ensures exists v :: HasType(EnvOf(Compiled(camel, opts, entries, root)), v, RNamed(camel(root)))
  {
    hide Sized, HasType;
    var structs := Compiled(camel, opts, entries, root);
    assert structs[root].ident == camel(root);
    hide Compiled;
    ProgramClosed(camel, opts, entries, root);
    hide Closed;
    StructInhabited(EnvOf(structs), [camel(root)]);
  }

  /** Trees whose tables get structs of their own are sized, so their getters are called on real values. */
  lemma AcceptedInhabited(camel: Camel, opts: seq<string>, entries: seq<Entry>, root: string)
    requires Accepted(camel, entries, root)
    ensures Sized(ProgramEnv(camel, opts, entries, root))
    ensures exists v :: HasType(ProgramEnv(camel, opts, entries, root), v, RNamed(camel(root)))
  {
    hide Sized, HasType, NoSelfReach;
    CompiledDistinct(camel, opts, entries, root);
    hide Compiled;
    var names := TableNames(entries, root);
    assert Distinct(names) by {
      forall i, j | 0 <= i < j < |names| ensures names[i] != names[j] {
        assert camel(names[i]) != camel(names[j]);
      }
    }
    DistinctNamesSized(entries, root);
    SizedIff(camel, opts, entries, root);
    RootInhabited(camel, opts, entries, root);
  }

  /******* Failing trees *******/

  /** A table k that holds another table k; both have an entry x. */
  function Inner(x: string): seq<Entry> {
    [Leaf(x)]
  }

  function Outer(k: string, x: string): seq<Entry> {
    [Entry(k, Table(Inner(x))), Leaf(x)]
  }

  function Nested(k: string, x: string): seq<Entry> {
    [Entry(k, Table(Outer(k, x)))]
  }

  predicate PlainNames(camel: Camel, k: string, x: string, root: string) {
    && IsIdent(k) && IsIdent(x) && k != x && root != "" && IsIdent(camel(root)) && IsIdent(camel(k))
    && camel(root) != camel(k) && camel(root) !in BUILT_IN && camel(k) !in BUILT_IN
  }

  lemma NestedFind(k: string, x: string, key: string)
    requires k != x
    ensures Find(Inner(x), key) == if key == x then Some(Int(0)) else None
    ensures Find(Outer(k, x), key) ==
            if key == x then Some(Int(0)) else if key == k then Some(Table(Inner(x))) else None
    ensures Find(Nested(k, x), key) == if key == k then Some(Table(Outer(k, x))) else None
  {
    var a, b, c := Inner(x), Outer(k, x), Nested(k, x);
    assert Init(a) == [] && Init(c) == [] && Init(b) == [b[0]] && Init([b[0]]) == [];
    assert Find(a, key) == if key == x then Some(Int(0)) else Find(Init(a), key);
    assert Find(b, key) == if key == x then Some(Int(0)) else Find(Init(b), key);
    assert Find([b[0]], key) == if key == k then Some(Table(Inner(x))) else Find(Init([b[0]]), key);
  }

  lemma InnerNodes(k: string, x: string, q: seq<string>)
    requires k != x && q != []
    ensures NodeAt(Inner(x), q) == if q == [x] then Some(Int(0)) else None
  {
    hide Inner, Find;
    NestedFind(k, x, q[0]);
    assert |q| == 1 ==> q == [q[0]];
  }

  lemma OuterNodes(k: string, x: string, q: seq<string>)
    requires k != x && q != []
    ensures NodeAt(Outer(k, x), q) ==
            if q == [k] then Some(Table(Inner(x))) else if q == [x] || q == [k, x] then Some(Int(0)) else None
  {
    hide Inner, Outer, Find;
    NestedFind(k, x, q[0]);
    assert q == [q[0]] + q[1..];
    if |q| > 1 {
      InnerNodes(k, x, q[1..]);
      assert [k] + [x] == [k, x];
    } else {
      assert q == [q[0]];
    }
  }

  /** The nodes of the tree. */
  lemma NestedNodes(k: string, x: string, q: seq<string>)
    requires k != x && q != []
    ensures NodeAt(Nested(k, x), q) ==
            if q == [k] then Some(Table(Outer(k, x)))
            else if q == [k, k] then Some(Table(Inner(x)))
            else if q == [k, x] || q == [k, k, x] then Some(Int(0))
            else None
  {
    hide Outer, Nested, Find;
    NestedFind(k, x, q[0]);
    assert q == [q[0]] + q[1..];
    if |q| > 1 {
      OuterNodes(k, x, q[1..]);
      assert [k] + [k] == [k, k] && [k] + [x] == [k, x] && [k] + [k, x] == [k, k, x];
    } else {
      assert q == [q[0]];
    }
  }

  lemma NestedTables(k: string, x: string, root: string)
    requires k != x && k != root
    ensures EntryTableKeys(Nested(k, x)) == [k, k]
    ensures LastTable(Nested(k, x), root, root) == Some(Source(Nested(k, x), root))
    ensures LastTable(Nested(k, x), root, k) == Some(Source(Outer(k, x), Child(root, k)))
  {
    var a, b, c := Inner(x), Outer(k, x), Nested(k, x);
    assert Init(a) == [] && Last(a) == Leaf(x);
    assert Init(b) == [b[0]] && Last(b) == Leaf(x) && Init([b[0]]) == [] && Last([b[0]]) == Entry(k, Table(a));
    assert Init(c) == [] && Last(c) == Entry(k, Table(b));
    assert EntryTableKeys(Init(a)) == [] && EntryTableKeys(a) == [];
    assert TableKeys(Table(a), k) == [] + [k];
    assert EntryTableKeys(Init([b[0]])) == [] && EntryTableKeys([b[0]]) == [] + TableKeys(Table(a), k);
    assert EntryTableKeys(b) == EntryTableKeys([b[0]]) + TableKeys(Int(0), x) == [k];
    assert TableKeys(Table(b), k) == [k] + [k];
    assert EntryTableKeys(c) == EntryTableKeys(Init(c)) + TableKeys(Table(b), k);
    assert LastIn(Table(b), k, root, k) == Some(Source(b, Child(root, k)));
    assert LastInEntries(c, root, k) == LastIn(Last(c).val, Last(c).key, root, k);
  }

  lemma NestedCompiles(camel: Camel, k: string, x: string, root: string)
    requires PlainNames(camel, k, x, root)
    ensures Compiles(camel, Table(Nested(k, x)), root) && IsTable(Nested(k, x))
    ensures Compiles(camel, Table(Inner(x)), k) && Compiles(camel, Table(Outer(k, x)), k)
  {
    hide IsIdent;
    var a, b, c := Inner(x), Outer(k, x), Nested(k, x);
    assert IsToml(Int(0));
    TableOf(a);
    TableOf(b);
    TableOf(c);
    hide IsTable, IsToml;
    assert CompilesEntries(camel, a);
    assert Compiles(camel, Table(a), k) && CompilesEntries(camel, b);
    assert Compiles(camel, Table(b), k) && CompilesEntries(camel, c);
  }

  lemma TableOf(entries: seq<Entry>)
    requires DistinctKeys(entries) && forall i :: 0 <= i < |entries| ==> IsToml(entries[i].val)
    ensures IsTable(entries) && IsToml(Table(entries))
  {
  }

  lemma NestedAgrees(camel: Camel, k: string, x: string, root: string, q: seq<string>, n: nat)
    requires PlainNames(camel, k, x, root) && q in {[k, x], [k, k, x]} && n < |q|
    ensures Agreeing(camel, [], Nested(k, x), root, q, n)
  {
    NestedCompiles(camel, k, x, root);
    hide IsIdent, Inner, Outer, Nested, LastTable, Find, NodeAt;
    NestedTables(k, x, root);
    NestedNodes(k, x, q[..n + 1]);
    NestedFind(k, x, q[n]);
    assert q[..n + 1] == if n == 0 then [k] else if n == 1 then (if q[1] == x then [k, x] else [k, k]) else [k, k, x];
    assert Name(root, q[..n]) == if n == 0 then root else k;
  }

  lemma {:induction false} SelfHasNoValue(env: Env, v: Value, ident: string, i: nat)
    requires ident in env && i < |env[ident]| && env[ident][i].ty == RNamed(ident)
    ensures !HasType(env, v, RNamed(ident))
    decreases v
  {
    if v.VStruct? && i < |v.fields| {
      SelfHasNoValue(env, v.fields[i], ident, i);
    }
  }

  lemma NestedHasNoValue(camel: Camel, k: string, x: string, root: string, v: Value)
    requires PlainNames(camel, k, x, root)
    requires Compiles(camel, Table(Nested(k, x)), root) && IsTable(Nested(k, x))
    requires DistinctIdents(Compiled(camel, [], Nested(k, x), root))
    ensures !HasType(EnvOf(Compiled(camel, [], Nested(k, x), root)), v, RNamed(camel(root)))
  {
    hide Compiled, LastTable, IsIdent;
    var entries := Nested(k, x);
    var env := EnvOf(Compiled(camel, [], entries, root));
    NestedTables(k, x, root);
    LastTableEmitted(camel, [], entries, root, root);
    LastTableEmitted(camel, [], entries, root, k);
    NamesEmitted(camel, [], entries, root);
    assert env[camel(root)] == Fields(camel, [], entries, root);
    assert env[camel(k)] == Fields(camel, [], Outer(k, x), Child(root, k));
    assert env[camel(root)][0].ty == env[camel(k)][0].ty == RNamed(camel(k));
    if v.VStruct? && |v.fields| > 0 {
      SelfHasNoValue(env, v.fields[0], camel(k), 0);
    }
  }

  /**
   * The struct of this tree contains itself, though every other demand is met: the outer table replaces the
   * fields of the inner one and still holds a table of its own name. No value of its type exists, so its
   * getters, which all type-check, can never be called.
   */
  lemma RecursiveTableFails(camel: Camel, snake: Snake, k: string, x: string, root: string)
    requires PlainNames(camel, k, x, root)
    ensures Compiles(camel, Table(Nested(k, x)), root) && IsTable(Nested(k, x))
    ensures root in Compiled(camel, [], Nested(k, x), root)
    ensures IdentsDiffer(camel, TableNames(Nested(k, x), root)) && BuiltInsFree(camel, [], Nested(k, x), root)
    ensures AllAgreeing(camel, [], Nested(k, x), root) && WordsDistinct(snake, Nested(k, x))
    ensures !NoSelfReach(Nested(k, x), root)
    ensures DistinctIdents(Compiled(camel, [], Nested(k, x), root))
    ensures forall v :: !HasType(EnvOf(Compiled(camel, [], Nested(k, x), root)), v, RNamed(camel(root)))
    ensures !ProgramAccepted(camel, snake, Compiled(camel, [], Nested(k, x), root), root)
  {
    NestedCompiles(camel, k, x, root);
    var entries := Nested(k, x);
    NestedNames(camel, k, x, root);
    NestedAllAgrees(camel, snake, k, x, root);
    NestedCycle(k, x, root);
    hide Nested, Compiles, Compiled, IsTable, IsIdent, AllAgreeing, WordsDistinct, BuiltInsFree, NoSelfReach;
    hide ProgramAccepted, HasType, TableNames;
    DistinctIdentsIff(camel, [], entries, root);
    forall v ensures !HasType(EnvOf(Compiled(camel, [], entries, root)), v, RNamed(camel(root))) {
      NestedHasNoValue(camel, k, x, root, v);
    }
    ProgramAcceptedIff(camel, snake, [], entries, root);
  }

  lemma NestedNames(camel: Camel, k: string, x: string, root: string)
    requires PlainNames(camel, k, x, root)
    ensures IdentsDiffer(camel, TableNames(Nested(k, x), root)) && BuiltInsFree(camel, [], Nested(k, x), root)
  {
    hide Nested, EntryTableKeys, TreeRelies;
    NestedTables(k, x, root);
  }

  lemma NestedAllAgrees(camel: Camel, snake: Snake, k: string, x: string, root: string)
    requires PlainNames(camel, k, x, root)
    ensures AllAgreeing(camel, [], Nested(k, x), root) && WordsDistinct(snake, Nested(k, x))
  {
    var entries := Nested(k, x);
    hide Nested, IsIdent, Agreeing, NodeAt, Words;
    forall q | IsLeaf(entries, q) ensures q in {[k, x], [k, k, x]} {
      NestedNodes(k, x, q);
    }
    forall q, n | IsLeaf(entries, q) && 0 <= n < |q| ensures Agreeing(camel, [], entries, root, q, n) {
      NestedAgrees(camel, k, x, root, q, n);
    }
    WordsOfNested(snake, k, x);
  }

  lemma NestedCycle(k: string, x: string, root: string)
    requires k != x && k != root
    ensures !NoSelfReach(Nested(k, x), root)
  {
    hide Nested, LastTable;
    NestedTables(k, x, root);
    var cycle := [k, k];
    assert Outer(k, x)[0].key == k;
    assert HasTable(Outer(k, x), k);
    assert Holds(Nested(k, x), root, cycle[0], cycle[1]);
    assert NameChain(Nested(k, x), root, cycle);
  }

  lemma WordsOfNested(snake: Snake, k: string, x: string)
    ensures Words(snake, [k, x]) != Words(snake, [k, k, x])
  {
    assert [k, k, x][1..] == [k, x];
    assert |Words(snake, [k, k, x])| == |Split(snake(k), '_')| + |Words(snake, [k, x])|;
  }

  /** A marked table whose identifier is Option takes the place of the type its own field needs. */
  lemma OptionTableFails(camel: Camel, snake: Snake, o: string, entries: seq<Entry>, opts: seq<string>, root: string)
    requires Compiles(camel, Table(entries), root) && IsTable(entries) && root != ""
    requires HasTable(entries, o) && camel(o) == "Option" && Child(root, o) in opts
    ensures root in Compiled(camel, opts, entries, root)
    ensures !ProgramAccepted(camel, snake, Compiled(camel, opts, entries, root), root)
  {
    hide Compiled, Compiles, IsTable;
    TableListed(entries, o);
    var i :| 0 <= i < |entries| && entries[i].key == o && entries[i].val.Table?;
    assert EntryRelies(opts, Source(entries, root), i, "Option");
    assert SourceRelies(opts, LastTable(entries, root, root), "Option");
    assert root in TableNames(entries, root) && o in TableNames(entries, root);
    assert TreeRelies(opts, entries, root, "Option");
    hide ProgramAccepted, TreeRelies;
    ProgramAcceptedIff(camel, snake, opts, entries, root);
  }
}
