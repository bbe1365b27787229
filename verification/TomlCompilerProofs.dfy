/**
 * Correctness of the code the TOML macro emits: every getter type-checks against the emitted
 * structs, and on every value of those structs it returns what a plain walk down the value finds.
 */
module TomlCompilerProofs {
  import opened Wrappers
  import opened TomlCompiler

  /******* Target language: typing and evaluation *******/

  /** The emitted program, with struct identifiers resolved. */
  type Env = map<string, seq<Field>>

  predicate DistinctIdents(structs: StructMap) {
    forall k, k' :: k in structs && k' in structs && structs[k].ident == structs[k'].ident ==> k == k'
  }

  function EnvOf(structs: StructMap): (env: Env)
    requires DistinctIdents(structs)
    ensures forall k :: k in structs ==> structs[k].ident in env && env[structs[k].ident] == structs[k].fields
  {
    map k | k in structs :: structs[k].ident := structs[k].fields
  }

  function IndexOf(fields: seq<Field>, name: string): (r: Option<nat>)
    ensures r.Some? ==> r.value < |fields| && fields[r.value].name == name
    ensures r.None? ==> forall i :: 0 <= i < |fields| ==> fields[i].name != name
  {
    if fields == [] then None
    else if Last(fields).name == name then Some(|fields| - 1)
    else IndexOf(Init(fields), name)
  }

  /** The static type of an access chain; `?` needs an Option operand and an Option-returning function. */
  function AccessType(env: Env, self: string, returnsOption: bool, a: Access): Option<RType> {
    match a
    case Self => Some(RNamed(self))
    case Dot(b, f) =>
      (match AccessType(env, self, returnsOption, b)
       case Some(RNamed(ident)) =>
         if ident in env && IndexOf(env[ident], f).Some?
         then Some(env[ident][IndexOf(env[ident], f).value].ty) else None
       case _ => None)
    case Try(b) =>
      (match AccessType(env, self, returnsOption, b)
       case Some(ROption(ty)) => if returnsOption then Some(ty) else None
       case _ => None)
  }

  /** rustc accepts the getter in the impl block of struct self. */
  predicate WellTyped(env: Env, self: string, g: Getter) {
    var ty := AccessType(env, self, g.optional, g.body.access);
    match g.body
    case AsRef(_) => g.optional && ty == Some(ROption(g.ret))
    case SomeRef(_) => g.optional && ty == Some(g.ret)
    case Ref(_) => !g.optional && ty == Some(g.ret)
  }

  datatype Value =
    | VStr(s: string)
    | VI64(n: int)
    | VBool(b: bool)
    | VVec(elems: seq<Value>)
    | VStruct(ident: string, fields: seq<Value>)
    | VNone
    | VSome(v: Value)

  ghost predicate HasType(env: Env, v: Value, ty: RType)
    decreases v
  {
    match ty
    case RString => v.VStr?
    case RI64 => v.VI64? && -0x8000_0000_0000_0000 <= v.n < 0x8000_0000_0000_0000
    case RBool => v.VBool?
    case RVec(elem) => v.VVec? && forall i :: 0 <= i < |v.elems| ==> HasType(env, v.elems[i], elem)
    case RNamed(ident) =>
      && v.VStruct? && v.ident == ident && ident in env && |v.fields| == |env[ident]|
      && forall i :: 0 <= i < |v.fields| ==> HasType(env, v.fields[i], env[ident][i].ty)
    case ROption(inner) => v.VNone? || (v.VSome? && HasType(env, v.v, inner))
  }

  /** The value of field f of a struct value. */
  function Project(env: Env, v: Value, f: string): Option<Value> {
    if v.VStruct? && v.ident in env then
      (match IndexOf(env[v.ident], f)
       case Some(i) => if i < |v.fields| then Some(v.fields[i]) else None
       case None => None)
    else None
  }

  datatype Outcome = Val(v: Value) | EarlyNone | Stuck

  function EvalDot(env: Env, o: Outcome, f: string): Outcome {
    match o
    case Val(v) => (match Project(env, v, f) case Some(w) => Val(w) case None => Stuck)
    case _ => o
  }

  function EvalTry(o: Outcome): Outcome {
    match o
    case Val(VSome(w)) => Val(w)
    case Val(VNone) => EarlyNone
    case Val(_) => Stuck
    case _ => o
  }

  function Eval(env: Env, self: Value, a: Access): Outcome {
    match a
    case Self => Val(self)
    case Dot(b, f) => EvalDot(env, Eval(env, self, b), f)
    case Try(b) => EvalTry(Eval(env, self, b))
  }

  datatype Returned = Plain(v: Value) | OptSome(v: Value) | OptNone | Faulted

  function Return(b: Body, o: Outcome): Returned {
    match (b, o)
    case (AsRef(_), Val(VSome(w))) => OptSome(w)
    case (AsRef(_), Val(VNone)) => OptNone
    case (AsRef(_), EarlyNone) => OptNone
    case (SomeRef(_), Val(w)) => OptSome(w)
    case (SomeRef(_), EarlyNone) => OptNone
    case (Ref(_), Val(w)) => Plain(w)
    case _ => Faulted
  }

  function Call(env: Env, self: Value, g: Getter): Returned {
    Return(g.body, Eval(env, self, g.body.access))
  }

  /******* Reference meaning: walk down the value, stopping at the first absent part *******/

  datatype Walked = Present(v: Value) | Absent | Missing

  function Unwrap(w: Value): Walked {
    match w
    case VNone => Absent
    case VSome(x) => Present(x)
    case _ => Present(w)
  }

  function WalkInto(env: Env, w: Walked, f: string): Walked {
    match w
    case Present(x) => (match Project(env, x, f) case Some(y) => Unwrap(y) case None => Missing)
    case _ => w
  }

  function Walk(env: Env, v: Value, path: seq<string>): Walked {
    if path == [] then Present(v) else WalkInto(env, Walk(env, v, Init(path)), Last(path))
  }

  /******* The source tree *******/

  /** TOML tables have distinct keys, at every depth. */
  predicate DistinctKeys(entries: seq<Entry>) {
    forall i, j :: 0 <= i < j < |entries| ==> entries[i].key != entries[j].key
  }

  predicate IsToml(v: Toml)
    decreases v, 1
  {
    match v
    case Arr(elems) => forall i :: 0 <= i < |elems| ==> IsToml(elems[i])
    case Table(entries) => IsTable(entries)
    case _ => true
  }

  predicate IsTable(entries: seq<Entry>)
    decreases entries, 0
  {
    DistinctKeys(entries) && forall i :: 0 <= i < |entries| ==> IsToml(entries[i].val)
  }

  function Find(entries: seq<Entry>, key: string): (r: Option<Toml>)
    ensures r.Some? ==> Entry(key, r.value) in entries
    ensures r.None? ==> forall e :: e in entries ==> e.key != key
  {
    if entries == [] then None
    else if Last(entries).key == key then Some(Last(entries).val)
    else Find(Init(entries), key)
  }

  /** The node reached from a table along a non-empty path of keys. */
  function NodeAt(entries: seq<Entry>, path: seq<string>): Option<Toml>
    requires path != []
    decreases |path|
  {
    match Find(entries, path[0])
    case Some(v) =>
      if |path| == 1 then Some(v) else if v.Table? then NodeAt(v.entries, path[1..]) else None
    case None => None
  }

  predicate IsLeaf(entries: seq<Entry>, path: seq<string>) {
    path != [] && NodeAt(entries, path).Some? && !NodeAt(entries, path).value.Table?
  }

  /** The table at a possibly empty path. */
  function TableAt(entries: seq<Entry>, path: seq<string>): Option<seq<Entry>> {
    if path == [] then Some(entries)
    else match NodeAt(entries, path)
         case Some(Table(es)) => Some(es)
         case _ => None
  }

  /** Names of all structs emitted for v, in emission order. */
  function TableKeys(v: Toml, key: string): seq<string>
    decreases v, 1
  {
    match v
    case Arr(elems) => if elems == [] then [] else TableKeys(elems[0], key)
    case Table(entries) => EntryTableKeys(entries) + [key]
    case _ => []
  }

  function EntryTableKeys(entries: seq<Entry>): seq<string>
    decreases entries, 0
  {
    if entries == [] then [] else EntryTableKeys(Init(entries)) + TableKeys(Last(entries).val, Last(entries).key)
  }

  predicate Distinct(s: seq<string>) {
    forall i, j :: 0 <= i < j < |s| ==> s[i] != s[j]
  }

  /** No two tables of the tree, the root included, yield the same struct identifier. */
  predicate DistinctTables(camel: Camel, entries: seq<Entry>, root: string) {
    var names := EntryTableKeys(entries) + [root];
    forall i, j :: 0 <= i < j < |names| ==> camel(names[i]) != camel(names[j])
  }

  /** The dotted path of a table or field: the string the optional markers are compared with. */
  function Dotted(root: string, path: seq<string>): string {
    if path == [] then root else root + "." + JoinDots(path)
  }

  function Name(root: string, path: seq<string>): string {
    if path == [] then root else Last(path)
  }

  /******* Paths *******/

  lemma {:induction false} NodeAtSnoc(entries: seq<Entry>, path: seq<string>)
    requires |path| > 1
    ensures NodeAt(entries, path) ==
            match NodeAt(entries, Init(path)) { case Some(Table(es)) => Find(es, Last(path)) case _ => None }
    decreases |path|
  {
    var v := Find(entries, path[0]);
    if |path| > 2 && v.Some? && v.value.Table? {
      assert Init(path)[1..] == Init(path[1..]);
      NodeAtSnoc(v.value.entries, path[1..]);
    }
  }

  lemma {:induction false} JoinDotsCons(path: seq<string>)
    requires |path| > 1
    ensures JoinDots(path) == path[0] + "." + JoinDots(path[1..])
  {
    if |path| > 2 {
      JoinDotsCons(Init(path));
      assert Init(path)[1..] == Init(path[1..]);
      assert JoinDots(path) == (path[0] + "." + JoinDots(Init(path[1..]))) + "." + Last(path);
      assert JoinDots(path[1..]) == JoinDots(Init(path[1..])) + "." + Last(path);
    }
  }

  lemma DottedChild(root: string, path: seq<string>, key: string)
    ensures Dotted(root, path + [key]) == Child(Dotted(root, path), key)
  {
    assert Init(path + [key]) == path;
    if path == [] {
      assert Dotted(root, path + [key]) == root + "." + key;
    } else {
      assert JoinDots(path + [key]) == JoinDots(path) + "." + key;
    }
  }

  /** Every table on the way is well formed and is compiled too. */
  lemma {:induction false} NodeFacts(camel: Camel, entries: seq<Entry>, path: seq<string>)
    requires IsTable(entries) && CompilesEntries(camel, entries) && path != [] && NodeAt(entries, path).Some?
    ensures IsToml(NodeAt(entries, path).value) && Compiles(camel, NodeAt(entries, path).value, Last(path))
    ensures forall i :: 0 <= i < |path| ==> IsIdent(path[i])
    decreases |path|
  {
    var v := Find(entries, path[0]).value;
    assert Entry(path[0], v) in entries;
    if |path| > 1 {
      NodeFacts(camel, v.entries, path[1..]);
      assert forall i :: 1 <= i < |path| ==> path[i] == path[1..][i - 1];
    }
  }

  lemma TableFacts(camel: Camel, entries: seq<Entry>, path: seq<string>)
    requires IsTable(entries) && CompilesEntries(camel, entries) && TableAt(entries, path).Some?
    ensures IsTable(TableAt(entries, path).value) && CompilesEntries(camel, TableAt(entries, path).value)
  {
    if path != [] {
      NodeFacts(camel, entries, path);
    }
  }

  lemma {:induction false} PrefixIsTable(entries: seq<Entry>, path: seq<string>, n: nat)
    requires path != [] && NodeAt(entries, path).Some? && n < |path|
    ensures TableAt(entries, path[..n]).Some?
    ensures NodeAt(entries, path[..n + 1]) == Find(TableAt(entries, path[..n]).value, path[n])
    decreases |path|
  {
    assert path[..|path|] == path;
    if |path| > 1 {
      NodeAtSnoc(entries, path);
      if n + 1 < |path| {
        PrefixIsTable(entries, Init(path), n);
        assert Init(path)[..n] == path[..n] && Init(path)[..n + 1] == path[..n + 1];
      } else {
        assert path[..n] == Init(path);
      }
    }
  }

  /******* The struct map *******/

  lemma {:induction false} StructsDomain(
    camel: Camel, opts: seq<string>, m: StructMap, v: Toml, key: string, prefix: string)
    requires Compiles(camel, v, key) && prefix != ""
    ensures var m' := Structs(camel, opts, m, v, key, prefix);
            && (forall k :: k in m' <==> k in m || k in TableKeys(v, key))
            && (forall k :: k in m && k !in TableKeys(v, key) ==> m'[k] == m[k])
            && (forall k :: k in TableKeys(v, key) ==> m'[k].ident == camel(k))
    decreases v, 1
  {
    match v
    case Arr(elems) => StructsDomain(camel, opts, m, elems[0], key, prefix);
    case Table(entries) => EntriesDomain(camel, opts, m, entries, Child(prefix, key));
    case _ =>
  }

  lemma {:induction false} EntriesDomain(
    camel: Camel, opts: seq<string>, m: StructMap, entries: seq<Entry>, prefix: string)
    requires CompilesEntries(camel, entries) && prefix != ""
    ensures var m' := StructsOfEntries(camel, opts, m, entries, prefix);
            && (forall k :: k in m' <==> k in m || k in EntryTableKeys(entries))
            && (forall k :: k in m && k !in EntryTableKeys(entries) ==> m'[k] == m[k])
            && (forall k :: k in EntryTableKeys(entries) ==> m'[k].ident == camel(k))
    decreases entries, 0
  {
    if entries != [] {
      var e := Last(entries);
      EntriesDomain(camel, opts, m, Init(entries), prefix);
      StructsDomain(camel, opts, StructsOfEntries(camel, opts, m, Init(entries), prefix), e.val, e.key, prefix);
    }
  }

  lemma DistinctParts(a: seq<string>, b: seq<string>)
    requires Distinct(a + b)
    ensures Distinct(a) && Distinct(b) && forall x :: x in a ==> x !in b
  {
    forall i, j | 0 <= i < j < |a| ensures a[i] != a[j] {
      assert (a + b)[i] == a[i] && (a + b)[j] == a[j];
    }
    forall i, j | 0 <= i < j < |b| ensures b[i] != b[j] {
      assert (a + b)[|a| + i] == b[i] && (a + b)[|a| + j] == b[j];
    }
    forall i, j | 0 <= i < |a| && 0 <= j < |b| ensures a[i] != b[j] {
      assert (a + b)[i] == a[i] && (a + b)[|a| + j] == b[j];
    }
  }

  ghost predicate Declares(
    camel: Camel, opts: seq<string>, structs: StructMap, key: string, sub: seq<Entry>, dotted: string)
    requires CompilesEntries(camel, sub)
  {
    key in structs && structs[key].fields == Fields(camel, opts, sub, dotted)
  }

  /** With distinct names no later struct overwrites the one emitted for the table at path. */
  lemma {:induction false} TableStruct(
    camel: Camel, opts: seq<string>, m: StructMap, entries: seq<Entry>, path: seq<string>, prefix: string,
    sub: seq<Entry>)
    requires CompilesEntries(camel, entries) && prefix != "" && path != []
    requires Distinct(EntryTableKeys(entries))
    requires NodeAt(entries, path) == Some(Table(sub)) && CompilesEntries(camel, sub)
    ensures Last(path) in EntryTableKeys(entries)
    ensures Declares(camel, opts, StructsOfEntries(camel, opts, m, entries, prefix), Last(path), sub,
                     Dotted(prefix, path))
    decreases |path|, |entries|
  {
    var e := Last(entries);
    var m1 := StructsOfEntries(camel, opts, m, Init(entries), prefix);
    DistinctParts(EntryTableKeys(Init(entries)), TableKeys(e.val, e.key));
    if e.key != path[0] {
      assert NodeAt(Init(entries), path) == NodeAt(entries, path);
      TableStruct(camel, opts, m, Init(entries), path, prefix, sub);
      StructsDomain(camel, opts, m1, e.val, e.key, prefix);
    } else if |path| > 1 {
      TableStructBelow(camel, opts, m1, e, path, prefix, sub);
    }
  }

  lemma {:induction false} TableStructBelow(
    camel: Camel, opts: seq<string>, m: StructMap, e: Entry, path: seq<string>, prefix: string, sub: seq<Entry>)
    requires Compiles(camel, e.val, e.key) && prefix != "" && |path| > 1 && e.key == path[0] && e.val.Table?
    requires Distinct(TableKeys(e.val, e.key))
    requires NodeAt(e.val.entries, path[1..]) == Some(Table(sub)) && CompilesEntries(camel, sub)
    ensures Last(path) in TableKeys(e.val, e.key)
    ensures Declares(camel, opts, Structs(camel, opts, m, e.val, e.key, prefix), Last(path), sub, Dotted(prefix, path))
    decreases |path|, 0
  {
    DistinctParts(EntryTableKeys(e.val.entries), [e.key]);
    TableStruct(camel, opts, m, e.val.entries, path[1..], Child(prefix, e.key), sub);
    JoinDotsCons(path);
    assert Dotted(Child(prefix, e.key), path[1..]) == Dotted(prefix, path);
  }

  lemma CompiledDistinct(camel: Camel, opts: seq<string>, entries: seq<Entry>, root: string)
    requires Compiles(camel, Table(entries), root) && root != "" && DistinctTables(camel, entries, root)
    ensures DistinctIdents(Compiled(camel, opts, entries, root))
    ensures Distinct(EntryTableKeys(entries)) && root !in EntryTableKeys(entries)
  {
    var names := EntryTableKeys(entries) + [root];
    forall i, j | 0 <= i < j < |names| ensures names[i] != names[j] {
      assert camel(names[i]) != camel(names[j]);
    }
    DistinctParts(EntryTableKeys(entries), [root]);
    EntriesDomain(camel, opts, map[], entries, root);
    var structs := Compiled(camel, opts, entries, root);
    forall k, k' | k in structs && k' in structs && structs[k].ident == structs[k'].ident ensures k == k' {
      assert k in names && k' in names;
      var i :| 0 <= i < |names| && names[i] == k;
      var j :| 0 <= j < |names| && names[j] == k';
    }
  }

  /** A tree the macro compiles, whose tables get structs of their own. (Getter names are treated in TomlText.) */
  ghost predicate Accepted(camel: Camel, entries: seq<Entry>, root: string) {
    && Compiles(camel, Table(entries), root) && IsTable(entries) && root != ""
    && DistinctTables(camel, entries, root)
  }

  function ProgramEnv(camel: Camel, opts: seq<string>, entries: seq<Entry>, root: string): Env
    requires Accepted(camel, entries, root)
  {
    CompiledDistinct(camel, opts, entries, root);
    EnvOf(Compiled(camel, opts, entries, root))
  }

  /** Each table of the tree is declared with exactly the fields generated from its entries. */
  lemma TableDeclared(camel: Camel, opts: seq<string>, entries: seq<Entry>, root: string, path: seq<string>)
    requires Accepted(camel, entries, root) && TableAt(entries, path).Some?
    ensures var sub := TableAt(entries, path).value;
            var ident := camel(Name(root, path));
            && CompilesEntries(camel, sub) && IsTable(sub)
            && ident in ProgramEnv(camel, opts, entries, root)
            && ProgramEnv(camel, opts, entries, root)[ident] == Fields(camel, opts, sub, Dotted(root, path))
  {
    CompiledDistinct(camel, opts, entries, root);
    EntriesDomain(camel, opts, map[], entries, root);
    TableFacts(camel, entries, path);
    var structs := Compiled(camel, opts, entries, root);
    assert structs[root].ident == camel(root);
    if path != [] {
      TableStruct(camel, opts, map[], entries, path, root, TableAt(entries, path).value);
      assert structs[Last(path)].ident == camel(Last(path));
    }
  }

  lemma FieldFound(camel: Camel, opts: seq<string>, sub: seq<Entry>, prefix: string, key: string)
    requires CompilesEntries(camel, sub) && IsTable(sub) && Find(sub, key).Some?
    ensures var fields := Fields(camel, opts, sub, prefix);
            var e := Entry(key, Find(sub, key).value);
            && Compiles(camel, e.val, key)
            && IndexOf(fields, key).Some?
            && fields[IndexOf(fields, key).value] == FieldOf(camel, opts, e, prefix)
  {
    var fields := Fields(camel, opts, sub, prefix);
    var e := Entry(key, Find(sub, key).value);
    var j :| 0 <= j < |sub| && sub[j] == e;
    assert fields[j].name == key;
    var i := IndexOf(fields, key).value;
    assert fields[i].name == sub[i].key;
    assert i == j;
  }

  /******* Type soundness *******/

  /** Every table of the tree is declared, under its identifier, with the fields of its entries. */
  ghost predicate Declared(env: Env, camel: Camel, opts: seq<string>, entries: seq<Entry>, root: string) {
    forall path :: TableAt(entries, path).Some? ==>
      DeclaredAt(env, camel, opts, TableAt(entries, path).value, camel(Name(root, path)), Dotted(root, path))
  }

  ghost predicate DeclaredAt(
    env: Env, camel: Camel, opts: seq<string>, sub: seq<Entry>, ident: string, dotted: string)
  {
    CompilesEntries(camel, sub) && IsTable(sub) && ident in env && env[ident] == Fields(camel, opts, sub, dotted)
  }

  lemma ProgramDeclares(camel: Camel, opts: seq<string>, entries: seq<Entry>, root: string)
    requires Accepted(camel, entries, root)
    ensures Declared(ProgramEnv(camel, opts, entries, root), camel, opts, entries, root)
  {
    forall path | TableAt(entries, path).Some?
      ensures DeclaredAt(ProgramEnv(camel, opts, entries, root), camel, opts, TableAt(entries, path).value,
                         camel(Name(root, path)), Dotted(root, path))
    {
      TableDeclared(camel, opts, entries, root, path);
    }
  }

  /** In struct ident, field f has type ty, wrapped in Option if opt. */
  predicate Selects(env: Env, ident: string, f: string, opt: bool, ty: RType) {
    && ident in env && IndexOf(env[ident], f).Some?
    && env[ident][IndexOf(env[ident], f).value].ty == if opt then ROption(ty) else ty
  }

  lemma FieldSelected(
    env: Env, camel: Camel, opts: seq<string>, sub: seq<Entry>, ident: string, dotted: string, key: string)
    requires DeclaredAt(env, camel, opts, sub, ident, dotted) && Find(sub, key).Some?
    ensures Compiles(camel, Find(sub, key).value, key)
    ensures Selects(env, ident, key, Child(dotted, key) in opts, TypeOf(camel, Find(sub, key).value, key))
  {
    FieldFound(camel, opts, sub, dotted, key);
  }

  /** The field that path[n] selects is Option exactly when its dotted path is marked. */
  lemma StepSelects(
    env: Env, camel: Camel, opts: seq<string>, root: string, path: seq<string>, n: nat, sub: seq<Entry>, ident: string)
    requires n < |path| && Find(sub, path[n]).Some?
    requires DeclaredAt(env, camel, opts, sub, ident, Dotted(root, path[..n]))
    ensures Compiles(camel, Find(sub, path[n]).value, path[n])
    ensures Selects(env, ident, path[n], OptionalAt(opts, root + ".", path[..n + 1]),
                    TypeOf(camel, Find(sub, path[n]).value, path[n]))
  {
    FieldSelected(env, camel, opts, sub, ident, Dotted(root, path[..n]), path[n]);
    assert path[..n + 1] == path[..n] + [path[n]];
    DottedChild(root, path[..n], path[n]);
  }

  /** The struct identifiers met along path, down to a leaf of type leafTy. */
  ghost predicate Spine(
    env: Env, idents: seq<string>, opts: seq<string>, prefix: string, path: seq<string>, leafTy: RType) {
    && path != [] && |idents| == |path| && !leafTy.ROption?
    && forall k :: 0 <= k < |path| ==> SpineAt(env, idents, opts, prefix, path, leafTy, k)
  }

  ghost predicate SpineAt(
    env: Env, idents: seq<string>, opts: seq<string>, prefix: string, path: seq<string>, leafTy: RType, k: nat)
    requires |idents| == |path| && k < |path|
  {
    Selects(env, idents[k], path[k], OptionalAt(opts, prefix, path[..k + 1]),
            if k + 1 < |path| then RNamed(idents[k + 1]) else leafTy)
  }

  lemma SpineStep(
    env: Env, camel: Camel, opts: seq<string>, entries: seq<Entry>, root: string, path: seq<string>, k: nat)
    requires Declared(env, camel, opts, entries, root)
    requires path != [] && k < |path| && NodeAt(entries, path).Some?
    ensures NodeAt(entries, path[..k + 1]).Some? && Compiles(camel, NodeAt(entries, path[..k + 1]).value, path[k])
    ensures Selects(env, camel(Name(root, path[..k])), path[k], OptionalAt(opts, root + ".", path[..k + 1]),
                    TypeOf(camel, NodeAt(entries, path[..k + 1]).value, path[k]))
  {
    hide Selects, OptionalAt;
    PrefixIsTable(entries, path, k);
    assert path[..|path|] == path;
    if k + 1 < |path| {
      PrefixIsTable(entries, path, k + 1);
    }
    var sub := TableAt(entries, path[..k]).value;
    assert DeclaredAt(env, camel, opts, sub, camel(Name(root, path[..k])), Dotted(root, path[..k]));
    StepSelects(env, camel, opts, root, path, k, sub, camel(Name(root, path[..k])));
  }

  /** The type of an inner node names the struct of that node. */
  lemma InnerType(camel: Camel, entries: seq<Entry>, root: string, path: seq<string>, k: nat)
    requires k + 1 < |path| && NodeAt(entries, path).Some?
    requires NodeAt(entries, path[..k + 1]).Some? && Compiles(camel, NodeAt(entries, path[..k + 1]).value, path[k])
    ensures TypeOf(camel, NodeAt(entries, path[..k + 1]).value, path[k]) == RNamed(camel(Name(root, path[..k + 1])))
  {
    PrefixIsTable(entries, path, k + 1);
    assert Last(path[..k + 1]) == path[k];
  }

  lemma SpineSelects(
    env: Env, camel: Camel, opts: seq<string>, entries: seq<Entry>, root: string, path: seq<string>, k: nat,
    leafTy: RType)
    requires Declared(env, camel, opts, entries, root) && IsLeaf(entries, path) && k < |path|
    requires Compiles(camel, NodeAt(entries, path).value, Last(path))
    requires leafTy == TypeOf(camel, NodeAt(entries, path).value, Last(path))
    ensures Selects(env, camel(Name(root, path[..k])), path[k], OptionalAt(opts, root + ".", path[..k + 1]),
                    if k + 1 < |path| then RNamed(camel(Name(root, path[..k + 1]))) else leafTy)
  {
    hide Declared, Selects, OptionalAt;
    SpineStep(env, camel, opts, entries, root, path, k);
    if k + 1 < |path| {
      InnerType(camel, entries, root, path, k);
    } else {
      assert path[..k + 1] == path;
    }
  }

  lemma SpineHolds(
    env: Env, camel: Camel, opts: seq<string>, entries: seq<Entry>, root: string, path: seq<string>, leafTy: RType)
    returns (idents: seq<string>)
    requires Declared(env, camel, opts, entries, root) && IsLeaf(entries, path)
    requires Compiles(camel, NodeAt(entries, path).value, Last(path))
    requires leafTy == TypeOf(camel, NodeAt(entries, path).value, Last(path))
    ensures Spine(env, idents, opts, root + ".", path, leafTy) && idents[0] == camel(root)
  {
    hide Declared, Selects, OptionalAt;
    idents := seq(|path|, k requires 0 <= k < |path| => camel(Name(root, path[..k])));
    forall k | 0 <= k < |path|
      ensures SpineAt(env, idents, opts, root + ".", path, leafTy, k)
    {
      SpineSelects(env, camel, opts, entries, root, path, k, leafTy);
    }
    assert Name(root, path[..0]) == root;
    assert idents[0] == camel(Name(root, path[..0]));
  }

  lemma {:induction false} ChainTyped(
    env: Env, idents: seq<string>, opts: seq<string>, prefix: string, path: seq<string>, leafTy: RType,
    n: nat, returnsOption: bool)
    requires Spine(env, idents, opts, prefix, path, leafTy) && n < |path|
    requires AnyOptional(opts, prefix, path, n) ==> returnsOption
    ensures AccessType(env, idents[0], returnsOption, Chain(opts, prefix, path, n)) == Some(RNamed(idents[n]))
  {
    if n > 0 {
      assert SpineAt(env, idents, opts, prefix, path, leafTy, n - 1);
      ChainTyped(env, idents, opts, prefix, path, leafTy, n - 1, returnsOption);
    }
  }

  /** The getter that the macro emits for path. */
  function GetterFor(opts: seq<string>, prefix: string, path: seq<string>, leafTy: RType): Getter {
    var access := Chain(opts, prefix, path, |path|);
    if OptionalAt(opts, prefix, path) then Getter(path, true, leafTy, AsRef(access))
    else if AnyOptional(opts, prefix, path, |path|) then Getter(path, true, leafTy, SomeRef(access))
    else Getter(path, false, leafTy, Ref(access))
  }

  /** Every emitted getter type-checks: `?` is applied to Option fields only, in getters returning Option. */
  lemma GetterTyped(env: Env, idents: seq<string>, opts: seq<string>, prefix: string, path: seq<string>, leafTy: RType)
    requires Spine(env, idents, opts, prefix, path, leafTy)
    ensures WellTyped(env, idents[0], GetterFor(opts, prefix, path, leafTy))
  {
    var n := |path| - 1;
    assert path[..n + 1] == path;
    ChainTyped(env, idents, opts, prefix, path, leafTy, n, GetterFor(opts, prefix, path, leafTy).optional);
    assert SpineAt(env, idents, opts, prefix, path, leafTy, n);
  }

  /******* Meaning preservation *******/

  /** Reading a declared field of a well-typed struct value. */
  lemma FieldRead(env: Env, v: Value, ident: string, f: string, opt: bool, ty: RType)
    requires HasType(env, v, RNamed(ident)) && Selects(env, ident, f, opt, ty) && !ty.ROption?
    ensures Project(env, v, f).Some?
    ensures var w := Project(env, v, f).value;
            if opt then w.VNone? || (w.VSome? && HasType(env, w.v, ty))
            else HasType(env, w, ty) && Unwrap(w) == Present(w)
  {
    var i := IndexOf(env[ident], f).value;
    assert HasType(env, v.fields[i], env[ident][i].ty);
  }

  /** The walk stayed inside the declared structure, and the access chain followed it. */
  ghost predicate Agrees(env: Env, w: Walked, o: Outcome, ty: RType, mayStop: bool) {
    match w
    case Present(v) => o == Val(v) && HasType(env, v, ty)
    case Absent => o == EarlyNone && mayStop
    case Missing => false
  }

  lemma AgreesStep(
    env: Env, w: Walked, o: Outcome, ident: string, f: string, opt: bool, ty: RType, mayStop: bool)
    requires Agrees(env, w, o, RNamed(ident), mayStop)
    requires Selects(env, ident, f, opt, ty) && !ty.ROption?
    ensures Agrees(env, WalkInto(env, w, f), if opt then EvalTry(EvalDot(env, o, f)) else EvalDot(env, o, f), ty,
                   mayStop || opt)
  {
    if w.Present? {
      FieldRead(env, w.v, ident, f, opt, ty);
    }
  }

  lemma {:induction false} ChainMeaning(
    env: Env, idents: seq<string>, opts: seq<string>, prefix: string, path: seq<string>, leafTy: RType,
    n: nat, self: Value)
    requires Spine(env, idents, opts, prefix, path, leafTy) && n < |path|
    requires HasType(env, self, RNamed(idents[0]))
    ensures Agrees(env, Walk(env, self, path[..n]), Eval(env, self, Chain(opts, prefix, path, n)), RNamed(idents[n]),
                   AnyOptional(opts, prefix, path, n))
  {
    if n > 0 {
      ChainMeaning(env, idents, opts, prefix, path, leafTy, n - 1, self);
      var opt := OptionalAt(opts, prefix, path[..n]);
      assert SpineAt(env, idents, opts, prefix, path, leafTy, n - 1);
      assert Init(path[..n]) == path[..n - 1] && Last(path[..n]) == path[n - 1];
      ChainStep(env, self, Walk(env, self, path[..n - 1]), Chain(opts, prefix, path, n - 1), idents[n - 1], path[n - 1],
                opt, RNamed(idents[n]), AnyOptional(opts, prefix, path, n - 1));
      assert AnyOptional(opts, prefix, path, n) == (AnyOptional(opts, prefix, path, n - 1) || opt);
    }
  }

  lemma ChainStep(
    env: Env, self: Value, w: Walked, a: Access, ident: string, f: string, opt: bool, ty: RType, mayStop: bool)
    requires Agrees(env, w, Eval(env, self, a), RNamed(ident), mayStop)
    requires Selects(env, ident, f, opt, ty) && !ty.ROption?
    ensures Agrees(env, WalkInto(env, w, f), Eval(env, self, if opt then Try(Dot(a, f)) else Dot(a, f)), ty,
                   mayStop || opt)
  {
    hide Agrees, Selects, WalkInto, EvalDot, EvalTry;
    AgreesStep(env, w, Eval(env, self, a), ident, f, opt, ty, mayStop);
  }

  /** What a getter must return: the leaf if everything on the path is present, else None. */
  function Expected(optional: bool, w: Walked): Returned {
    match w
    case Present(v) => if optional then OptSome(v) else Plain(v)
    case Absent => if optional then OptNone else Faulted
    case Missing => Faulted
  }

  /** The final field read, in each of the three getter bodies. */
  lemma LeafMeaning(
    env: Env, w: Walked, o: Outcome, ident: string, f: string, opt: bool, ty: RType, mayStop: bool, b: Body)
    requires Agrees(env, w, o, RNamed(ident), mayStop)
    requires Selects(env, ident, f, opt, ty) && !ty.ROption?
    requires if opt then b.AsRef? else if mayStop then b.SomeRef? else b.Ref?
    ensures var w' := WalkInto(env, w, f);
            && Return(b, EvalDot(env, o, f)) == Expected(opt || mayStop, w')
            && Return(b, EvalDot(env, o, f)) != Faulted
            && (w'.Present? ==> HasType(env, w'.v, ty))
  {
    if w.Present? {
      FieldRead(env, w.v, ident, f, opt, ty);
    }
  }

  lemma GetterMeaning(
    env: Env, idents: seq<string>, opts: seq<string>, prefix: string, path: seq<string>, leafTy: RType, self: Value)
    requires Spine(env, idents, opts, prefix, path, leafTy)
    requires HasType(env, self, RNamed(idents[0]))
    ensures var g := GetterFor(opts, prefix, path, leafTy);
            && Call(env, self, g) == Expected(g.optional, Walk(env, self, path))
            && Call(env, self, g) != Faulted
            && (Walk(env, self, path).Present? ==> HasType(env, Walk(env, self, path).v, leafTy))
  {
    var n := |path| - 1;
    assert path[..n + 1] == path && Init(path) == path[..n];
    ChainMeaning(env, idents, opts, prefix, path, leafTy, n, self);
    assert SpineAt(env, idents, opts, prefix, path, leafTy, n);
    assert AnyOptional(opts, prefix, path, n) == AnyOptional(opts, prefix, path, |path|);
    var chain := Chain(opts, prefix, path, n);
    var g := GetterFor(opts, prefix, path, leafTy);
    assert g.body.access == Dot(chain, path[n]);
    LeafMeaning(env, Walk(env, self, path[..n]), Eval(env, self, chain), idents[n], path[n],
                OptionalAt(opts, prefix, path), leafTy, AnyOptional(opts, prefix, path, n), g.body);
  }

  /******* One getter per leaf *******/

  ghost predicate OnePerLeaf(
    camel: Camel, opts: seq<string>, prefix: string, gs: seq<Getter>, entries: seq<Entry>, at: seq<string>)
  {
    && (forall i :: 0 <= i < |gs| ==> IsGetterOf(camel, opts, prefix, gs[i], entries, at))
    && (forall i, j :: 0 <= i < j < |gs| ==> gs[i].path != gs[j].path)
    && (forall q :: IsLeaf(entries, q) ==> exists i :: 0 <= i < |gs| && gs[i].path == at + q)
  }

  ghost predicate IsGetterOf(
    camel: Camel, opts: seq<string>, prefix: string, g: Getter, entries: seq<Entry>, at: seq<string>)
  {
    && at < g.path && g.path[..|at|] == at
    && var q := g.path[|at|..];
       && IsLeaf(entries, q) && Compiles(camel, NodeAt(entries, q).value, Last(g.path))
       && g == LeafGetter(camel, opts, prefix, NodeAt(entries, q).value, g.path)
  }

  lemma NodeAtLast(entries: seq<Entry>, q: seq<string>)
    requires entries != [] && q != []
    ensures q[0] != Last(entries).key ==> NodeAt(entries, q) == NodeAt(Init(entries), q)
    ensures q[0] == Last(entries).key && |q| == 1 ==> NodeAt(entries, q) == Some(Last(entries).val)
    ensures q[0] == Last(entries).key && |q| > 1 ==>
      NodeAt(entries, q) == if Last(entries).val.Table? then NodeAt(Last(entries).val.entries, q[1..]) else None
  {
  }

  lemma InitTable(entries: seq<Entry>)
    requires IsTable(entries) && entries != []
    ensures IsTable(Init(entries)) && Find(Init(entries), Last(entries).key) == None
    ensures IsToml(Last(entries).val)
  {
  }

  /** A getter emitted for the first entries is one for the whole table. */
  lemma LiftInit(camel: Camel, opts: seq<string>, prefix: string, g: Getter, entries: seq<Entry>, at: seq<string>)
    requires IsTable(entries) && entries != [] && IsGetterOf(camel, opts, prefix, g, Init(entries), at)
    ensures IsGetterOf(camel, opts, prefix, g, entries, at) && g.path[|at|] != Last(entries).key
  {
    InitTable(entries);
    NodeAtLast(entries, g.path[|at|..]);
  }

  /** A getter emitted below the last entry is one for the whole table. */
  lemma LiftLast(camel: Camel, opts: seq<string>, prefix: string, g: Getter, entries: seq<Entry>, at: seq<string>)
    requires entries != [] && Last(entries).val.Table?
    requires IsGetterOf(camel, opts, prefix, g, Last(entries).val.entries, at + [Last(entries).key])
    ensures IsGetterOf(camel, opts, prefix, g, entries, at) && g.path[|at|] == Last(entries).key
  {
    var here := at + [Last(entries).key];
    var q := g.path[|at|..];
    assert g.path[|at|] == g.path[..|here|][|at|];
    assert q[1..] == g.path[|here|..];
    assert g.path[..|at|] == g.path[..|here|][..|at|] == at;
    assert at < g.path;
    NodeAtLast(entries, q);
  }

  /** hs are the getters of the last entry, one per leaf under it. */
  ghost predicate LastOnePerLeaf(
    camel: Camel, opts: seq<string>, prefix: string, hs: seq<Getter>, entries: seq<Entry>, at: seq<string>)
    requires entries != []
  {
    var key := Last(entries).key;
    && (forall i :: 0 <= i < |hs| ==> IsGetterOf(camel, opts, prefix, hs[i], entries, at) && hs[i].path[|at|] == key)
    && (forall i, j :: 0 <= i < j < |hs| ==> hs[i].path != hs[j].path)
    && (forall q :: IsLeaf(entries, q) && q[0] == key ==> exists i :: 0 <= i < |hs| && hs[i].path == at + q)
  }

  lemma {:induction false} LastGetters(
    camel: Camel, opts: seq<string>, prefix: string, entries: seq<Entry>, at: seq<string>)
    requires CompilesEntries(camel, entries) && IsTable(entries) && entries != []
    ensures LastOnePerLeaf(
              camel, opts, prefix, GettersAt(camel, opts, prefix, Last(entries).val, at + [Last(entries).key]),
              entries, at)
    decreases entries, 0
  {
    hide LeafGetter;
    var e := Last(entries);
    var here := at + [e.key];
    var hs := GettersAt(camel, opts, prefix, e.val, here);
    InitTable(entries);
    if e.val.Table? {
      OneGetterPerLeaf(camel, opts, prefix, e.val.entries, here);
      LastIsTable(camel, opts, prefix, hs, entries, at);
    } else {
      LastIsLeaf(camel, opts, prefix, entries, at);
    }
  }

  lemma LastIsTable(
    camel: Camel, opts: seq<string>, prefix: string, hs: seq<Getter>, entries: seq<Entry>, at: seq<string>)
    requires entries != [] && Last(entries).val.Table?
    requires OnePerLeaf(camel, opts, prefix, hs, Last(entries).val.entries, at + [Last(entries).key])
    ensures LastOnePerLeaf(camel, opts, prefix, hs, entries, at)
  {
    hide LeafGetter;
    var e := Last(entries);
    var here := at + [e.key];
    forall i | 0 <= i < |hs| ensures IsGetterOf(camel, opts, prefix, hs[i], entries, at) && hs[i].path[|at|] == e.key {
      LiftLast(camel, opts, prefix, hs[i], entries, at);
    }
    forall q | IsLeaf(entries, q) && q[0] == e.key ensures exists i :: 0 <= i < |hs| && hs[i].path == at + q {
      NodeAtLast(entries, q);
      assert IsLeaf(e.val.entries, q[1..]);
      assert here + q[1..] == at + q;
    }
  }

  lemma LastIsLeaf(camel: Camel, opts: seq<string>, prefix: string, entries: seq<Entry>, at: seq<string>)
    requires CompilesEntries(camel, entries) && entries != [] && !Last(entries).val.Table?
    ensures LastOnePerLeaf(
              camel, opts, prefix, GettersAt(camel, opts, prefix, Last(entries).val, at + [Last(entries).key]),
              entries, at)
  {
    hide LeafGetter;
    var e := Last(entries);
    var here := at + [e.key];
    var hs := GettersAt(camel, opts, prefix, e.val, here);
    assert here[|at|..] == [e.key] && here[..|at|] == at && at < here;
    NodeAtLast(entries, [e.key]);
    LeafGetterPath(camel, opts, prefix, e.val, here);
    assert hs == [LeafGetter(camel, opts, prefix, e.val, here)];
    assert IsGetterOf(camel, opts, prefix, hs[0], entries, at);
    forall q | IsLeaf(entries, q) && q[0] == e.key ensures hs[0].path == at + q {
      NodeAtLast(entries, q);
      assert q == [e.key];
    }
  }

  lemma LeafGetterPath(camel: Camel, opts: seq<string>, prefix: string, v: Toml, path: seq<string>)
    requires path != [] && Compiles(camel, v, Last(path))
    ensures LeafGetter(camel, opts, prefix, v, path).path == path
  {
  }

  lemma JoinGetters(
    camel: Camel, opts: seq<string>, prefix: string, gs: seq<Getter>, hs: seq<Getter>, entries: seq<Entry>,
    at: seq<string>)
    requires entries != [] && IsTable(entries)
    requires OnePerLeaf(camel, opts, prefix, gs, Init(entries), at)
    requires LastOnePerLeaf(camel, opts, prefix, hs, entries, at)
    ensures OnePerLeaf(camel, opts, prefix, gs + hs, entries, at)
  {
    hide IsGetterOf, IsTable;
    var key := Last(entries).key;
    forall i | 0 <= i < |gs|
      ensures IsGetterOf(camel, opts, prefix, gs[i], entries, at) && |at| < |gs[i].path| && gs[i].path[|at|] != key
    {
      LiftInit(camel, opts, prefix, gs[i], entries, at);
      GetterLonger(camel, opts, prefix, gs[i], entries, at);
    }
    forall i | 0 <= i < |hs| ensures |at| < |hs[i].path| {
      GetterLonger(camel, opts, prefix, hs[i], entries, at);
    }
    forall q | IsLeaf(entries, q) ensures exists i :: 0 <= i < |gs + hs| && (gs + hs)[i].path == at + q {
      NodeAtLast(entries, q);
      if q[0] == key {
        var i :| 0 <= i < |hs| && hs[i].path == at + q;
        assert (gs + hs)[|gs| + i].path == at + q;
      } else {
        assert IsLeaf(Init(entries), q);
        var i :| 0 <= i < |gs| && gs[i].path == at + q;
        assert (gs + hs)[i].path == at + q;
      }
    }
  }

  lemma GetterLonger(camel: Camel, opts: seq<string>, prefix: string, g: Getter, entries: seq<Entry>, at: seq<string>)
    requires IsGetterOf(camel, opts, prefix, g, entries, at)
    ensures |at| < |g.path|
  {
  }

  /** The emitted getters are in bijection with the leaves of the tree. */
  lemma {:induction false} OneGetterPerLeaf(
    camel: Camel, opts: seq<string>, prefix: string, entries: seq<Entry>, at: seq<string>)
    requires CompilesEntries(camel, entries) && IsTable(entries)
    ensures OnePerLeaf(camel, opts, prefix, GettersUnder(camel, opts, prefix, entries, at), entries, at)
    decreases entries, 1
  {
    hide LeafGetter;
    if entries != [] {
      var e := Last(entries);
      InitTable(entries);
      OneGetterPerLeaf(camel, opts, prefix, Init(entries), at);
      LastGetters(camel, opts, prefix, entries, at);
      JoinGetters(camel, opts, prefix, GettersUnder(camel, opts, prefix, Init(entries), at),
                  GettersAt(camel, opts, prefix, e.val, at + [e.key]), entries, at);
    }
  }

  /******* Main theorem *******/

  /** The getter type-checks and, on every well-typed value, returns what the walk to its leaf finds. */
  ghost predicate GetterCorrect(env: Env, self: string, g: Getter) {
    && WellTyped(env, self, g)
    && forall v :: HasType(env, v, RNamed(self)) ==>
         && Call(env, v, g) == Expected(g.optional, Walk(env, v, g.path))
         && Call(env, v, g) != Faulted
         && (Walk(env, v, g.path).Present? ==> HasType(env, Walk(env, v, g.path).v, g.ret))
  }

  lemma OneGetterCorrect(
    env: Env, camel: Camel, opts: seq<string>, entries: seq<Entry>, root: string, g: Getter)
    requires Declared(env, camel, opts, entries, root)
    requires IsGetterOf(camel, opts, root + ".", g, entries, [])
    ensures GetterCorrect(env, camel(root), g)
  {
    assert g.path[0..] == g.path;
    var idents := SpineHolds(env, camel, opts, entries, root, g.path, g.ret);
    GetterTyped(env, idents, opts, root + ".", g.path, g.ret);
    forall v | HasType(env, v, RNamed(camel(root)))
      ensures && Call(env, v, g) == Expected(g.optional, Walk(env, v, g.path))
              && Call(env, v, g) != Faulted
              && (Walk(env, v, g.path).Present? ==> HasType(env, Walk(env, v, g.path).v, g.ret))
    {
      GetterMeaning(env, idents, opts, root + ".", g.path, g.ret, v);
    }
  }

  /**
   * For every tree the macro accepts: the getters of the root struct are one per leaf, each one
   * type-checks, and on every value of the root struct each returns what the walk finds.
   */
  lemma GetterCompilerCorrect(camel: Camel, opts: seq<string>, entries: seq<Entry>, root: string)
    requires Accepted(camel, entries, root)
    ensures var env := ProgramEnv(camel, opts, entries, root);
            var gs := Compiled(camel, opts, entries, root)[root].getters;
            && OnePerLeaf(camel, opts, root + ".", gs, entries, [])
            && (forall i :: 0 <= i < |gs| ==> GetterCorrect(env, camel(root), gs[i]))
  {
    var env := ProgramEnv(camel, opts, entries, root);
    var gs := Compiled(camel, opts, entries, root)[root].getters;
    OneGetterPerLeaf(camel, opts, root + ".", entries, []);
    ProgramDeclares(camel, opts, entries, root);
    forall i | 0 <= i < |gs| ensures GetterCorrect(env, camel(root), gs[i]) {
      OneGetterCorrect(env, camel, opts, entries, root, gs[i]);
    }
  }
}
