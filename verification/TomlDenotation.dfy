/**
 * What the getters return for the TOML file itself: the value that a tree denotes, when the emitted structs
 * can hold it, and what each getter gives back of it.
 */
module TomlDenotation {
  import opened Wrappers
  import opened TomlCompiler
  import opened TomlCompilerProofs
  import opened TomlSharedNames
  import opened TomlProgram

  /******* The value of a tree *******/

  /** The tree, its root struct and the optional keys. */
  datatype Program = Program(camel: Camel, opts: seq<string>, top: seq<Entry>, root: string)

  function SourceOf(p: Program, key: string): Option<Source> {
    LastTable(p.top, p.root, key)
  }

  /** Whether the entry with this key is marked optional in the struct of src. */
  predicate MarkedIn(p: Program, src: Source, key: string) {
    Child(src.dotted, key) in p.opts
  }

  /**
   * The value a tree denotes, as deserialized: strings, integers and booleans as they are, arrays element by
   * element, and tables as structs. The fields of a struct are read by name, in the order of its declaration;
   * an optional one is Some if it is there and None if not.
   */
  function Denote(p: Program, v: Toml, key: string): Value
    decreases v
  {
    match v
    case Str(s) => VStr(s)
    case Int(n) => VI64(n)
    case Bool(b) => VBool(b)
    case Arr(elems) => VVec(seq(|elems|, i requires 0 <= i < |elems| => Denote(p, elems[i], key)))
    case Table(es) =>
      (match SourceOf(p, key)
       case None => VNone
       case Some(src) =>
         VStruct(p.camel(key),
                 seq(|src.entries|, i requires 0 <= i < |src.entries| =>
                   var name := src.entries[i].key;
                   match Find(es, name)
                   case None => VNone
                   case Some(w) => if MarkedIn(p, src, name) then VSome(Denote(p, w, name)) else Denote(p, w, name))))
    case _ => VNone
  }

  /** What the entry that declared a field allows as its value. */
  predicate Conforms(p: Program, t: Toml, v: Toml, key: string)
    decreases v
  {
    match t
    case Str(_) => v.Str?
    case Int(_) => v.Int? && -0x8000_0000_0000_0000 <= v.number < 0x8000_0000_0000_0000
    case Bool(_) => v.Bool?
    case Arr(ts) => v.Arr? && ts != [] && forall i :: 0 <= i < |v.elems| ==> Conforms(p, ts[0], v.elems[i], key)
    case Table(_) =>
      && v.Table? && SourceOf(p, key).Some?
      && var src := SourceOf(p, key).value;
         forall i :: 0 <= i < |src.entries| ==>
           var e := src.entries[i];
           (match Find(v.entries, e.key)
            case None => MarkedIn(p, src, e.key)
            case Some(w) => Conforms(p, e.val, w, e.key))
    case Float => false
    case Datetime => false
  }

  /******* Every table a field can hold has a struct *******/

  /** The type of a field declared by t mentions a struct. */
  predicate Tabular(t: Toml) {
    match t
    case Arr(ts) => ts != [] && Tabular(ts[0])
    case Table(_) => true
    case _ => false
  }

  lemma {:induction false} TabularListed(v: Toml, key: string)
    requires Tabular(v)
    ensures key in TableKeys(v, key)
    decreases v
  {
    if v.Arr? {
      TabularListed(v.elems[0], key);
    }
  }

  lemma {:induction false} EntryListed(entries: seq<Entry>, i: nat)
    requires i < |entries| && Tabular(entries[i].val)
    ensures entries[i].key in EntryTableKeys(entries)
  {
    if i < |entries| - 1 {
      assert Init(entries)[i] == entries[i];
      EntryListed(Init(entries), i);
    } else {
      assert Last(entries) == entries[i];
      TabularListed(entries[i].val, entries[i].key);
    }
  }

  lemma {:induction false} KeysWithin(v: Toml, key: string, prefix: string, name: string, k: string)
    requires LastIn(v, key, prefix, name).Some? && k in EntryTableKeys(LastIn(v, key, prefix, name).value.entries)
    ensures k in TableKeys(v, key)
    decreases v, 1
  {
    match v
    case Arr(elems) => KeysWithin(elems[0], key, prefix, name, k);
    case Table(entries) =>
      if key != name {
        KeysWithinEntries(entries, Child(prefix, key), name, k);
      }
  }

  lemma {:induction false} KeysWithinEntries(entries: seq<Entry>, prefix: string, name: string, k: string)
    requires LastInEntries(entries, prefix, name).Some?
    requires k in EntryTableKeys(LastInEntries(entries, prefix, name).value.entries)
    ensures k in EntryTableKeys(entries)
    decreases entries, 0
  {
    var e := Last(entries);
    if LastIn(e.val, e.key, prefix, name).Some? {
      KeysWithin(e.val, e.key, prefix, name, k);
    } else {
      KeysWithinEntries(Init(entries), prefix, name, k);
    }
  }

  predicate Known(p: Program) {
    && Compiles(p.camel, Table(p.top), p.root) && IsTable(p.top) && p.root != ""
    && DistinctIdents(Compiled(p.camel, p.opts, p.top, p.root))
  }

  function EnvFor(p: Program): Env
    requires Known(p)
  {
    EnvOf(Compiled(p.camel, p.opts, p.top, p.root))
  }

  /** The struct of a name is declared with the fields of its source. */
  lemma SourceDeclared(p: Program, key: string)
    requires Known(p) && SourceOf(p, key).Some?
    ensures var src := SourceOf(p, key).value;
            && Sound(p.camel, src) && p.camel(key) in EnvFor(p)
            && EnvFor(p)[p.camel(key)] == Fields(p.camel, p.opts, src.entries, src.dotted)
  {
    LastTableEmitted(p.camel, p.opts, p.top, p.root, key);
    NamesEmitted(p.camel, p.opts, p.top, p.root);
  }

  lemma EntryKnown(p: Program, key: string, i: nat)
    requires Known(p) && SourceOf(p, key).Some? && i < |SourceOf(p, key).value.entries|
    ensures var e := SourceOf(p, key).value.entries[i];
            && Compiles(p.camel, e.val, e.key) && (Tabular(e.val) ==> SourceOf(p, e.key).Some?)
  {
    SourceDeclared(p, key);
    var e := SourceOf(p, key).value.entries[i];
    if Tabular(e.val) {
      EntryListed(SourceOf(p, key).value.entries, i);
      if key != p.root {
        KeysWithinEntries(p.top, p.root, key, e.key);
      }
      hide Compiled;
      NamesEmitted(p.camel, p.opts, p.top, p.root);
      LastTableEmitted(p.camel, p.opts, p.top, p.root, e.key);
    }
  }

  /******* When the emitted structs hold the value *******/

  lemma ArrayIff(env: Env, p: Program, d: Value, elem: RType, ts: seq<Toml>, v: Toml, key: string)
    requires v.Arr? && d.VVec? && |d.elems| == |v.elems| && ts != []
    requires forall i :: 0 <= i < |v.elems| ==>
                           (HasType(env, d.elems[i], elem) <==> Conforms(p, ts[0], v.elems[i], key))
    ensures HasType(env, d, RVec(elem)) <==> Conforms(p, Arr(ts), v, key)
  {
  }

  lemma {:induction false} DenoteIff(p: Program, t: Toml, v: Toml, key: string)
    requires Known(p) && Compiles(p.camel, t, key) && (Tabular(t) ==> SourceOf(p, key).Some?)
    ensures HasType(EnvFor(p), Denote(p, v, key), TypeOf(p.camel, t, key)) <==> Conforms(p, t, v, key)
    decreases v
  {
    hide Known, EnvFor;
    match t
    case Arr(ts) =>
      if v.Arr? {
        var d, elem := Denote(p, v, key), TypeOf(p.camel, ts[0], key);
        forall i | 0 <= i < |v.elems|
          ensures HasType(EnvFor(p), d.elems[i], elem) <==> Conforms(p, ts[0], v.elems[i], key)
        {
          DenoteIff(p, ts[0], v.elems[i], key);
          assert d.elems[i] == Denote(p, v.elems[i], key);
        }
        ArrayIff(EnvFor(p), p, d, elem, ts, v, key);
      }
    case Table(_) =>
      if v.Table? {
        SourceDeclared(p, key);
        var src := SourceOf(p, key).value;
        forall i | 0 <= i < |src.entries|
          ensures SlotFits(p, src, v.entries, i) <==>
                  HasType(EnvFor(p), Slot(p, src, v.entries, i),
                          FieldOf(p.camel, p.opts, src.entries[i], src.dotted).ty)
        {
          EntryKnown(p, key, i);
          var e := src.entries[i];
          if Find(v.entries, e.key).Some? {
            DenoteIff(p, e.val, Find(v.entries, e.key).value, e.key);
          }
        }
        StructIff(p, key, v.entries);
      }
    case _ =>
  }

  /** The value of one field of a table read as a struct. */
  function Slot(p: Program, src: Source, es: seq<Entry>, i: nat): Value
    requires i < |src.entries|
  {
    var name := src.entries[i].key;
    match Find(es, name)
    case None => VNone
    case Some(w) => if MarkedIn(p, src, name) then VSome(Denote(p, w, name)) else Denote(p, w, name)
  }

  predicate SlotFits(p: Program, src: Source, es: seq<Entry>, i: nat)
    requires i < |src.entries|
  {
    match Find(es, src.entries[i].key)
    case None => MarkedIn(p, src, src.entries[i].key)
    case Some(w) => Conforms(p, src.entries[i].val, w, src.entries[i].key)
  }

  lemma StructIff(p: Program, key: string, es: seq<Entry>)
    requires Known(p) && SourceOf(p, key).Some?
    requires Sound(p.camel, SourceOf(p, key).value)
    requires var src := SourceOf(p, key).value;
             forall i :: 0 <= i < |src.entries| ==>
               (SlotFits(p, src, es, i) <==>
                HasType(EnvFor(p), Slot(p, src, es, i), FieldOf(p.camel, p.opts, src.entries[i], src.dotted).ty))
    ensures HasType(EnvFor(p), Denote(p, Table(es), key), RNamed(p.camel(key))) <==>
            forall i :: 0 <= i < |SourceOf(p, key).value.entries| ==> SlotFits(p, SourceOf(p, key).value, es, i)
  {
    SourceDeclared(p, key);
    hide Known, EnvFor, SlotFits, FieldOf;
    var src := SourceOf(p, key).value;
    var d := Denote(p, Table(es), key);
    assert |d.fields| == |src.entries| && forall i :: 0 <= i < |src.entries| ==> d.fields[i] == Slot(p, src, es, i);
    assert forall i :: 0 <= i < |src.entries| ==>
             EnvFor(p)[p.camel(key)][i].ty == FieldOf(p.camel, p.opts, src.entries[i], src.dotted).ty;
  }

  /******* What the getters return for the file *******/

  /** The value of the whole file. */
  function FileValue(p: Program): Value {
    Denote(p, Table(p.top), p.root)
  }

  lemma NeverOption(p: Program, v: Toml, key: string)
    requires Compiles(p.camel, v, key) && (v.Table? ==> SourceOf(p, key).Some?)
    ensures !Denote(p, v, key).VNone? && !Denote(p, v, key).VSome?
  {
  }

  /** Reading a declared field of a table's value. */
  lemma SlotRead(p: Program, key: string, es: seq<Entry>, f: string)
    requires Known(p) && SourceOf(p, key).Some? && Find(SourceOf(p, key).value.entries, f).Some? && Find(es, f).Some?
    requires Compiles(p.camel, Find(es, f).value, f) && (Find(es, f).value.Table? ==> SourceOf(p, f).Some?)
    ensures WalkInto(EnvFor(p), Present(Denote(p, Table(es), key)), f) == Present(Denote(p, Find(es, f).value, f))
  {
    SourceDeclared(p, key);
    var src := SourceOf(p, key).value;
    FieldFound(p.camel, p.opts, src.entries, src.dotted, f);
    var fields := Fields(p.camel, p.opts, src.entries, src.dotted);
    var i := IndexOf(fields, f).value;
    hide Known, EnvFor, Compiles, Fields;
    assert fields[i].name == f && src.entries[i].key == f by { NameOfField(p, src, i); }
    var d := Denote(p, Table(es), key);
    assert d.fields[i] == Slot(p, src, es, i);
    NeverOption(p, Find(es, f).value, f);
  }

  lemma NameOfField(p: Program, src: Source, i: nat)
    requires Sound(p.camel, src) && i < |src.entries|
    ensures Fields(p.camel, p.opts, src.entries, src.dotted)[i].name == src.entries[i].key
  {
  }

  /** Walking down the value of the file along the path of a leaf finds the value of each node. */
  lemma {:induction false} WalkDenotes(p: Program, q: seq<string>, n: nat)
    requires Known(p) && IsLeaf(p.top, q) && n <= |q|
    requires forall k :: 0 <= k < |q| ==> Agreeing(p.camel, p.opts, p.top, p.root, q, k)
    ensures n > 0 ==> NodeAt(p.top, q[..n]).Some?
    ensures Walk(EnvFor(p), FileValue(p), q[..n]) ==
            Present(if n == 0 then FileValue(p) else Denote(p, NodeAt(p.top, q[..n]).value, q[n - 1]))
  {
    hide Known, EnvFor, Agreeing, IsLeaf, NodeAt, Denote;
    if n == 0 {
      assert q[..0] == [];
    } else {
      WalkDenotes(p, q, n - 1);
      StepFacts(p, q, n - 1);
      WalkSnoc(EnvFor(p), FileValue(p), q, n);
      NodeSnoc(p, q, n);
      hide Walk, WalkInto;
      var es := if n == 1 then p.top else NodeAt(p.top, q[..n - 1]).value.entries;
      SlotRead(p, if n == 1 then p.root else q[n - 2], es, q[n - 1]);
    }
  }

  lemma WalkSnoc(env: Env, v: Value, q: seq<string>, n: nat)
    requires 0 < n <= |q|
    ensures Walk(env, v, q[..n]) == WalkInto(env, Walk(env, v, q[..n - 1]), q[n - 1])
  {
    assert Init(q[..n]) == q[..n - 1] && Last(q[..n]) == q[n - 1];
  }

  /** A node on the way to a leaf is an entry of the table before it. */
  lemma NodeSnoc(p: Program, q: seq<string>, n: nat)
    requires IsLeaf(p.top, q) && 0 < n <= |q|
    ensures n > 1 ==> NodeAt(p.top, q[..n - 1]).Some? && NodeAt(p.top, q[..n - 1]).value.Table?
    ensures var es := if n == 1 then p.top else NodeAt(p.top, q[..n - 1]).value.entries;
            NodeAt(p.top, q[..n]) == Find(es, q[n - 1])
  {
    hide NodeAt;
    PrefixIsTable(p.top, q, n - 1);
    assert n == 1 ==> q[..n - 1] == [];
  }

  /** What a path that agrees with the emitted structs meets at each step. */
  lemma StepFacts(p: Program, q: seq<string>, n: nat)
    requires Known(p) && IsLeaf(p.top, q) && n < |q|
    requires forall k :: 0 <= k < |q| ==> Agreeing(p.camel, p.opts, p.top, p.root, q, k)
    ensures var key := if n == 0 then p.root else q[n - 1];
            SourceOf(p, key).Some? && Find(SourceOf(p, key).value.entries, q[n]).Some?
    ensures NodeAt(p.top, q[..n + 1]).Some? && Compiles(p.camel, NodeAt(p.top, q[..n + 1]).value, q[n])
    ensures NodeAt(p.top, q[..n + 1]).value.Table? ==> SourceOf(p, q[n]).Some?
  {
    hide Known;
    assert q[..0] == [] && (n > 0 ==> Last(q[..n]) == q[n - 1]);
    assert Agreeing(p.camel, p.opts, p.top, p.root, q, n);
    if n + 1 < |q| {
      assert Last(q[..n + 1]) == q[n];
      assert Agreeing(p.camel, p.opts, p.top, p.root, q, n + 1);
    } else {
      assert q[..n + 1] == q;
    }
  }

  /**
   * The emitted structs hold the value of the file exactly if it conforms to them, table by table: the kinds
   * are those of the declaring entries, integers fit 64 bits, array elements are alike, and only optional
   * entries are missing. Then every getter returns the value of its own leaf, wrapped in Some where it
   * returns an Option.
   */
  lemma GettersReturnTheFile(p: Program)
    requires Known(p) && AllAgreeing(p.camel, p.opts, p.top, p.root)
    ensures p.root in Compiled(p.camel, p.opts, p.top, p.root)
    ensures HasType(EnvFor(p), FileValue(p), RNamed(p.camel(p.root))) <==>
            Conforms(p, Table(p.top), Table(p.top), p.root)
    ensures Conforms(p, Table(p.top), Table(p.top), p.root) ==>
              forall g :: g in Compiled(p.camel, p.opts, p.top, p.root)[p.root].getters ==>
                && IsLeaf(p.top, g.path)
                && var d := Denote(p, NodeAt(p.top, g.path).value, Last(g.path));
                   Call(EnvFor(p), FileValue(p), g) == if g.optional then OptSome(d) else Plain(d)
  {
    FileValueIff(p);
    RootGetters(p.camel, p.opts, p.top, p.root);
    hide Known, Compiled, IsGetterOf, OnePerLeaf, AllAgreeing, Denote, Conforms, HasType, IsLeaf, EnvFor;
    var gs := Compiled(p.camel, p.opts, p.top, p.root)[p.root].getters;
    if Conforms(p, Table(p.top), Table(p.top), p.root) {
      forall g | g in gs
        ensures && IsLeaf(p.top, g.path)
                && var d := Denote(p, NodeAt(p.top, g.path).value, Last(g.path));
                   Call(EnvFor(p), FileValue(p), g) == if g.optional then OptSome(d) else Plain(d)
      {
        var i :| 0 <= i < |gs| && gs[i] == g;
        GetterReturns(p, i);
      }
    }
  }

  lemma FileValueIff(p: Program)
    requires Known(p)
    ensures HasType(EnvFor(p), FileValue(p), RNamed(p.camel(p.root))) <==>
            Conforms(p, Table(p.top), Table(p.top), p.root)
  {
    RootKnown(p);
    hide EnvFor, Conforms, Denote, HasType;
    DenoteIff(p, Table(p.top), Table(p.top), p.root);
  }

  lemma GetterReturns(p: Program, i: nat)
    requires Known(p) && AllAgreeing(p.camel, p.opts, p.top, p.root)
    requires p.root in Compiled(p.camel, p.opts, p.top, p.root)
    requires i < |Compiled(p.camel, p.opts, p.top, p.root)[p.root].getters|
    requires HasType(EnvFor(p), FileValue(p), RNamed(p.camel(p.root)))
    ensures var g := Compiled(p.camel, p.opts, p.top, p.root)[p.root].getters[i];
            && IsLeaf(p.top, g.path)
            && var d := Denote(p, NodeAt(p.top, g.path).value, Last(g.path));
               Call(EnvFor(p), FileValue(p), g) == if g.optional then OptSome(d) else Plain(d)
  {
    hide Denote, HasType, Walk, Call, NodeAt, Agreeing, IsLeaf, FileValue;
    var g := Compiled(p.camel, p.opts, p.top, p.root)[p.root].getters[i];
    GetterAt(p, i);
    hide Compiled, Known, EnvFor, AllAgreeing, GetterCorrect;
    WalkDenotes(p, g.path, |g.path|);
    assert g.path[..|g.path|] == g.path && g.path[|g.path| - 1] == Last(g.path);
    CallOfCorrect(EnvFor(p), p.camel(p.root), FileValue(p), g, Denote(p, NodeAt(p.top, g.path).value, Last(g.path)));
  }

  lemma GetterAt(p: Program, i: nat)
    requires Known(p) && AllAgreeing(p.camel, p.opts, p.top, p.root)
    requires p.root in Compiled(p.camel, p.opts, p.top, p.root)
    requires i < |Compiled(p.camel, p.opts, p.top, p.root)[p.root].getters|
    ensures var g := Compiled(p.camel, p.opts, p.top, p.root)[p.root].getters[i];
            && IsLeaf(p.top, g.path) && g.path != [] && NodeAt(p.top, g.path).Some?
            && GetterCorrect(EnvFor(p), p.camel(p.root), g)
            && forall k :: 0 <= k < |g.path| ==> Agreeing(p.camel, p.opts, p.top, p.root, g.path, k)
  {
    hide Compiled, IsGetterOf, OnePerLeaf, Agreeing, NodeAt, GetterCorrect, AllTyped;
    RootGetters(p.camel, p.opts, p.top, p.root);
    GettersCorrectIff(p.camel, p.opts, p.top, p.root);
  }

  lemma CallOfCorrect(env: Env, self: string, v: Value, g: Getter, d: Value)
    requires GetterCorrect(env, self, g) && HasType(env, v, RNamed(self)) && Walk(env, v, g.path) == Present(d)
    ensures Call(env, v, g) == if g.optional then OptSome(d) else Plain(d)
  {
    hide Walk, Call, HasType, WellTyped;
  }

  lemma RootKnown(p: Program)
    requires Known(p)
    ensures SourceOf(p, p.root) == Some(Source(p.top, p.root))
    ensures TypeOf(p.camel, Table(p.top), p.root) == RNamed(p.camel(p.root))
  {
  }
}
