/**
 * The TOML-to-struct procedural macro (proc_macros/src/lib.rs).
 *
 * A TOML tree and a list of optional paths are turned into struct definitions and into one
 * getter per leaf. The macro's mutable parameters (the struct map and the token stream of
 * getters) are the fields of class Emitter; a compile-time panic is the result None.
 */
module TomlCompiler {
  import opened Wrappers

  /******* Source language *******/

  datatype Toml =
    | Str(text: string)
    | Int(number: int)
    | Bool(flag: bool)
    | Float
    | Datetime
    | Arr(elems: seq<Toml>)
    | Table(entries: seq<Entry>)

  datatype Entry = Entry(key: string, val: Toml)

  /******* Target language *******/

  datatype RType = RString | RI64 | RBool | RVec(elem: RType) | RNamed(ident: string) | ROption(inner: RType)

  datatype Field = Field(name: string, ty: RType)

  /** An access path; Try(a) is a.as_ref()? */
  datatype Access = Self | Dot(base: Access, field: string) | Try(base: Access)

  /** The three getter bodies: a.as_ref(), Some(&a) and &a. */
  datatype Body = AsRef(access: Access) | SomeRef(access: Access) | Ref(access: Access)

  /** A getter for the leaf at path; it returns Option<&ret> if optional, else &ret. */
  datatype Getter = Getter(path: seq<string>, optional: bool, ret: RType, body: Body)

  datatype StructDef = StructDef(ident: string, fields: seq<Field>, getters: seq<Getter>)

  type StructMap = map<string, StructDef>

  /** The case conversion to_upper_camel_case, which the heck crate supplies. */
  type Camel = string -> string

  /******* What the macro refuses *******/

  predicate IdentChar(c: char) {
    'a' <= c <= 'z' || 'A' <= c <= 'Z' || '0' <= c <= '9' || c == '_'
  }

  /** The strings format_ident! accepts (ASCII part); anything else panics. */
  predicate IsIdent(s: string) {
    s != [] && (forall i :: 0 <= i < |s| ==> IdentChar(s[i])) && !('0' <= s[0] <= '9')
  }

  predicate SameKind(a: Toml, b: Toml) {
    match a
    case Str(_) => b.Str?
    case Int(_) => b.Int?
    case Bool(_) => b.Bool?
    case Float => b.Float?
    case Datetime => b.Datetime?
    case Arr(_) => b.Arr?
    case Table(_) => b.Table?
  }

  predicate ArrayHasSameType(elems: seq<Toml>) {
    elems == [] || forall i :: 0 <= i < |elems| ==> SameKind(elems[i], elems[0])
  }

  /** The macro emits a type for v under this key, that is, no panic is reached. */
  predicate Compiles(camel: Camel, v: Toml, key: string)
    decreases v, 1
  {
    match v
    case Str(_) => true
    case Int(_) => true
    case Bool(_) => true
    case Float => false
    case Datetime => false
    case Arr(elems) => elems != [] && ArrayHasSameType(elems) && Compiles(camel, elems[0], key)
    case Table(entries) => IsIdent(camel(key)) && CompilesEntries(camel, entries)
  }

  predicate CompilesEntries(camel: Camel, entries: seq<Entry>)
    decreases entries, 0
  {
    forall i :: 0 <= i < |entries| ==> IsIdent(entries[i].key) && Compiles(camel, entries[i].val, entries[i].key)
  }

  /******* What the macro emits *******/

  function TypeOf(camel: Camel, v: Toml, key: string): (ty: RType)
    requires Compiles(camel, v, key)
    ensures !ty.ROption?
  {
    match v
    case Str(_) => RString
    case Int(_) => RI64
    case Bool(_) => RBool
    case Arr(elems) => RVec(TypeOf(camel, elems[0], key))
    case Table(_) => RNamed(camel(key))
  }

  function Child(prefix: string, key: string): string {
    prefix + "." + key
  }

  function FieldOf(camel: Camel, opts: seq<string>, e: Entry, prefix: string): Field
    requires Compiles(camel, e.val, e.key)
  {
    var ty := TypeOf(camel, e.val, e.key);
    Field(e.key, if Child(prefix, e.key) in opts then ROption(ty) else ty)
  }

  function Fields(camel: Camel, opts: seq<string>, entries: seq<Entry>, prefix: string): (fs: seq<Field>)
    requires CompilesEntries(camel, entries)
    ensures |fs| == |entries|
  {
    seq(|entries|, i requires 0 <= i < |entries| => FieldOf(camel, opts, entries[i], prefix))
  }

  /** The struct map after determine_type has run on v. */
  function Structs(camel: Camel, opts: seq<string>, m: StructMap, v: Toml, key: string, prefix: string): StructMap
    requires Compiles(camel, v, key) && prefix != ""
    decreases v, 1
  {
    match v
    case Arr(elems) => Structs(camel, opts, m, elems[0], key, prefix)
    case Table(entries) =>
      var np := Child(prefix, key);
      StructsOfEntries(camel, opts, m, entries, np)[key := StructDef(camel(key), Fields(camel, opts, entries, np), [])]
    case _ => m
  }

  function StructsOfEntries(
    camel: Camel, opts: seq<string>, m: StructMap, entries: seq<Entry>, prefix: string): StructMap
    requires CompilesEntries(camel, entries) && prefix != ""
    decreases entries, 0
  {
    if entries == [] then m
    else
      var e := Last(entries);
      Structs(camel, opts, StructsOfEntries(camel, opts, m, Init(entries), prefix), e.val, e.key, prefix)
  }

  /******* Getters *******/

  /** field_path.join(".") */
  function JoinDots(path: seq<string>): string {
    if path == [] then "" else if |path| == 1 then path[0] else JoinDots(Init(path)) + "." + Last(path)
  }

  predicate OptionalAt(opts: seq<string>, prefix: string, path: seq<string>) {
    prefix + JoinDots(path) in opts
  }

  /** The access chain after the first n identifiers of path. */
  function Chain(opts: seq<string>, prefix: string, path: seq<string>, n: nat): Access
    requires n <= |path|
  {
    if n == 0 then Self
    else
      var dot := Dot(Chain(opts, prefix, path, n - 1), path[n - 1]);
      if n < |path| && OptionalAt(opts, prefix, path[..n]) then Try(dot) else dot
  }

  /** One of the first n proper prefixes of path is an optional table. */
  predicate AnyOptional(opts: seq<string>, prefix: string, path: seq<string>, n: nat)
    requires n <= |path|
  {
    exists i :: 0 < i <= n && i < |path| && OptionalAt(opts, prefix, path[..i])
  }

  function LeafGetter(camel: Camel, opts: seq<string>, prefix: string, v: Toml, path: seq<string>): Getter
    requires path != [] && Compiles(camel, v, Last(path))
  {
    var ty := TypeOf(camel, v, Last(path));
    var access := Chain(opts, prefix, path, |path|);
    if OptionalAt(opts, prefix, path) then Getter(path, true, ty, AsRef(access))
    else if AnyOptional(opts, prefix, path, |path|) then Getter(path, true, ty, SomeRef(access))
    else Getter(path, false, ty, Ref(access))
  }

  function GettersAt(camel: Camel, opts: seq<string>, prefix: string, v: Toml, path: seq<string>): seq<Getter>
    requires path != [] && Compiles(camel, v, Last(path))
    decreases v, 1
  {
    match v
    case Table(entries) => GettersUnder(camel, opts, prefix, entries, path)
    case _ => [LeafGetter(camel, opts, prefix, v, path)]
  }

  function GettersUnder(
    camel: Camel, opts: seq<string>, prefix: string, entries: seq<Entry>, path: seq<string>): seq<Getter>
    requires CompilesEntries(camel, entries)
    decreases entries, 0
  {
    if entries == [] then []
    else
      var e := Last(entries);
      GettersUnder(camel, opts, prefix, Init(entries), path) + GettersAt(camel, opts, prefix, e.val, path + [e.key])
  }

  /** The whole struct map: nested structs carry no getters, the root carries one per leaf. */
  function Compiled(camel: Camel, opts: seq<string>, entries: seq<Entry>, root: string): StructMap
    requires Compiles(camel, Table(entries), root) && root != ""
  {
    StructsOfEntries(camel, opts, map[], entries, root)[root :=
      StructDef(camel(root), Fields(camel, opts, entries, root), GettersUnder(camel, opts, root + ".", entries, []))]
  }

  /******* The macro's traversals *******/

  class Emitter {
    const camel: Camel
    const opts: seq<string>
    var structs: StructMap
    var getters: seq<Getter>

    constructor (camel: Camel, opts: seq<string>)
      ensures this.camel == camel && this.opts == opts && structs == map[] && getters == []
    {
      this.camel, this.opts, structs, getters := camel, opts, map[], [];
    }

    /** determine_type */
    method DetermineType(v: Toml, key: string, prefix: string) returns (r: Option<RType>)
      requires prefix != ""
      modifies this
      ensures r == if Compiles(camel, v, key) then Some(TypeOf(camel, v, key)) else None
      ensures r.Some? ==> structs == Structs(camel, opts, old(structs), v, key, prefix)
      ensures getters == old(getters)
      decreases v, 3
    {
      match v
      case Str(_) => return Some(RString);
      case Int(_) => return Some(RI64);
      case Bool(_) => return Some(RBool);
      case Arr(elems) =>
        if elems == [] || !ArrayHasSameType(elems) {
          return None;
        }
        var elem := DetermineType(elems[0], key, prefix);
        return if elem.Some? then Some(RVec(elem.value)) else None;
      case Table(_) =>
        if !IsIdent(camel(key)) {
          return None;
        }
        var ok := TraverseToml(v, key, prefix);
        return if ok then Some(RNamed(camel(key))) else None;
      case _ => return None;
    }

    /** generate_fields */
    method GenerateFields(entries: seq<Entry>, prefix: string) returns (r: Option<seq<Field>>)
      requires prefix != ""
      modifies this
      ensures r == if CompilesEntries(camel, entries) then Some(Fields(camel, opts, entries, prefix)) else None
      ensures r.Some? ==> structs == StructsOfEntries(camel, opts, old(structs), entries, prefix)
      ensures getters == old(getters)
      decreases entries, 0
    {
      var fields: seq<Field> := [];
      for i := 0 to |entries|
        invariant CompilesEntries(camel, entries[..i])
        invariant fields == Fields(camel, opts, entries[..i], prefix)
        invariant structs == StructsOfEntries(camel, opts, old(structs), entries[..i], prefix)
        invariant getters == old(getters)
      {
        var e := entries[i];
        assert Init(entries[..i + 1]) == entries[..i] && Last(entries[..i + 1]) == e;
        if !IsIdent(e.key) {
          return None;
        }
        var ty := DetermineType(e.val, e.key, prefix);
        if ty.None? {
          return None;
        }
        fields := fields + [Field(e.key, if Child(prefix, e.key) in opts then ROption(ty.value) else ty.value)];
      }
      assert entries[..|entries|] == entries;
      return Some(fields);
    }

    /**
     * add_proxy_getters. It runs after generate_fields accepted the same tree, so no identifier
     * in it can panic; leaf types are computed on a scratch struct map (determine_leaf_type).
     */
    method AddProxyGetters(v: Toml, path: seq<string>, prefix: string)
      requires prefix != "" && path != [] && Compiles(camel, v, Last(path))
      modifies this
      ensures getters == old(getters) + GettersAt(camel, opts, prefix, v, path)
      ensures structs == old(structs)
      decreases v, 4
    {
      if v.Table? {
        var entries := v.entries;
        for i := 0 to |entries|
          invariant getters == old(getters) + GettersUnder(camel, opts, prefix, entries[..i], path)
          invariant structs == old(structs)
        {
          var e := entries[i];
          assert Init(entries[..i + 1]) == entries[..i] && Last(entries[..i + 1]) == e;
          AddProxyGetters(e.val, path + [e.key], prefix);
        }
        assert entries[..|entries|] == entries;
        return;
      }
      var scratch := new Emitter(camel, opts);
      var ty := scratch.DetermineType(v, Last(path), prefix);
      var leafOptional := prefix + JoinDots(path) in opts;
      var anyOptional := false;
      var access := Self;
      for i := 0 to |path|
        invariant access == Chain(opts, prefix, path, i)
        invariant anyOptional == AnyOptional(opts, prefix, path, i)
        invariant structs == old(structs) && getters == old(getters)
      {
        access := Dot(access, path[i]);
        if i < |path| - 1 && prefix + JoinDots(path[..i + 1]) in opts {
          anyOptional := true;
          access := Try(access);
        }
      }
      var getter :=
        if leafOptional then Getter(path, true, ty.value, AsRef(access))
        else if anyOptional then Getter(path, true, ty.value, SomeRef(access))
        else Getter(path, false, ty.value, Ref(access));
      getters := getters + [getter];
    }

    /** generate_proxy_getters, on a fresh token stream. */
    method GenerateProxyGetters(entries: seq<Entry>, root: string)
      requires CompilesEntries(camel, entries)
      modifies this
      ensures getters == GettersUnder(camel, opts, root + ".", entries, [])
      ensures structs == old(structs)
      decreases entries, 0
    {
      getters := [];
      for i := 0 to |entries|
        invariant getters == GettersUnder(camel, opts, root + ".", entries[..i], [])
        invariant structs == old(structs)
      {
        var e := entries[i];
        assert Init(entries[..i + 1]) == entries[..i] && Last(entries[..i + 1]) == e;
        assert [] + [e.key] == [e.key];
        AddProxyGetters(e.val, [e.key], root + ".");
      }
      assert entries[..|entries|] == entries;
    }

    /** traverse_toml; an empty prefix marks the root struct. */
    method TraverseToml(v: Toml, name: string, prefix: string) returns (ok: bool)
      requires name != "" || prefix != ""
      modifies this
      ensures ok == (v.Table? && Compiles(camel, v, name))
      ensures ok && prefix != "" ==>
        structs == Structs(camel, opts, old(structs), v, name, prefix) && getters == old(getters)
      ensures ok && prefix == "" && old(structs) == map[] ==>
        structs == Compiled(camel, opts, v.entries, name)
      ensures prefix != "" ==> getters == old(getters)
      decreases v, 2
    {
      var newPrefix := if prefix == "" then name else Child(prefix, name);
      if !v.Table? {
        return false;
      }
      var fields := GenerateFields(v.entries, newPrefix);
      if fields.None? {
        return false;
      }
      var emitted: seq<Getter> := [];
      if prefix == "" {
        GenerateProxyGetters(v.entries, newPrefix);
        emitted := getters;
      }
      if !IsIdent(camel(name)) {
        return false;
      }
      structs := structs[name := StructDef(camel(name), fields.value, emitted)];
      return true;
    }
  }
}
