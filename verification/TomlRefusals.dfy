/** Which TOML files the macro refuses (the panics of proc_macros/src/lib.rs), value by value. */
module TomlRefusals {
  import opened Wrappers
  import opened TomlCompiler

  /** A value and the key it is compiled under. */
  datatype Visit = Visit(v: Toml, key: string)

  /** Every value the macro looks into: all entries of tables, and the first element of arrays. */
  function Visits(v: Toml, key: string): seq<Visit>
    decreases v, 1
  {
    [Visit(v, key)] +
    match v
    case Arr(elems) => if elems == [] then [] else Visits(elems[0], key)
    case Table(entries) => EntryVisits(entries)
    case _ => []
  }

  function EntryVisits(entries: seq<Entry>): seq<Visit>
    decreases entries, 0
  {
    if entries == [] then [] else EntryVisits(Init(entries)) + Visits(Last(entries).val, Last(entries).key)
  }

  /** The discriminant of a value. */
  function Kind(v: Toml): nat {
    match v
    case Str(_) => 0
    case Int(_) => 1
    case Float => 2
    case Bool(_) => 3
    case Datetime => 4
    case Arr(_) => 5
    case Table(_) => 6
  }

  const LOWER := "abcdefghijklmnopqrstuvwxyz"
  const UPPER := "ABCDEFGHIJKLMNOPQRSTUVWXYZ"
  const DIGITS := "0123456789"

  predicate PlainChar(c: char) {
    c in LOWER || c in UPPER || c in DIGITS || c == '_'
  }

  /** Letters, digits and underscores, not starting with a digit. */
  predicate PlainIdent(s: string) {
    s != "" && (forall c :: c in s ==> PlainChar(c)) && s[0] !in DIGITS
  }

  /** What is demanded of one value on its own. */
  predicate Supported(camel: Camel, x: Visit) {
    match x.v
    case Float => false
    case Datetime => false
    case Arr(elems) => elems != [] && forall i :: 0 <= i < |elems| ==> Kind(elems[i]) == Kind(elems[0])
    case Table(entries) => PlainIdent(camel(x.key)) && forall i :: 0 <= i < |entries| ==> PlainIdent(entries[i].key)
    case _ => true
  }

  lemma LowerIff(c: char)
    ensures c in LOWER <==> 'a' <= c <= 'z'
  {
    if 'a' <= c <= 'z' {
      assert LOWER[c as int - 'a' as int] == c;
    }
  }

  lemma UpperIff(c: char)
    ensures c in UPPER <==> 'A' <= c <= 'Z'
  {
    if 'A' <= c <= 'Z' {
      assert UPPER[c as int - 'A' as int] == c;
    }
  }

  lemma DigitIff(c: char)
    ensures c in DIGITS <==> '0' <= c <= '9'
  {
    if '0' <= c <= '9' {
      assert DIGITS[c as int - '0' as int] == c;
    }
  }

  lemma CharIff(c: char)
    ensures IdentChar(c) <==> PlainChar(c)
  {
    LowerIff(c);
    UpperIff(c);
    DigitIff(c);
    hide LOWER, UPPER, DIGITS;
  }

  lemma IdentIff(s: string)
    ensures IsIdent(s) <==> PlainIdent(s)
  {
    hide IdentChar, PlainChar;
    forall c ensures IdentChar(c) <==> PlainChar(c) {
      CharIff(c);
    }
    if s != "" {
      DigitIff(s[0]);
    }
    assert forall i :: 0 <= i < |s| ==> s[i] in s;
  }

  predicate AllSupported(camel: Camel, xs: seq<Visit>) {
    forall i :: 0 <= i < |xs| ==> Supported(camel, xs[i])
  }

  lemma SupportedConcat(camel: Camel, xs: seq<Visit>, ys: seq<Visit>)
    ensures AllSupported(camel, xs + ys) <==> AllSupported(camel, xs) && AllSupported(camel, ys)
  {
    hide Supported;
    var all := xs + ys;
    assert forall i :: 0 <= i < |xs| ==> all[i] == xs[i];
    assert forall i :: 0 <= i < |ys| ==> all[|xs| + i] == ys[i];
  }

  /** The macro compiles a value exactly if it supports every value it looks into. */
  lemma {:induction false} CompilesIff(camel: Camel, v: Toml, key: string)
    ensures Compiles(camel, v, key) <==> AllSupported(camel, Visits(v, key))
    decreases v, 1
  {
    hide AllSupported, IsIdent, PlainIdent;
    var here := [Visit(v, key)];
    assert AllSupported(camel, here) <==> Supported(camel, Visit(v, key)) by { OneSupported(camel, Visit(v, key)); }
    assert AllSupported(camel, []) by { NoneSupported(camel); }
    match v
    case Arr(elems) =>
      KindsIff(elems);
      if elems != [] {
        SupportedConcat(camel, here, Visits(elems[0], key));
        CompilesIff(camel, elems[0], key);
      } else {
        assert here + [] == here;
      }
    case Table(entries) =>
      SupportedConcat(camel, here, EntryVisits(entries));
      IdentIff(camel(key));
      EntriesCompileIff(camel, entries);
    case _ => assert here + [] == here;
  }

  lemma OneSupported(camel: Camel, x: Visit)
    ensures AllSupported(camel, [x]) <==> Supported(camel, x)
  {
    assert [x][0] == x;
  }

  lemma NoneSupported(camel: Camel)
    ensures AllSupported(camel, [])
  {
  }

  lemma KindsIff(elems: seq<Toml>)
    ensures elems != [] ==>
      (ArrayHasSameType(elems) <==> forall i :: 0 <= i < |elems| ==> Kind(elems[i]) == Kind(elems[0]))
  {
    assert forall a, b :: SameKind(a, b) <==> Kind(a) == Kind(b);
  }

  lemma {:induction false} EntriesCompileIff(camel: Camel, entries: seq<Entry>)
    ensures CompilesEntries(camel, entries) <==>
            && AllSupported(camel, EntryVisits(entries))
            && forall i :: 0 <= i < |entries| ==> PlainIdent(entries[i].key)
    decreases entries, 0
  {
    hide AllSupported, IsIdent, PlainIdent;
    if entries == [] {
      NoneSupported(camel);
    } else {
      var front, e := Init(entries), Last(entries);
      EntriesCompileIff(camel, front);
      CompilesIff(camel, e.val, e.key);
      IdentIff(e.key);
      SupportedConcat(camel, EntryVisits(front), Visits(e.val, e.key));
      assert entries == front + [e];
      assert forall i :: 0 <= i < |front| ==> entries[i] == front[i];
    }
  }
}
