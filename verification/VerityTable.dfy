/** The signed dm-verity table string (libssam/src/ssam_package.rs, build_table_params and resolve_table). */
module VerityTable {
  import opened Wrappers
  import opened Strings

  datatype Params = Params(
    version: nat, dataBlockSize: nat, hashBlockSize: nat, dataBlocks: nat, hashStartBlock: nat,
    algorithm: string, rootHash: string, salt: string)

  /** build_table_params */
  function BuildTableParams(p: Params): string {
    Decimal(p.version) + " " + Decimal(p.dataBlockSize) + " " + Decimal(p.hashBlockSize) + " " +
    Decimal(p.dataBlocks) + " " + Decimal(p.hashStartBlock) + " " + p.algorithm + " " + p.rootHash + " " + p.salt
  }

  /** str::split_once(' ') */
  function SplitOnce(s: string): (r: Option<(string, string)>)
    ensures r.Some? <==> ' ' in s
    ensures r.Some? ==> ' ' !in r.value.0 && s == r.value.0 + [' '] + r.value.1
  {
    if s == "" then None
    else if s[0] == ' ' then Some(("", s[1..]))
    else
      match SplitOnce(s[1..])
      case None => None
      case Some((a, b)) => Some(([s[0]] + a, b))
  }

  /** resolve_table; None is the "missing fields" error. */
  function ResolveTable(tableParams: string, dev: string): Option<string> {
    match SplitOnce(tableParams)
    case None => None
    case Some((version, rest)) => Some(version + " " + dev + " " + dev + " " + rest)
  }

  predicate Word(s: string) {
    s != "" && ' ' !in s
  }

  predicate WellFormed(p: Params) {
    Word(p.algorithm) && Word(p.rootHash) && Word(p.salt)
  }

  function Fields(p: Params): seq<string> {
    [Decimal(p.version), Decimal(p.dataBlockSize), Decimal(p.hashBlockSize), Decimal(p.dataBlocks),
     Decimal(p.hashStartBlock), p.algorithm, p.rootHash, p.salt]
  }

  /** The kernel's field order: the device twice, after the version. */
  function KernelFields(p: Params, dev: string): seq<string> {
    Fields(p)[..1] + [dev, dev] + Fields(p)[1..]
  }

  lemma FieldWords(p: Params)
    requires WellFormed(p)
    ensures forall i :: 0 <= i < 8 ==> Word(Fields(p)[i])
  {
    DecimalDigits(p.version);
    DecimalDigits(p.dataBlockSize);
    DecimalDigits(p.hashBlockSize);
    DecimalDigits(p.dataBlocks);
    DecimalDigits(p.hashStartBlock);
  }

  lemma JoinStep(parts: seq<string>, i: nat)
    requires i + 1 < |parts|
    ensures Join(parts[i..], ' ') == parts[i] + " " + Join(parts[i + 1..], ' ')
  {
    assert parts[i..][1..] == parts[i + 1..];
  }

  lemma ParamsAreJoined(p: Params)
    ensures BuildTableParams(p) == Join(Fields(p), ' ')
  {
    hide Decimal, Join;
    var f := Fields(p);
    assert f[0..] == f;
    JoinStep(f, 0);
    JoinStep(f, 1);
    JoinStep(f, 2);
    JoinStep(f, 3);
    JoinStep(f, 4);
    JoinStep(f, 5);
    JoinStep(f, 6);
    assert f[7..] == [p.salt];
    JoinOne(p.salt);
  }

  lemma JoinOne(s: string)
    ensures Join([s], ' ') == s
  {
  }

  lemma {:induction false} SplitOnceFirst(a: string, b: string)
    requires ' ' !in a
    ensures SplitOnce(a + [' '] + b) == Some((a, b))
  {
    var s := a + [' '] + b;
    if a == "" {
      assert s[1..] == b;
    } else {
      SplitOnceFirst(a[1..], b);
      assert s[1..] == a[1..] + [' '] + b;
      assert [s[0]] + a[1..] == a;
    }
  }

  /** The integers have the values they were printed from, the device is in both slots, the rest is unchanged. */
  predicate FieldsReadBack(p: Params, dev: string, fields: seq<string>) {
    && |fields| == 10 && fields[1] == dev && fields[2] == dev
    && fields[7] == p.algorithm && fields[8] == p.rootHash && fields[9] == p.salt
    && Value(fields[0]) == p.version && Value(fields[3]) == p.dataBlockSize && Value(fields[4]) == p.hashBlockSize
    && Value(fields[5]) == p.dataBlocks && Value(fields[6]) == p.hashStartBlock
  }

  lemma FieldsPrinted(p: Params, dev: string)
    ensures FieldsReadBack(p, dev, KernelFields(p, dev))
  {
    hide Decimal, Value;
    DecimalValue(p.version);
    DecimalValue(p.dataBlockSize);
    DecimalValue(p.hashBlockSize);
    DecimalValue(p.dataBlocks);
    DecimalValue(p.hashStartBlock);
  }

  /**
   * Splitting the resolved table at spaces gives the ten kernel fields, the device in slots two and three,
   * and the five integers read back as they were.
   */
  lemma ResolvedFields(p: Params, dev: string)
    requires WellFormed(p) && Word(dev)
    ensures ResolveTable(BuildTableParams(p), dev).Some?
    ensures Split(ResolveTable(BuildTableParams(p), dev).value, ' ') == KernelFields(p, dev)
    ensures FieldsReadBack(p, dev, KernelFields(p, dev))
  {
    FieldsPrinted(p, dev);
    hide Decimal, Join, BuildTableParams, FieldsReadBack, Value;
    FieldWords(p);
    ParamsAreJoined(p);
    var f := Fields(p);
    var k := KernelFields(p, dev);
    assert f[0..] == f && k[0..] == k;
    JoinStep(f, 0);
    SplitOnceFirst(f[0], Join(f[1..], ' '));
    JoinStep(k, 0);
    JoinStep(k, 1);
    JoinStep(k, 2);
    assert k[3..] == f[1..];
    var tail := Join(f[1..], ' ');
    assert f[0] + " " + (dev + " " + (dev + " " + tail)) == f[0] + " " + dev + " " + dev + " " + tail;
    forall i | 0 <= i < |k| ensures ' ' !in k[i] {
      if i > 2 {
        assert k[i] == f[i - 2];
      }
    }
    SplitJoin(k, ' ');
  }

  /** Removes the second and third space-separated fields. */
  function DropDevices(fields: seq<string>): seq<string> {
    if |fields| < 3 then fields else fields[..1] + fields[3..]
  }

  /** Any signed string with a space is recovered exactly by dropping the two device slots. */
  lemma ResolveKeepsSigned(tableParams: string, dev: string)
    requires Word(dev)
    ensures ResolveTable(tableParams, dev).Some? <==> ' ' in tableParams
    ensures ResolveTable(tableParams, dev).Some? ==>
              Join(DropDevices(Split(ResolveTable(tableParams, dev).value, ' ')), ' ') == tableParams
  {
    if ' ' in tableParams {
      var (version, rest) := SplitOnce(tableParams).value;
      var resolved := ResolveTable(tableParams, dev).value;
      hide Split, Join;
      Grouped(version, dev, rest);
      SplitAt(version, ' ', dev + [' '] + (dev + [' '] + rest));
      SplitAt(dev, ' ', dev + [' '] + rest);
      SplitAt(dev, ' ', rest);
      var pieces := Split(rest, ' ');
      assert Split(resolved, ' ') == [version, dev, dev] + pieces;
      assert DropDevices(Split(resolved, ' ')) == [version] + pieces;
      JoinSplit(rest, ' ');
      JoinCons(version, pieces);
    }
  }

  lemma JoinCons(first: string, pieces: seq<string>)
    requires pieces != []
    ensures Join([first] + pieces, ' ') == first + [' '] + Join(pieces, ' ')
  {
    assert ([first] + pieces)[1..] == pieces;
  }

  lemma Grouped(version: string, dev: string, rest: string)
    ensures version + " " + dev + " " + dev + " " + rest ==
            version + [' '] + (dev + [' '] + (dev + [' '] + rest))
  {
  }
}
