/** Theorems about the package container: what the reader accepts, and that it reads back what was wrapped. */
module PackageContainerProofs {
  import opened Wrappers
  import opened Bincode
  import opened PackageContainer

  /******* Reader soundness on arbitrary bytes *******/

  /** bytes is the exact in-bounds slice of the file that the table gives for t, at most MAX_VERIFY long. */
  ghost predicate IsSlice(file: Bytes, table: Payloads, t: PayloadType, bytes: Bytes) {
    && t in table && table[t].Some? && table[t].value.Internal?
    && var p := table[t].value;
       p.size <= MAX_VERIFY && p.offset + p.size <= |file| && bytes == file[p.offset..p.offset + p.size]
  }

  /** The verified payloads in table order. */
  function Concat(verified: Verified, types: seq<PayloadType>): Bytes {
    if types == [] then []
    else (if types[0] in verified then verified[types[0]] else []) + Concat(verified, types[1..])
  }

  /** On files the kernel can report, the two bound checks of the reader coincide: no u64 sum saturates. */
  lemma PayloadBytesExact(file: Content, offset: U64, size: U64, max: nat)
    ensures PayloadBytes(file, offset, size, max) ==
            if size <= max && offset + size <= |file| then Ok(file[offset..offset + size]) else Err(ParseFailed)
  {
  }

  /** h and v are what collecting types adds to hashed and verified. */
  ghost predicate Collected(
    file: Bytes, table: Payloads, types: seq<PayloadType>, hashed: Bytes, verified: Verified, h: Bytes, v: Verified)
  {
    && h == hashed + Concat(v, types)
    && (forall t :: t in v <==> t in verified || (t in types && t in table && NeedVerify(t)))
    && (forall t :: t in verified ==> t in v && v[t] == verified[t])
    && (forall t :: t in v && t !in verified ==> IsSlice(file, table, t, v[t]))
  }

  lemma {:induction false} CollectSound(
    file: Content, table: Payloads, types: seq<PayloadType>, hashed: Bytes, verified: Verified)
    requires forall i, j :: 0 <= i < j < |types| ==> types[i] != types[j]
    requires forall t :: t in types ==> t !in verified
    requires Collect(file, table, types, hashed, verified).Ok?
    ensures var (h, v) := Collect(file, table, types, hashed, verified).value;
            Collected(file, table, types, hashed, verified, h, v)
    decreases |types|
  {
    hide PayloadBytes, Collected;
    if types == [] {
      NoneCollected(file, table, hashed, verified);
    } else {
      var t := types[0];
      var (h, v) := Collect(file, table, types, hashed, verified).value;
      if t !in table || !NeedVerify(t) {
        CollectSound(file, table, types[1..], hashed, verified);
        SkippedStep(file, table, types, hashed, verified, h, v);
      } else {
        var p := table[t].value;
        PayloadBytesExact(file, p.offset, p.size, MAX_VERIFY);
        var buf := PayloadBytes(file, p.offset, p.size, MAX_VERIFY).value;
        assert IsSlice(file, table, t, buf);
        CollectSound(file, table, types[1..], hashed + buf, verified[t := buf]);
        CollectedStep(file, table, types, hashed, verified, buf, h, v);
      }
    }
  }

  lemma NoneCollected(file: Bytes, table: Payloads, hashed: Bytes, verified: Verified)
    ensures Collected(file, table, [], hashed, verified, hashed, verified)
  {
    assert hashed + [] == hashed;
  }

  lemma SkippedStep(
    file: Bytes, table: Payloads, types: seq<PayloadType>, hashed: Bytes, verified: Verified, h: Bytes, v: Verified)
    requires types != [] && types[0] !in verified && !(types[0] in table && NeedVerify(types[0]))
    requires Collected(file, table, types[1..], hashed, verified, h, v)
    ensures Collected(file, table, types, hashed, verified, h, v)
  {
    hide IsSlice;
    assert types == [types[0]] + types[1..];
    assert [] + Concat(v, types[1..]) == Concat(v, types[1..]);
  }

  lemma CollectedStep(
    file: Bytes, table: Payloads, types: seq<PayloadType>, hashed: Bytes, verified: Verified, buf: Bytes, h: Bytes,
    v: Verified)
    requires types != [] && types[0] in table && NeedVerify(types[0]) && types[0] !in verified
    requires IsSlice(file, table, types[0], buf)
    requires Collected(file, table, types[1..], hashed + buf, verified[types[0] := buf], h, v)
    ensures Collected(file, table, types, hashed, verified, h, v)
  {
    hide IsSlice;
    assert types == [types[0]] + types[1..];
    assert v[types[0]] == buf;
    assert hashed + buf + Concat(v, types[1..]) == hashed + (buf + Concat(v, types[1..]));
  }

  /** The signature check accepted the concatenation of the verified payloads. */
  ghost predicate SignatureAccepted(
    file: Bytes, table: Payloads, verified: Verified, crypto: Crypto, publicKey: Bytes)
  {
    && Signature in table && table[Signature].Some? && table[Signature].value.Internal?
    && var s := table[Signature].value;
       && s.size <= crypto.keySize(publicKey) && s.offset + s.size <= |file|
       && crypto.verify(publicKey, crypto.hash(Concat(verified, ALL_TYPES)), file[s.offset..s.offset + s.size])
  }

  lemma VerifySound(file: Content, table: Payloads, crypto: Crypto, publicKey: Option<Bytes>)
    requires Verify(file, table, crypto, publicKey).Ok?
    ensures publicKey.Some?
    ensures var v := Verify(file, table, crypto, publicKey).value;
            && (forall t :: t in v <==> t in table && NeedVerify(t))
            && (forall t :: t in v ==> IsSlice(file, table, t, v[t]))
            && SignatureAccepted(file, table, v, crypto, publicKey.value)
  {
    assert forall t :: ALL_TYPES[Ordinal(t)] == t;
    var s := table[Signature].value;
    PayloadBytesExact(file, s.offset, s.size, crypto.keySize(publicKey.value));
    CollectSound(file, table, ALL_TYPES, [], map[]);
    var (h, v) := Collect(file, table, ALL_TYPES, [], map[]).value;
    assert [] + Concat(v, ALL_TYPES) == Concat(v, ALL_TYPES);
  }

  lemma {:induction false} FromLEPositive(s: Bytes, i: nat)
    requires i < |s| && s[i] > 0
    ensures FromLE(s) > 0
  {
    if i > 0 {
      FromLEPositive(s[1..], i - 1);
    }
  }

  lemma FooterMeans(file: Content)
    ensures FooterError(file).None? <==>
            |file| >= FOOTER_LEN && file[|file| - FOOTER_LEN..] == FORMAT_VERSION + MAGIC
  {
    if |file| >= FOOTER_LEN {
      var tail := file[|file| - FOOTER_LEN..];
      assert tail[..VERSION_LEN] == file[|file| - FOOTER_LEN..|file| - MAGIC_LEN];
      assert tail[VERSION_LEN..] == file[|file| - MAGIC_LEN..];
      assert file[|file| - MAGIC_LEN..|file|] == file[|file| - MAGIC_LEN..];
      assert tail == tail[..VERSION_LEN] + tail[VERSION_LEN..];
      assert (FORMAT_VERSION + MAGIC)[..VERSION_LEN] == FORMAT_VERSION;
      assert (FORMAT_VERSION + MAGIC)[VERSION_LEN..] == MAGIC;
    }
  }

  /** A file with a valid footer but no room for the size field decodes a non-zero size and is refused. */
  lemma ShortFileRejected(file: Content)
    requires |file| < FOOTER_LEN + SIZE_LEN && FooterError(file).None?
    ensures TableOffset(file).Err?
  {
    FooterMeans(file);
    var i := |file| - FOOTER_LEN;
    assert file[i] == file[i..][0] == (FORMAT_VERSION + MAGIC)[0] == 48;
    assert file[0..SIZE_LEN][i] == 48;
    FromLEPositive(file[0..SIZE_LEN], i);
  }

  /** The table offset is computed without saturation or wrap-around, inside the file. */
  lemma TableOffsetExact(file: Content)
    requires FooterError(file).None? && TableOffset(file).Ok?
    ensures |file| >= FOOTER_LEN + SIZE_LEN
    ensures var size := FromLE(file[|file| - FOOTER_LEN - SIZE_LEN..|file| - FOOTER_LEN]);
            TableOffset(file).value + size + SIZE_LEN + FOOTER_LEN == |file|
  {
    if |file| < FOOTER_LEN + SIZE_LEN {
      ShortFileRejected(file);
    }
    IntsFit(file, |file| - FOOTER_LEN - SIZE_LEN, 0);
  }

  /**
   * Whatever the bytes of the file, loading fails, or it returns exactly the three signed payloads,
   * each an exact slice of the file, whose concatenation the signature check accepted.
   */
  lemma ReaderSound(
    file: Content, crypto: Crypto, publicKey: Option<Bytes>, entrySize: nat, parses: (PayloadType, Bytes) -> bool)
    requires FromFileVerified(file, crypto, publicKey, entrySize, parses).Ok?
    ensures |file| >= FOOTER_LEN + SIZE_LEN && file[|file| - FOOTER_LEN..] == FORMAT_VERSION + MAGIC
    ensures publicKey.Some?
    ensures var (table, v) := FromFileVerified(file, crypto, publicKey, entrySize, parses).value;
            && v.Keys == {Metadata, RuntimeConfig, SeccompPolicy}
            && (forall t :: t in v ==> IsSlice(file, table, t, v[t]) && parses(t, v[t]))
            && SignatureAccepted(file, table, v, crypto, publicKey.value)
            && Concat(v, ALL_TYPES) == v[Metadata] + v[RuntimeConfig] + v[SeccompPolicy]
  {
    var (table, v) := FromFileVerified(file, crypto, publicKey, entrySize, parses).value;
    LoadMeans(file, crypto, publicKey, entrySize);
    hide Load, FooterError, TableOffset, Verify, IsSlice, SignatureAccepted, Concat;
    FooterMeans(file);
    TableOffsetExact(file);
    VerifySound(file, table, crypto, publicKey);
    ConcatThree(v);
  }

  lemma LoadMeans(file: Content, crypto: Crypto, publicKey: Option<Bytes>, entrySize: nat)
    requires Load(file, crypto, publicKey, entrySize).Ok?
    ensures FooterError(file).None? && TableOffset(file).Ok?
    ensures var (table, v) := Load(file, crypto, publicKey, entrySize).value;
            Verify(file, table, crypto, publicKey) == Ok(v)
  {
    hide FooterError, TableOffset, Verify, DecodeTable;
  }

  lemma ConcatStep(v: Verified, i: nat)
    requires i < 5
    ensures Concat(v, ALL_TYPES[i..]) ==
            (if ALL_TYPES[i] in v then v[ALL_TYPES[i]] else []) + Concat(v, ALL_TYPES[i + 1..])
  {
    assert ALL_TYPES[i..][1..] == ALL_TYPES[i + 1..];
  }

  lemma ConcatThree(v: Verified)
    requires v.Keys == {Metadata, RuntimeConfig, SeccompPolicy}
    ensures Concat(v, ALL_TYPES) == v[Metadata] + v[RuntimeConfig] + v[SeccompPolicy]
  {
    hide Concat;
    ConcatStep(v, 0);
    ConcatStep(v, 1);
    ConcatStep(v, 2);
    ConcatStep(v, 3);
    ConcatStep(v, 4);
    assert ALL_TYPES[0..] == ALL_TYPES && ALL_TYPES[5..] == [];
    assert ALL_TYPES[0] == Metadata && ALL_TYPES[1] == RuntimeConfig && ALL_TYPES[2] == SeccompPolicy;
    assert ALL_TYPES[3] == Signature && ALL_TYPES[4] == PackageFilesystem;
    ConcatNone(v);
  }

  lemma ConcatNone(v: Verified)
    ensures Concat(v, []) == []
  {
  }

  /******* Round trip *******/

  /**
   * What is assumed of the signature scheme: the public key accepts what the private key signed, and the
   * signature is no longer than the key.
   */
  ghost predicate KeyPair(crypto: Crypto, privateKey: Bytes, publicKey: Bytes) {
    forall digest: Bytes :: Accepts(crypto, privateKey, publicKey, digest)
  }

  predicate Accepts(crypto: Crypto, privateKey: Bytes, publicKey: Bytes, digest: Bytes) {
    match crypto.sign(privateKey, digest)
    case Some(sig) => |sig| <= crypto.keySize(publicKey) && crypto.verify(publicKey, digest, sig)
    case None => true
  }

  /** The zip writer stores every entry uncompressed and contiguously, and its index locates it. */
  ghost predicate StoresEntries(zip: seq<ZipEntry> -> Option<Archive>) {
    forall entries :: zip(entries).Some? ==> forall e :: e in entries ==> Stored(zip(entries).value, e)
  }

  predicate Stored(archive: Archive, e: ZipEntry) {
    && e.kind in archive.index
    && archive.index[e.kind].size == |e.content|
    && At(archive.bytes, archive.index[e.kind].offset, e.content)
  }

  lemma AllTypes()
    ensures forall t: PayloadType :: t in ALL_TYPES
    ensures ALL_TYPES[0..] == ALL_TYPES && ALL_TYPES[5..] == []
  {
    forall t: PayloadType ensures t in ALL_TYPES {
      assert ALL_TYPES[Ordinal(t)] == t;
    }
  }

  lemma HashInputStep(table: Payloads, i: nat, acc: Bytes)
    requires i < 5 && ALL_TYPES[i] in table
    ensures HashInput(table, ALL_TYPES[i..], acc) ==
            if !NeedVerify(ALL_TYPES[i]) then HashInput(table, ALL_TYPES[i + 1..], acc)
            else if table[ALL_TYPES[i]].Some? && table[ALL_TYPES[i]].value.Data?
            then HashInput(table, ALL_TYPES[i + 1..], acc + table[ALL_TYPES[i]].value.bytes)
            else None
  {
    assert ALL_TYPES[i..][1..] == ALL_TYPES[i + 1..];
  }

  /** Signing hashes exactly metadata, runtime config and seccomp policy, in this order. */
  lemma SignedMeans(src: Source, crypto: Crypto, privateKey: Bytes)
    ensures var digest := crypto.hash(src.metadata + src.runtimeConfig + src.seccompPolicy);
            Signed(Unsigned(src), crypto, privateKey) ==
            match crypto.sign(privateKey, digest) {
              case None => None
              case Some(sig) => Some(Unsigned(src)[Signature := Some(Data(sig))])
            }
  {
    HashedInOrder(src);
    hide HashInput, Unsigned;
  }

  lemma HashedInOrder(src: Source)
    ensures HashInput(Unsigned(src), ALL_TYPES, []) == Some(src.metadata + src.runtimeConfig + src.seccompPolicy)
  {
    hide HashInput, Unsigned;
    AllTypes();
    SourceTable(src);
    var table := Unsigned(src);
    HashInputStep(table, 0, []);
    HashInputStep(table, 1, [] + src.metadata);
    HashInputStep(table, 2, [] + src.metadata + src.runtimeConfig);
    var acc := [] + src.metadata + src.runtimeConfig + src.seccompPolicy;
    HashInputStep(table, 3, acc);
    HashInputStep(table, 4, acc);
    HashInputDone(table, acc);
    assert acc == src.metadata + src.runtimeConfig + src.seccompPolicy;
  }

  lemma HashInputDone(table: Payloads, acc: Bytes)
    ensures HashInput(table, [], acc) == Some(acc)
  {
  }

  lemma SourceTable(src: Source)
    ensures var table := Unsigned(src);
            && (forall t :: t in ALL_TYPES ==> t in table)
            && table[Metadata] == Some(Data(src.metadata)) && table[RuntimeConfig] == Some(Data(src.runtimeConfig))
            && table[SeccompPolicy] == Some(Data(src.seccompPolicy)) && table[PackageFilesystem] == src.pkgfs
  {
    AllTypes();
  }

  /** Zipping stores each payload's content under its own type. */
  lemma {:induction false} ZipEntriesMeans(env: WrapEnv, table: Payloads, types: seq<PayloadType>, acc: seq<ZipEntry>)
    requires ZipEntries(env, table, types, acc).Some?
    ensures var entries := ZipEntries(env, table, types, acc).value;
            && (forall e :: e in acc ==> e in entries)
            && (forall t :: t in types && t in table ==>
                  && EntryContent(env, table[t]).Some?
                  && ZipEntry(t, EntryContent(env, table[t]).value) in entries)
    decreases |types|
  {
    if types != [] {
      var t := types[0];
      if t !in table {
        ZipEntriesMeans(env, table, types[1..], acc);
      } else {
        var e := ZipEntry(t, EntryContent(env, table[t]).value);
        assert e in acc + [e];
        ZipEntriesMeans(env, table, types[1..], acc + [e]);
      }
    }
  }

  lemma {:induction false} LocateMeans(archive: Archive, types: seq<PayloadType>, acc: Payloads)
    requires Locate(archive, types, acc).Some?
    requires forall i, j :: 0 <= i < j < |types| ==> types[i] != types[j]
    ensures var table := Locate(archive, types, acc).value;
            && (forall t :: t in types ==>
                  && t in archive.index
                  && table.Keys >= {t}
                  && table[t] == Some(Internal(archive.index[t].offset, archive.index[t].size)))
            && (forall t :: t in acc && t !in types ==> t in table && table[t] == acc[t])
    decreases |types|
  {
    if types != [] {
      var e := archive.index[types[0]];
      LocateMeans(archive, types[1..], acc[types[0] := Some(Internal(e.offset, e.size))]);
    }
  }

  /** What a successful wrap has established about the file's parts. */
  ghost predicate WrapParts(
    env: WrapEnv, src: Source, privateKey: Bytes, archive: Archive, located: Payloads, sig: Bytes, image: Bytes)
  {
    && env.crypto.sign(privateKey, env.crypto.hash(src.metadata + src.runtimeConfig + src.seccompPolicy)) == Some(sig)
    && EntryContent(env, src.pkgfs) == Some(image)
    && Located(archive, located, Metadata, src.metadata)
    && Located(archive, located, RuntimeConfig, src.runtimeConfig)
    && Located(archive, located, SeccompPolicy, src.seccompPolicy)
    && Located(archive, located, Signature, sig)
    && Located(archive, located, PackageFilesystem, image)
  }

  predicate Located(archive: Archive, located: Payloads, t: PayloadType, content: Bytes) {
    && t in located && located[t].Some? && located[t].value.Internal?
    && located[t].value.size == |content| && At(archive.bytes, located[t].value.offset, content)
  }

  /** The content zipped for type t stands in the archive at the extent the table records for t. */
  lemma ZippedIsLocated(env: WrapEnv, table: Payloads, archive: Archive, t: PayloadType)
    requires StoresEntries(env.zip) && t in table
    requires ZipEntries(env, table, ALL_TYPES, []).Some?
    requires env.zip(ZipEntries(env, table, ALL_TYPES, []).value) == Some(archive)
    requires Locate(archive, ALL_TYPES, NoPayloads()).Some?
    ensures EntryContent(env, table[t]).Some?
    ensures Located(archive, Locate(archive, ALL_TYPES, NoPayloads()).value, t, EntryContent(env, table[t]).value)
  {
    hide At, ZipEntries, Locate;
    AllTypes();
    assert t in ALL_TYPES;
    ZipEntriesMeans(env, table, ALL_TYPES, []);
    LocateMeans(archive, ALL_TYPES, NoPayloads());
    assert Stored(archive, ZipEntry(t, EntryContent(env, table[t]).value));
  }

  lemma WrapMeans(env: WrapEnv, src: Source, privateKey: Bytes)
    returns (archive: Archive, located: Payloads, sig: Bytes, image: Bytes)
    requires Wrapped(env, src, privateKey).Some? && StoresEntries(env.zip)
    ensures Wrapped(env, src, privateKey) == Some(Layout(archive, located))
    ensures WrapParts(env, src, privateKey, archive, located, sig, image)
    ensures located.Keys == {Metadata, RuntimeConfig, SeccompPolicy, Signature, PackageFilesystem}
  {
    hide Layout, HashInput, Located, Unsigned, Wrapped, Signed, ZipEntries, Locate, StoresEntries, NoPayloads;
    var table := WrapSteps(env, src, privateKey);
    InMemory(env);
    NoPayloadKeys();
    hide EntryContent;
    sig := table[Signature].value.bytes;
    archive := env.zip(ZipEntries(env, table, ALL_TYPES, []).value).value;
    located := Locate(archive, ALL_TYPES, NoPayloads()).value;
    ZippedIsLocated(env, table, archive, Metadata);
    ZippedIsLocated(env, table, archive, RuntimeConfig);
    ZippedIsLocated(env, table, archive, SeccompPolicy);
    ZippedIsLocated(env, table, archive, Signature);
    ZippedIsLocated(env, table, archive, PackageFilesystem);
    image := EntryContent(env, src.pkgfs).value;
    LocatedKeys(archive, ALL_TYPES, NoPayloads());
  }

  lemma NoPayloadKeys()
    ensures NoPayloads().Keys == {Metadata, RuntimeConfig, SeccompPolicy, Signature, PackageFilesystem}
    ensures forall t :: t in NoPayloads() ==> NoPayloads()[t].None?
  {
    AllTypes();
  }

  lemma InMemory(env: WrapEnv)
    ensures forall bytes :: EntryContent(env, Some(Data(bytes))) == Some(bytes)
  {
  }

  /** The intermediate results of a successful wrap, and the signed table. */
  lemma WrapSteps(env: WrapEnv, src: Source, privateKey: Bytes) returns (table: Payloads)
    requires Wrapped(env, src, privateKey).Some?
    ensures Signature in table && table[Signature].Some? && table[Signature].value.Data?
    ensures env.crypto.sign(privateKey, env.crypto.hash(src.metadata + src.runtimeConfig + src.seccompPolicy)) ==
            Some(table[Signature].value.bytes)
    ensures table.Keys >= {Metadata, RuntimeConfig, SeccompPolicy, PackageFilesystem}
    ensures table[Metadata] == Some(Data(src.metadata)) && table[RuntimeConfig] == Some(Data(src.runtimeConfig))
    ensures table[SeccompPolicy] == Some(Data(src.seccompPolicy)) && table[PackageFilesystem] == src.pkgfs
    ensures var entries := ZipEntries(env, table, ALL_TYPES, []);
            && entries.Some? && env.zip(entries.value).Some?
            && var located := Locate(env.zip(entries.value).value, ALL_TYPES, NoPayloads());
               && located.Some?
               && Wrapped(env, src, privateKey) == Some(Layout(env.zip(entries.value).value, located.value))
  {
    hide Layout, HashInput, Unsigned, ZipEntries, Locate;
    SignedMeans(src, env.crypto, privateKey);
    SourceTable(src);
    AllTypes();
    hide Signed;
    table := Signed(Unsigned(src), env.crypto, privateKey).value;
    assert Metadata in ALL_TYPES && RuntimeConfig in ALL_TYPES && SeccompPolicy in ALL_TYPES;
    assert PackageFilesystem in ALL_TYPES;
  }

  lemma {:induction false} LocatedKeys(archive: Archive, types: seq<PayloadType>, acc: Payloads)
    requires Locate(archive, types, acc).Some?
    requires acc.Keys == {Metadata, RuntimeConfig, SeccompPolicy, Signature, PackageFilesystem}
    ensures Locate(archive, types, acc).value.Keys == acc.Keys
    ensures (forall t :: t in acc && acc[t].Some? ==> acc[t].value.Internal?) ==>
      forall t :: t in acc && Locate(archive, types, acc).value[t].Some? ==>
        Locate(archive, types, acc).value[t].value.Internal?
    decreases |types|
  {
    if types != [] {
      var e := archive.index[types[0]];
      assert types[0] in acc by {
        match types[0]
        case Metadata =>
        case RuntimeConfig =>
        case SeccompPolicy =>
        case Signature =>
        case PackageFilesystem =>
      }
      LocatedKeys(archive, types[1..], acc[types[0] := Some(Internal(e.offset, e.size))]);
    }
  }

  /******* Reading the layout back *******/

  lemma LayoutParts(archive: Archive, located: Payloads)
    ensures var file := Layout(archive, located);
            var table := EncodeTable(located);
            var n := |archive.bytes|;
            && |file| == n + |table| + SIZE_LEN + FOOTER_LEN
            && file[..n] == archive.bytes && At(file, n, table) && At(file, n + |table|, LE(|table|, SIZE_LEN))
            && file[|file| - FOOTER_LEN..] == FORMAT_VERSION + MAGIC
  {
    hide EncodeTable, LE;
    var table := EncodeTable(located);
    var a, size := archive.bytes, LE(|table|, SIZE_LEN);
    var file := Layout(archive, located);
    assert file == a + table + size + FORMAT_VERSION + MAGIC;
    assert file[..|a|] == a;
    assert file[|a|..|a| + |table|] == table;
    assert file[|a| + |table|..|a| + |table| + SIZE_LEN] == size;
    assert file[|a| + |table| + SIZE_LEN..] == FORMAT_VERSION + MAGIC;
  }

  /** Written backwards from the end, the table offset comes out as the end of the archive. */
  lemma LayoutOffset(archive: Archive, located: Payloads)
    requires |Layout(archive, located)| < 0x8000_0000_0000_0000
    ensures FooterError(Layout(archive, located)).None?
    ensures TableOffset(Layout(archive, located)) == Ok(|archive.bytes|)
  {
    hide EncodeTable, LE, Layout;
    LayoutParts(archive, located);
    var file := Layout(archive, located);
    FooterMeans(file);
    U64Decodes(file, Cursor(|file| - FOOTER_LEN - SIZE_LEN, 0), |EncodeTable(located)|);
  }

  /** A part of the archive is found in the file at the same place. */
  lemma LocatedInFile(archive: Archive, located: Payloads, t: PayloadType, content: Bytes, max: nat)
    requires |Layout(archive, located)| < 0x8000_0000_0000_0000
    requires Located(archive, located, t, content)
    ensures var p := located[t].value;
            PayloadBytes(Layout(archive, located), p.offset, p.size, max) ==
            if |content| <= max then Ok(content) else Err(ParseFailed)
  {
    hide EncodeTable, LE, Layout;
    LayoutParts(archive, located);
    var file := Layout(archive, located);
    var p := located[t].value;
    PayloadBytesExact(file, p.offset, p.size, max);
    SliceOfPrefix(file, |archive.bytes|, p.offset, p.offset + p.size);
  }

  lemma SliceOfPrefix(s: Bytes, n: nat, lo: nat, hi: nat)
    requires lo <= hi <= n <= |s|
    ensures s[..n][lo..hi] == s[lo..hi]
  {
  }

  lemma CollectStep(file: Content, table: Payloads, i: nat, hashed: Bytes, verified: Verified)
    requires i < 5 && ALL_TYPES[i] in table && table[ALL_TYPES[i]].Some? && table[ALL_TYPES[i]].value.Internal?
    ensures Collect(file, table, ALL_TYPES[i..], hashed, verified) ==
            if !NeedVerify(ALL_TYPES[i]) then Collect(file, table, ALL_TYPES[i + 1..], hashed, verified)
            else
              var p := table[ALL_TYPES[i]].value;
              var buf := PayloadBytes(file, p.offset, p.size, MAX_VERIFY);
              if buf.Err? then Err(buf.error)
              else Collect(file, table, ALL_TYPES[i + 1..], hashed + buf.value, verified[ALL_TYPES[i] := buf.value])
  {
    assert ALL_TYPES[i..][1..] == ALL_TYPES[i + 1..];
  }

  /** The signed payloads fit the cap on buffered payloads. */
  predicate Fits(src: Source) {
    |src.metadata| <= MAX_VERIFY && |src.runtimeConfig| <= MAX_VERIFY && |src.seccompPolicy| <= MAX_VERIFY
  }

  function Original(src: Source): Verified {
    map[Metadata := src.metadata, RuntimeConfig := src.runtimeConfig, SeccompPolicy := src.seccompPolicy]
  }

  lemma CollectWrapped(
    env: WrapEnv, src: Source, privateKey: Bytes, archive: Archive, located: Payloads, sig: Bytes, image: Bytes)
    requires WrapParts(env, src, privateKey, archive, located, sig, image)
    requires |Layout(archive, located)| < 0x8000_0000_0000_0000
    ensures Collect(Layout(archive, located), located, ALL_TYPES, [], map[]) ==
            if Fits(src) then Ok((src.metadata + src.runtimeConfig + src.seccompPolicy, Original(src)))
            else Err(ParseFailed)
  {
    hide Layout, Collect, PayloadBytes;
    var file := Layout(archive, located);
    LocatedInFile(archive, located, Metadata, src.metadata, MAX_VERIFY);
    LocatedInFile(archive, located, RuntimeConfig, src.runtimeConfig, MAX_VERIFY);
    LocatedInFile(archive, located, SeccompPolicy, src.seccompPolicy, MAX_VERIFY);
    AllTypes();
    var m: Verified := map[];
    CollectStep(file, located, 0, [], m);
    assert [] + src.metadata == src.metadata;
    CollectStep(file, located, 1, src.metadata, m[Metadata := src.metadata]);
    CollectStep(file, located, 2, src.metadata + src.runtimeConfig,
                m[Metadata := src.metadata][RuntimeConfig := src.runtimeConfig]);
    var all := src.metadata + src.runtimeConfig + src.seccompPolicy;
    var v := m[Metadata := src.metadata][RuntimeConfig := src.runtimeConfig][SeccompPolicy := src.seccompPolicy];
    assert v == Original(src);
    CollectStep(file, located, 3, all, v);
    CollectStep(file, located, 4, all, v);
    CollectDone(file, located, all, v);
  }

  lemma CollectDone(file: Content, table: Payloads, hashed: Bytes, verified: Verified)
    ensures Collect(file, table, [], hashed, verified) == Ok((hashed, verified))
  {
  }

  lemma VerifyWrapped(
    env: WrapEnv, src: Source, privateKey: Bytes, publicKey: Bytes, archive: Archive, located: Payloads,
    sig: Bytes, image: Bytes)
    requires KeyPair(env.crypto, privateKey, publicKey)
    requires WrapParts(env, src, privateKey, archive, located, sig, image)
    requires |Layout(archive, located)| < 0x8000_0000_0000_0000
    ensures Verify(Layout(archive, located), located, env.crypto, Some(publicKey)) ==
            if Fits(src) then Ok(Original(src)) else Err(ParseFailed)
  {
    hide Layout, Collect, PayloadBytes, Original;
    CollectWrapped(env, src, privateKey, archive, located, sig, image);
    LocatedInFile(archive, located, Signature, sig, env.crypto.keySize(publicKey));
    assert Accepts(env.crypto, privateKey, publicKey,
                   env.crypto.hash(src.metadata + src.runtimeConfig + src.seccompPolicy));
  }

  /** An encoded table of five located payloads takes 133 bytes. */
  lemma LocatedTableSize(located: Payloads)
    requires located.Keys == {Metadata, RuntimeConfig, SeccompPolicy, Signature, PackageFilesystem}
    requires forall t :: t in located ==> located[t].Some? && located[t].value.Internal?
    ensures |EncodeTable(located)| == 133 && |located| == 5
  {
    hide LE;
    AllTypes();
    forall i | 0 <= i < 5
      ensures |EncodeEntries(located, ALL_TYPES[i..])| == 25 + |EncodeEntries(located, ALL_TYPES[i + 1..])|
    {
      assert ALL_TYPES[i..][1..] == ALL_TYPES[i + 1..];
      assert ALL_TYPES[i] in located;
    }
    assert |located.Keys| == 5;
  }

  /** Each payload deserializes. */
  predicate ParsesAll(src: Source, parses: (PayloadType, Bytes) -> bool) {
    && parses(Metadata, src.metadata) && parses(RuntimeConfig, src.runtimeConfig)
    && parses(SeccompPolicy, src.seccompPolicy)
  }

  /**
   * Opening a wrapped file with the matching key gives back, byte for byte, the three signed payloads, and
   * an extent that covers exactly the filesystem image; it succeeds exactly when each signed payload fits
   * the 4 MiB cap and deserializes.
   */
  lemma WrapLoadRoundTrip(
    env: WrapEnv, src: Source, privateKey: Bytes, publicKey: Bytes, entrySize: nat,
    parses: (PayloadType, Bytes) -> bool)
    requires StoresEntries(env.zip) && KeyPair(env.crypto, privateKey, publicKey)
    requires 5 * entrySize + 133 <= LIMIT
    requires Wrapped(env, src, privateKey).Some? && |Wrapped(env, src, privateKey).value| < 0x8000_0000_0000_0000
    ensures var file := Wrapped(env, src, privateKey).value;
            var r := FromFileVerified(file, env.crypto, Some(publicKey), entrySize, parses);
            && (!(Fits(src) && ParsesAll(src, parses)) ==> r == Err(ParseFailed))
            && (Fits(src) && ParsesAll(src, parses) ==>
                  r.Ok? && r.value.1 == Original(src) && ImageExtent(env, src, file, r.value.0))
  {
    hide Wrapped, Load, ImageExtent, Fits, FromFileVerified, Original, ParsesAll, KeyPair, StoresEntries;
    WrappedLoads(env, src, privateKey, publicKey, entrySize);
    OpensOriginal(Wrapped(env, src, privateKey).value, env.crypto, publicKey, entrySize, parses, src);
  }

  lemma OpensOriginal(
    file: Content, crypto: Crypto, publicKey: Bytes, entrySize: nat, parses: (PayloadType, Bytes) -> bool,
    src: Source)
    ensures var loaded := Load(file, crypto, Some(publicKey), entrySize);
            var r := FromFileVerified(file, crypto, Some(publicKey), entrySize, parses);
            && (loaded.Err? ==> r == loaded)
            && (loaded.Ok? && loaded.value.1 == Original(src) ==>
                  r == if ParsesAll(src, parses) then loaded else Err(ParseFailed))
  {
    hide Load;
  }

  lemma WrappedLoads(env: WrapEnv, src: Source, privateKey: Bytes, publicKey: Bytes, entrySize: nat)
    requires StoresEntries(env.zip) && KeyPair(env.crypto, privateKey, publicKey)
    requires 5 * entrySize + 133 <= LIMIT
    requires Wrapped(env, src, privateKey).Some? && |Wrapped(env, src, privateKey).value| < 0x8000_0000_0000_0000
    ensures var file := Wrapped(env, src, privateKey).value;
            var r := Load(file, env.crypto, Some(publicKey), entrySize);
            && (!Fits(src) ==> r == Err(ParseFailed))
            && (Fits(src) ==> r.Ok? && r.value.1 == Original(src) && ImageExtent(env, src, file, r.value.0))
  {
    hide Layout, Verify, Original, EncodeTable, DecodeTable, FooterError, TableOffset, Wrapped;
    var archive, located, sig, image := WrapMeans(env, src, privateKey);
    var file := Layout(archive, located);
    LayoutParts(archive, located);
    LayoutOffset(archive, located);
    LocatedTableSize(located);
    TableRoundTrip(file, |archive.bytes|, located, entrySize);
    VerifyWrapped(env, src, privateKey, publicKey, archive, located, sig, image);
    LocatedInFile(archive, located, PackageFilesystem, image, |image|);
    var p := located[PackageFilesystem].value;
    PayloadBytesExact(file, p.offset, p.size, |image|);
  }

  /** What wrapping puts into the package for its filesystem: the external file's bytes, or those in memory. */
  ghost predicate IsImage(env: WrapEnv, pkgfs: Option<Payload>, image: Bytes) {
    && pkgfs.Some?
    && (pkgfs.value.External? ==> env.external(pkgfs.value.path) == Some(image))
    && (pkgfs.value.Data? ==> pkgfs.value.bytes == image)
    && !pkgfs.value.Internal?
  }

  lemma ContentIff(env: WrapEnv, p: Option<Payload>, image: Bytes)
    ensures EntryContent(env, p) == Some(image) <==> IsImage(env, p, image)
  {
  }

  /** The filesystem payload of the table is an extent of the file holding exactly the image. */
  ghost predicate ImageExtent(env: WrapEnv, src: Source, file: Bytes, table: Payloads) {
    && PackageFilesystem in table && table[PackageFilesystem].Some? && table[PackageFilesystem].value.Internal?
    && var p := table[PackageFilesystem].value;
       p.offset + p.size <= |file| && IsImage(env, src.pkgfs, file[p.offset..p.offset + p.size])
  }

  /******* When wrapping succeeds *******/

  /** The zip entries of a package, in order. */
  function PackageEntries(src: Source, sig: Bytes, image: Bytes): seq<ZipEntry> {
    [ZipEntry(Metadata, src.metadata), ZipEntry(RuntimeConfig, src.runtimeConfig),
     ZipEntry(SeccompPolicy, src.seccompPolicy), ZipEntry(Signature, sig), ZipEntry(PackageFilesystem, image)]
  }

  /** Every step of the wrap succeeds, with this signature and image. */
  ghost predicate WrapsWith(env: WrapEnv, src: Source, privateKey: Bytes, sig: Bytes, image: Bytes) {
    && env.crypto.sign(privateKey, env.crypto.hash(src.metadata + src.runtimeConfig + src.seccompPolicy)) == Some(sig)
    && IsImage(env, src.pkgfs, image)
    && env.zip(PackageEntries(src, sig, image)).Some?
    && (forall t :: t in {Metadata, RuntimeConfig, SeccompPolicy, Signature, PackageFilesystem} ==>
          t in env.zip(PackageEntries(src, sig, image)).value.index)
    && env.writes.table && env.writes.size && env.writes.version && env.writes.magic
  }

  lemma ZipStep(env: WrapEnv, table: Payloads, i: nat, acc: seq<ZipEntry>, content: Bytes)
    requires i < 5 && ALL_TYPES[i] in table && EntryContent(env, table[ALL_TYPES[i]]) == Some(content)
    ensures ZipEntries(env, table, ALL_TYPES[i..], acc) ==
            ZipEntries(env, table, ALL_TYPES[i + 1..], acc + [ZipEntry(ALL_TYPES[i], content)])
  {
    assert ALL_TYPES[i..][1..] == ALL_TYPES[i + 1..];
  }

  lemma ZipDone(env: WrapEnv, table: Payloads, acc: seq<ZipEntry>)
    ensures ZipEntries(env, table, [], acc) == Some(acc)
  {
  }

  lemma ZippedInOrder(env: WrapEnv, src: Source, table: Payloads, sig: Bytes, image: Bytes)
    requires table.Keys >= {Metadata, RuntimeConfig, SeccompPolicy, Signature, PackageFilesystem}
    requires table[Metadata] == Some(Data(src.metadata)) && table[RuntimeConfig] == Some(Data(src.runtimeConfig))
    requires table[SeccompPolicy] == Some(Data(src.seccompPolicy)) && table[Signature] == Some(Data(sig))
    requires table[PackageFilesystem] == src.pkgfs && EntryContent(env, src.pkgfs) == Some(image)
    ensures ZipEntries(env, table, ALL_TYPES, []) == Some(PackageEntries(src, sig, image))
  {
    AllTypes();
    InMemory(env);
    hide EntryContent, ZipEntries;
    var a, b, c := ZipEntry(Metadata, src.metadata), ZipEntry(RuntimeConfig, src.runtimeConfig),
                   ZipEntry(SeccompPolicy, src.seccompPolicy);
    var d, e := ZipEntry(Signature, sig), ZipEntry(PackageFilesystem, image);
    ZipStep(env, table, 0, [], src.metadata);
    ZipStep(env, table, 1, [] + [a], src.runtimeConfig);
    ZipStep(env, table, 2, [] + [a] + [b], src.seccompPolicy);
    ZipStep(env, table, 3, [] + [a] + [b] + [c], sig);
    ZipStep(env, table, 4, [] + [a] + [b] + [c] + [d], image);
    ZipDone(env, table, [] + [a] + [b] + [c] + [d] + [e]);
    assert [] + [a] + [b] + [c] + [d] + [e] == [a, b, c, d, e];
  }

  lemma {:induction false} LocateIff(archive: Archive, types: seq<PayloadType>, acc: Payloads)
    ensures Locate(archive, types, acc).Some? <==> forall t :: t in types ==> t in archive.index
    decreases |types|
  {
    if types != [] {
      assert types == [types[0]] + types[1..];
      if types[0] in archive.index {
        var e := archive.index[types[0]];
        LocateIff(archive, types[1..], acc[types[0] := Some(Internal(e.offset, e.size))]);
      }
    }
  }

  lemma {:induction false} ZipNeedsContent(
    env: WrapEnv, table: Payloads, types: seq<PayloadType>, acc: seq<ZipEntry>, t: PayloadType)
    requires t in types && t in table && EntryContent(env, table[t]).None?
    ensures ZipEntries(env, table, types, acc).None?
    decreases |types|
  {
    if types[0] in table {
      if EntryContent(env, table[types[0]]).Some? {
        var entry := ZipEntry(types[0], EntryContent(env, table[types[0]]).value);
        ZipNeedsContent(env, table, types[1..], acc + [entry], t);
      }
    } else {
      ZipNeedsContent(env, table, types[1..], acc, t);
    }
  }

  lemma SignedTable(env: WrapEnv, src: Source, privateKey: Bytes, sig: Bytes)
    requires Signed(Unsigned(src), env.crypto, privateKey) == Some(Unsigned(src)[Signature := Some(Data(sig))])
    ensures var table := Signed(Unsigned(src), env.crypto, privateKey).value;
            && table.Keys >= {Metadata, RuntimeConfig, SeccompPolicy, Signature, PackageFilesystem}
            && table[Metadata] == Some(Data(src.metadata)) && table[RuntimeConfig] == Some(Data(src.runtimeConfig))
            && table[SeccompPolicy] == Some(Data(src.seccompPolicy)) && table[Signature] == Some(Data(sig))
            && table[PackageFilesystem] == src.pkgfs
  {
    SourceTable(src);
    AllTypes();
    hide Signed, Unsigned;
    assert Metadata in ALL_TYPES && RuntimeConfig in ALL_TYPES && SeccompPolicy in ALL_TYPES;
    assert PackageFilesystem in ALL_TYPES;
  }

  /**
   * Wrapping succeeds exactly if signing does, the filesystem image is in memory or can be read from its file,
   * the archive of the five entries can be written and indexed, and so can everything behind it.
   */
  lemma WrapSucceedsIff(env: WrapEnv, src: Source, privateKey: Bytes)
    ensures Wrapped(env, src, privateKey).Some? <==> exists sig, image :: WrapsWith(env, src, privateKey, sig, image)
  {
    SignedMeans(src, env.crypto, privateKey);
    var digest := env.crypto.hash(src.metadata + src.runtimeConfig + src.seccompPolicy);
    hide Signed, Unsigned, ZipEntries, Locate, Layout, EntryContent, IsImage;
    if env.crypto.sign(privateKey, digest).Some? {
      var sig := env.crypto.sign(privateKey, digest).value;
      var table := Signed(Unsigned(src), env.crypto, privateKey).value;
      SignedTable(env, src, privateKey, sig);
      AllTypes();
      if EntryContent(env, src.pkgfs).Some? {
        var image := EntryContent(env, src.pkgfs).value;
        ContentIff(env, src.pkgfs, image);
        ZippedInOrder(env, src, table, sig, image);
        WrapTail(env, src, privateKey, table, sig, image);
        forall s, i | WrapsWith(env, src, privateKey, s, i) ensures s == sig && i == image {
          ContentIff(env, src.pkgfs, i);
        }
      } else {
        assert PackageFilesystem in ALL_TYPES;
        ZipNeedsContent(env, table, ALL_TYPES, [], PackageFilesystem);
        forall i ensures !IsImage(env, src.pkgfs, i) {
          ContentIff(env, src.pkgfs, i);
        }
      }
    }
  }

  lemma WrapTail(env: WrapEnv, src: Source, privateKey: Bytes, table: Payloads, sig: Bytes, image: Bytes)
    requires Signed(Unsigned(src), env.crypto, privateKey) == Some(table)
    requires env.crypto.sign(privateKey, env.crypto.hash(src.metadata + src.runtimeConfig + src.seccompPolicy)) ==
             Some(sig)
    requires ZipEntries(env, table, ALL_TYPES, []) == Some(PackageEntries(src, sig, image))
    requires IsImage(env, src.pkgfs, image)
    ensures Wrapped(env, src, privateKey).Some? <==> WrapsWith(env, src, privateKey, sig, image)
  {
    hide Signed, Unsigned, ZipEntries, Locate, Layout, IsImage, PackageEntries;
    var zipped := env.zip(PackageEntries(src, sig, image));
    if zipped.Some? {
      LocateIff(zipped.value, ALL_TYPES, NoPayloads());
      AllTypes();
    }
  }
}
