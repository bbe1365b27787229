/** Exactly which files the package reader accepts, and what the table decoder reads from arbitrary bytes. */
module PackageReaderProofs {
  import opened Wrappers
  import opened Bincode
  import opened PackageContainer
  import opened PackageContainerProofs

  /******* Decoding is the inverse of encoding *******/

  lemma {:induction false} LEFromLE(s: Bytes)
    ensures LE(FromLE(s), |s|) == s
  {
    if s != [] {
      var n := FromLE(s);
      LEFromLE(s[1..]);
      assert n / 256 == FromLE(s[1..]) && n % 256 == s[0];
      LowByte(n, |s|);
      LETail(n, |s|);
      hide LE, FromLE;
      assert LE(n, |s|) == [LE(n, |s|)[0]] + LE(n, |s|)[1..];
      assert s == [s[0]] + s[1..];
    }
  }

  /** The bytes at which decoding started are those of the part, and the cursor moved behind it. */
  predicate Read(file: Bytes, c: Cursor, next: Cursor, part: Bytes) {
    At(file, c.pos, part) && next == Cursor(c.pos + |part|, c.claimed + |part|) && next.claimed <= LIMIT
  }

  lemma ReadTwo(file: Bytes, c: Cursor, d: Cursor, e: Cursor, a: Bytes, b: Bytes)
    requires Read(file, c, d, a) && Read(file, d, e, b)
    ensures Read(file, c, e, a + b)
  {
    assert file[c.pos..c.pos + |a + b|] == file[c.pos..c.pos + |a|] + file[d.pos..d.pos + |b|];
  }

  lemma IntBack(file: Bytes, c: Cursor, w: nat)
    requires DecodeInt(file, c, w).Some?
    ensures var d := DecodeInt(file, c, w).value; Read(file, c, d.next, LE(d.value, w)) && d.value < Pow256(w)
  {
    hide LE, FromLE, Pow256;
    LEFromLE(file[c.pos..c.pos + w]);
    FromLEBound(file[c.pos..c.pos + w]);
  }

  lemma BytesBack(file: Bytes, c: Cursor)
    requires DecodeBytes(file, c).Some?
    ensures var d := DecodeBytes(file, c).value; Read(file, c, d.next, LE(|d.value|, 8) + d.value)
  {
    IntBack(file, c, 8);
    var len := DecodeInt(file, c, 8).value;
    var d := DecodeBytes(file, c).value;
    hide LE, DecodeInt;
    assert Read(file, len.next, d.next, d.value);
    ReadTwo(file, c, len.next, d.next, LE(len.value, 8), d.value);
  }

  lemma PayloadBack(file: Bytes, c: Cursor)
    requires DecodePayload(file, c).Some?
    ensures var d := DecodePayload(file, c).value; Encodable(d.value) && Read(file, c, d.next, EncodePayload(d.value))
  {
    hide LE, DecodeInt, DecodeBytes, Read, IsUtf8;
    IntBack(file, c, 4);
    var tag := DecodeInt(file, c, 4).value;
    var d := DecodePayload(file, c).value;
    if tag.value == 0 {
      IntBack(file, tag.next, 8);
      var offset := DecodeInt(file, tag.next, 8).value;
      IntBack(file, offset.next, 8);
      var size := DecodeInt(file, offset.next, 8).value;
      ReadTwo(file, tag.next, offset.next, size.next, LE(offset.value, 8), LE(size.value, 8));
      ReadTwo(file, c, tag.next, d.next, LE(0, 4), LE(offset.value, 8) + LE(size.value, 8));
    } else {
      BytesBack(file, tag.next);
      var bytes := DecodeBytes(file, tag.next).value;
      ReadTwo(file, c, tag.next, d.next, LE(tag.value, 4), LE(|bytes.value|, 8) + bytes.value);
    }
  }

  /** A payload is decoded exactly if its own encoding stands there, within the limit. */
  lemma PayloadDecodesIff(file: Bytes, c: Cursor, p: Payload, next: Cursor)
    ensures DecodePayload(file, c) == Some(Decoded(p, next)) <==>
            Encodable(p) && Read(file, c, next, EncodePayload(p))
  {
    hide EncodePayload, DecodePayload, Encodable;
    if DecodePayload(file, c).Some? {
      PayloadBack(file, c);
    }
    if Encodable(p) && Read(file, c, next, EncodePayload(p)) {
      PayloadRoundTrip(file, c, p);
    }
  }

  lemma OptionBack(file: Bytes, c: Cursor)
    requires DecodeOption(file, c).Some?
    ensures var d := DecodeOption(file, c).value;
            (d.value.Some? ==> Encodable(d.value.value)) && Read(file, c, d.next, EncodeOption(d.value))
  {
    hide LE, DecodeInt, DecodePayload, EncodePayload, Read, Encodable;
    IntBack(file, c, 1);
    var tag := DecodeInt(file, c, 1).value;
    if tag.value == 1 {
      PayloadBack(file, tag.next);
      var p := DecodePayload(file, tag.next).value;
      ReadTwo(file, c, tag.next, p.next, LE(1, 1), EncodePayload(p.value));
    }
  }

  lemma EntryBack(file: Bytes, c: Cursor)
    requires DecodeEntry(file, c).Some?
    ensures var d := DecodeEntry(file, c).value;
            && (d.value.1.Some? ==> Encodable(d.value.1.value))
            && Read(file, c, d.next, EncodeEntry(d.value.0, d.value.1))
  {
    hide LE, DecodeInt, DecodeOption, EncodeOption, Read, Encodable;
    IntBack(file, c, 4);
    var key := DecodeInt(file, c, 4).value;
    OptionBack(file, key.next);
    var p := DecodeOption(file, key.next).value;
    ReadTwo(file, c, key.next, p.next, LE(key.value, 4), EncodeOption(p.value));
    OrdinalOf(key.value);
  }

  lemma OrdinalOf(n: nat)
    requires n < 5
    ensures Ordinal(ALL_TYPES[n]) == n
  {
  }

  /******* Tables *******/

  type TableEntry = (PayloadType, Option<Payload>)

  function EncodeList(es: seq<TableEntry>): Bytes {
    if es == [] then [] else EncodeEntry(es[0].0, es[0].1) + EncodeList(es[1..])
  }

  /** The map that the entries build up; a later entry of a kind replaces an earlier one. */
  function Fold(es: seq<TableEntry>, table: Payloads): Payloads {
    if es == [] then table else Fold(es[1..], table[es[0].0 := es[0].1])
  }

  lemma {:induction false} EntriesBack(file: Bytes, c: Cursor, n: nat, entrySize: nat, table: Payloads)
    returns (es: seq<TableEntry>)
    requires DecodeEntries(file, c, n, entrySize, table).Some? && c.pos <= |file|
    ensures |es| == n && At(file, c.pos, EncodeList(es))
    ensures DecodeEntries(file, c, n, entrySize, table).value.value == Fold(es, table)
    decreases n
  {
    hide DecodeEntry, EncodeEntry;
    if n == 0 {
      es := [];
    } else {
      var c1 := c.(claimed := c.claimed - entrySize);
      var e := DecodeEntry(file, c1).value;
      EntryBack(file, c1);
      var rest := EntriesBack(file, e.next, n - 1, entrySize, table[e.value.0 := e.value.1]);
      es := [e.value] + rest;
      assert es[1..] == rest;
      var a, b := EncodeEntry(e.value.0, e.value.1), EncodeList(rest);
      assert file[c.pos..c.pos + |a + b|] == file[c.pos..c.pos + |a|] + file[e.next.pos..e.next.pos + |b|];
    }
  }

  /** A table is decoded only from a count and that many well-formed entries; it is the map they build up. */
  lemma DecodedTableMeans(file: Bytes, pos: nat, entrySize: nat) returns (es: seq<TableEntry>)
    requires DecodeTable(file, pos, entrySize).Some?
    ensures At(file, pos, LE(|es|, 8) + EncodeList(es))
    ensures DecodeTable(file, pos, entrySize).value.value == Fold(es, map[])
  {
    hide LE, DecodeInt, EncodeList, DecodeEntries;
    IntBack(file, Cursor(pos, 0), 8);
    var len := DecodeInt(file, Cursor(pos, 0), 8).value;
    var c := Claim(len.next, len.value * entrySize).value;
    es := EntriesBack(file, c, len.value, entrySize, map[]);
    var a, b := LE(len.value, 8), EncodeList(es);
    assert file[pos..pos + |a + b|] == file[pos..pos + |a|] + file[c.pos..c.pos + |b|];
  }

  /** The bytes of a table of five located payloads: the count, and per kind its number, two tags and the extent. */
  lemma LocatedTableBytes(extents: seq<(U64, U64)>)
    requires |extents| == 5
    ensures var located := map[
              Metadata := Some(Internal(extents[0].0, extents[0].1)),
              RuntimeConfig := Some(Internal(extents[1].0, extents[1].1)),
              SeccompPolicy := Some(Internal(extents[2].0, extents[2].1)),
              Signature := Some(Internal(extents[3].0, extents[3].1)),
              PackageFilesystem := Some(Internal(extents[4].0, extents[4].1))];
            EncodeTable(located) == [5, 0, 0, 0, 0, 0, 0, 0] +
              LocatedBytes(0, extents[0]) + LocatedBytes(1, extents[1]) + LocatedBytes(2, extents[2]) +
              LocatedBytes(3, extents[3]) + LocatedBytes(4, extents[4])
  {
    var located := map[
      Metadata := Some(Internal(extents[0].0, extents[0].1)),
      RuntimeConfig := Some(Internal(extents[1].0, extents[1].1)),
      SeccompPolicy := Some(Internal(extents[2].0, extents[2].1)),
      Signature := Some(Internal(extents[3].0, extents[3].1)),
      PackageFilesystem := Some(Internal(extents[4].0, extents[4].1))];
    SmallInts();
    assert |located.Keys| == 5;
    LocatedEntry(Metadata, 0, extents[0]);
    LocatedEntry(RuntimeConfig, 1, extents[1]);
    LocatedEntry(SeccompPolicy, 2, extents[2]);
    LocatedEntry(Signature, 3, extents[3]);
    LocatedEntry(PackageFilesystem, 4, extents[4]);
    hide LE, EncodeEntry, LocatedBytes;
    EntriesFrom(located, 0);
    EntriesFrom(located, 1);
    EntriesFrom(located, 2);
    EntriesFrom(located, 3);
    EntriesFrom(located, 4);
    assert ALL_TYPES[0..] == ALL_TYPES && ALL_TYPES[5..] == [];
    FiveParts(LE(5, 8), LocatedBytes(0, extents[0]), LocatedBytes(1, extents[1]), LocatedBytes(2, extents[2]),
              LocatedBytes(3, extents[3]), LocatedBytes(4, extents[4]));
  }

  lemma FiveParts(x: Bytes, a: Bytes, b: Bytes, c: Bytes, d: Bytes, e: Bytes)
    ensures x + (a + (b + (c + (d + (e + []))))) == x + a + b + c + d + e
  {
  }

  lemma EntriesFrom(located: Payloads, i: nat)
    requires i < 5 && ALL_TYPES[i] in located
    ensures EncodeEntries(located, ALL_TYPES[i..]) ==
            EncodeEntry(ALL_TYPES[i], located[ALL_TYPES[i]]) + EncodeEntries(located, ALL_TYPES[i + 1..])
  {
    assert ALL_TYPES[i..][1..] == ALL_TYPES[i + 1..];
  }

  function LocatedBytes(kind: Byte, extent: (U64, U64)): Bytes {
    [kind, 0, 0, 0, 1, 0, 0, 0, 0] + (LE(extent.0, 8) + LE(extent.1, 8))
  }

  lemma SmallInts()
    ensures forall n: Byte :: LE(n, 1) == [n] && LE(n, 4) == [n, 0, 0, 0] && LE(n, 8) == [n, 0, 0, 0, 0, 0, 0, 0]
  {
    forall n: Byte ensures LE(n, 1) == [n] && LE(n, 4) == [n, 0, 0, 0] && LE(n, 8) == [n, 0, 0, 0, 0, 0, 0, 0] {
      Zeros(0, 0);
      Zeros(0, 3);
      Zeros(0, 7);
      LowByte(n, 1);
      LETail(n, 1);
      LowByte(n, 4);
      LETail(n, 4);
      LowByte(n, 8);
      LETail(n, 8);
      hide LE;
      assert LE(n, 1) == [LE(n, 1)[0]] + LE(n, 1)[1..];
      assert LE(n, 4) == [LE(n, 4)[0]] + LE(n, 4)[1..];
      assert LE(n, 8) == [LE(n, 8)[0]] + LE(n, 8)[1..];
    }
  }

  lemma {:induction false} Zeros(n: nat, w: nat)
    requires n == 0
    ensures LE(n, w) == seq(w, i => 0)
  {
    if w > 0 {
      LowByte(n, w);
      LETail(n, w);
      Zeros(n, w - 1);
      hide LE;
      assert LE(n, w) == [LE(n, w)[0]] + LE(n, w)[1..];
    }
  }

  lemma LocatedEntry(t: PayloadType, kind: Byte, extent: (U64, U64))
    requires Ordinal(t) == kind
    ensures EncodeEntry(t, Some(Internal(extent.0, extent.1))) == LocatedBytes(kind, extent)
  {
    SmallInts();
    hide LE;
    assert [kind, 0, 0, 0] + ([1] + ([0, 0, 0, 0] + (LE(extent.0, 8) + LE(extent.1, 8)))) ==
           [kind, 0, 0, 0, 1, 0, 0, 0, 0] + (LE(extent.0, 8) + LE(extent.1, 8));
  }

  /******* Which files are accepted *******/

  const SIGNED: set<PayloadType> := {Metadata, RuntimeConfig, SeccompPolicy}

  /** The table gives an extent for t that lies in the file and is at most max bytes long. */
  predicate Readable(file: Bytes, table: Payloads, t: PayloadType, max: nat) {
    && t in table && table[t].Some? && table[t].value.Internal?
    && table[t].value.size <= max && table[t].value.offset + table[t].value.size <= |file|
  }

  function Slice(file: Bytes, table: Payloads, t: PayloadType): Bytes
    requires Readable(file, table, t, |file|)
  {
    var p := table[t].value;
    file[p.offset..p.offset + p.size]
  }

  lemma {:induction false} CollectIff(
    file: Content, table: Payloads, types: seq<PayloadType>, hashed: Bytes, verified: Verified)
    ensures Collect(file, table, types, hashed, verified).Ok? <==>
            forall t :: t in types && t in table && t in SIGNED ==> Readable(file, table, t, 4 * 1024 * 1024)
    decreases |types|
  {
    hide PayloadBytes;
    if types != [] {
      var t := types[0];
      assert types == [t] + types[1..];
      if t !in table || !NeedVerify(t) {
        CollectIff(file, table, types[1..], hashed, verified);
      } else if table[t].Some? && table[t].value.Internal? {
        var p := table[t].value;
        PayloadBytesExact(file, p.offset, p.size, MAX_VERIFY);
        if PayloadBytes(file, p.offset, p.size, MAX_VERIFY).Ok? {
          var buf := PayloadBytes(file, p.offset, p.size, MAX_VERIFY).value;
          CollectIff(file, table, types[1..], hashed + buf, verified[t := buf]);
        }
      }
    }
  }

  /** Size field, footer and signed payloads are as demanded. */
  predicate WellFormed(file: Bytes, entrySize: nat) {
    && |file| >= 40 && file[|file| - 32..] == FORMAT_VERSION + MAGIC
    && var size := FromLE(file[|file| - 40..|file| - 32]);
       size <= |file| - 40 && DecodeTable(file, |file| - 40 - size, entrySize).Some?
  }

  function TableOf(file: Bytes, entrySize: nat): Payloads
    requires WellFormed(file, entrySize)
  {
    DecodeTable(file, |file| - 40 - FromLE(file[|file| - 40..|file| - 32]), entrySize).value.value
  }

  lemma FooterOk(file: Content)
    requires FooterError(file).None?
    ensures TableOffset(file).Ok? <==>
            |file| >= 40 && FromLE(file[|file| - 40..|file| - 32]) <= |file| - 40
    ensures TableOffset(file).Ok? ==>
              TableOffset(file).value == |file| - 40 - FromLE(file[|file| - 40..|file| - 32])
  {
    FooterMeans(file);
    if |file| < 40 {
      ShortFileRejected(file);
    } else {
      IntsFit(file, |file| - 40, 0);
      if TableOffset(file).Ok? {
        TableOffsetExact(file);
      }
    }
  }

  /** Signature and signed payloads are located in the file within their caps, and the signature verifies. */
  ghost predicate Signs(file: Content, table: Payloads, crypto: Crypto, publicKey: Bytes) {
    && Readable(file, table, Signature, crypto.keySize(publicKey))
    && Readable(file, table, Metadata, 4 * 1024 * 1024)
    && Readable(file, table, RuntimeConfig, 4 * 1024 * 1024)
    && Readable(file, table, SeccompPolicy, 4 * 1024 * 1024)
    && crypto.verify(publicKey,
                     crypto.hash(Slice(file, table, Metadata) + Slice(file, table, RuntimeConfig) +
                                 Slice(file, table, SeccompPolicy)),
                     Slice(file, table, Signature))
  }

  /** Verification succeeds with all three signed payloads exactly then, and gives back their bytes. */
  lemma VerifyIff(file: Content, table: Payloads, crypto: Crypto, publicKey: Bytes)
    ensures var r := Verify(file, table, crypto, Some(publicKey));
            && (r.Ok? && SIGNED <= r.value.Keys <==> Signs(file, table, crypto, publicKey))
            && (Signs(file, table, crypto, publicKey) ==>
                  forall t :: t in SIGNED ==> r.value[t] == Slice(file, table, t))
  {
    hide Verify, Signs;
    if Signs(file, table, crypto, publicKey) {
      SignsVerifies(file, table, crypto, publicKey);
    }
    var r := Verify(file, table, crypto, Some(publicKey));
    if r.Ok? && SIGNED <= r.value.Keys {
      VerifiesSigns(file, table, crypto, publicKey);
    }
  }

  /** What the signed payloads hash to, once collected. */
  lemma CollectedSlices(file: Content, table: Payloads)
    requires forall t :: t in SIGNED ==> Readable(file, table, t, 4 * 1024 * 1024)
    ensures var r := Collect(file, table, ALL_TYPES, [], map[]);
            && r.Ok? && r.value.1.Keys == SIGNED && (forall t :: t in SIGNED ==> r.value.1[t] == Slice(file, table, t))
            && r.value.0 == Slice(file, table, Metadata) + Slice(file, table, RuntimeConfig) +
                            Slice(file, table, SeccompPolicy)
  {
    hide Collect, Concat, PayloadBytes;
    CollectIff(file, table, ALL_TYPES, [], map[]);
    AllTypes();
    DistinctTypes();
    CollectSound(file, table, ALL_TYPES, [], map[]);
    var (h, v) := Collect(file, table, ALL_TYPES, [], map[]).value;
    assert v.Keys == SIGNED;
    ConcatThree(v);
    assert [] + Concat(v, ALL_TYPES) == Concat(v, ALL_TYPES);
  }

  lemma DistinctTypes()
    ensures forall i, j :: 0 <= i < j < |ALL_TYPES| ==> ALL_TYPES[i] != ALL_TYPES[j]
  {
  }

  lemma SignsVerifies(file: Content, table: Payloads, crypto: Crypto, publicKey: Bytes)
    requires Signs(file, table, crypto, publicKey)
    ensures var r := Verify(file, table, crypto, Some(publicKey));
            r.Ok? && r.value.Keys == SIGNED && forall t :: t in SIGNED ==> r.value[t] == Slice(file, table, t)
  {
    var s := table[Signature].value;
    PayloadBytesExact(file, s.offset, s.size, crypto.keySize(publicKey));
    CollectedSlices(file, table);
    hide Collect, PayloadBytes;
  }

  lemma VerifiesSigns(file: Content, table: Payloads, crypto: Crypto, publicKey: Bytes)
    requires Verify(file, table, crypto, Some(publicKey)).Ok?
    requires SIGNED <= Verify(file, table, crypto, Some(publicKey)).value.Keys
    ensures Signs(file, table, crypto, publicKey)
  {
    VerifySound(file, table, crypto, Some(publicKey));
    var v := Verify(file, table, crypto, Some(publicKey)).value;
    assert forall t :: t in SIGNED ==> IsSlice(file, table, t, v[t]);
    hide Verify;
    assert v.Keys == SIGNED;
    ConcatThree(v);
  }

  /** Everything the reader demands of a file, with the public key at hand. */
  ghost predicate Acceptable(file: Content, crypto: Crypto, publicKey: Bytes, entrySize: nat) {
    WellFormed(file, entrySize) && Signs(file, TableOf(file, entrySize), crypto, publicKey)
  }

  /**
   * Exactly these files are opened: at least 40 bytes with the right version and magic, a size field that
   * fits, a decodable table, the signature and the three signed payloads located inside the file within
   * their caps, a signature over the concatenation that verifies, and contents that deserialize.
   */
  lemma OpensIff(
    file: Content, crypto: Crypto, publicKey: Option<Bytes>, entrySize: nat, parses: (PayloadType, Bytes) -> bool)
    ensures FromFileVerified(file, crypto, publicKey, entrySize, parses).Ok? <==>
            && publicKey.Some? && Acceptable(file, crypto, publicKey.value, entrySize)
            && parses(Metadata, Slice(file, TableOf(file, entrySize), Metadata))
            && parses(RuntimeConfig, Slice(file, TableOf(file, entrySize), RuntimeConfig))
            && parses(SeccompPolicy, Slice(file, TableOf(file, entrySize), SeccompPolicy))
  {
    hide Load, Verify, WellFormed, TableOf, Signs, Slice;
    LoadIs(file, crypto, publicKey, entrySize);
    if publicKey.Some? && WellFormed(file, entrySize) {
      SignedSlices(file, TableOf(file, entrySize), crypto, publicKey.value);
      VerifyIff(file, TableOf(file, entrySize), crypto, publicKey.value);
    }
  }

  lemma SignedSlices(file: Content, table: Payloads, crypto: Crypto, publicKey: Bytes)
    ensures Signs(file, table, crypto, publicKey) ==> forall t :: t in SIGNED ==> Readable(file, table, t, |file|)
  {
  }

  /** Loading is verifying the table of a well-formed file. */
  lemma LoadIs(file: Content, crypto: Crypto, publicKey: Option<Bytes>, entrySize: nat)
    ensures publicKey.None? ==> Load(file, crypto, publicKey, entrySize).Err?
    ensures !WellFormed(file, entrySize) ==> Load(file, crypto, publicKey, entrySize).Err?
    ensures WellFormed(file, entrySize) ==>
              var v := Verify(file, TableOf(file, entrySize), crypto, publicKey);
              Load(file, crypto, publicKey, entrySize) ==
              if v.Ok? then Ok((TableOf(file, entrySize), v.value)) else Err(v.error)
  {
    FooterMeans(file);
    if FooterError(file).None? {
      FooterOk(file);
    }
    assert publicKey.None? ==> forall table :: Verify(file, table, crypto, publicKey).Err?;
    hide FooterError, TableOffset, Verify, DecodeTable;
  }

  /** Which footer error a file gives. */
  lemma FooterErrorIs(file: Content)
    ensures FooterError(file) ==
            if |file| < 24 then Some(Io)
            else if file[|file| - 24..] != MAGIC then Some(InvalidMagic)
            else if |file| < 32 then Some(Io)
            else if file[|file| - 32..|file| - 24] != FORMAT_VERSION then Some(InvalidFormatVersion)
            else None
  {
    assert |file| >= 24 ==> file[|file| - 24..|file|] == file[|file| - 24..];
  }

  /** A well-formed file whose signature does not fit its contents is refused as such. */
  lemma TamperedIsRefused(file: Content, crypto: Crypto, publicKey: Bytes, entrySize: nat)
    requires WellFormed(file, entrySize)
    requires var table := TableOf(file, entrySize);
             && Readable(file, table, Signature, crypto.keySize(publicKey))
             && (forall t :: t in SIGNED ==> Readable(file, table, t, 4 * 1024 * 1024))
             && !Signs(file, table, crypto, publicKey)
    ensures Load(file, crypto, Some(publicKey), entrySize) == Err(SignatureVerificationFailed)
  {
    var table := TableOf(file, entrySize);
    var s := table[Signature].value;
    PayloadBytesExact(file, s.offset, s.size, crypto.keySize(publicKey));
    CollectedSlices(file, table);
    LoadIs(file, crypto, Some(publicKey), entrySize);
    hide Collect, PayloadBytes, Load, WellFormed, TableOf;
  }
}
