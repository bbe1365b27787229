/**
 * The package container (libssam/src/ssam_package.rs, libssam/src/ssam_package/ssam_pkg_payload.rs):
 *
 *   [ zip archive | payload table | size of the table, 8 bytes | format version, 8 | magic, 24 ]
 *
 * Class Handle is an open file with its cursor; its methods are the reader and the writer. Each is
 * proved equal to a function of the file content, about which PackageContainerProofs states the theorems.
 */
module PackageContainer {
  import opened Wrappers
  import opened Bincode

  /** "MIRAEPLATFORMGAEBALGROUP" */
  const MAGIC: Bytes :=
    [77, 73, 82, 65, 69, 80, 76, 65, 84, 70, 79, 82, 77, 71, 65, 69, 66, 65, 76, 71, 82, 79, 85, 80]
  /** "0.6.0" padded with three NUL bytes */
  const FORMAT_VERSION: Bytes := [48, 46, 54, 46, 48, 0, 0, 0]
  const MAGIC_LEN := 24
  const VERSION_LEN := 8
  const FOOTER_LEN := MAGIC_LEN + VERSION_LEN
  const SIZE_LEN := 8
  /** MAX_VERIFY_PAYLOAD_SIZE */
  const MAX_VERIFY := 4 * 1024 * 1024

  datatype Error =
    | Io
    | ParseFailed
    | InvalidMagic
    | InvalidFormatVersion
    | SignatureVerificationFailed

  /** SHA-256 and RSA as functions; keys are opaque byte strings. */
  datatype Crypto = Crypto(
    hash: Bytes -> Bytes,
    sign: (Bytes, Bytes) -> Option<Bytes>,
    verify: (Bytes, Bytes, Bytes) -> bool,
    keySize: Bytes -> nat)

  type Verified = map<PayloadType, Bytes>

  predicate NeedVerify(t: PayloadType) {
    t in {Metadata, RuntimeConfig, SeccompPolicy}
  }

  /******* u64 arithmetic *******/

  function SaturatingSub(a: U64, b: U64): U64 {
    if a < b then 0 else a - b
  }

  function SaturatingAdd(a: U64, b: U64): U64 {
    if a + b > U64_MAX then U64_MAX else a + b
  }

  /** Plain u64 addition, which would wrap. */
  function WrappingAdd(a: U64, b: U64): U64 {
    (a + b) % (U64_MAX + 1)
  }

  /******* Reader, as functions of the file content *******/

  /** A file content whose length the kernel can report (off_t). */
  type Content = f: Bytes | |f| < 0x8000_0000_0000_0000

  function FooterField(file: Content, n: nat, offsetFromEnd: nat): Result<Bytes, Error> {
    if offsetFromEnd > |file| then Err(Io)
    else if |file| - offsetFromEnd + n > |file| then Err(Io)
    else Ok(file[|file| - offsetFromEnd..|file| - offsetFromEnd + n])
  }

  /** None means the footer is valid. */
  function FooterError(file: Content): Option<Error> {
    match FooterField(file, MAGIC_LEN, MAGIC_LEN)
    case Err(e) => Some(e)
    case Ok(magic) =>
      if magic != MAGIC then Some(InvalidMagic)
      else
        match FooterField(file, VERSION_LEN, FOOTER_LEN)
        case Err(e) => Some(e)
        case Ok(version) => if version != FORMAT_VERSION then Some(InvalidFormatVersion) else None
  }

  function PayloadBytes(file: Content, offset: U64, size: U64, max: nat): Result<Bytes, Error> {
    if size > max then Err(ParseFailed)
    else if SaturatingAdd(offset, size) > |file| then Err(ParseFailed)
    else if offset + size > |file| then Err(Io)
    else Ok(file[offset..offset + size])
  }

  /** The signed payloads of the remaining types, added to what was hashed and verified before. */
  function Collect(file: Content, table: Payloads, types: seq<PayloadType>, hashed: Bytes, verified: Verified)
    : Result<(Bytes, Verified), Error>
    decreases |types|
  {
    if types == [] then Ok((hashed, verified))
    else if types[0] !in table || !NeedVerify(types[0]) then Collect(file, table, types[1..], hashed, verified)
    else
      match table[types[0]]
      case Some(Internal(offset, size)) =>
        (match PayloadBytes(file, offset, size, MAX_VERIFY)
         case Err(e) => Err(e)
         case Ok(buf) => Collect(file, table, types[1..], hashed + buf, verified[types[0] := buf]))
      case _ => Err(ParseFailed)
  }

  /** Payloads::verify; publicKey is None if the key file cannot be read. */
  function Verify(file: Content, table: Payloads, crypto: Crypto, publicKey: Option<Bytes>): Result<Verified, Error> {
    if publicKey.None? then Err(ParseFailed)
    else if Signature !in table then Err(ParseFailed)
    else
      match table[Signature]
      case Some(Internal(offset, size)) =>
        (match PayloadBytes(file, offset, size, crypto.keySize(publicKey.value))
         case Err(e) => Err(e)
         case Ok(signature) =>
           match Collect(file, table, ALL_TYPES, [], map[])
           case Err(e) => Err(e)
           case Ok((hashed, verified)) =>
             if crypto.verify(publicKey.value, crypto.hash(hashed), signature) then Ok(verified)
             else Err(SignatureVerificationFailed))
      case _ => Err(ParseFailed)
  }

  /** Offset of the payload table, or why there is none. */
  function TableOffset(file: Content): Result<nat, Error> {
    var sizeOffset := SaturatingSub(|file|, FOOTER_LEN + SIZE_LEN);
    match DecodeInt(file, Cursor(sizeOffset, 0), SIZE_LEN)
    case None => Err(ParseFailed)
    case Some(size) =>
      if size.value > SaturatingSub(|file|, FOOTER_LEN + SIZE_LEN) then Err(ParseFailed)
      else Ok(SaturatingSub(|file|, WrappingAdd(FOOTER_LEN + SIZE_LEN, size.value)))
  }

  /** PackageFile::load_payloads_info */
  function Load(file: Content, crypto: Crypto, publicKey: Option<Bytes>, entrySize: nat)
    : Result<(Payloads, Verified), Error>
  {
    match FooterError(file)
    case Some(e) => Err(e)
    case None =>
      match TableOffset(file)
      case Err(e) => Err(e)
      case Ok(offset) =>
        match DecodeTable(file, offset, entrySize)
        case None => Err(ParseFailed)
        case Some(table) =>
          match Verify(file, table.value, crypto, publicKey)
          case Err(e) => Err(e)
          case Ok(verified) => Ok((table.value, verified))
  }

  /** PackageFile::from_file_verified; parses says which payload contents deserialize. */
  function FromFileVerified(
    file: Content, crypto: Crypto, publicKey: Option<Bytes>, entrySize: nat, parses: (PayloadType, Bytes) -> bool)
    : Result<(Payloads, Verified), Error>
  {
    match Load(file, crypto, publicKey, entrySize)
    case Err(e) => Err(e)
    case Ok((table, verified)) =>
      if && Metadata in verified && parses(Metadata, verified[Metadata])
         && RuntimeConfig in verified && parses(RuntimeConfig, verified[RuntimeConfig])
         && SeccompPolicy in verified && parses(SeccompPolicy, verified[SeccompPolicy])
      then Ok((table, verified))
      else Err(ParseFailed)
  }

  /******* Writer *******/

  /** What a package is wrapped from: three serialized parts and the filesystem image payload. */
  datatype Source = Source(metadata: Bytes, runtimeConfig: Bytes, seccompPolicy: Bytes, pkgfs: Option<Payload>)

  datatype Extent = Extent(offset: U64, size: U64)

  /** A finished zip archive: its bytes and the extent of each stored entry's content. */
  datatype Archive = Archive(bytes: Bytes, index: map<PayloadType, Extent>)

  datatype ZipEntry = ZipEntry(kind: PayloadType, content: Bytes)

  /** The environment of wrap: crypto, external files, and the zip writer. None is a failure. */
  datatype WrapEnv = WrapEnv(
    crypto: Crypto,
    external: Bytes -> Option<Bytes>,
    zip: seq<ZipEntry> -> Option<Archive>,
    writes: Writes)

  /** Outcomes of the writes behind the archive. */
  datatype Writes = Writes(table: bool, size: bool, version: bool, magic: bool)

  /** Payloads::init */
  function NoPayloads(): Payloads {
    map t | t in ALL_TYPES :: None
  }

  /** The payloads of a package before signing. */
  function Unsigned(src: Source): Payloads {
    NoPayloads()[Metadata := Some(Data(src.metadata))][RuntimeConfig := Some(Data(src.runtimeConfig))]
                [SeccompPolicy := Some(Data(src.seccompPolicy))][PackageFilesystem := src.pkgfs]
  }

  /** What Payloads::sign feeds to the hasher, after acc; only in-memory payloads can be signed. */
  function HashInput(table: Payloads, types: seq<PayloadType>, acc: Bytes): Option<Bytes>
    decreases |types|
  {
    if types == [] then Some(acc)
    else if types[0] !in table || !NeedVerify(types[0]) then HashInput(table, types[1..], acc)
    else match table[types[0]]
         case Some(Data(bytes)) => HashInput(table, types[1..], acc + bytes)
         case _ => None
  }

  /** Payloads::sign */
  function Signed(table: Payloads, crypto: Crypto, privateKey: Bytes): Option<Payloads> {
    match HashInput(table, ALL_TYPES, [])
    case None => None
    case Some(input) =>
      match crypto.sign(privateKey, crypto.hash(input))
      case None => None
      case Some(signature) => Some(table[Signature := Some(Data(signature))])
  }

  /** The bytes stored in the zip entry of a payload. */
  function EntryContent(env: WrapEnv, p: Option<Payload>): Option<Bytes> {
    match p
    case Some(Data(bytes)) => Some(bytes)
    case Some(External(path)) => env.external(path)
    case _ => None
  }

  /** PackageFile::wrap_payloads */
  function ZipEntries(env: WrapEnv, table: Payloads, types: seq<PayloadType>, acc: seq<ZipEntry>): Option<seq<ZipEntry>>
    decreases |types|
  {
    if types == [] then Some(acc)
    else if types[0] !in table then ZipEntries(env, table, types[1..], acc)
    else match EntryContent(env, table[types[0]])
         case None => None
         case Some(content) => ZipEntries(env, table, types[1..], acc + [ZipEntry(types[0], content)])
  }

  /** The payload table that locates every entry of the archive. */
  function Locate(archive: Archive, types: seq<PayloadType>, acc: Payloads): Option<Payloads>
    decreases |types|
  {
    if types == [] then Some(acc)
    else if types[0] !in archive.index then None
    else
      var e := archive.index[types[0]];
      Locate(archive, types[1..], acc[types[0] := Some(Internal(e.offset, e.size))])
  }

  /** The file that wrap leaves behind: the archive, the located table, its size, and the footer. */
  function Layout(archive: Archive, table: Payloads): Bytes {
    archive.bytes + EncodeTable(table) + LE(|EncodeTable(table)|, SIZE_LEN) + FORMAT_VERSION + MAGIC
  }

  /** PackageFile::wrap */
  function Wrapped(env: WrapEnv, src: Source, privateKey: Bytes): Option<Bytes> {
    match Signed(Unsigned(src), env.crypto, privateKey)
    case None => None
    case Some(table) =>
      match ZipEntries(env, table, ALL_TYPES, [])
      case None => None
      case Some(entries) =>
        match env.zip(entries)
        case None => None
        case Some(archive) =>
          match Locate(archive, ALL_TYPES, NoPayloads())
          case None => None
          case Some(located) => if AllWritten(env.writes) then Some(Layout(archive, located)) else None
  }

  predicate AllWritten(w: Writes) {
    w.table && w.size && w.version && w.magic
  }

  /******* The file handle *******/

  class Handle {
    var data: Bytes
    var pos: nat

    constructor (data: Bytes)
      ensures this.data == data && pos == 0
    {
      this.data, pos := data, 0;
    }

    /** seek(SeekFrom::End(-offset)); moving before the start of the file fails. */
    method SeekEnd(offset: nat) returns (ok: bool)
      modifies this`pos
      ensures ok == (offset <= |data|)
      ensures ok ==> pos == |data| - offset
    {
      ok := offset <= |data|;
      if ok {
        pos := |data| - offset;
      }
    }

    method SeekStart(offset: nat)
      modifies this`pos
      ensures pos == offset
    {
      pos := offset;
    }

    method ReadExact(n: nat) returns (r: Option<Bytes>)
      modifies this`pos
      ensures r == if old(pos) + n <= |data| then Some(data[old(pos)..old(pos) + n]) else None
      ensures r.Some? ==> pos == old(pos) + n
    {
      if pos + n <= |data| {
        r := Some(data[pos..pos + n]);
        pos := pos + n;
      } else {
        r := None;
      }
    }

    /** write_all on a handle opened for appending. */
    method Append(bytes: Bytes, ok: bool) returns (done: bool)
      modifies this
      ensures done == ok && data == if ok then old(data) + bytes else old(data)
    {
      if ok {
        data := data + bytes;
        pos := |data|;
      }
      return ok;
    }

    method ReadFooterField(n: nat, offsetFromEnd: nat) returns (r: Result<Bytes, Error>)
      requires |data| < 0x8000_0000_0000_0000
      modifies this`pos
      ensures r == FooterField(data, n, offsetFromEnd)
    {
      var ok := SeekEnd(offsetFromEnd);
      if !ok {
        return Err(Io);
      }
      var buffer := ReadExact(n);
      return if buffer.Some? then Ok(buffer.value) else Err(Io);
    }

    method VerifyFooter() returns (e: Option<Error>)
      requires |data| < 0x8000_0000_0000_0000
      modifies this`pos
      ensures e == FooterError(data)
    {
      var magic := ReadFooterField(MAGIC_LEN, MAGIC_LEN);
      if magic.Err? {
        return Some(magic.error);
      }
      if magic.value != MAGIC {
        return Some(InvalidMagic);
      }
      var version := ReadFooterField(VERSION_LEN, FOOTER_LEN);
      if version.Err? {
        return Some(version.error);
      }
      return if version.value != FORMAT_VERSION then Some(InvalidFormatVersion) else None;
    }

    method ReadPayload(offset: U64, size: U64, max: nat) returns (r: Result<Bytes, Error>)
      requires |data| < 0x8000_0000_0000_0000
      modifies this`pos
      ensures r == PayloadBytes(data, offset, size, max)
    {
      if size > max {
        return Err(ParseFailed);
      }
      if SaturatingAdd(offset, size) > |data| {
        return Err(ParseFailed);
      }
      SeekStart(offset);
      var buf := ReadExact(size);
      return if buf.Some? then Ok(buf.value) else Err(Io);
    }

    method VerifyPayloads(
      table: Payloads, crypto: Crypto, publicKey: Option<Bytes>) returns (r: Result<Verified, Error>)
      requires |data| < 0x8000_0000_0000_0000
      modifies this`pos
      ensures r == Verify(data, table, crypto, publicKey)
    {
      if publicKey.None? {
        return Err(ParseFailed);
      }
      if Signature !in table || table[Signature].None? || !table[Signature].value.Internal? {
        return Err(ParseFailed);
      }
      var signature := ReadPayload(table[Signature].value.offset, table[Signature].value.size,
                                   crypto.keySize(publicKey.value));
      if signature.Err? {
        return Err(signature.error);
      }
      var hasher: Bytes := [];
      var verified: Verified := map[];
      for i := 0 to |ALL_TYPES|
        invariant Collect(data, table, ALL_TYPES, [], map[]) == Collect(data, table, ALL_TYPES[i..], hasher, verified)
      {
        var t := ALL_TYPES[i];
        assert ALL_TYPES[i..][0] == t && ALL_TYPES[i..][1..] == ALL_TYPES[i + 1..];
        if t !in table || !NeedVerify(t) {
          continue;
        }
        if table[t].None? || !table[t].value.Internal? {
          return Err(ParseFailed);
        }
        var buf := ReadPayload(table[t].value.offset, table[t].value.size, MAX_VERIFY);
        if buf.Err? {
          return Err(buf.error);
        }
        hasher := hasher + buf.value;
        verified := verified[t := buf.value];
      }
      return if crypto.verify(publicKey.value, crypto.hash(hasher), signature.value) then Ok(verified)
             else Err(SignatureVerificationFailed);
    }

    method LoadPayloadsInfo(crypto: Crypto, publicKey: Option<Bytes>, entrySize: nat)
      returns (r: Result<(Payloads, Verified), Error>)
      requires |data| < 0x8000_0000_0000_0000
      modifies this`pos
      ensures r == Load(data, crypto, publicKey, entrySize)
    {
      var footer := VerifyFooter();
      if footer.Some? {
        return Err(footer.value);
      }
      SeekStart(SaturatingSub(|data|, FOOTER_LEN + SIZE_LEN));
      var size := DecodeInt(data, Cursor(pos, 0), SIZE_LEN);
      if size.None? {
        return Err(ParseFailed);
      }
      var maxSize := SaturatingSub(|data|, FOOTER_LEN + SIZE_LEN);
      if size.value.value > maxSize {
        return Err(ParseFailed);
      }
      SeekStart(SaturatingSub(|data|, WrappingAdd(FOOTER_LEN + SIZE_LEN, size.value.value)));
      var table := DecodeTable(data, pos, entrySize);
      if table.None? {
        return Err(ParseFailed);
      }
      var verified := VerifyPayloads(table.value.value, crypto, publicKey);
      return if verified.Ok? then Ok((table.value.value, verified.value)) else Err(verified.error);
    }
  }

  /******* The writing side *******/

  method Sign(table: Payloads, crypto: Crypto, privateKey: Bytes) returns (r: Option<Payloads>)
    ensures r == Signed(table, crypto, privateKey)
  {
    var hasher: Bytes := [];
    for i := 0 to |ALL_TYPES|
      invariant HashInput(table, ALL_TYPES, []) == HashInput(table, ALL_TYPES[i..], hasher)
    {
      var t := ALL_TYPES[i];
      assert ALL_TYPES[i..][0] == t && ALL_TYPES[i..][1..] == ALL_TYPES[i + 1..];
      if t in table && NeedVerify(t) {
        if table[t].None? || !table[t].value.Data? {
          return None;
        }
        hasher := hasher + table[t].value.bytes;
      }
    }
    var signature := crypto.sign(privateKey, crypto.hash(hasher));
    return if signature.Some? then Some(table[Signature := Some(Data(signature.value))]) else None;
  }

  method WrapPayloads(env: WrapEnv, table: Payloads) returns (r: Option<seq<ZipEntry>>)
    ensures r == ZipEntries(env, table, ALL_TYPES, [])
  {
    var entries: seq<ZipEntry> := [];
    for i := 0 to |ALL_TYPES|
      invariant ZipEntries(env, table, ALL_TYPES, []) == ZipEntries(env, table, ALL_TYPES[i..], entries)
    {
      var t := ALL_TYPES[i];
      assert ALL_TYPES[i..][0] == t && ALL_TYPES[i..][1..] == ALL_TYPES[i + 1..];
      if t in table {
        var content := EntryContent(env, table[t]);
        if content.None? {
          return None;
        }
        entries := entries + [ZipEntry(t, content.value)];
      }
    }
    return Some(entries);
  }

  method WrapPayloadsInfo(handle: Handle, archive: Archive, w: Writes) returns (ok: bool)
    modifies handle
    ensures ok == (Locate(archive, ALL_TYPES, NoPayloads()).Some? && w.table && w.size)
    ensures ok ==> var table := EncodeTable(Locate(archive, ALL_TYPES, NoPayloads()).value);
                   handle.data == old(handle.data) + table + LE(|table|, SIZE_LEN)
    ensures old(handle.data) <= handle.data
  {
    var located := NoPayloads();
    for i := 0 to |ALL_TYPES|
      invariant Locate(archive, ALL_TYPES, NoPayloads()) == Locate(archive, ALL_TYPES[i..], located)
      invariant handle.data == old(handle.data)
    {
      var t := ALL_TYPES[i];
      assert ALL_TYPES[i..][0] == t && ALL_TYPES[i..][1..] == ALL_TYPES[i + 1..];
      if t !in archive.index {
        return false;
      }
      located := located[t := Some(Internal(archive.index[t].offset, archive.index[t].size))];
    }
    var table := EncodeTable(located);
    ok := handle.Append(table, w.table);
    if ok {
      ok := handle.Append(LE(|table|, SIZE_LEN), w.size);
    }
  }

  method WriteFooter(handle: Handle, w: Writes) returns (ok: bool)
    modifies handle
    ensures ok == (w.version && w.magic)
    ensures ok ==> handle.data == old(handle.data) + FORMAT_VERSION + MAGIC
  {
    ok := handle.Append(FORMAT_VERSION, w.version);
    if ok {
      ok := handle.Append(MAGIC, w.magic);
    }
  }

  method Wrap(env: WrapEnv, src: Source, privateKey: Bytes) returns (r: Option<Bytes>)
    ensures r == Wrapped(env, src, privateKey)
  {
    hide EncodeTable, LE, HashInput, ZipEntries, Locate, Unsigned;
    var signed := Sign(Unsigned(src), env.crypto, privateKey);
    if signed.None? {
      return None;
    }
    var entries := WrapPayloads(env, signed.value);
    if entries.None? {
      return None;
    }
    var archive := env.zip(entries.value);
    if archive.None? {
      return None;
    }
    var file := new Handle(archive.value.bytes);
    var ok := WrapPayloadsInfo(file, archive.value, env.writes);
    if !ok {
      return None;
    }
    ok := WriteFooter(file, env.writes);
    return if ok then Some(file.data) else None;
  }
}
