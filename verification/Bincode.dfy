/**
 * The serialized payload table of a package file: bincode with fixed-width little-endian integers
 * and a decode limit (libssam/src/lib.rs, module config; libssam/src/ssam_package/ssam_pkg_payload.rs).
 */
module Bincode {
  import opened Wrappers

  type Byte = b: int | 0 <= b < 256

  type Bytes = seq<Byte>

  const U64_MAX := 0xFFFF_FFFF_FFFF_FFFF

  type U64 = n: int | 0 <= n <= U64_MAX

  /** SSAM_MAX_DECODE_SIZE */
  const LIMIT := 1024 * 1024

  /******* Fixed-width integers *******/

  function Pow256(w: nat): (p: nat)
    ensures p > 0
  {
    if w == 0 then 1 else 256 * Pow256(w - 1)
  }

  function LE(n: nat, w: nat): (s: Bytes)
    ensures |s| == w
  {
    seq(w, i requires 0 <= i < w => (n / Pow256(i)) % 256)
  }

  function FromLE(s: Bytes): nat {
    if s == [] then 0 else s[0] + 256 * FromLE(s[1..])
  }

  lemma {:induction false} FromLEBound(s: Bytes)
    ensures FromLE(s) < Pow256(|s|)
  {
    if s != [] {
      FromLEBound(s[1..]);
    }
  }

  lemma {:induction false} IntRoundTrip(n: nat, w: nat)
    requires n < Pow256(w)
    ensures FromLE(LE(n, w)) == n
  {
    if w > 0 {
      LowByte(n, w);
      LETail(n, w);
      hide LE;
      IntRoundTrip(n / 256, w - 1);
    }
  }

  lemma LowByte(n: nat, w: nat)
    requires w > 0
    ensures LE(n, w)[0] == n % 256
  {
    assert Pow256(0) == 1;
  }

  /** The bytes above the lowest are the encoding of the quotient. */
  lemma LETail(n: nat, w: nat)
    requires w > 0
    ensures LE(n, w)[1..] == LE(n / 256, w - 1)
  {
    forall i | 0 <= i < w - 1 ensures LE(n, w)[1..][i] == LE(n / 256, w - 1)[i] {
      ShiftByte(n, i);
    }
  }

  lemma ShiftByte(n: nat, i: nat)
    ensures n / Pow256(i + 1) == (n / 256) / Pow256(i)
  {
    DivDiv(n, Pow256(i));
  }

  lemma DivDiv(n: nat, p: nat)
    requires p > 0
    ensures n / (256 * p) == (n / 256) / p
  {
    var q, r := n / 256, n % 256;
    var a, b := q / p, q % p;
    assert n == 256 * (p * a + b) + r;
    assert n == (256 * p) * a + (256 * b + r);
    QuotientIs(n, 256 * p, a, 256 * b + r);
  }

  lemma QuotientIs(n: nat, d: nat, a: nat, r: nat)
    requires d > 0 && n == d * a + r && r < d
    ensures n / d == a
  {
    var k := a - n / d;
    assert d * k == n % d - r;
    if k >= 1 {
      MulAtLeast(d, k);
    } else if k <= -1 {
      MulAtLeast(d, -k);
    }
  }

  lemma MulAtLeast(d: nat, k: int)
    requires k >= 1
    ensures d * k >= d && d * k == -(d * -k)
  {
  }

  lemma Widths()
    ensures Pow256(1) == 0x100 && Pow256(4) == 0x1_0000_0000 && Pow256(8) == U64_MAX + 1
  {
    assert Pow256(2) == 0x1_0000;
    assert Pow256(4) == 256 * 256 * Pow256(2);
    assert Pow256(6) == 256 * 256 * Pow256(4);
    assert Pow256(8) == 256 * 256 * Pow256(6);
  }

  /******* Payload table *******/

  datatype PayloadType = Metadata | RuntimeConfig | SeccompPolicy | Signature | PackageFilesystem

  /** Iteration order of the table: the derived order of PayloadType. */
  const ALL_TYPES: seq<PayloadType> := [Metadata, RuntimeConfig, SeccompPolicy, Signature, PackageFilesystem]

  datatype Payload = Internal(offset: U64, size: U64) | External(path: Bytes) | Data(bytes: Bytes)

  type Payloads = map<PayloadType, Option<Payload>>

  function Ordinal(t: PayloadType): (n: nat)
    ensures n < 5 && ALL_TYPES[n] == t
  {
    match t
    case Metadata => 0
    case RuntimeConfig => 1
    case SeccompPolicy => 2
    case Signature => 3
    case PackageFilesystem => 4
  }

  predicate Continuation(s: Bytes, i: nat) {
    i < |s| && 0x80 <= s[i] <= 0xBF
  }

  /** Length of the well-formed UTF-8 sequence at the start of s, 0 if there is none (RFC 3629, section 4). */
  function Utf8Length(s: Bytes): (n: nat)
    ensures n <= |s|
  {
    if s == [] then 0
    else if s[0] < 0x80 then 1
    else if 0xC2 <= s[0] <= 0xDF && Continuation(s, 1) then 2
    else if && 0xE0 <= s[0] <= 0xEF && Continuation(s, 1) && Continuation(s, 2)
            && (s[0] == 0xE0 ==> 0xA0 <= s[1]) && (s[0] == 0xED ==> s[1] <= 0x9F) then 3
    else if && 0xF0 <= s[0] <= 0xF4 && Continuation(s, 1) && Continuation(s, 2) && Continuation(s, 3)
            && (s[0] == 0xF0 ==> 0x90 <= s[1]) && (s[0] == 0xF4 ==> s[1] <= 0x8F) then 4
    else 0
  }

  predicate IsUtf8(s: Bytes) {
    s == [] || (Utf8Length(s) > 0 && IsUtf8(s[Utf8Length(s)..]))
  }

  /******* Encoder *******/

  function EncodePayload(p: Payload): Bytes {
    match p
    case Internal(offset, size) => LE(0, 4) + (LE(offset, 8) + LE(size, 8))
    case External(path) => LE(1, 4) + (LE(|path|, 8) + path)
    case Data(bytes) => LE(2, 4) + (LE(|bytes|, 8) + bytes)
  }

  function EncodeOption(p: Option<Payload>): Bytes {
    match p case None => LE(0, 1) case Some(q) => LE(1, 1) + EncodePayload(q)
  }

  function EncodeEntry(t: PayloadType, p: Option<Payload>): Bytes {
    LE(Ordinal(t), 4) + EncodeOption(p)
  }

  function EncodeEntries(table: Payloads, types: seq<PayloadType>): Bytes {
    if types == [] then []
    else (if types[0] in table then EncodeEntry(types[0], table[types[0]]) else []) + EncodeEntries(table, types[1..])
  }

  /** Payloads::serialize */
  function EncodeTable(table: Payloads): Bytes {
    LE(|table|, 8) + EncodeEntries(table, ALL_TYPES)
  }

  /******* Decoder *******/

  /** Read position and bytes counted against the decode limit. */
  datatype Cursor = Cursor(pos: nat, claimed: nat)

  datatype Decoded<T> = Decoded(value: T, next: Cursor)

  function Claim(c: Cursor, n: nat): Option<Cursor> {
    if c.claimed + n <= LIMIT then Some(c.(claimed := c.claimed + n)) else None
  }

  function ReadBytes(file: Bytes, c: Cursor, n: nat): (r: Option<Decoded<Bytes>>)
    ensures r.Some? ==> |r.value.value| == n && r.value.next == c.(pos := c.pos + n) && r.value.next.pos <= |file|
  {
    if c.pos + n <= |file| then Some(Decoded(file[c.pos..c.pos + n], c.(pos := c.pos + n))) else None
  }

  function DecodeInt(file: Bytes, c: Cursor, w: nat): (r: Option<Decoded<nat>>)
    ensures r.Some? ==> r.value.next == Cursor(c.pos + w, c.claimed + w) && r.value.next.pos <= |file|
  {
    match Claim(c, w)
    case None => None
    case Some(c1) =>
      match ReadBytes(file, c1, w)
      case None => None
      case Some(d) => Some(Decoded(FromLE(d.value), d.next))
  }

  function DecodeBytes(file: Bytes, c: Cursor): (r: Option<Decoded<Bytes>>)
    ensures r.Some? ==> r.value.next == Cursor(c.pos + 8 + |r.value.value|, c.claimed + 8 + |r.value.value|)
  {
    match DecodeInt(file, c, 8)
    case None => None
    case Some(len) =>
      match Claim(len.next, len.value)
      case None => None
      case Some(c1) => ReadBytes(file, c1, len.value)
  }

  function DecodePayload(file: Bytes, c: Cursor): Option<Decoded<Payload>> {
    match DecodeInt(file, c, 4)
    case None => None
    case Some(tag) =>
      if tag.value == 0 then
        (match DecodeInt(file, tag.next, 8)
         case None => None
         case Some(offset) =>
           match DecodeInt(file, offset.next, 8)
           case None => None
           case Some(size) =>
             IntsFit(file, tag.next.pos, offset.next.pos);
             Some(Decoded(Internal(offset.value, size.value), size.next)))
      else if tag.value == 1 then
        (match DecodeBytes(file, tag.next)
         case None => None
         case Some(path) => if IsUtf8(path.value) then Some(Decoded(External(path.value), path.next)) else None)
      else if tag.value == 2 then
        (match DecodeBytes(file, tag.next)
         case None => None
         case Some(bytes) => Some(Decoded(Data(bytes.value), bytes.next)))
      else None
  }

  lemma IntsFit(file: Bytes, a: nat, b: nat)
    ensures a + 8 <= |file| ==> FromLE(file[a..a + 8]) <= U64_MAX
    ensures b + 8 <= |file| ==> FromLE(file[b..b + 8]) <= U64_MAX
  {
    Widths();
    if a + 8 <= |file| {
      FromLEBound(file[a..a + 8]);
    }
    if b + 8 <= |file| {
      FromLEBound(file[b..b + 8]);
    }
  }

  function DecodeOption(file: Bytes, c: Cursor): Option<Decoded<Option<Payload>>> {
    match DecodeInt(file, c, 1)
    case None => None
    case Some(tag) =>
      if tag.value == 0 then Some(Decoded(None, tag.next))
      else if tag.value == 1 then
        (match DecodePayload(file, tag.next)
         case None => None
         case Some(p) => Some(Decoded(Some(p.value), p.next)))
      else None
  }

  function DecodeEntry(file: Bytes, c: Cursor): Option<Decoded<(PayloadType, Option<Payload>)>> {
    match DecodeInt(file, c, 4)
    case None => None
    case Some(key) =>
      if key.value >= 5 then None
      else
        match DecodeOption(file, key.next)
        case None => None
        case Some(p) => Some(Decoded((ALL_TYPES[key.value], p.value), p.next))
  }

  /** The n remaining entries; each gives back the entrySize bytes claimed for it in advance. */
  function DecodeEntries(file: Bytes, c: Cursor, n: nat, entrySize: nat, table: Payloads): Option<Decoded<Payloads>>
    decreases n
  {
    if n == 0 then Some(Decoded(table, c))
    else if c.claimed < entrySize then None
    else
      match DecodeEntry(file, c.(claimed := c.claimed - entrySize))
      case None => None
      case Some(e) => DecodeEntries(file, e.next, n - 1, entrySize, table[e.value.0 := e.value.1])
  }

  /** The derived Decode of Payloads; entrySize is the in-memory size of one map entry. */
  function DecodeTable(file: Bytes, pos: nat, entrySize: nat): Option<Decoded<Payloads>> {
    match DecodeInt(file, Cursor(pos, 0), 8)
    case None => None
    case Some(len) =>
      match Claim(len.next, len.value * entrySize)
      case None => None
      case Some(c) => DecodeEntries(file, c, len.value, entrySize, map[])
  }

  /******* Round trip *******/

  /** The bytes of part stand in file at pos. */
  predicate At(file: Bytes, pos: nat, part: Bytes) {
    pos + |part| <= |file| && file[pos..pos + |part|] == part
  }

  lemma AtConcat(file: Bytes, pos: nat, a: Bytes, b: Bytes)
    requires At(file, pos, a + b)
    ensures At(file, pos, a) && At(file, pos + |a|, b)
  {
    assert file[pos..pos + |a|] == (a + b)[..|a|];
    assert file[pos + |a|..pos + |a| + |b|] == (a + b)[|a|..];
  }

  lemma IntDecodes(file: Bytes, c: Cursor, n: nat, w: nat)
    requires At(file, c.pos, LE(n, w)) && n < Pow256(w) && c.claimed + w <= LIMIT
    ensures DecodeInt(file, c, w) == Some(Decoded(n, Cursor(c.pos + w, c.claimed + w)))
  {
    IntRoundTrip(n, w);
  }

  lemma U64Decodes(file: Bytes, c: Cursor, n: U64)
    requires At(file, c.pos, LE(n, 8)) && c.claimed + 8 <= LIMIT
    ensures DecodeInt(file, c, 8) == Some(Decoded(n as nat, Cursor(c.pos + 8, c.claimed + 8)))
  {
    Widths();
    IntDecodes(file, c, n, 8);
  }

  lemma TagDecodes(file: Bytes, c: Cursor, n: nat, w: nat, rest: Bytes)
    requires (w == 1 || w == 4) && n < 5
    requires At(file, c.pos, LE(n, w) + rest) && c.claimed + w <= LIMIT
    ensures DecodeInt(file, c, w) == Some(Decoded(n, Cursor(c.pos + w, c.claimed + w)))
    ensures At(file, c.pos + w, rest)
  {
    Widths();
    AtConcat(file, c.pos, LE(n, w), rest);
    IntDecodes(file, c, n, w);
  }

  lemma PairDecodes(file: Bytes, c: Cursor, a: U64, b: U64)
    requires At(file, c.pos, LE(a, 8) + LE(b, 8)) && c.claimed + 16 <= LIMIT
    ensures DecodeInt(file, c, 8) == Some(Decoded(a as nat, Cursor(c.pos + 8, c.claimed + 8)))
    ensures DecodeInt(file, Cursor(c.pos + 8, c.claimed + 8), 8) ==
            Some(Decoded(b as nat, Cursor(c.pos + 16, c.claimed + 16)))
  {
    AtConcat(file, c.pos, LE(a, 8), LE(b, 8));
    U64Decodes(file, c, a);
    U64Decodes(file, Cursor(c.pos + 8, c.claimed + 8), b);
  }

  lemma BytesDecode(file: Bytes, c: Cursor, s: Bytes)
    requires At(file, c.pos, LE(|s|, 8) + s) && c.claimed + 8 + |s| <= LIMIT
    ensures DecodeBytes(file, c) == Some(Decoded(s, Cursor(c.pos + 8 + |s|, c.claimed + 8 + |s|)))
  {
    AtConcat(file, c.pos, LE(|s|, 8), s);
    U64Decodes(file, c, |s|);
  }

  /** What the encoder accepts: external paths are Unicode strings. */
  predicate Encodable(p: Payload) {
    p.External? ==> IsUtf8(p.path)
  }

  lemma PayloadRoundTrip(file: Bytes, c: Cursor, p: Payload)
    requires Encodable(p) && At(file, c.pos, EncodePayload(p)) && c.claimed + |EncodePayload(p)| <= LIMIT
    ensures DecodePayload(file, c) ==
            Some(Decoded(p, Cursor(c.pos + |EncodePayload(p)|, c.claimed + |EncodePayload(p)|)))
  {
    hide LE, At, DecodeInt, DecodeBytes, IsUtf8;
    var c1 := Cursor(c.pos + 4, c.claimed + 4);
    match p
    case Internal(offset, size) =>
      TagDecodes(file, c, 0, 4, LE(offset, 8) + LE(size, 8));
      PairDecodes(file, c1, offset, size);
    case External(path) =>
      TagDecodes(file, c, 1, 4, LE(|path|, 8) + path);
      BytesDecode(file, c1, path);
    case Data(bytes) =>
      TagDecodes(file, c, 2, 4, LE(|bytes|, 8) + bytes);
      BytesDecode(file, c1, bytes);
  }

  lemma OptionRoundTrip(file: Bytes, c: Cursor, p: Option<Payload>)
    requires p.Some? ==> Encodable(p.value)
    requires At(file, c.pos, EncodeOption(p)) && c.claimed + |EncodeOption(p)| <= LIMIT
    ensures DecodeOption(file, c) ==
            Some(Decoded(p, Cursor(c.pos + |EncodeOption(p)|, c.claimed + |EncodeOption(p)|)))
  {
    hide LE, EncodePayload, DecodePayload;
    match p
    case None =>
      assert LE(0, 1) + [] == LE(0, 1);
      TagDecodes(file, c, 0, 1, []);
    case Some(q) =>
      var c1 := Cursor(c.pos + 1, c.claimed + 1);
      TagDecodes(file, c, 1, 1, EncodePayload(q));
      PayloadRoundTrip(file, c1, q);
  }

  lemma EntryRoundTrip(file: Bytes, c: Cursor, t: PayloadType, p: Option<Payload>)
    requires p.Some? ==> Encodable(p.value)
    requires At(file, c.pos, EncodeEntry(t, p)) && c.claimed + |EncodeEntry(t, p)| <= LIMIT
    ensures DecodeEntry(file, c) ==
            Some(Decoded((t, p), Cursor(c.pos + |EncodeEntry(t, p)|, c.claimed + |EncodeEntry(t, p)|)))
  {
    hide LE, EncodeOption, DecodeOption;
    TagDecodes(file, c, Ordinal(t), 4, EncodeOption(p));
    OptionRoundTrip(file, Cursor(c.pos + 4, c.claimed + 4), p);
  }

  function Restricted(table: Payloads, types: seq<PayloadType>): Payloads
    decreases |types|
  {
    map t | t in table && t in types :: table[t]
  }

  function Count(table: Payloads, types: seq<PayloadType>): nat {
    if types == [] then 0 else (if types[0] in table then 1 else 0) + Count(table, types[1..])
  }

  /** The fill of a partly decoded table with the entries of types. */
  function Filled(done: Payloads, table: Payloads, types: seq<PayloadType>): Payloads
    decreases |types|
  {
    if types == [] then done
    else Filled(if types[0] in table then done[types[0] := table[types[0]]] else done, table, types[1..])
  }

  lemma {:induction false} FilledIs(done: Payloads, table: Payloads, types: seq<PayloadType>)
    ensures Filled(done, table, types) == done + Restricted(table, types)
    decreases |types|
  {
    if types != [] {
      var next := if types[0] in table then done[types[0] := table[types[0]]] else done;
      FilledIs(next, table, types[1..]);
      assert next + Restricted(table, types[1..]) == done + Restricted(table, types);
    }
  }

  lemma {:induction false} EntriesRoundTrip(
    file: Bytes, c: Cursor, table: Payloads, types: seq<PayloadType>, entrySize: nat, done: Payloads)
    requires forall t :: t in table && table[t].Some? ==> Encodable(table[t].value)
    requires At(file, c.pos, EncodeEntries(table, types))
    requires c.claimed >= Count(table, types) * entrySize
    requires c.claimed + |EncodeEntries(table, types)| <= LIMIT
    ensures var r := DecodeEntries(file, c, Count(table, types), entrySize, done);
            r.Some? && r.value.value == Filled(done, table, types)
            && r.value.next.pos == c.pos + |EncodeEntries(table, types)|
    decreases |types|
  {
    hide LE, EncodeEntry, DecodeEntry;
    if types != [] {
      var t := types[0];
      var rest := EncodeEntries(table, types[1..]);
      if t in table {
        var n := Count(table, types[1..]);
        assert (n + 1) * entrySize == n * entrySize + entrySize;
        EntryStep(file, c, t, table[t], rest, entrySize, n, done);
        var e := EncodeEntry(t, table[t]);
        EntriesRoundTrip(file, Cursor(c.pos + |e|, c.claimed - entrySize + |e|), table, types[1..], entrySize,
                         done[t := table[t]]);
      } else {
        assert [] + rest == rest;
        EntriesRoundTrip(file, c, table, types[1..], entrySize, done);
      }
    }
  }

  lemma EntryStep(
    file: Bytes, c: Cursor, t: PayloadType, p: Option<Payload>, rest: Bytes, entrySize: nat, n: nat, done: Payloads)
    requires p.Some? ==> Encodable(p.value)
    requires At(file, c.pos, EncodeEntry(t, p) + rest)
    requires c.claimed >= entrySize && c.claimed + |EncodeEntry(t, p)| <= LIMIT
    ensures var e := EncodeEntry(t, p);
            var c' := Cursor(c.pos + |e|, c.claimed - entrySize + |e|);
            && At(file, c'.pos, rest)
            && DecodeEntries(file, c, n + 1, entrySize, done) == DecodeEntries(file, c', n, entrySize, done[t := p])
  {
    hide LE, EncodeEntry, DecodeEntry;
    AtConcat(file, c.pos, EncodeEntry(t, p), rest);
    EntryRoundTrip(file, c.(claimed := c.claimed - entrySize), t, p);
  }

  lemma CountAll(table: Payloads)
    ensures Count(table, ALL_TYPES) == |table| && |table| <= 5
    ensures Restricted(table, ALL_TYPES) == table
  {
    assert forall t :: t in table ==> ALL_TYPES[Ordinal(t)] == t;
    CountIs(table, ALL_TYPES);
    assert (set t | t in table && t in ALL_TYPES) == table.Keys;
    assert |table.Keys| == |table|;
    CountAtMost(table, ALL_TYPES);
  }

  lemma {:induction false} CountAtMost(table: Payloads, types: seq<PayloadType>)
    ensures Count(table, types) <= |types|
  {
    if types != [] {
      CountAtMost(table, types[1..]);
    }
  }

  lemma {:induction false} CountIs(table: Payloads, types: seq<PayloadType>)
    requires forall i, j :: 0 <= i < j < |types| ==> types[i] != types[j]
    ensures Count(table, types) == |set t | t in table && t in types|
    decreases |types|
  {
    var here := set t | t in table && t in types;
    if types == [] {
      assert here == {};
    } else {
      var rest := set t | t in table && t in types[1..];
      CountIs(table, types[1..]);
      assert types[0] !in types[1..];
      assert here == if types[0] in table then rest + {types[0]} else rest;
    }
  }

  lemma TableHeader(file: Bytes, pos: nat, n: U64, entrySize: nat, entries: Bytes)
    requires At(file, pos, LE(n, 8) + entries) && 8 + n * entrySize <= LIMIT
    ensures At(file, pos + 8, entries)
    ensures DecodeTable(file, pos, entrySize) ==
            DecodeEntries(file, Cursor(pos + 8, 8 + n * entrySize), n, entrySize, map[])
  {
    hide LE, DecodeEntries, DecodeInt;
    AtConcat(file, pos, LE(n, 8), entries);
    U64Decodes(file, Cursor(pos, 0), n);
  }

  /** Decoding an encoded table gives the table back and stops exactly at its end. */
  lemma TableRoundTrip(file: Bytes, pos: nat, table: Payloads, entrySize: nat)
    requires forall t :: t in table && table[t].Some? ==> Encodable(table[t].value)
    requires At(file, pos, EncodeTable(table))
    requires |table| * entrySize + |EncodeTable(table)| <= LIMIT
    ensures var r := DecodeTable(file, pos, entrySize);
            r.Some? && r.value.value == table && r.value.next.pos == pos + |EncodeTable(table)|
  {
    hide LE, EncodeEntries, DecodeEntries, DecodeTable, Filled, Count, Restricted, At;
    CountAll(table);
    TableHeader(file, pos, |table|, entrySize, EncodeEntries(table, ALL_TYPES));
    EntriesRoundTrip(file, Cursor(pos + 8, 8 + |table| * entrySize), table, ALL_TYPES, entrySize, map[]);
    FilledIs(map[], table, ALL_TYPES);
    assert map[] + table == table;
  }
}
