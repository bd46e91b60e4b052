/**
 The PF_KEY v2 extensions of RFC 2367: their values, the structures a sender stores for them, and the
 values a receiver reads back.
 */
module Extensions {
  import opened Bytes
  import opened Appending
  import opened Walking

  // ---------------------------------------------------------------------
  // Values (sections 2.3.1 to 2.3.9 of RFC 2367)
  // ---------------------------------------------------------------------

  datatype Comb = Comb(limits: CombLimits, times: CombTimes)

  datatype CombLimits = CombLimits(
    auth: byte, encrypt: byte, flags: u16,
    authMinBits: u16, authMaxBits: u16, encryptMinBits: u16, encryptMaxBits: u16,
    reserved: u32, softAllocations: u32, hardAllocations: u32)

  datatype CombTimes = CombTimes(
    softBytes: u64, hardBytes: u64, softAddTime: u64, hardAddTime: u64, softUseTime: u64, hardUseTime: u64)

  datatype Ext =
    | Sa(spi: u32, replay: byte, state: byte, auth: byte, encrypt: byte, flags: u32)
    | Lifetime(kind: u16, allocations: u32, bytes: u64, addTime: u64, useTime: u64)
    | Address(kind: u16, proto: byte, prefixLen: byte, sockaddr: seq<byte>)
    | Key(kind: u16, key: seq<byte>)
    | Ident(kind: u16, idType: u16, id: u64, name: seq<byte>)
    | Sens(dpd: u32, sensLevel: byte, integLevel: byte, sens: u32, integ: u32)
    | Prop(replay: byte, combs: seq<Comb>)
    | SpiRange(min: u32, max: u32)

  const EXT_SA: u16 := 1
  const EXT_LIFETIME_CURRENT: u16 := 2
  const EXT_LIFETIME_HARD: u16 := 3
  const EXT_LIFETIME_SOFT: u16 := 4
  const EXT_ADDRESS_SRC: u16 := 5
  const EXT_ADDRESS_DST: u16 := 6
  const EXT_ADDRESS_PROXY: u16 := 7
  const EXT_KEY_AUTH: u16 := 8
  const EXT_KEY_ENCRYPT: u16 := 9
  const EXT_IDENTITY_SRC: u16 := 10
  const EXT_IDENTITY_DST: u16 := 11
  const EXT_SENSITIVITY: u16 := 12
  const EXT_PROPOSAL: u16 := 13
  const EXT_SPIRANGE: u16 := 16

  /** The extension type each setter stores. */
  function KindOf(e: Ext): u16 {
    match e
    case Sa(_, _, _, _, _, _) => EXT_SA
    case Sens(_, _, _, _, _) => EXT_SENSITIVITY
    case Prop(_, _) => EXT_PROPOSAL
    case SpiRange(_, _) => EXT_SPIRANGE
    case _ => e.kind
  }

  /** Four setters take the extension type as an argument; these are the types meant for each of them. */
  predicate ProperKind(e: Ext) {
    match e
    case Lifetime(kind, _, _, _, _) => EXT_LIFETIME_CURRENT <= kind <= EXT_LIFETIME_SOFT
    case Address(kind, _, _, _) => EXT_ADDRESS_SRC <= kind <= EXT_ADDRESS_PROXY
    case Key(kind, _) => EXT_KEY_AUTH <= kind <= EXT_KEY_ENCRYPT
    case Ident(kind, _, _, _) => EXT_IDENTITY_SRC <= kind <= EXT_IDENTITY_DST
    case _ => true
  }

  // ---------------------------------------------------------------------
  // Structures in memory, without their common length and type fields,
  // and the offsets at which a receiver finds the fields
  // ---------------------------------------------------------------------

  function SaFields(
      h: Endian, spi: u32, replay: byte, state: byte, auth: byte, encrypt: byte, flags: u32): (r: seq<byte>)
    ensures |r| == 12
  {
    Put32(Big, spi) + [replay, state, auth, encrypt] + Put32(h, flags)
  }

  lemma {:induction false} SaLoads(
      h: Endian, spi: u32, replay: byte, state: byte, auth: byte, encrypt: byte, flags: u32)
    ensures var r := SaFields(h, spi, replay, state, auth, encrypt, flags);
      && Get32(Big, r[0..4]) == spi && Get32(h, r[8..12]) == flags
      && r[4] == replay && r[5] == state && r[6] == auth && r[7] == encrypt
  {
    Load32(Big, spi);
    Load32(h, flags);
    hide Put32, Get32;
    Cut3(Put32(Big, spi), [replay, state, auth, encrypt], Put32(h, flags));
  }

  function LifetimeFields(h: Endian, allocations: u32, bytes: u64, addTime: u64, useTime: u64): (r: seq<byte>)
    ensures |r| == 28
  {
    Put32(h, allocations) + Put64(h, bytes) + Put64(h, addTime) + Put64(h, useTime)
  }

  lemma {:induction false} LifetimeLoads(h: Endian, allocations: u32, bytes: u64, addTime: u64, useTime: u64)
    ensures var r := LifetimeFields(h, allocations, bytes, addTime, useTime);
      && Get32(h, r[0..4]) == allocations && Get64(h, r[4..12]) == bytes
      && Get64(h, r[12..20]) == addTime && Get64(h, r[20..28]) == useTime
  {
    hide Put32, Put64, Get32, Get64;
    Load32(h, allocations);
    Load64(h, bytes);
    Load64(h, addTime);
    Load64(h, useTime);
    Cut4(Put32(h, allocations), Put64(h, bytes), Put64(h, addTime), Put64(h, useTime));
  }

  function AddressFields(h: Endian, proto: byte, prefixLen: byte): (r: seq<byte>)
    ensures |r| == 4
  {
    [proto, prefixLen] + Put16(h, 0)
  }

  function KeyFields(h: Endian, bits: u16): (r: seq<byte>)
    ensures |r| == 4
  {
    Put16(h, bits) + Put16(h, 0)
  }

  lemma {:induction false} KeyLoads(h: Endian, bits: u16)
    ensures Get16(h, KeyFields(h, bits)[0..2]) == bits && Get16(h, KeyFields(h, bits)[2..4]) == 0
  {
    Load16(h, bits);
    Load16(h, 0);
    hide Put16, Get16;
    Cut2(Put16(h, bits), Put16(h, 0));
  }

  function IdentFields(h: Endian, idType: u16, id: u64): (r: seq<byte>)
    ensures |r| == 12
  {
    Put16(h, idType) + Put16(h, 0) + Put64(h, id)
  }

  lemma {:induction false} IdentLoads(h: Endian, idType: u16, id: u64)
    ensures var r := IdentFields(h, idType, id);
      Get16(h, r[0..2]) == idType && Get16(h, r[2..4]) == 0 && Get64(h, r[4..12]) == id
  {
    hide Put16, Put64, Get16, Get64;
    Load16(h, idType);
    Load16(h, 0);
    Load64(h, id);
    Cut3(Put16(h, idType), Put16(h, 0), Put64(h, id));
  }

  function SensFields(
      h: Endian, dpd: u32, sensLevel: byte, sensLen: byte, integLevel: byte, integLen: byte): (r: seq<byte>)
    ensures |r| == 12
  {
    Put32(h, dpd) + [sensLevel, sensLen, integLevel, integLen] + Put32(h, 0)
  }

  lemma {:induction false} SensLoads(
      h: Endian, dpd: u32, sensLevel: byte, sensLen: byte, integLevel: byte, integLen: byte)
    ensures var r := SensFields(h, dpd, sensLevel, sensLen, integLevel, integLen);
      && Get32(h, r[0..4]) == dpd
      && r[4] == sensLevel && r[5] == sensLen && r[6] == integLevel && r[7] == integLen
      && Get32(h, r[8..12]) == 0
  {
    hide Put32, Get32;
    Load32(h, dpd);
    Load32(h, 0);
    Cut3(Put32(h, dpd), [sensLevel, sensLen, integLevel, integLen], Put32(h, 0));
  }

  function PropFields(replay: byte): (r: seq<byte>)
    ensures |r| == 4
  {
    [replay, 0, 0, 0]
  }

  function SpiRangeFields(h: Endian, min: u32, max: u32): (r: seq<byte>)
    ensures |r| == 12
  {
    Put32(h, min) + Put32(h, max) + Put32(h, 0)
  }

  lemma {:induction false} SpiRangeLoads(h: Endian, min: u32, max: u32)
    ensures var r := SpiRangeFields(h, min, max);
      Get32(h, r[0..4]) == min && Get32(h, r[4..8]) == max && Get32(h, r[8..12]) == 0
  {
    hide Put32, Get32;
    Load32(h, min);
    Load32(h, max);
    Load32(h, 0);
    Cut3(Put32(h, min), Put32(h, max), Put32(h, 0));
  }

  function TagsBytes(h: Endian, auth: byte, encrypt: byte, flags: u16): (r: seq<byte>)
    ensures |r| == 4
  {
    [auth, encrypt] + Put16(h, flags)
  }

  function QuadBytes(h: Endian, x: u16, y: u16, z: u16, w: u16): (r: seq<byte>)
    ensures |r| == 8
  {
    Put16(h, x) + Put16(h, y) + Put16(h, z) + Put16(h, w)
  }

  function TripleBytes(h: Endian, x: u32, y: u32, z: u32): (r: seq<byte>)
    ensures |r| == 12
  {
    Put32(h, x) + Put32(h, y) + Put32(h, z)
  }

  function PairBytes(h: Endian, x: u64, y: u64): (r: seq<byte>)
    ensures |r| == 16
  {
    Put64(h, x) + Put64(h, y)
  }

  function LimitsBytes(h: Endian, c: CombLimits): (r: seq<byte>)
    ensures |r| == 24
  {
    TagsBytes(h, c.auth, c.encrypt, c.flags)
    + QuadBytes(h, c.authMinBits, c.authMaxBits, c.encryptMinBits, c.encryptMaxBits)
    + TripleBytes(h, c.reserved, c.softAllocations, c.hardAllocations)
  }

  function ReadLimits(h: Endian, bs: seq<byte>): CombLimits
    requires |bs| == 24
  {
    var tags, bits, rest := bs[0..4], bs[4..12], bs[12..24];
    CombLimits(tags[0], tags[1], Get16(h, tags[2..4]),
               Get16(h, bits[0..2]), Get16(h, bits[2..4]), Get16(h, bits[4..6]), Get16(h, bits[6..8]),
               Get32(h, rest[0..4]), Get32(h, rest[4..8]), Get32(h, rest[8..12]))
  }

  function TimesBytes(h: Endian, c: CombTimes): (r: seq<byte>)
    ensures |r| == 48
  {
    PairBytes(h, c.softBytes, c.hardBytes)
    + PairBytes(h, c.softAddTime, c.hardAddTime)
    + PairBytes(h, c.softUseTime, c.hardUseTime)
  }

  function ReadTimes(h: Endian, bs: seq<byte>): CombTimes
    requires |bs| == 48
  {
    var bytes, addTimes, useTimes := bs[0..16], bs[16..32], bs[32..48];
    CombTimes(Get64(h, bytes[0..8]), Get64(h, bytes[8..16]),
              Get64(h, addTimes[0..8]), Get64(h, addTimes[8..16]),
              Get64(h, useTimes[0..8]), Get64(h, useTimes[8..16]))
  }

  /** sizeof(struct sadb_comb) */
  const COMB_SIZE := 72

  function CombBytes(h: Endian, c: Comb): (r: seq<byte>)
    ensures |r| == COMB_SIZE
  {
    LimitsBytes(h, c.limits) + TimesBytes(h, c.times)
  }

  function ReadComb(h: Endian, bs: seq<byte>): Comb
    requires |bs| == COMB_SIZE
  {
    Comb(ReadLimits(h, bs[0..24]), ReadTimes(h, bs[24..72]))
  }

  lemma {:induction false} TagsLoad(h: Endian, auth: byte, encrypt: byte, flags: u16)
    ensures var r := TagsBytes(h, auth, encrypt, flags);
      r[0] == auth && r[1] == encrypt && Get16(h, r[2..4]) == flags
  {
    Load16(h, flags);
    hide Put16, Get16;
    Cut2([auth, encrypt], Put16(h, flags));
  }

  lemma {:induction false} QuadLoads(h: Endian, x: u16, y: u16, z: u16, w: u16)
    ensures var r := QuadBytes(h, x, y, z, w);
      && Get16(h, r[0..2]) == x && Get16(h, r[2..4]) == y
      && Get16(h, r[4..6]) == z && Get16(h, r[6..8]) == w
  {
    hide Put16, Get16;
    Load16(h, x);
    Load16(h, y);
    Load16(h, z);
    Load16(h, w);
    Cut4(Put16(h, x), Put16(h, y), Put16(h, z), Put16(h, w));
  }

  lemma {:induction false} TripleLoads(h: Endian, x: u32, y: u32, z: u32)
    ensures var r := TripleBytes(h, x, y, z);
      Get32(h, r[0..4]) == x && Get32(h, r[4..8]) == y && Get32(h, r[8..12]) == z
  {
    hide Put32, Get32;
    Load32(h, x);
    Load32(h, y);
    Load32(h, z);
    Cut3(Put32(h, x), Put32(h, y), Put32(h, z));
  }

  lemma {:induction false} PairLoads(h: Endian, x: u64, y: u64)
    ensures var r := PairBytes(h, x, y);
      Get64(h, r[0..8]) == x && Get64(h, r[8..16]) == y
  {
    hide Put64, Get64;
    Load64(h, x);
    Load64(h, y);
    Cut2(Put64(h, x), Put64(h, y));
  }

  lemma {:induction false} LimitsLoad(h: Endian, c: CombLimits)
    ensures ReadLimits(h, LimitsBytes(h, c)) == c
  {
    hide TagsBytes, QuadBytes, TripleBytes, Get16, Get32;
    TagsLoad(h, c.auth, c.encrypt, c.flags);
    QuadLoads(h, c.authMinBits, c.authMaxBits, c.encryptMinBits, c.encryptMaxBits);
    TripleLoads(h, c.reserved, c.softAllocations, c.hardAllocations);
    Cut3(TagsBytes(h, c.auth, c.encrypt, c.flags),
         QuadBytes(h, c.authMinBits, c.authMaxBits, c.encryptMinBits, c.encryptMaxBits),
         TripleBytes(h, c.reserved, c.softAllocations, c.hardAllocations));
  }

  lemma {:induction false} TimesLoad(h: Endian, c: CombTimes)
    ensures ReadTimes(h, TimesBytes(h, c)) == c
  {
    hide PairBytes, Get64;
    PairLoads(h, c.softBytes, c.hardBytes);
    PairLoads(h, c.softAddTime, c.hardAddTime);
    PairLoads(h, c.softUseTime, c.hardUseTime);
    Cut3(PairBytes(h, c.softBytes, c.hardBytes),
         PairBytes(h, c.softAddTime, c.hardAddTime),
         PairBytes(h, c.softUseTime, c.hardUseTime));
  }

  lemma {:induction false} CombLoads(h: Endian, c: Comb)
    ensures ReadComb(h, CombBytes(h, c)) == c
  {
    hide LimitsBytes, TimesBytes, ReadLimits, ReadTimes;
    LimitsLoad(h, c.limits);
    TimesLoad(h, c.times);
    Cut2(LimitsBytes(h, c.limits), TimesBytes(h, c.times));
  }

  function CombsBytes(h: Endian, cs: seq<Comb>): (r: seq<byte>)
    ensures |r| == COMB_SIZE * |cs|
  {
    if cs == [] then [] else CombBytes(h, cs[0]) + CombsBytes(h, cs[1..])
  }

  /** A proposal holds as many combinations as its length has room for (section 2.3.7 of RFC 2367). */
  function ReadCombs(h: Endian, bs: seq<byte>): (cs: seq<Comb>)
    ensures |cs| == |bs| / COMB_SIZE
  {
    if |bs| < COMB_SIZE then [] else [ReadComb(h, bs[..COMB_SIZE])] + ReadCombs(h, bs[COMB_SIZE..])
  }

  // ---------------------------------------------------------------------
  // What a setter stores
  // ---------------------------------------------------------------------

  /** What the build target fixes: its byte order and sizeof(m_comb), the size of a pointer. */
  datatype Platform = Platform(host: Endian, stride: PointerSize)

  /** 4 or 8 on real targets; the theorems need only that two of them fill 64-bit units. */
  type PointerSize = n: nat | n % 4 == 0 witness 4

  function FieldsSize(e: Ext): nat {
    match e
    case Lifetime(_, _, _, _, _) => 28
    case Address(_, _, _, _) => 4
    case Key(_, _) => 4
    case Prop(_, _) => 4
    case _ => 12
  }

  /** The structure that the setter fills in, after its length and type fields. */
  function Fields(h: Endian, e: Ext): (r: seq<byte>)
    ensures |r| == FieldsSize(e)
  {
    match e
    case Sa(spi, replay, state, auth, encrypt, flags) => SaFields(h, spi, replay, state, auth, encrypt, flags)
    case Lifetime(_, allocations, bytes, addTime, useTime) => LifetimeFields(h, allocations, bytes, addTime, useTime)
    case Address(_, proto, prefixLen, _) => AddressFields(h, proto, prefixLen)
    case Key(_, key) => KeyFields(h, |key| * 8 % 0x1_0000)
    case Ident(_, idType, id, _) => IdentFields(h, idType, id)
    case Sens(dpd, sensLevel, integLevel, _, _) => SensFields(h, dpd, sensLevel, Align8(4), integLevel, Align8(4))
    case Prop(replay, _) => PropFields(replay)
    case SpiRange(min, max) => SpiRangeFields(h, min, max)
  }

  /** The bytes that the setter copies after the structure. */
  function Value(h: Endian, e: Ext): (r: seq<byte>)
    ensures |r| == ValueSize(e)
  {
    hide CombsBytes, Put32;
    match e
    case Address(_, _, _, sockaddr) => sockaddr
    case Key(_, key) => key
    case Ident(_, _, _, name) => name
    case Sens(_, _, _, sens, integ) => Put32(Big, sens) + Put32(Big, integ)
    case Prop(_, combs) => CombsBytes(h, combs)
    case _ => []
  }

  function ValueSize(e: Ext): nat {
    match e
    case Address(_, _, _, sockaddr) => |sockaddr|
    case Key(_, key) => |key|
    case Ident(_, _, _, name) => |name|
    case Sens(_, _, _, _, _) => 8
    case Prop(_, combs) => COMB_SIZE * |combs|
    case _ => 0
  }

  /** The length that the setter declares, in 64-bit units. */
  function LenUnits(p: Platform, e: Ext): (units: nat)
    ensures 1 <= units
    ensures !e.Prop? ==> 4 + FieldsSize(e) + ValueSize(e) <= 8 * units
  {
    match e
    case Sa(_, _, _, _, _, _) => 2
    case Lifetime(_, _, _, _, _) => 4
    case Address(_, _, _, sockaddr) => 1 + UnitsFor(|sockaddr|)
    case Key(_, key) => 1 + UnitsFor(|key|)
    case Ident(_, _, _, name) => 2 + UnitsFor(|name|)
    case Sens(_, _, _, _, _) => 2 + UnitsFor(4) + UnitsFor(4)
    // The structure, and twice the size of a pointer to a combination
    case Prop(_, _) => 1 + p.stride / 4
    case SpiRange(_, _) => 2
  }

  /** The same in bytes, by which the setter advances m_len. */
  function Len(p: Platform, e: Ext): (len: nat)
    ensures len % 8 == 0 && 8 <= len
    ensures !e.Prop? ==> 4 + FieldsSize(e) + ValueSize(e) <= len
  {
    hide LenUnits;
    8 * LenUnits(p, e)
  }

  lemma {:induction false} LenOfPayload(p: Platform, e: Ext)
    ensures e.Address? ==> Len(p, e) == 8 + Align8(|e.sockaddr|)
    ensures e.Key? ==> Len(p, e) == 8 + Align8(|e.key|)
    ensures e.Ident? ==> Len(p, e) == 16 + Align8(|e.name|)
  {
    hide UnitsFor;
  }

  /** The setter's piece: what it copies, and the units it declares. */
  function PieceOf(p: Platform, e: Ext): (x: Piece)
    ensures 8 * x.units == Len(p, e)
    ensures |x.bytes| == 4 + FieldsSize(e) + ValueSize(e)
  {
    Piece(Header(p.host, Len(p, e) / 8, KindOf(e)) + Fields(p.host, e) + Value(p.host, e), Len(p, e) / 8)
  }

  lemma {:induction false} PieceHeaded(p: Platform, e: Ext)
    ensures Headed(p.host, PieceOf(p, e))
  {
    hide Fields, Value, KindOf, Len, FieldsSize, ValueSize, Get16;
    var header := Header(p.host, Len(p, e) / 8, KindOf(e));
    HeaderLoads(p.host, Len(p, e) / 8, KindOf(e));
    hide Header;
    assert PieceOf(p, e).bytes[0..2] == header[0..2];
  }

  // ---------------------------------------------------------------------
  // What a receiver reads
  // ---------------------------------------------------------------------

  function DecodeSa(h: Endian, body: seq<byte>): Option<Ext> {
    if |body| != 12 then None
    else Some(Sa(Get32(Big, body[0..4]), body[4], body[5], body[6], body[7], Get32(h, body[8..12])))
  }

  function DecodeLifetime(h: Endian, kind: u16, body: seq<byte>): Option<Ext> {
    if |body| != 28 then None
    else Some(Lifetime(kind, Get32(h, body[0..4]), Get64(h, body[4..12]),
                       Get64(h, body[12..20]), Get64(h, body[20..28])))
  }

  /** A socket address gives its own length in its first byte. */
  function DecodeAddress(kind: u16, fields: seq<byte>, payload: seq<byte>): Option<Ext>
    requires |fields| == 4
  {
    if payload == [] || |payload| < payload[0] then None
    else Some(Address(kind, fields[0], fields[1], payload[..payload[0]]))
  }

  /** The key is as long as its number of bits says. */
  function DecodeKey(h: Endian, kind: u16, fields: seq<byte>, payload: seq<byte>): Option<Ext>
    requires |fields| == 4
  {
    var n := Get16(h, fields[0..2]) / 8;
    if |payload| < n then None else Some(Key(kind, payload[..n]))
  }

  /** The identity is the payload without the zeros that pad it. */
  function DecodeIdent(h: Endian, kind: u16, fields: seq<byte>, payload: seq<byte>): Option<Ext>
    requires |fields| == 12
  {
    Some(Ident(kind, Get16(h, fields[0..2]), Get64(h, fields[4..12]), StripZeros(payload)))
  }

  /** Two bitmaps follow the structure, their lengths counted in 64-bit words; each starts with a 4-byte word. */
  function DecodeSens(h: Endian, fields: seq<byte>, payload: seq<byte>): Option<Ext>
    requires |fields| == 12
  {
    DecodeSensCounting(h, 8, fields, payload)
  }

  /** A receiver that takes the same two lengths for numbers of bytes. */
  function DecodeSensInBytes(h: Endian, fields: seq<byte>, payload: seq<byte>): Option<Ext>
    requires |fields| == 12
  {
    DecodeSensCounting(h, 1, fields, payload)
  }

  function DecodeSensCounting(h: Endian, unit: nat, fields: seq<byte>, payload: seq<byte>): Option<Ext>
    requires |fields| == 12
  {
    var sensLen, integLen := unit * fields[5], unit * fields[7];
    if sensLen < 4 || integLen < 4 || |payload| != sensLen + integLen then None
    else Some(Sens(Get32(h, fields[0..4]), fields[4], fields[6],
                   Get32(Big, payload[0..4]), Get32(Big, payload[sensLen..sensLen + 4])))
  }

  function DecodeProp(h: Endian, fields: seq<byte>, payload: seq<byte>): Option<Ext>
    requires |fields| == 4
  {
    Some(Prop(fields[0], ReadCombs(h, payload)))
  }

  function DecodeSpiRange(h: Endian, body: seq<byte>): Option<Ext> {
    if |body| != 12 then None
    else Some(SpiRange(Get32(h, body[0..4]), Get32(h, body[4..8])))
  }

  /** The size of the structure after the length and type fields, for the types that a payload follows. */
  function FieldsSizeOfKind(kind: u16): nat {
    if kind == EXT_IDENTITY_SRC || kind == EXT_IDENTITY_DST || kind == EXT_SENSITIVITY then 12 else 4
  }

  /** A receiver knows what an extension is by its type alone. */
  function Decode(h: Endian, raw: Raw): (r: Option<Ext>)
    ensures r.Some? ==> KindOf(r.value) == raw.kind && ProperKind(r.value)
  {
    var n := FieldsSizeOfKind(raw.kind);
    if raw.kind == EXT_SA then DecodeSa(h, raw.body)
    else if EXT_LIFETIME_CURRENT <= raw.kind <= EXT_LIFETIME_SOFT then DecodeLifetime(h, raw.kind, raw.body)
    else if raw.kind == EXT_SPIRANGE then DecodeSpiRange(h, raw.body)
    else if |raw.body| < n then None
    else
      var fields, payload := raw.body[..n], raw.body[n..];
      if EXT_ADDRESS_SRC <= raw.kind <= EXT_ADDRESS_PROXY then DecodeAddress(raw.kind, fields, payload)
      else if EXT_KEY_AUTH <= raw.kind <= EXT_KEY_ENCRYPT then DecodeKey(h, raw.kind, fields, payload)
      else if EXT_IDENTITY_SRC <= raw.kind <= EXT_IDENTITY_DST then DecodeIdent(h, raw.kind, fields, payload)
      else if raw.kind == EXT_SENSITIVITY then DecodeSens(h, fields, payload)
      else if raw.kind == EXT_PROPOSAL then DecodeProp(h, fields, payload)
      else None
  }
}
