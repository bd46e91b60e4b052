/**
 The bytes that each setter copies, field by field at its offset, whatever functions have put them together.
 */
module Layout {
  import opened Bytes
  import opened Walking
  import opened Extensions

  lemma {:induction false} PartsOfPiece(p: Platform, e: Ext)
    ensures var bs := PieceOf(p, e).bytes;
      && Get16(p.host, bs[0..2]) == Len(p, e) / 8 % 0x1_0000
      && Get16(p.host, bs[2..4]) == KindOf(e)
      && bs[4..4 + FieldsSize(e)] == Fields(p.host, e)
      && bs[4 + FieldsSize(e)..] == Value(p.host, e)
  {
    hide Fields, Value, KindOf, FieldsSize, ValueSize, Len, Get16;
    var header, fields, value := Header(p.host, Len(p, e) / 8, KindOf(e)), Fields(p.host, e), Value(p.host, e);
    HeaderLoads(p.host, Len(p, e) / 8, KindOf(e));
    Cut3(header, fields, value);
    assert PieceOf(p, e).bytes == header + fields + value;
    hide Header, PieceOf;
    assert (header + fields + value)[0..2] == header[0..2];
    assert (header + fields + value)[2..4] == header[2..4];
    assert (header + fields + value)[4 + |fields|..] == value;
  }

  /** struct sadb_sa */
  lemma {:induction false} SaAt(p: Platform, spi: u32, replay: byte, state: byte, auth: byte, encrypt: byte, flags: u32)
    ensures var bs := PieceOf(p, Sa(spi, replay, state, auth, encrypt, flags)).bytes;
      && |bs| == 16
      && Get16(p.host, bs[0..2]) == 2 && Get16(p.host, bs[2..4]) == 1
      && Get32(Big, bs[4..8]) == spi
      && bs[8] == replay && bs[9] == state && bs[10] == auth && bs[11] == encrypt
      && Get32(p.host, bs[12..16]) == flags
  {
    var e := Sa(spi, replay, state, auth, encrypt, flags);
    PartsOfPiece(p, e);
    SaLoads(p.host, spi, replay, state, auth, encrypt, flags);
    var bs, fields := PieceOf(p, e).bytes, SaFields(p.host, spi, replay, state, auth, encrypt, flags);
    hide PieceOf, SaFields, Get16, Get32;
    SubSlice(bs, 4, fields, 0, 4);
    SubSlice(bs, 4, fields, 8, 12);
    SubByte(bs, 4, fields, 4);
    SubByte(bs, 4, fields, 5);
    SubByte(bs, 4, fields, 6);
    SubByte(bs, 4, fields, 7);
  }

  lemma {:induction false} SubByte(bs: seq<byte>, off: nat, part: seq<byte>, i: nat)
    requires off + |part| <= |bs| && bs[off..off + |part|] == part && i < |part|
    ensures bs[off + i] == part[i]
  {
  }

  /** struct sadb_lifetime */
  lemma {:induction false} LifetimeAt(p: Platform, kind: u16, allocations: u32, bytes: u64, addTime: u64, useTime: u64)
    ensures var bs := PieceOf(p, Lifetime(kind, allocations, bytes, addTime, useTime)).bytes;
      && |bs| == 32
      && Get16(p.host, bs[0..2]) == 4 && Get16(p.host, bs[2..4]) == kind
      && Get32(p.host, bs[4..8]) == allocations && Get64(p.host, bs[8..16]) == bytes
      && Get64(p.host, bs[16..24]) == addTime && Get64(p.host, bs[24..32]) == useTime
  {
    var e := Lifetime(kind, allocations, bytes, addTime, useTime);
    PartsOfPiece(p, e);
    LifetimeLoads(p.host, allocations, bytes, addTime, useTime);
    var bs, fields := PieceOf(p, e).bytes, LifetimeFields(p.host, allocations, bytes, addTime, useTime);
    hide PieceOf, LifetimeFields, Get16, Get32, Get64;
    SubSlice(bs, 4, fields, 0, 4);
    SubSlice(bs, 4, fields, 4, 12);
    SubSlice(bs, 4, fields, 12, 20);
    SubSlice(bs, 4, fields, 20, 28);
  }

  /** struct sadb_spirange */
  lemma {:induction false} SpiRangeAt(p: Platform, min: u32, max: u32)
    ensures var bs := PieceOf(p, SpiRange(min, max)).bytes;
      && |bs| == 16
      && Get16(p.host, bs[0..2]) == 2 && Get16(p.host, bs[2..4]) == 16
      && Get32(p.host, bs[4..8]) == min && Get32(p.host, bs[8..12]) == max && Get32(p.host, bs[12..16]) == 0
  {
    var e := SpiRange(min, max);
    PartsOfPiece(p, e);
    SpiRangeLoads(p.host, min, max);
    var bs, fields := PieceOf(p, e).bytes, SpiRangeFields(p.host, min, max);
    hide PieceOf, SpiRangeFields, Get16, Get32;
    SubSlice(bs, 4, fields, 0, 4);
    SubSlice(bs, 4, fields, 4, 8);
    SubSlice(bs, 4, fields, 8, 12);
  }

  /** struct sadb_key, and the key */
  lemma {:induction false} KeyAt(p: Platform, kind: u16, key: seq<byte>)
    ensures var bs := PieceOf(p, Key(kind, key)).bytes;
      && |bs| == 8 + |key|
      && Get16(p.host, bs[0..2]) == (8 + Align8(|key|)) / 8 % 0x1_0000 && Get16(p.host, bs[2..4]) == kind
      && Get16(p.host, bs[4..6]) == |key| * 8 % 0x1_0000 && Get16(p.host, bs[6..8]) == 0
      && bs[8..] == key
  {
    var e := Key(kind, key);
    PartsOfPiece(p, e);
    LenOfPayload(p, e);
    KeyLoads(p.host, |key| * 8 % 0x1_0000);
    var bs, fields := PieceOf(p, e).bytes, KeyFields(p.host, |key| * 8 % 0x1_0000);
    hide PieceOf, KeyFields, Get16, Len, Align8;
    SubSlice(bs, 4, fields, 0, 2);
    SubSlice(bs, 4, fields, 2, 4);
  }

  /** struct sadb_ident, and the name */
  lemma {:induction false} IdentAt(p: Platform, kind: u16, idType: u16, id: u64, name: seq<byte>)
    ensures var bs := PieceOf(p, Ident(kind, idType, id, name)).bytes;
      && |bs| == 16 + |name|
      && Get16(p.host, bs[0..2]) == (16 + Align8(|name|)) / 8 % 0x1_0000 && Get16(p.host, bs[2..4]) == kind
      && Get16(p.host, bs[4..6]) == idType && Get16(p.host, bs[6..8]) == 0 && Get64(p.host, bs[8..16]) == id
      && bs[16..] == name
  {
    var e := Ident(kind, idType, id, name);
    PartsOfPiece(p, e);
    LenOfPayload(p, e);
    IdentLoads(p.host, idType, id);
    var bs, fields := PieceOf(p, e).bytes, IdentFields(p.host, idType, id);
    hide PieceOf, IdentFields, Get16, Get64, Len, Align8;
    SubSlice(bs, 4, fields, 0, 2);
    SubSlice(bs, 4, fields, 2, 4);
    SubSlice(bs, 4, fields, 4, 12);
  }

  /** struct sadb_address, and the socket address */
  lemma {:induction false} AddressAt(p: Platform, kind: u16, proto: byte, prefixLen: byte, sockaddr: seq<byte>)
    ensures var bs := PieceOf(p, Address(kind, proto, prefixLen, sockaddr)).bytes;
      && |bs| == 8 + |sockaddr|
      && Get16(p.host, bs[0..2]) == (8 + Align8(|sockaddr|)) / 8 % 0x1_0000 && Get16(p.host, bs[2..4]) == kind
      && bs[4] == proto && bs[5] == prefixLen && Get16(p.host, bs[6..8]) == 0
      && bs[8..] == sockaddr
  {
    var e := Address(kind, proto, prefixLen, sockaddr);
    PartsOfPiece(p, e);
    LenOfPayload(p, e);
    Load16(p.host, 0);
    var bs, fields := PieceOf(p, e).bytes, AddressFields(p.host, proto, prefixLen);
    assert fields[2..4] == Put16(p.host, 0);
    hide PieceOf, Get16, Put16, Len, Align8;
    SubByte(bs, 4, fields, 0);
    SubByte(bs, 4, fields, 1);
    SubSlice(bs, 4, fields, 2, 4);
  }

  lemma {:induction false} SensParts(p: Platform, e: Ext)
    requires e.Sens?
    ensures var bs := PieceOf(p, e).bytes;
      && |bs| == 24
      && Get16(p.host, bs[0..2]) == 4 && Get16(p.host, bs[2..4]) == 12
      && bs[4..16] == SensFields(p.host, e.dpd, e.sensLevel, 8, e.integLevel, 8)
      && bs[16..24] == Value(p.host, e)
  {
    SensSizes(p, e);
    PartsOfPiece(p, e);
    hide PieceOf, SensFields, Value, Get16, Len, Align8;
  }

  lemma {:induction false} SensStructAt(h: Endian, bs: seq<byte>, fields: seq<byte>, e: Ext)
    requires e.Sens? && |bs| == 24 && |fields| == 12 && bs[4..16] == fields
    requires fields == SensFields(h, e.dpd, e.sensLevel, 8, e.integLevel, 8)
    ensures Get32(h, bs[4..8]) == e.dpd && Get32(h, bs[12..16]) == 0
    ensures bs[8] == e.sensLevel && bs[9] == 8 && bs[10] == e.integLevel && bs[11] == 8
  {
    SensLoads(h, e.dpd, e.sensLevel, 8, e.integLevel, 8);
    hide *;
    SubSlice(bs, 4, fields, 0, 4);
    SubSlice(bs, 4, fields, 8, 12);
    SubByte(bs, 4, fields, 4);
    SubByte(bs, 4, fields, 5);
    SubByte(bs, 4, fields, 6);
    SubByte(bs, 4, fields, 7);
  }

  lemma {:induction false} SensWordsAt(h: Endian, bs: seq<byte>, value: seq<byte>, e: Ext)
    requires e.Sens? && |bs| == 24 && |value| == 8 && bs[16..24] == value && value == Value(h, e)
    ensures Get32(Big, bs[16..20]) == e.sens && Get32(Big, bs[20..24]) == e.integ
  {
    SensValue(h, e);
    hide *;
    SubSlice(bs, 16, value, 0, 4);
    SubSlice(bs, 16, value, 4, 8);
  }

  /** struct sadb_sens, and the two words, in network order one right after the other */
  lemma {:induction false} SensAt(p: Platform, dpd: u32, sensLevel: byte, integLevel: byte, sens: u32, integ: u32)
    ensures var bs := PieceOf(p, Sens(dpd, sensLevel, integLevel, sens, integ)).bytes;
      && |bs| == 24
      && Get16(p.host, bs[0..2]) == 4 && Get16(p.host, bs[2..4]) == 12
      && Get32(p.host, bs[4..8]) == dpd
      && bs[8] == sensLevel && bs[9] == 8 && bs[10] == integLevel && bs[11] == 8
      && Get32(p.host, bs[12..16]) == 0
      && Get32(Big, bs[16..20]) == sens && Get32(Big, bs[20..24]) == integ
  {
    var e := Sens(dpd, sensLevel, integLevel, sens, integ);
    hide PieceOf, Get16, Get32;
    SensParts(p, e);
    hide SensFields, Value;
    SensStructAt(p.host, PieceOf(p, e).bytes, SensFields(p.host, dpd, sensLevel, 8, integLevel, 8), e);
    SensWordsAt(p.host, PieceOf(p, e).bytes, Value(p.host, e), e);
  }

  lemma {:induction false} SensSizes(p: Platform, e: Ext)
    requires e.Sens?
    ensures Align8(4) == 8 && Len(p, e) == 32 && |PieceOf(p, e).bytes| == 24
  {
    hide Fields, Value, Header;
  }

  lemma {:induction false} SensValue(h: Endian, e: Ext)
    requires e.Sens?
    ensures Get32(Big, Value(h, e)[0..4]) == e.sens && Get32(Big, Value(h, e)[4..8]) == e.integ
  {
    hide Put32, Get32;
    Load32(Big, e.sens);
    Load32(Big, e.integ);
    Cut2(Put32(Big, e.sens), Put32(Big, e.integ));
  }

  /** struct sadb_prop, and the combinations */
  lemma {:induction false} PropAt(p: Platform, replay: byte, combs: seq<Comb>)
    ensures var bs := PieceOf(p, Prop(replay, combs)).bytes;
      && |bs| == 8 + COMB_SIZE * |combs|
      && Get16(p.host, bs[0..2]) == (8 + p.stride * 2) / 8 % 0x1_0000 && Get16(p.host, bs[2..4]) == 13
      && bs[4] == replay && bs[5] == 0 && bs[6] == 0 && bs[7] == 0
      && bs[8..] == CombsBytes(p.host, combs)
  {
    var e := Prop(replay, combs);
    PartsOfPiece(p, e);
    var bs, fields := PieceOf(p, e).bytes, PropFields(replay);
    hide PieceOf, Get16, CombsBytes;
    SubByte(bs, 4, fields, 0);
    SubByte(bs, 4, fields, 1);
    SubByte(bs, 4, fields, 2);
    SubByte(bs, 4, fields, 3);
  }

  /** The first twelve bytes of struct sadb_comb */
  lemma {:induction false} LimitsAt(h: Endian, c: CombLimits, bs: seq<byte>)
    requires |bs| == 24 && bs == LimitsBytes(h, c)
    ensures bs[0] == c.auth && bs[1] == c.encrypt && Get16(h, bs[2..4]) == c.flags
    ensures Get16(h, bs[4..6]) == c.authMinBits && Get16(h, bs[6..8]) == c.authMaxBits
    ensures Get16(h, bs[8..10]) == c.encryptMinBits && Get16(h, bs[10..12]) == c.encryptMaxBits
  {
    var tags := TagsBytes(h, c.auth, c.encrypt, c.flags);
    var quad := QuadBytes(h, c.authMinBits, c.authMaxBits, c.encryptMinBits, c.encryptMaxBits);
    var triple := TripleBytes(h, c.reserved, c.softAllocations, c.hardAllocations);
    TagsLoad(h, c.auth, c.encrypt, c.flags);
    QuadLoads(h, c.authMinBits, c.authMaxBits, c.encryptMinBits, c.encryptMaxBits);
    Cut3(tags, quad, triple);
    hide TagsBytes, QuadBytes, TripleBytes, Get16;
    assert bs[0..4] == tags && bs[4..12] == quad;
    hide LimitsBytes;
    SubByte(bs, 0, tags, 0);
    SubByte(bs, 0, tags, 1);
    SubSlice(bs, 0, tags, 2, 4);
    SubSlice(bs, 4, quad, 0, 2);
    SubSlice(bs, 4, quad, 2, 4);
    SubSlice(bs, 4, quad, 4, 6);
    SubSlice(bs, 4, quad, 6, 8);
  }

  lemma {:induction false} ZeroWords(h: Endian)
    ensures Put32(h, 0) == [0, 0, 0, 0] && Put64(h, 0) == [0, 0, 0, 0, 0, 0, 0, 0]
  {
  }

  lemma {:induction false} NoTimes(h: Endian)
    ensures TimesBytes(h, CombTimes(0, 0, 0, 0, 0, 0)) == Zeros(48)
  {
    ZeroWords(h);
    hide Put64;
  }

  lemma {:induction false} NoAllocations(h: Endian, c: CombLimits)
    requires c.reserved == 0 && c.softAllocations == 0 && c.hardAllocations == 0
    ensures LimitsBytes(h, c)[12..24] == Zeros(12)
  {
    ZeroWords(h);
    hide Put32, TagsBytes, QuadBytes;
    assert TripleBytes(h, 0, 0, 0) == Zeros(12);
    Cut3(TagsBytes(h, c.auth, c.encrypt, c.flags),
         QuadBytes(h, c.authMinBits, c.authMaxBits, c.encryptMinBits, c.encryptMaxBits), TripleBytes(h, 0, 0, 0));
  }

  /** struct sadb_comb, where nothing but algorithms and numbers of bits is set */
  ghost predicate IsComb(
      h: Endian, bs: seq<byte>, auth: byte, encrypt: byte, authMin: u16, authMax: u16, encryptMin: u16, encryptMax: u16)
  {
    && |bs| == 72
    && bs[0] == auth && bs[1] == encrypt && Get16(h, bs[2..4]) == 0
    && Get16(h, bs[4..6]) == authMin && Get16(h, bs[6..8]) == authMax
    && Get16(h, bs[8..10]) == encryptMin && Get16(h, bs[10..12]) == encryptMax
    && forall i :: 12 <= i < 72 ==> bs[i] == 0
  }

  lemma {:induction false} CombParts(h: Endian, c: CombLimits, bs: seq<byte>)
    requires c.reserved == 0 && c.softAllocations == 0 && c.hardAllocations == 0
    requires |bs| == 72 && bs == CombBytes(h, Comb(c, CombTimes(0, 0, 0, 0, 0, 0)))
    ensures bs[0..24] == LimitsBytes(h, c)
    ensures forall i :: 12 <= i < 72 ==> bs[i] == 0
  {
    var limits := LimitsBytes(h, c);
    NoTimes(h);
    NoAllocations(h, c);
    hide LimitsBytes, TimesBytes;
    assert bs == limits + Zeros(48);
    SplitBytes(limits, Zeros(48));
    forall i | 12 <= i < 72
      ensures bs[i] == 0
    {
      if i < 24 {
        assert limits[12..24][i - 12] == 0;
      }
    }
  }

  lemma {:induction false} CombAt(h: Endian, c: CombLimits, bs: seq<byte>)
    requires c.flags == 0 && c.reserved == 0 && c.softAllocations == 0 && c.hardAllocations == 0
    requires |bs| == 72 && bs == CombBytes(h, Comb(c, CombTimes(0, 0, 0, 0, 0, 0)))
    ensures IsComb(h, bs, c.auth, c.encrypt, c.authMinBits, c.authMaxBits, c.encryptMinBits, c.encryptMaxBits)
  {
    hide LimitsBytes, CombBytes, Get16;
    var limits := LimitsBytes(h, c);
    CombParts(h, c, bs);
    LimitsAt(h, c, limits);
    SubSlice(bs, 0, limits, 2, 4);
    SubSlice(bs, 0, limits, 4, 6);
    SubSlice(bs, 0, limits, 6, 8);
    SubSlice(bs, 0, limits, 8, 10);
    SubSlice(bs, 0, limits, 10, 12);
    SubByte(bs, 0, limits, 0);
    SubByte(bs, 0, limits, 1);
  }
}
