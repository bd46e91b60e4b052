/**
 Which extensions a receiver reads back as the setter meant them, exactly.
 */
module Reading {
  import opened Bytes
  import opened Appending
  import opened Walking
  import opened Extensions

  /** The bytes of m_buf that the setter leaves as they were inside the extension. */
  function Stale(p: Platform, e: Ext, under: seq<byte>): (stale: seq<byte>)
    requires |under| == Len(p, e)
  {
    if Contained(PieceOf(p, e)) then under[|PieceOf(p, e).bytes|..] else []
  }

  /**
   The exact condition on a setter call, and on the stale bytes it leaves in the extension, under which a
   receiver reads back what the caller passed.
   */
  ghost predicate Readable(p: Platform, e: Ext, stale: seq<byte>) {
    && ProperKind(e)
    && match e
       case Sa(_, _, _, _, _, _) => true
       case Lifetime(_, _, _, _, _) => true
       case SpiRange(_, _) => true
       // The socket address must know its own length.
       case Address(_, _, _, sockaddr) => sockaddr != [] && sockaddr[0] == |sockaddr|
       // The number of bits must fit its 16-bit field.
       case Key(_, key) => |key| < 8192
       // The padding is whatever m_buf held before.
       case Ident(_, _, _, name) => AllZero(stale) && (name == [] || name[|name| - 1] != 0)
       // The lengths of its two blocks are stored in bytes, and read in 64-bit words.
       case Sens(_, _, _, _, _) => false
       // The declared length must have room for exactly the combinations copied.
       case Prop(_, combs) => p.stride * 2 / COMB_SIZE == |combs|
  }

  /** What a receiver reads of an extension appended over the given bytes. */
  function ReadOver(p: Platform, e: Ext, under: seq<byte>): Option<Ext>
    requires |under| == Len(p, e)
  {
    Decode(p.host, RawOf(p.host, PieceOf(p, e), under))
  }

  /** What the walker hands over for a contained piece: the structure, the value, the stale bytes. */
  lemma {:induction false} BodyParts(p: Platform, e: Ext, under: seq<byte>)
    requires |under| == Len(p, e)
    ensures RawOf(p.host, PieceOf(p, e), under).kind == KindOf(e)
    ensures Contained(PieceOf(p, e)) ==>
      RawOf(p.host, PieceOf(p, e), under).body == Fields(p.host, e) + (Value(p.host, e) + Stale(p, e, under))
  {
    hide Fields, Value, KindOf, Len, Get16;
    var x := PieceOf(p, e);
    var header, fields, value := Header(p.host, Len(p, e) / 8, KindOf(e)), Fields(p.host, e), Value(p.host, e);
    assert x.bytes == header + fields + value;
    HeaderLoads(p.host, Len(p, e) / 8, KindOf(e));
    hide Header, PieceOf;
    assert x.bytes[2..4] == header[2..4];
    if Contained(x) {
      BodyOfThree(header, fields, value, under);
    }
  }

  lemma {:induction false} BodyOfThree(header: seq<byte>, fields: seq<byte>, value: seq<byte>, under: seq<byte>)
    requires |header| == 4 && |header + fields + value| <= |under|
    ensures ((header + fields + value) + under[|header + fields + value|..])[4..]
         == fields + (value + under[|header + fields + value|..])
  {
  }

  // ---------------------------------------------------------------------
  // One lemma per setter
  // ---------------------------------------------------------------------

  /** The fields of a structure, loaded from their offsets, are those of the extension. */
  ghost predicate LoadsAs(h: Endian, fields: seq<byte>, e: Ext)
    requires |fields| == FieldsSize(e)
  {
    match e
    case Sa(_, _, _, _, _, _) => DecodeSa(h, fields) == Some(e)
    case Lifetime(kind, _, _, _, _) => DecodeLifetime(h, kind, fields) == Some(e)
    case SpiRange(_, _) => DecodeSpiRange(h, fields) == Some(e)
    case Address(_, proto, prefixLen, _) => fields[0] == proto && fields[1] == prefixLen
    case Key(_, key) => Get16(h, fields[0..2]) == |key| * 8 % 0x1_0000
    case Ident(_, idType, id, _) => Get16(h, fields[0..2]) == idType && Get64(h, fields[4..12]) == id
    case Sens(dpd, sensLevel, integLevel, _, _) =>
      && Get32(h, fields[0..4]) == dpd
      && fields[4] == sensLevel && fields[5] == 8 && fields[6] == integLevel && fields[7] == 8
    case Prop(replay, _) => fields[0] == replay
  }

  /** Every structure loads as it was stored. */
  lemma {:induction false} FieldsLoad(h: Endian, e: Ext)
    ensures LoadsAs(h, Fields(h, e), e)
  {
    hide Get16, Get32, Get64, KeyFields, IdentFields, SensFields, SaFields, LifetimeFields, SpiRangeFields;
    match e
    case Sa(spi, replay, state, auth, encrypt, flags) => SaLoads(h, spi, replay, state, auth, encrypt, flags);
    case Lifetime(_, allocations, bytes, addTime, useTime) => LifetimeLoads(h, allocations, bytes, addTime, useTime);
    case SpiRange(min, max) => SpiRangeLoads(h, min, max);
    case Key(_, key) => KeyLoads(h, |key| * 8 % 0x1_0000);
    case Ident(_, idType, id, _) => IdentLoads(h, idType, id);
    case Sens(dpd, sensLevel, integLevel, _, _) => SensLoads(h, dpd, sensLevel, Align8(4), integLevel, Align8(4));
    case _ =>
  }

  /** The extensions without a value: nothing can go wrong but the type. */
  lemma {:induction false} FixedExact(p: Platform, e: Ext, under: seq<byte>)
    requires e.Sa? || e.Lifetime? || e.SpiRange?
    requires ProperKind(e) && |under| == Len(p, e)
    ensures Decode(p.host, RawOf(p.host, PieceOf(p, e), under)) == Some(e)
  {
    hide Fields, RawOf, DecodeSa, DecodeLifetime, DecodeSpiRange;
    BodyParts(p, e, under);
    FieldsLoad(p.host, e);
    FixedBody(p, e, under);
  }

  lemma {:induction false} FixedBody(p: Platform, e: Ext, under: seq<byte>)
    requires e.Sa? || e.Lifetime? || e.SpiRange?
    requires |under| == Len(p, e)
    ensures RawOf(p.host, PieceOf(p, e), under).body == Fields(p.host, e)
  {
    BodyParts(p, e, under);
    hide RawOf, Fields, Header;
    assert Value(p.host, e) + Stale(p, e, under) == [];
  }

  lemma {:induction false} AddressExact(e: Ext, fields: seq<byte>, stale: seq<byte>)
    requires e.Address?
    requires |fields| == 4 && fields[0] == e.proto && fields[1] == e.prefixLen
    requires e.sockaddr == [] ==> stale == []
    ensures DecodeAddress(e.kind, fields, e.sockaddr + stale) == Some(e)
       <==> e.sockaddr != [] && e.sockaddr[0] == |e.sockaddr|
  {
    var payload := e.sockaddr + stale;
    if e.sockaddr != [] {
      assert payload[0] == e.sockaddr[0];
      assert payload[..|e.sockaddr|] == e.sockaddr;
    }
  }

  lemma {:induction false} KeyExact(h: Endian, e: Ext, fields: seq<byte>, stale: seq<byte>)
    requires e.Key?
    requires |fields| == 4 && Get16(h, fields[0..2]) == |e.key| * 8 % 0x1_0000
    ensures DecodeKey(h, e.kind, fields, e.key + stale) == Some(e) <==> |e.key| < 8192
  {
    hide Get16;
    assert Get16(h, fields[0..2]) / 8 == |e.key| % 8192;
    assert (e.key + stale)[..|e.key|] == e.key;
  }

  lemma {:induction false} IdentExact(h: Endian, e: Ext, fields: seq<byte>, stale: seq<byte>)
    requires e.Ident?
    requires |fields| == 12 && Get16(h, fields[0..2]) == e.idType && Get64(h, fields[4..12]) == e.id
    ensures DecodeIdent(h, e.kind, fields, e.name + stale) == Some(e)
       <==> AllZero(stale) && (e.name == [] || e.name[|e.name| - 1] != 0)
  {
    StripZerosExact(e.name, stale);
  }

  /** The payload as a C string: up to its first zero, or all of it. */
  function UpToNul(bs: seq<byte>): (r: seq<byte>)
    ensures r <= bs && 0 !in r
    ensures |r| < |bs| ==> bs[|r|] == 0
  {
    if bs == [] || bs[0] == 0 then [] else [bs[0]] + UpToNul(bs[1..])
  }

  /** A receiver that reads the identity as a C string needs only the first stale byte, if there is one, to be zero. */
  lemma {:induction false} IdentAsCString(name: seq<byte>, stale: seq<byte>)
    requires 0 !in name
    ensures UpToNul(name + stale) == name <==> stale == [] || stale[0] == 0
  {
    if name == [] {
      assert name + stale == stale;
    } else {
      assert (name + stale)[1..] == name[1..] + stale;
      assert name == [name[0]] + name[1..];
      IdentAsCString(name[1..], stale);
    }
  }

  /** Section 2.3.4 of RFC 2367 makes an identity a C string; None where no zero ends it. */
  function ReadCString(bs: seq<byte>): Option<seq<byte>> {
    if |UpToNul(bs)| < |bs| then Some(UpToNul(bs)) else None
  }

  lemma {:induction false} CStringExact(name: seq<byte>, stale: seq<byte>)
    requires 0 !in name
    ensures ReadCString(name + stale) == Some(name) <==> stale != [] && stale[0] == 0
    ensures stale == [] ==> ReadCString(name + stale) == None
  {
    IdentAsCString(name, stale);
    hide UpToNul;
    if stale == [] {
      assert name + stale == name;
    }
  }

  /** The content of an identity: its name and the stale bytes, of which there are none if the name fills its units. */
  lemma {:induction false} IdentContent(p: Platform, e: Ext, under: seq<byte>)
    requires e.Ident? && |under| == Len(p, e)
    ensures var raw := RawOf(p.host, PieceOf(p, e), under);
      12 <= |raw.body| && raw.body[12..] == e.name + Stale(p, e, under)
    ensures Stale(p, e, under) == [] <==> |e.name| % 8 == 0
  {
    BodyParts(p, e, under);
    LenOfPayload(p, e);
    AlignedExactly(|e.name|);
    var stale := Stale(p, e, under);
    assert |stale| == Len(p, e) - 16 - |e.name|;
    hide RawOf, PieceOf, Stale, Fields, Align8, Len;
    SplitBytes(Fields(p.host, e), e.name + stale);
  }

  /** Two blocks of 8 bytes under two lengths of 8: as numbers of 64-bit words they do not add up. */
  lemma {:induction false} SensRefused(h: Endian, fields: seq<byte>, payload: seq<byte>)
    requires |fields| == 12 && fields[5] == 8 && fields[7] == 8 && |payload| == 16
    ensures DecodeSens(h, fields, payload) == None
  {
    hide Get32;
  }

  /** As numbers of bytes they do: the first word is read where it was copied, the second from the first stale bytes. */
  lemma {:induction false} SensInBytes(h: Endian, e: Ext, fields: seq<byte>, stale: seq<byte>)
    requires e.Sens? && |fields| == 12 && |stale| == 8
    requires Get32(h, fields[0..4]) == e.dpd
    requires fields[4] == e.sensLevel && fields[5] == 8 && fields[6] == e.integLevel && fields[7] == 8
    ensures DecodeSensInBytes(h, fields, (Put32(Big, e.sens) + Put32(Big, e.integ)) + stale)
         == Some(e.(integ := Get32(Big, stale[..4])))
  {
    hide Get32, Put32;
    Load32(Big, e.sens);
    var first, second := Put32(Big, e.sens), Put32(Big, e.integ);
    var payload := first + second + stale;
    assert payload[0..4] == first;
    assert payload[8..12] == stale[..4];
  }

  lemma {:induction false} ReadCombsStep(h: Endian, head: seq<byte>, tail: seq<byte>)
    requires |head| == COMB_SIZE
    ensures ReadCombs(h, head + tail) == [ReadComb(h, head)] + ReadCombs(h, tail)
  {
    hide ReadComb;
    SplitBytes(head, tail);
  }

  lemma {:induction false} Regroup<T>(x: T, xs: seq<T>, ys: seq<T>)
    ensures [x] + (xs + ys) == ([x] + xs) + ys
  {
  }

  lemma {:induction false} ReadCombsAfter(h: Endian, cs: seq<Comb>, stale: seq<byte>)
    ensures ReadCombs(h, CombsBytes(h, cs) + stale) == cs + ReadCombs(h, stale)
    decreases cs
  {
    hide CombBytes, ReadComb, ReadCombs;
    if cs == [] {
      assert CombsBytes(h, cs) + stale == stale;
    } else {
      var head, tail := CombBytes(h, cs[0]), CombsBytes(h, cs[1..]);
      assert CombsBytes(h, cs) == head + tail;
      hide CombsBytes;
      CombLoads(h, cs[0]);
      AppendAssociative(head, tail, stale);
      ReadCombsStep(h, head, tail + stale);
      ReadCombsAfter(h, cs[1..], stale);
      Regroup(cs[0], cs[1..], ReadCombs(h, stale));
      assert cs == [cs[0]] + cs[1..];
    }
  }

  lemma {:induction false} CombsExact(h: Endian, cs: seq<Comb>, stale: seq<byte>)
    ensures ReadCombs(h, CombsBytes(h, cs) + stale) == cs <==> |stale| < COMB_SIZE
  {
    ReadCombsAfter(h, cs, stale);
    hide CombsBytes;
    var more := ReadCombs(h, stale);
    assert |cs + more| == |cs| + |more|;
    if |stale| < COMB_SIZE {
      assert cs + more == cs;
    }
  }

  lemma {:induction false} FifthByte(header: seq<byte>, fields: seq<byte>, value: seq<byte>, x: Piece, under: seq<byte>)
    requires |header| == 4 && |fields| == 4 && x.bytes == header + fields + value
    requires |under| == 8 * x.units && 1 <= x.units
    ensures Filled(x, under)[4..][0] == fields[0]
  {
    assert x.bytes[4] == fields[0];
  }

  lemma {:induction false} PropReplay(p: Platform, e: Ext, under: seq<byte>)
    requires e.Prop? && |under| == Len(p, e)
    ensures RawOf(p.host, PieceOf(p, e), under).body[0] == e.replay
  {
    hide CombsBytes, Filled, Len;
    FifthByte(Header(p.host, Len(p, e) / 8, KindOf(e)), PropFields(e.replay), CombsBytes(p.host, e.combs),
              PieceOf(p, e), under);
  }

  lemma {:induction false} PropDispatch(h: Endian, raw: Raw)
    requires raw.kind == EXT_PROPOSAL && 4 <= |raw.body|
    ensures Decode(h, raw) == Some(Prop(raw.body[0], ReadCombs(h, raw.body[4..])))
  {
    hide ReadCombs;
  }

  lemma {:induction false} PropSizes(p: Platform, e: Ext, under: seq<byte>)
    requires e.Prop? && |under| == Len(p, e)
    ensures var x, raw := PieceOf(p, e), RawOf(p.host, PieceOf(p, e), under);
      && |raw.body| == 4 + p.stride * 2
      && (Contained(x) <==> |e.combs| * COMB_SIZE <= p.stride * 2)
      && (Contained(x) ==> |Stale(p, e, under)| == p.stride * 2 - |e.combs| * COMB_SIZE)
  {
    hide Fields, Value, Filled, CombsBytes;
  }

  /** A proposal is read back whole exactly when its declared length holds its combinations and no more. */
  lemma {:induction false} PropExact(p: Platform, e: Ext, under: seq<byte>)
    requires e.Prop? && |under| == Len(p, e)
    ensures Decode(p.host, RawOf(p.host, PieceOf(p, e), under)) == Some(e)
       <==> p.stride * 2 / COMB_SIZE == |e.combs|
  {
    hide RawOf, PieceOf, CombsBytes, ReadCombs, Decode, Stale, Contained, Filled, Len;
    var x, stale := PieceOf(p, e), Stale(p, e, under);
    var raw := RawOf(p.host, x, under);
    BodyParts(p, e, under);
    PropReplay(p, e, under);
    PropSizes(p, e, under);
    PropDispatch(p.host, raw);
    if Contained(x) {
      SplitBytes(PropFields(e.replay), CombsBytes(p.host, e.combs) + stale);
      CombsExact(p.host, e.combs, stale);
    }
  }

  // ---------------------------------------------------------------------
  // All setters
  // ---------------------------------------------------------------------

  /** How a receiver takes apart an extension of the types that a payload follows. */
  lemma {:induction false} PayloadDispatch(h: Endian, raw: Raw, e: Ext, fields: seq<byte>, payload: seq<byte>)
    requires ProperKind(e) && raw.kind == KindOf(e)
    requires e.Address? || e.Key? || e.Ident? || e.Sens?
    requires |fields| == FieldsSize(e) && raw.body == fields + payload
    ensures Decode(h, raw) ==
      if e.Address? then DecodeAddress(raw.kind, fields, payload)
      else if e.Key? then DecodeKey(h, raw.kind, fields, payload)
      else if e.Ident? then DecodeIdent(h, raw.kind, fields, payload)
      else DecodeSens(h, fields, payload)
  {
    SplitBytes(fields, payload);
    hide DecodeAddress, DecodeKey, DecodeIdent, DecodeSens;
  }

  lemma {:induction false} PayloadOver(p: Platform, e: Ext, under: seq<byte>)
    requires ProperKind(e) && |under| == Len(p, e) && (e.Address? || e.Key? || e.Ident? || e.Sens?)
    ensures |Stale(p, e, under)| == Len(p, e) - 4 - FieldsSize(e) - ValueSize(e)
    ensures Stale(p, e, under) == under[4 + FieldsSize(e) + ValueSize(e)..]
    ensures var fields, payload := Fields(p.host, e), Value(p.host, e) + Stale(p, e, under);
      ReadOver(p, e, under) ==
        if e.Address? then DecodeAddress(e.kind, fields, payload)
        else if e.Key? then DecodeKey(p.host, e.kind, fields, payload)
        else if e.Ident? then DecodeIdent(p.host, e.kind, fields, payload)
        else DecodeSens(p.host, fields, payload)
  {
    BodyParts(p, e, under);
    var raw := RawOf(p.host, PieceOf(p, e), under);
    PayloadDispatch(p.host, raw, e, Fields(p.host, e), Value(p.host, e) + Stale(p, e, under));
    hide RawOf, Fields, Value, Decode, DecodeAddress, DecodeKey, DecodeIdent, DecodeSens, Len;
  }

  lemma {:induction false} PayloadExact(p: Platform, e: Ext, under: seq<byte>)
    requires ProperKind(e) && |under| == Len(p, e)
    requires e.Address? || e.Key? || e.Ident? || e.Sens?
    ensures ReadOver(p, e, under) == Some(e) <==> Readable(p, e, Stale(p, e, under))
  {
    PayloadOver(p, e, under);
    FieldsLoad(p.host, e);
    hide ReadOver, Stale, Fields, DecodeAddress, DecodeKey, DecodeIdent, DecodeSens, Put32, Get32, Get16, Get64;
    var fields, stale := Fields(p.host, e), Stale(p, e, under);
    if e.Address? {
      AddressExact(e, fields, stale);
    } else if e.Key? {
      KeyExact(p.host, e, fields, stale);
    } else if e.Ident? {
      IdentExact(p.host, e, fields, stale);
    } else {
      SensRefused(p.host, fields, Value(p.host, e) + stale);
    }
  }

  /** A receiver reads back what the caller of a setter passed exactly when the call is readable. */
  lemma {:induction false} ReadBackExactly(p: Platform, e: Ext, under: seq<byte>)
    requires |under| == Len(p, e)
    ensures Decode(p.host, RawOf(p.host, PieceOf(p, e), under)) == Some(e) <==> Readable(p, e, Stale(p, e, under))
  {
    var raw := RawOf(p.host, PieceOf(p, e), under);
    hide RawOf, PieceOf, Decode, Stale, Len, COMB_SIZE;
    if ProperKind(e) {
      match e
      case Sa(_, _, _, _, _, _) => FixedExact(p, e, under);
      case Lifetime(_, _, _, _, _) => FixedExact(p, e, under);
      case SpiRange(_, _) => FixedExact(p, e, under);
      case Prop(_, _) => PropExact(p, e, under);
      case _ => PayloadExact(p, e, under);
    } else {
      assert Decode(p.host, raw) != Some(e);
    }
  }
}
