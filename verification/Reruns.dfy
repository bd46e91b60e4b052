/**
 testp may run more than once, and m_buf is never cleared between runs: what earlier contents of the buffer
 can and cannot do to a message.
 */
module Reruns {
  import opened Bytes
  import opened Appending
  import opened Walking
  import opened Extensions
  import opened Reading
  import opened Runs
  import opened Schedule
  import opened FirstRun

  /**
   Two builds of one message over any two buffers agree at every byte that a setter copies; they can differ
   only in the stale bytes between what it copies and what it declares.
   */
  lemma {:induction false} CopiedBytesIndependent(
      p: Platform, buf: seq<byte>, other: seq<byte>, es: seq<Ext>, k: nat, i: nat)
    requires Fit(p, |buf|, es) && Fit(p, |other|, es) && k < |es|
    requires i < Len(p, es[k]) && i < |PieceOf(p, es[k]).bytes|
    ensures Cursor(Pieces(p, es), k) + i < MLen(p, es) <= |buf| && MLen(p, es) <= |other|
    ensures Built(p, buf, es)[Cursor(Pieces(p, es), k) + i] == PieceOf(p, es[k]).bytes[i]
    ensures Built(p, other, es)[Cursor(Pieces(p, es), k) + i] == PieceOf(p, es[k]).bytes[i]
  {
    CopiedByte(p, buf, es, k, i);
    CopiedByte(p, other, es, k, i);
  }

  lemma {:induction false} CopiedByte(p: Platform, buf: seq<byte>, es: seq<Ext>, k: nat, i: nat)
    requires Fit(p, |buf|, es) && k < |es|
    requires i < Len(p, es[k]) && i < |PieceOf(p, es[k]).bytes|
    ensures Cursor(Pieces(p, es), k) + i < MLen(p, es) <= |buf|
    ensures Built(p, buf, es)[Cursor(Pieces(p, es), k) + i] == PieceOf(p, es[k]).bytes[i]
  {
    hide Pieces, PieceOf, Headed, Len, Image, Under, Filled, Fits, Cursor;
    var xs := Pieces(p, es);
    RegionIsFilled(buf, xs, k);
    var at, end := Cursor(xs, k), Cursor(xs, k) + 8 * xs[k].units;
    FilledByte(xs[k], Under(buf, xs, k), i);
    assert Image(buf, xs, |xs|)[at..end][i] == Image(buf, xs, |xs|)[at + i];
  }

  lemma {:induction false} FilledByte(x: Piece, under: seq<byte>, i: nat)
    requires |under| == 8 * x.units && i < 8 * x.units && i < |x.bytes|
    ensures Filled(x, under)[i] == x.bytes[i]
  {
  }

  // ---------------------------------------------------------------------
  // The same message again
  // ---------------------------------------------------------------------

  /** Storing a new base header and building the same message again leaves every byte after it as it was. */
  lemma {:induction false} SameMessageAgain(p: Platform, buf: seq<byte>, again: seq<byte>, es: seq<Ext>, i: nat)
    requires Fit(p, |buf|, es)
    requires |again| == |buf| && BASE <= i < |buf|
    requires again[BASE..] == Built(p, buf, es)[BASE..]
    ensures Built(p, again, es)[i] == Built(p, buf, es)[i]
  {
    hide Pieces, Image, Fits, Reached;
    ReachedOrUntouched(again, buf, Pieces(p, es), |es|, i);
    assert again[BASE..][i - BASE] == Built(p, buf, es)[BASE..][i - BASE];
  }

  // ---------------------------------------------------------------------
  // Which setter calls hide what was there before
  // ---------------------------------------------------------------------

  /** It is the same over any bytes. */
  ghost predicate ReadsAlike(p: Platform, e: Ext) {
    forall under, other {:trigger ReadOver(p, e, under), ReadOver(p, e, other)} ::
      |under| == Len(p, e) && |other| == Len(p, e) ==> ReadOver(p, e, under) == ReadOver(p, e, other)
  }

  /** The setter calls whose padding no receiver takes for content. */
  predicate HidesStale(p: Platform, e: Ext) {
    match e
    // The name must fill its 64-bit units.
    case Ident(_, _, _, name) => |name| % 8 == 0
    // The address must not claim bytes of its padding; if it claims more, it is refused.
    case Address(_, _, _, sockaddr) => sockaddr == [] || sockaddr[0] <= |sockaddr| || Align8(|sockaddr|) < sockaddr[0]
    // The length declared must not have room for one more combination.
    case Prop(_, combs) => p.stride * 2 < COMB_SIZE * (|combs| + 1)
    case _ => true
  }

  lemma {:induction false} PropOver(p: Platform, e: Ext, under: seq<byte>)
    requires e.Prop? && |under| == Len(p, e) && |e.combs| * COMB_SIZE <= p.stride * 2
    ensures Stale(p, e, under) == under[8 + COMB_SIZE * |e.combs|..]
    ensures ReadOver(p, e, under) == Some(Prop(e.replay, e.combs + ReadCombs(p.host, Stale(p, e, under))))
  {
    hide RawOf, PieceOf, CombsBytes, ReadCombs, Decode, Filled, Len;
    var stale, raw := Stale(p, e, under), RawOf(p.host, PieceOf(p, e), under);
    CopiedSize(p, e);
    BodyParts(p, e, under);
    PropReplay(p, e, under);
    PropSizes(p, e, under);
    PropDispatch(p.host, raw);
    SplitBytes(PropFields(e.replay), CombsBytes(p.host, e.combs) + stale);
    ReadCombsAfter(p.host, e.combs, stale);
  }

  /** A proposal that fills its length leaves nothing of what was there. */
  lemma {:induction false} OverrunHides(p: Platform, e: Ext, under: seq<byte>, other: seq<byte>)
    requires e.Prop? && |under| == Len(p, e) == |other| && p.stride * 2 < |e.combs| * COMB_SIZE
    ensures ReadOver(p, e, under) == ReadOver(p, e, other)
  {
    PropSizes(p, e, under);
    hide PieceOf, Decode, Len, COMB_SIZE;
    assert Filled(PieceOf(p, e), under) == Filled(PieceOf(p, e), other);
  }

  lemma {:induction false} AddressHides(
      kind: u16, fields: seq<byte>, sockaddr: seq<byte>, stale: seq<byte>, other: seq<byte>)
    requires |fields| == 4 && |stale| == |other|
    requires if sockaddr == [] then stale == [] else sockaddr[0] <= |sockaddr| || |sockaddr| + |stale| < sockaddr[0]
    ensures DecodeAddress(kind, fields, sockaddr + stale) == DecodeAddress(kind, fields, sockaddr + other)
  {
    if sockaddr != [] && sockaddr[0] <= |sockaddr| {
      assert (sockaddr + stale)[..sockaddr[0]] == sockaddr[..sockaddr[0]] == (sockaddr + other)[..sockaddr[0]];
    }
  }

  lemma {:induction false} KeyHides(
      h: Endian, kind: u16, fields: seq<byte>, key: seq<byte>, stale: seq<byte>, other: seq<byte>)
    requires |fields| == 4 && |stale| == |other| && Get16(h, fields[0..2]) == |key| * 8 % 0x1_0000
    ensures DecodeKey(h, kind, fields, key + stale) == DecodeKey(h, kind, fields, key + other)
  {
    hide Get16;
    var n := Get16(h, fields[0..2]) / 8;
    assert n == |key| % 8192 <= |key|;
    assert (key + stale)[..n] == key[..n] == (key + other)[..n];
  }

  lemma {:induction false} HiddenIsAlike(p: Platform, e: Ext, under: seq<byte>, other: seq<byte>)
    requires ProperKind(e) && HidesStale(p, e) && |under| == Len(p, e) == |other|
    ensures ReadOver(p, e, under) == ReadOver(p, e, other)
  {
    hide RawOf, Decode, DecodeAddress, DecodeKey, DecodeIdent, DecodeSens, Fields, PieceOf, ReadCombs, CombsBytes,
         Stale;
    match e
    case Sa(_, _, _, _, _, _) => FixedExact(p, e, under); FixedExact(p, e, other);
    case Lifetime(_, _, _, _, _) => FixedExact(p, e, under); FixedExact(p, e, other);
    case SpiRange(_, _) => FixedExact(p, e, under); FixedExact(p, e, other);
    case Prop(_, combs) =>
      if |combs| * COMB_SIZE <= p.stride * 2 {
        PropOver(p, e, under);
        PropOver(p, e, other);
      } else {
        OverrunHides(p, e, under, other);
      }
    case _ =>
      PayloadOver(p, e, under);
      PayloadOver(p, e, other);
      PayloadHides(p, e, Stale(p, e, under), Stale(p, e, other));
  }

  lemma {:induction false} PayloadHides(p: Platform, e: Ext, stale: seq<byte>, other: seq<byte>)
    requires HidesStale(p, e) && (e.Address? || e.Key? || e.Ident? || e.Sens?)
    requires |stale| == |other| == Len(p, e) - 4 - FieldsSize(e) - ValueSize(e)
    ensures var h, fields, value := p.host, Fields(p.host, e), Value(p.host, e);
      var payload, payload' := value + stale, value + other;
      if e.Address? then DecodeAddress(e.kind, fields, payload) == DecodeAddress(e.kind, fields, payload')
      else if e.Key? then DecodeKey(h, e.kind, fields, payload) == DecodeKey(h, e.kind, fields, payload')
      else if e.Ident? then DecodeIdent(h, e.kind, fields, payload) == DecodeIdent(h, e.kind, fields, payload')
      else DecodeSens(h, fields, payload) == DecodeSens(h, fields, payload')
  {
    hide DecodeAddress, DecodeKey, DecodeIdent, DecodeSens, Fields;
    FieldsLoad(p.host, e);
    var fields := Fields(p.host, e);
    if e.Address? {
      AddressHides(e.kind, fields, e.sockaddr, stale, other);
    } else if e.Key? {
      KeyHides(p.host, e.kind, fields, e.key, stale, other);
    } else if e.Ident? {
      assert stale == [] == other;
    } else {
      SensRefused(p.host, fields, Value(p.host, e) + stale);
      SensRefused(p.host, fields, Value(p.host, e) + other);
    }
  }

  function Ones(n: nat): (r: seq<byte>)
    ensures |r| == n && forall i :: 0 <= i < n ==> r[i] == 1
  {
    seq(n, _ => 1)
  }

  lemma {:induction false} FirstAuth(h: Endian, bs: seq<byte>)
    requires COMB_SIZE <= |bs|
    ensures |ReadCombs(h, bs)| > 0 && ReadCombs(h, bs)[0].limits.auth == bs[0]
  {
    hide Get16, Get32, ReadTimes;
    assert ReadCombs(h, bs)[0] == ReadComb(h, bs[..COMB_SIZE]);
  }

  lemma {:induction false} CombsDiffer(h: Endian, combs: seq<Comb>, n: nat)
    requires COMB_SIZE <= n
    ensures combs + ReadCombs(h, Zeros(n)) != combs + ReadCombs(h, Ones(n))
  {
    FirstAuth(h, Zeros(n));
    FirstAuth(h, Ones(n));
    hide ReadCombs;
    assert (combs + ReadCombs(h, Zeros(n)))[|combs|] != (combs + ReadCombs(h, Ones(n)))[|combs|];
  }

  lemma {:induction false} NamesDiffer(name: seq<byte>, n: nat)
    requires 1 <= n
    ensures StripZeros(name + Zeros(n)) != StripZeros(name + Ones(n))
  {
    var bs, r := name + Zeros(n), StripZeros(name + Zeros(n));
    assert |r| > |name| ==> r[|r| - 1] == bs[|r| - 1] == Zeros(n)[|r| - 1 - |name|];
    assert StripZeros(name + Ones(n)) == name + Ones(n);
  }

  lemma {:induction false} AddressesDiffer(kind: u16, fields: seq<byte>, sockaddr: seq<byte>, n: nat)
    requires |fields| == 4 && sockaddr != [] && |sockaddr| < sockaddr[0] <= |sockaddr| + n
    ensures DecodeAddress(kind, fields, sockaddr + Zeros(n)) != DecodeAddress(kind, fields, sockaddr + Ones(n))
  {
    var b := sockaddr[0];
    assert (sockaddr + Zeros(n))[..b][|sockaddr|] == 0 && (sockaddr + Ones(n))[..b][|sockaddr|] == 1;
  }

  lemma {:induction false} ZerosAndOnes(n: nat, at: nat)
    requires at <= n
    ensures Zeros(n)[at..] == Zeros(n - at) && Ones(n)[at..] == Ones(n - at)
  {
  }

  lemma {:induction false} PropShows(p: Platform, e: Ext)
    requires e.Prop? && !HidesStale(p, e)
    ensures ReadOver(p, e, Zeros(Len(p, e))) != ReadOver(p, e, Ones(Len(p, e)))
  {
    hide ReadOver, ReadCombs, Stale;
    var n, at := 8 + p.stride * 2, 8 + COMB_SIZE * |e.combs|;
    PropOver(p, e, Zeros(n));
    PropOver(p, e, Ones(n));
    ZerosAndOnes(n, at);
    CombsDiffer(p.host, e.combs, n - at);
  }

  lemma {:induction false} PayloadShows(p: Platform, e: Ext)
    requires ProperKind(e) && (e.Ident? || e.Address?) && !HidesStale(p, e)
    ensures ReadOver(p, e, Zeros(Len(p, e))) != ReadOver(p, e, Ones(Len(p, e)))
  {
    hide Len, Align8, ReadOver, Fields, Stale, StripZeros, DecodeAddress;
    var n, at := Len(p, e), 4 + FieldsSize(e) + ValueSize(e);
    LenOfPayload(p, e);
    PayloadOver(p, e, Zeros(n));
    PayloadOver(p, e, Ones(n));
    ZerosAndOnes(n, at);
    if e.Ident? {
      AlignedExactly(|e.name|);
      NamesDiffer(e.name, n - at);
    } else {
      AddressesDiffer(e.kind, Fields(p.host, e), e.sockaddr, n - at);
    }
  }

  lemma {:induction false} OnlyPayloadsShow(p: Platform, e: Ext)
    requires !HidesStale(p, e)
    ensures e.Prop? || e.Ident? || e.Address?
  {
  }

  /** What was in the buffer before shows in what a receiver reads exactly when the setter call does not hide it. */
  lemma {:induction false} ReadsAlikeExactly(p: Platform, e: Ext)
    requires ProperKind(e)
    ensures ReadsAlike(p, e) <==> HidesStale(p, e)
  {
    hide ReadOver, HidesStale, ProperKind, Len;
    if HidesStale(p, e) {
      forall under, other | |under| == Len(p, e) && |other| == Len(p, e)
        ensures ReadOver(p, e, under) == ReadOver(p, e, other)
      {
        HiddenIsAlike(p, e, under, other);
      }
    } else if e.Prop? {
      PropShows(p, e);
    } else {
      OnlyPayloadsShow(p, e);
      PayloadShows(p, e);
    }
  }

  /** Over any two buffers a receiver reads the same of such an extension, whatever comes before and after it. */
  lemma {:induction false} ReadAlike(p: Platform, buf: seq<byte>, other: seq<byte>, es: seq<Ext>, k: nat)
    requires Fit(p, |buf|, es) && Fit(p, |other|, es) && k < |es|
    requires ProperKind(es[k]) && HidesStale(p, es[k])
    ensures Decode(p.host, Found(p, buf, es)[k]) == Decode(p.host, Found(p, other, es)[k])
  {
    hide Found, Decode, Fits, RawOf, PieceOf, Under, HidesStale, ProperKind, Len, Pieces;
    FoundReads(p, buf, es, k);
    FoundReads(p, other, es, k);
    HiddenIsAlike(p, es[k], Under(buf, Pieces(p, es), k), Under(other, Pieces(p, es), k));
  }

  // ---------------------------------------------------------------------
  // Another message: SADB_ADD, then SADB_UPDATE
  // ---------------------------------------------------------------------

  /** Addresses as a BSD stack sizes them: sockaddr_in has 16 bytes, sockaddr_in6 has 28. */
  ghost predicate BsdSizes(resolve: Resolver) {
    && SourceExt(resolve).Some? && |SourceExt(resolve).value.sockaddr| == 16
    && DestinationExt(resolve).Some? && |DestinationExt(resolve).value.sockaddr| == 16
    && ProxyExt(resolve).Some? && |ProxyExt(resolve).value.sockaddr| == 28
  }

  lemma {:induction false} PlacesInUpdate(p: Platform, resolve: Resolver, pid: Pid)
    requires BsdSizes(resolve) && Resolved(Planned(resolve, pid, SADB_UPDATE))
    ensures var es := Listed(resolve, pid, SADB_UPDATE);
      && |es| == 10
      && es[7] == IdentExt(pid, EXT_IDENTITY_SRC, SRC_IDENTITY)
      && Cursor(Pieces(p, es), 7) == 184
  {
    hide Pieces, Cursor, StrBytes, PROP_EXT, SENS_EXT;
    var es := Listed(resolve, pid, SADB_UPDATE);
    SixLengths(p, es);
    CursorNext(p, es, 6);
  }

  lemma {:induction false} PlacesInAdd(p: Platform, resolve: Resolver, pid: Pid)
    requires BsdSizes(resolve) && Resolved(Planned(resolve, pid, SADB_ADD))
    ensures var es := Listed(resolve, pid, SADB_ADD);
      && |es| == 11
      && es[7] == KeyExt(EXT_KEY_ENCRYPT, ENCRYPT_KEY)
      && Cursor(Pieces(p, es), 7) == 208
  {
    hide Pieces, Cursor, StrBytes, PROP_EXT, SENS_EXT;
    var es := Listed(resolve, pid, SADB_ADD);
    SixLengths(p, es);
    CursorNext(p, es, 6);
  }

  /** Where the source identity of an update ends, an added message has left the bytes of its encryption key. */
  lemma {:induction false} KeyUnderIdentity(
      p: Platform, resolve: Resolver, pid: Pid, buf: seq<byte>, again: seq<byte>, i: nat)
    requires BsdSizes(resolve) && i < 7
    requires Resolved(Planned(resolve, pid, SADB_ADD)) && Resolved(Planned(resolve, pid, SADB_UPDATE))
    requires Fit(p, |buf|, Listed(resolve, pid, SADB_ADD))
    requires |again| == |buf| && again[BASE..] == Built(p, buf, Listed(resolve, pid, SADB_ADD))[BASE..]
    ensures 217 + i < |again|
    ensures again[217 + i] == StrBytes(ENCRYPT_KEY)[1 + i]
  {
    hide Planned, BsdSizes, Pieces, Cursor, Image, Fit, Built, MLen, StrBytes;
    var es := Listed(resolve, pid, SADB_ADD);
    PlacesInAdd(p, resolve, pid);
    KeyPieceByte(p, EXT_KEY_ENCRYPT, ENCRYPT_KEY, 1 + i);
    CopiedByte(p, buf, es, 7, 9 + i);
    assert again[BASE..][201 + i] == Built(p, buf, es)[BASE..][201 + i];
  }

  lemma {:induction false} KeyPieceByte(p: Platform, ext: u32, str: CString, i: nat)
    requires i < |str|
    ensures 8 + i < |PieceOf(p, KeyExt(ext, str)).bytes| && 8 + i < Len(p, KeyExt(ext, str))
    ensures PieceOf(p, KeyExt(ext, str)).bytes[8 + i] == StrBytes(str)[i]
  {
    hide Header, KeyFields, StrBytes;
  }

  /** The stale bytes in the source identity of the update are the last seven of the encryption key. */
  lemma {:induction false} StaleInUpdate(p: Platform, resolve: Resolver, pid: Pid, buf: seq<byte>, again: seq<byte>)
    requires BsdSizes(resolve)
    requires Resolved(Planned(resolve, pid, SADB_ADD)) && Resolved(Planned(resolve, pid, SADB_UPDATE))
    requires Fit(p, |buf|, Listed(resolve, pid, SADB_ADD)) && Fit(p, |buf|, Listed(resolve, pid, SADB_UPDATE))
    requires |again| == |buf| && again[BASE..] == Built(p, buf, Listed(resolve, pid, SADB_ADD))[BASE..]
    ensures |Listed(resolve, pid, SADB_UPDATE)| == 10
    ensures StaleAt(p, again, Listed(resolve, pid, SADB_UPDATE), 7) == StrBytes(ENCRYPT_KEY)[1..]
  {
    hide BsdSizes, Pieces, Cursor, Fit, Built, MLen, StrBytes, PieceOf, Headed, Planned, Clear, ClearBefore, Stale;
    var es := Listed(resolve, pid, SADB_UPDATE);
    var xs := Pieces(p, es);
    PlacesInUpdate(p, resolve, pid);
    PlannedIsClear(p, resolve, pid, SADB_UPDATE, 7);
    ClearPieces(p, es, 7);
    assert Fits(|again|, xs) by { FitIsFits(p, |again|, es); }
    UnderIsStale(again, xs, 7);
    IdentStale(p, es[7], Under(again, xs, 7));
    var stale, key := StaleAt(p, again, es, 7), StrBytes(ENCRYPT_KEY);
    assert xs[7] == PieceOf(p, es[7]);
    hide Under;
    forall i | 0 <= i < 7
      ensures stale[i] == key[1..][i]
    {
      KeyUnderIdentity(p, resolve, pid, buf, again, i);
      assert stale[i] == again[217 + i];
    }
  }

  lemma {:induction false} FitIsFits(p: Platform, n: nat, es: seq<Ext>)
    requires Fit(p, n, es)
    ensures Fits(n, Pieces(p, es))
  {
  }

  /** An identity of 17 bytes: 33 bytes copied, 40 declared. */
  lemma {:induction false} IdentStale(p: Platform, e: Ext, under: seq<byte>)
    requires e.Ident? && |e.name| == 17 && |under| == Len(p, e)
    ensures |under| == 40 && Stale(p, e, under) == under[33..]
  {
    hide IdentFields, Header;
  }

  /** An identity over stale bytes that do not end in zero is read with all of them at its end. */
  lemma {:induction false} IdentReads(p: Platform, e: Ext, under: seq<byte>)
    requires e.Ident? && ProperKind(e) && |under| == Len(p, e)
    requires Stale(p, e, under) != [] && Stale(p, e, under)[|Stale(p, e, under)| - 1] != 0
    ensures Decode(p.host, RawOf(p.host, PieceOf(p, e), under)) == Some(e.(name := e.name + Stale(p, e, under)))
  {
    PayloadOver(p, e, under);
    FieldsLoad(p.host, e);
    hide RawOf, PieceOf, Decode, Stale, Fields, Get16, Get64, StripZeros;
    var stale := Stale(p, e, under);
    assert StripZeros(e.name + stale) == e.name + stale;
  }

  /**
   Padding is not cleared, and it shows: after a message of type SADB_ADD, whatever the buffer held before, the
   source identity of a message of type SADB_UPDATE is read with the end of the encryption key behind it.
   */
  lemma {:induction false} UpdateAfterAdd(p: Platform, resolve: Resolver, pid: Pid, buf: seq<byte>, again: seq<byte>)
    requires BsdSizes(resolve)
    requires Resolved(Planned(resolve, pid, SADB_ADD)) && Resolved(Planned(resolve, pid, SADB_UPDATE))
    requires Fit(p, |buf|, Listed(resolve, pid, SADB_ADD)) && Fit(p, |buf|, Listed(resolve, pid, SADB_UPDATE))
    requires |again| == |buf| && again[BASE..] == Built(p, buf, Listed(resolve, pid, SADB_ADD))[BASE..]
    ensures var es := Listed(resolve, pid, SADB_UPDATE);
      && |es| == 10
      && es[7] == Ident(EXT_IDENTITY_SRC, SADB_IDENTTYPE_USERFQDN, pid, StrBytes(SRC_IDENTITY))
      && Decode(p.host, Found(p, again, es)[7])
           == Some(Ident(EXT_IDENTITY_SRC, SADB_IDENTTYPE_USERFQDN, pid, StrBytes(SRC_IDENTITY) + StrBytes(KEY_END)))
  {
    hide BsdSizes, Pieces, Fits, Built, PieceOf, Planned, Under, Found, Decode, RawOf, Stale, StrBytes;
    var es := Listed(resolve, pid, SADB_UPDATE);
    PlacesInUpdate(p, resolve, pid);
    StaleInUpdate(p, resolve, pid, buf, again);
    KeyEnd();
    FoundReads(p, again, es, 7);
    IdentReads(p, es[7], Under(again, Pieces(p, es), 7));
  }

  const KEY_END: CString := "2345678"

  lemma {:induction false} KeyEnd()
    ensures StrBytes(ENCRYPT_KEY)[1..] == StrBytes(KEY_END)
    ensures StrBytes(ENCRYPT_KEY)[1..][6] != 0
  {
  }
}
