/**
 testp called again, whatever it was called for before: m_buf holds what earlier messages have left in it, and only
 the identities let any of that through to a receiver.
 */
module LaterMessages {
  import opened Bytes
  import opened Appending
  import opened Walking
  import opened Extensions
  import opened Reading
  import opened Runs
  import opened Messages
  import opened Schedule
  import opened Builder
  import opened Guarantees
  import opened FirstRun
  import opened Capacity
  import opened Endpoints

  // ---------------------------------------------------------------------
  // The padding of an identity
  // ---------------------------------------------------------------------

  lemma {:induction false} PaddingInside(p: Platform, n: nat, es: seq<Ext>, k: nat)
    requires Fit(p, n, es) && k < |es| && es[k].Ident?
    ensures Cursor(Pieces(p, es), k) + 16 + |es[k].name| <= Cursor(Pieces(p, es), k) + Len(p, es[k]) <= n
  {
    hide Pieces, PieceOf, Cursor, Fits, Align8, Len;
    LenOfPayload(p, es[k]);
    CursorNext(p, es, k);
    CursorInside(n, Pieces(p, es), k + 1);
  }

  /** What the buffer held where identity k is padded. */
  function Padding(p: Platform, buf: seq<byte>, es: seq<Ext>, k: nat): seq<byte>
    requires Fit(p, |buf|, es) && k < |es| && es[k].Ident?
  {
    PaddingInside(p, |buf|, es, k);
    var at := Cursor(Pieces(p, es), k);
    buf[at + 16 + |es[k].name|..at + Len(p, es[k])]
  }

  lemma {:induction false} StaleIsPadding(p: Platform, buf: seq<byte>, es: seq<Ext>, k: nat)
    requires Fit(p, |buf|, es) && k < |es| && es[k].Ident? && ClearBefore(p, es, k)
    ensures StaleAt(p, buf, es, k) == Padding(p, buf, es, k)
  {
    hide Pieces, PieceOf, Headed, Clear, ClearBefore, Cursor, Under, Len, Stale;
    var xs := Pieces(p, es);
    ClearPieces(p, es, k);
    UnderIsStale(buf, xs, k);
    assert xs[k] == PieceOf(p, es[k]);
    IdentTail(p, es[k], Under(buf, xs, k));
    PaddingInside(p, |buf|, es, k);
    var at := Cursor(xs, k);
    TailOfSlice(buf, at, at + Len(p, es[k]), 16 + |es[k].name|);
  }

  lemma {:induction false} IdentTail(p: Platform, e: Ext, under: seq<byte>)
    requires e.Ident? && |under| == Len(p, e)
    ensures 16 + |e.name| <= |under| && Stale(p, e, under) == under[16 + |e.name|..]
  {
    hide Fields, Value, Header, Len;
  }

  lemma {:induction false} TailOfSlice(buf: seq<byte>, lo: nat, hi: nat, n: nat)
    requires lo + n <= hi <= |buf|
    ensures buf[lo..hi][n..] == buf[lo + n..hi]
  {
  }

  /** Buffers that differ in the base header only have the same padding. */
  lemma {:induction false} SamePadding(p: Platform, buf: seq<byte>, other: seq<byte>, es: seq<Ext>, k: nat)
    requires Fit(p, |buf|, es) && k < |es| && es[k].Ident?
    requires |buf| == |other| && BASE <= |buf| && buf[BASE..] == other[BASE..]
    ensures Padding(p, buf, es, k) == Padding(p, other, es, k)
  {
    hide Pieces, Cursor, Fit, Len;
    PaddingInside(p, |buf|, es, k);
    var at := Cursor(Pieces(p, es), k);
    ShiftSlice(buf, other, BASE, at + 16 + |es[k].name|, at + Len(p, es[k]));
  }

  // ---------------------------------------------------------------------
  // One extension
  // ---------------------------------------------------------------------

  /** What a receiver makes of a planned extension: of all but identities, always the same. */
  ghost predicate ReadOverPadding(h: Endian, raw: Raw, e: Ext, padding: seq<byte>) {
    match e
    case Sens(_, _, _, _, _) => Decode(h, raw) == None
    case Prop(replay, _) => Decode(h, raw) == Some(Prop(replay, []))
    case Ident(kind, idType, id, name) =>
      && Decode(h, raw) == Some(Ident(kind, idType, id, StripZeros(name + padding)))
      && (Decode(h, raw) == Some(e) <==> AllZero(padding))
    case _ => Decode(h, raw) == Some(e)
  }

  lemma {:induction false} IdentOver(p: Platform, e: Ext, under: seq<byte>)
    requires e.Ident? && FreshReadable(p, e) && |under| == Len(p, e)
    ensures ReadOverPadding(p.host, RawOf(p.host, PieceOf(p, e), under), e, Stale(p, e, under))
  {
    PayloadOver(p, e, under);
    FieldsLoad(p.host, e);
    StripZerosExact(e.name, Stale(p, e, under));
    hide RawOf, PieceOf, Decode, Stale, Fields, Get16, Get64, StripZeros, AllZero;
  }

  /** Everything else is read back over any bytes if it is over zeros. */
  lemma {:induction false} OthersOver(p: Platform, e: Ext, under: seq<byte>)
    requires FreshReadable(p, e) && !e.Ident? && |under| == Len(p, e)
    ensures Decode(p.host, RawOf(p.host, PieceOf(p, e), under)) == Some(e)
  {
    ReadBackExactly(p, e, under);
    hide RawOf, PieceOf, Decode, Stale, Len;
  }

  lemma {:induction false} PlannedOver(p: Platform, e: Ext, under: seq<byte>)
    requires p.stride * 2 < COMB_SIZE && |under| == Len(p, e)
    requires FreshReadable(p, e) <==> !e.Sens? && !e.Prop?
    ensures ReadOverPadding(p.host, RawOf(p.host, PieceOf(p, e), under), e, Stale(p, e, under))
  {
    hide RawOf, PieceOf, Decode, Stale, Len, FreshReadable;
    if e.Sens? {
      SensReads(p, e, under);
    } else if e.Prop? {
      PropReadsEmpty(p, e, under);
    } else if e.Ident? {
      IdentOver(p, e, under);
    } else {
      OthersOver(p, e, under);
    }
  }

  // ---------------------------------------------------------------------
  // Whole messages
  // ---------------------------------------------------------------------

  /** The padding of identities; no other planned extension depends on what it is copied over. */
  function PaddingAt(p: Platform, buf: seq<byte>, es: seq<Ext>, k: nat): seq<byte>
    requires Fit(p, |buf|, es) && k < |es|
  {
    if es[k].Ident? then Padding(p, buf, es, k) else []
  }

  /** The listed extensions, found in order under their types, each read as over the padding that buf left it. */
  ghost predicate ReceivedOver(p: Platform, raws: seq<Raw>, es: seq<Ext>, buf: seq<byte>)
    requires Fit(p, |buf|, es)
  {
    && |raws| == |es|
    && forall k {:trigger es[k]} :: 0 <= k < |es| ==>
         raws[k].kind == KindOf(es[k]) && ReadOverPadding(p.host, raws[k], es[k], PaddingAt(p, buf, es, k))
  }

  lemma {:induction false} FoundOverPadding(
      p: Platform, resolve: Resolver, pid: Pid, msgType: u32, buf: seq<byte>, k: nat)
    requires p.stride * 2 < COMB_SIZE && BsdResolver(resolve)
    requires Resolved(Planned(resolve, pid, msgType))
    requires var es := Listed(resolve, pid, msgType); Fit(p, |buf|, es) && k < |es|
    ensures var es := Listed(resolve, pid, msgType);
      ReadOverPadding(p.host, Found(p, buf, es)[k], es[k], PaddingAt(p, buf, es, k))
  {
    hide Planned, FreshReadable, BsdResolver, Fits, Found, RawOf, PieceOf, Under, Stale, Decode, Padding, Len,
         ClearBefore, Pieces;
    var es := Listed(resolve, pid, msgType);
    AllWellPlanned(p, resolve, pid, msgType, k);
    FoundReads(p, buf, es, k);
    PlannedOver(p, es[k], Under(buf, Pieces(p, es), k));
    if es[k].Ident? {
      PlannedIsClear(p, resolve, pid, msgType, k);
      StaleIsPadding(p, buf, es, k);
    }
  }

  lemma {:induction false} FoundOver(
      p: Platform, resolve: Resolver, pid: Pid, msgType: u32, buf: seq<byte>, was: seq<byte>)
    requires p.stride * 2 < COMB_SIZE && BsdResolver(resolve)
    requires Resolved(Planned(resolve, pid, msgType))
    requires Fit(p, |buf|, Listed(resolve, pid, msgType))
    requires |buf| == |was| && BASE <= |buf| && buf[BASE..] == was[BASE..]
    ensures ReceivedOver(p, Found(p, buf, Listed(resolve, pid, msgType)), Listed(resolve, pid, msgType), was)
  {
    hide Planned, Listed, BsdResolver, Fit, Found, ReadOverPadding, KindOf, Padding;
    var es := Listed(resolve, pid, msgType);
    forall k | 0 <= k < |es|
      ensures Found(p, buf, es)[k].kind == KindOf(es[k])
      ensures ReadOverPadding(p.host, Found(p, buf, es)[k], es[k], PaddingAt(p, was, es, k))
    {
      FoundExactly(p, buf, es, k);
      FoundOverPadding(p, resolve, pid, msgType, buf, k);
      if es[k].Ident? {
        SamePadding(p, buf, was, es, k);
      }
    }
  }

  lemma {:induction false} LaterReceived(
      p: Platform, resolve: Resolver, pid: Pid, msgType: u32, bs: seq<byte>, buf: seq<byte>, was: seq<byte>)
    requires p.stride * 2 < COMB_SIZE && BsdResolver(resolve)
    requires Resolved(Planned(resolve, pid, msgType))
    requires var es := Listed(resolve, pid, msgType); Fit(p, |buf|, es) && Sent(p, bs, buf, es)
    requires bs[..BASE] == BaseBytes(p.host, BaseOf(msgType, |bs| / 8, pid))
    requires |buf| == |was| && BASE <= |buf| && buf[BASE..] == was[BASE..]
    ensures Receive(p.host, bs).Some?
    ensures var got := Receive(p.host, bs).value;
      && got.base == BaseOf(msgType, |bs| / 8, pid) && 8 * got.base.units == |bs|
      && ReceivedOver(p, got.raws, Listed(resolve, pid, msgType), was)
  {
    hide *;
    var es := Listed(resolve, pid, msgType);
    PlansAreShort(p, resolve, pid, msgType);
    SentLength(p, bs, buf, es);
    MLenAligned(p, es);
    UnitsExact(|bs|);
    MessageReceived(p, bs, buf, es, msgType, pid);
    BaseFields(msgType, |bs| / 8, pid);
    FoundOver(p, resolve, pid, msgType, buf, was);
  }

  /**
   rtems_bsd_command_testp, with m_buf as any earlier calls have left it: the bytes that it passes to send, or none
   if it exits.
   */
  method TestPAgain(m: KeyMessage, msgType: u32) returns (exited: bool, sent: seq<byte>)
    requires RoomForPlan(m.platform, m.m_buf.Length, Planned(m.resolve, m.pid, msgType))
    modifies m, m.m_buf
    ensures exited <==> !Resolved(Planned(m.resolve, m.pid, msgType))
    ensures exited ==> sent == []
    ensures !exited && msgType == 1 ==>
      var src, dst := m.resolve(AF_INET, "10.0.3.4", "4660"), m.resolve(AF_INET, "127.0.0.1", "4660");
      && src.Some? && dst.Some?
      && EndsAt(m.platform.host, sent, 16, src.value, dst.value)
    ensures !exited && msgType in {2, 3, 4, 5, 6, 14, 15} ==>
      var src, dst := m.resolve(AF_INET, "192.168.1.1", "4660"), m.resolve(AF_INET, "10.0.3.4", "4660");
      var proxy := m.resolve(AF_INET6, "3ffe::1", "0");
      && src.Some? && dst.Some? && (msgType == 3 ==> proxy.Some?)
      && EndsAt(m.platform.host, sent,
                if msgType == 2 then 96 else if msgType == 3 then 104 + Align8(|proxy.value|)
                else if msgType in {4, 5} then 32 else 16,
                src.value, dst.value)
    ensures !exited && m.platform.stride * 2 < COMB_SIZE && BsdResolver(m.resolve) ==>
      && Fit(m.platform, m.m_buf.Length, Listed(m.resolve, m.pid, msgType))
      && Receive(m.platform.host, sent).Some?
    ensures !exited && m.platform.stride * 2 < COMB_SIZE && BsdResolver(m.resolve) ==>
      var got := Receive(m.platform.host, sent).value;
      && got.base.version == 2 && got.base.msgType == msgType % 0x100 && got.base.errno == 0 && got.base.satype == 3
      && 8 * got.base.units == |sent| && got.base.reserved == 0 && got.base.seqNo == 0 && got.base.pid == m.pid
      && ReceivedOver(m.platform, got.raws, Listed(m.resolve, m.pid, msgType), old(m.m_buf[..]))
  {
    hide Planned, RoomForPlan, BsdResolver, Receive, ReceivedOver, BaseOf, Listed, Fit, MLen, EndsAt, TwoAddresses,
         Align8, BaseBytes, Built, Get16, Get32;
    ghost var was := m.m_buf[..];
    exited := m.KeySetSadbMsg(msgType);
    if exited {
      return exited, [];
    }
    sent := m.m_buf[..m.m_len];
    if msgType == 1 {
      ghost var src, dst := m.resolve(AF_INET, "10.0.3.4", "4660").value, m.resolve(AF_INET, "127.0.0.1", "4660").value;
      GetSpiEndpoints(m.platform, m.resolve, m.pid, src, dst);
      AddressesOnWire(m, msgType, 16, src, dst);
    } else if msgType in {2, 3, 4, 5, 6, 14, 15} {
      ghost var src := m.resolve(AF_INET, "192.168.1.1", "4660").value;
      ghost var dst := m.resolve(AF_INET, "10.0.3.4", "4660").value;
      ghost var at := if msgType == 2 then 96
                      else if msgType == 3 then 104 + Align8(|m.resolve(AF_INET6, "3ffe::1", "0").value|)
                      else if msgType in {4, 5} then 32 else 16;
      PlannedEndpoints(m.platform, m.resolve, m.pid, msgType, src, dst, at);
      AddressesOnWire(m, msgType, at, src, dst);
    }
    if m.platform.stride * 2 < COMB_SIZE && BsdResolver(m.resolve) {
      FinishedIsSent(m, msgType);
      LaterReceived(m.platform, m.resolve, m.pid, msgType, sent, m.under, was);
      BaseFields(msgType, |sent| / 8, m.pid);
    }
  }
}
