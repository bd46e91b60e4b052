/**
 Where the addresses of a message are found in it: each end's own address, at its own place.
 */
module Endpoints {
  import opened Bytes
  import opened Appending
  import opened Extensions
  import opened Layout
  import opened Runs
  import opened Messages
  import opened Schedule
  import opened Contents
  import opened Builder
  import opened Walking

  /** The finished message holds what a setter has copied, where the cursor was. */
  lemma {:induction false} CopiedInMessage(m: KeyMessage, msgType: u32, k: nat)
    requires m.Finished(msgType) && k < |m.exts| && !m.exts[k].Prop?
    ensures var at, bs := Cursor(Pieces(m.platform, m.exts), k), PieceOf(m.platform, m.exts[k]).bytes;
      16 <= at && at + |bs| <= m.m_len <= m.m_buf.Length && m.m_buf[..][at..at + |bs|] == bs
  {
    hide Pieces, PieceOf, Cursor, Fit, Built, BaseBytes;
    CopiedStands(m.platform, m.under, m.exts, k);
    var at, bs := Cursor(Pieces(m.platform, m.exts), k), PieceOf(m.platform, m.exts[k]).bytes;
    var image := Built(m.platform, m.under, m.exts);
    assert image[16..|image|] == m.m_buf[..][16..];
    ShiftSlice(m.m_buf[..], image, 16, at, at + |bs|);
  }

  /** Address k of a finished message: its type, and the socket address. */
  lemma {:induction false} AddressInMessage(m: KeyMessage, msgType: u32, k: nat, at: nat)
    requires m.Finished(msgType) && k < |m.exts| && m.exts[k].Address?
    requires at == Cursor(Pieces(m.platform, m.exts), k)
    ensures var sockaddr := m.exts[k].sockaddr;
      && 16 <= at && at + 8 + |sockaddr| <= m.m_len <= m.m_buf.Length
      && Get16(m.platform.host, m.m_buf[at + 2..at + 4]) == m.exts[k].kind
      && m.m_buf[at + 8..at + 8 + |sockaddr|] == sockaddr
    ensures Cursor(Pieces(m.platform, m.exts), k + 1) == at + 8 + Align8(|m.exts[k].sockaddr|)
  {
    hide Pieces, PieceOf, Cursor, Align8, Len, Get16, Fit, Built, BaseBytes;
    var e := m.exts[k];
    CursorNext(m.platform, m.exts, k);
    LenOfPayload(m.platform, e);
    CopiedInMessage(m, msgType, k);
    AddressAt(m.platform, e.kind, e.proto, e.prefixLen, e.sockaddr);
    var bs := PieceOf(m.platform, e).bytes;
    SubSlice(m.m_buf[..], at, bs, 2, 4);
    SubSlice(m.m_buf[..], at, bs, 8, |bs|);
    assert m.m_buf[at + 2..at + 4] == m.m_buf[..][at + 2..at + 4];
    assert m.m_buf[at + 8..at + |bs|] == m.m_buf[..][at + 8..at + |bs|];
  }

  // ---------------------------------------------------------------------
  // The places of the two ends
  // ---------------------------------------------------------------------

  lemma {:induction false} FixedLengths(p: Platform)
    ensures Len(p, Sa(0x12345678, 4, 0, 0, 20, 0)) == 16
    ensures Len(p, Lifetime(3, 2, 0x1000, 10, 0x20)) == 32 && Len(p, Lifetime(4, 2, 0x1000, 5, 0x20)) == 32
    ensures forall es :: Cursor(Pieces(p, es), 0) == 16
  {
  }

  lemma {:induction false} UpdateStarts(resolve: Resolver, pid: Pid, src: seq<byte>, dst: seq<byte>)
    requires Resolved(Planned(resolve, pid, 2))
    requires resolve(AF_INET, "192.168.1.1", "4660") == Some(src) && resolve(AF_INET, "10.0.3.4", "4660") == Some(dst)
    ensures var es := Listed(resolve, pid, 2);
      && |es| == 10 && es[0] == Sa(0x12345678, 4, 0, 0, 20, 0)
      && es[1] == Lifetime(3, 2, 0x1000, 10, 0x20) && es[2] == Lifetime(4, 2, 0x1000, 5, 0x20)
      && es[3] == Address(5, 6, 32, src) && es[4] == Address(6, 6, 32, dst)
  {
    hide Planned, Listed, StrBytes;
    UpdateContents(resolve, pid, src, dst);
  }

  lemma {:induction false} UpdatePlaces(p: Platform, resolve: Resolver, pid: Pid, src: seq<byte>, dst: seq<byte>)
    requires Resolved(Planned(resolve, pid, 2))
    requires resolve(AF_INET, "192.168.1.1", "4660") == Some(src) && resolve(AF_INET, "10.0.3.4", "4660") == Some(dst)
    ensures var es := Listed(resolve, pid, 2);
      && |es| == 10 && es[3] == Address(5, 6, 32, src) && es[4] == Address(6, 6, 32, dst)
      && Cursor(Pieces(p, es), 3) == 96
  {
    hide Planned, Listed, Len, Pieces, Cursor;
    UpdateStarts(resolve, pid, src, dst);
    FixedLengths(p);
    var es := Listed(resolve, pid, 2);
    CursorNext(p, es, 0);
    CursorNext(p, es, 1);
    CursorNext(p, es, 2);
  }

  lemma {:induction false} AddStarts(resolve: Resolver, pid: Pid, src: seq<byte>, dst: seq<byte>, proxy: seq<byte>)
    requires Resolved(Planned(resolve, pid, 3))
    requires resolve(AF_INET, "192.168.1.1", "4660") == Some(src) && resolve(AF_INET, "10.0.3.4", "4660") == Some(dst)
    requires resolve(AF_INET6, "3ffe::1", "0") == Some(proxy)
    ensures var es := Listed(resolve, pid, 3);
      && |es| == 11 && es[0] == Address(7, 0, 128, proxy) && es[1] == Sa(0x12345678, 4, 0, 0, 20, 0)
      && es[2] == Lifetime(3, 2, 0x1000, 10, 0x20) && es[3] == Lifetime(4, 2, 0x1000, 5, 0x20)
      && es[4] == Address(5, 6, 32, src) && es[5] == Address(6, 6, 32, dst)
  {
    hide Planned, Listed, StrBytes;
    ResolvedExactly(resolve, pid, 2);
    UpdateStarts(resolve, pid, src, dst);
    AddContents(resolve, pid, proxy);
  }

  lemma {:induction false} FifthCursor(p: Platform, es: seq<Ext>, proxy: seq<byte>)
    requires 4 <= |es| && es[0] == Address(7, 0, 128, proxy) && es[1] == Sa(0x12345678, 4, 0, 0, 20, 0)
    requires es[2] == Lifetime(3, 2, 0x1000, 10, 0x20) && es[3] == Lifetime(4, 2, 0x1000, 5, 0x20)
    ensures Cursor(Pieces(p, es), 4) == 104 + Align8(|proxy|)
  {
    hide Len, Pieces, Cursor, Align8;
    FixedLengths(p);
    LenOfPayload(p, es[0]);
    CursorNext(p, es, 0);
    CursorNext(p, es, 1);
    CursorNext(p, es, 2);
    CursorNext(p, es, 3);
  }

  lemma {:induction false} GetPlaces(
      p: Platform, resolve: Resolver, pid: Pid, msgType: u32, src: seq<byte>, dst: seq<byte>, proxy: seq<byte>)
    requires msgType in {4, 5} && Resolved(Planned(resolve, pid, msgType))
    requires resolve(AF_INET, "192.168.1.1", "4660") == Some(src) && resolve(AF_INET, "10.0.3.4", "4660") == Some(dst)
    requires resolve(AF_INET6, "3ffe::1", "0") == Some(proxy)
    ensures var es := Listed(resolve, pid, msgType);
      && |es| == 4 && es[1] == Address(5, 6, 32, src) && es[2] == Address(6, 6, 32, dst)
      && es[3] == Address(7, 0, 128, proxy)
      && Cursor(Pieces(p, es), 1) == 32
  {
    hide Planned, Listed, Len, Pieces, Cursor;
    GetContents(resolve, pid, msgType, src, dst, proxy);
    FixedLengths(p);
    CursorNext(p, Listed(resolve, pid, msgType), 0);
  }

  lemma {:induction false} FirstPlaces(
      p: Platform, resolve: Resolver, pid: Pid, msgType: u32, src: seq<byte>, dst: seq<byte>)
    requires msgType in {6, 14, 15} && Resolved(Planned(resolve, pid, msgType))
    requires resolve(AF_INET, "192.168.1.1", "4660") == Some(src) && resolve(AF_INET, "10.0.3.4", "4660") == Some(dst)
    ensures var es := Listed(resolve, pid, msgType);
      && 2 <= |es| && es[0] == Address(5, 6, 32, src) && es[1] == Address(6, 6, 32, dst)
      && Cursor(Pieces(p, es), 0) == 16
  {
    hide Planned, Listed, Pieces, StrBytes;
    if msgType == 6 {
      ResolvedExactly(resolve, pid, 6);
      AcquireContents(resolve, pid, src, dst, resolve(AF_INET6, "3ffe::1", "0").value);
    } else {
      SpdContents(resolve, pid, msgType, src, dst);
    }
  }

  /** Two addresses one after the other, the first at a known place. */
  ghost predicate TwoAddresses(p: Platform, es: seq<Ext>, at: nat, src: seq<byte>, dst: seq<byte>) {
    exists k :: 0 <= k < |es| - 1 && es[k] == Address(5, 6, 32, src) && es[k + 1] == Address(6, 6, 32, dst)
             && Cursor(Pieces(p, es), k) == at
  }

  lemma {:induction false} PlannedEndpoints(
      p: Platform, resolve: Resolver, pid: Pid, msgType: u32, src: seq<byte>, dst: seq<byte>, at: nat)
    requires msgType in {2, 3, 4, 5, 6, 14, 15} && Resolved(Planned(resolve, pid, msgType))
    requires resolve(AF_INET, "192.168.1.1", "4660") == Some(src) && resolve(AF_INET, "10.0.3.4", "4660") == Some(dst)
    requires if msgType == 3 then
               resolve(AF_INET6, "3ffe::1", "0").Some? && at == 104 + Align8(|resolve(AF_INET6, "3ffe::1", "0").value|)
             else at == if msgType == 2 then 96 else if msgType in {4, 5} then 32 else 16
    ensures TwoAddresses(p, Listed(resolve, pid, msgType), at, src, dst)
  {
    hide Planned, Listed, Cursor, Pieces, Align8;
    ResolvedExactly(resolve, pid, msgType);
    var es := Listed(resolve, pid, msgType);
    if msgType == 2 {
      UpdatePlaces(p, resolve, pid, src, dst);
      assert 0 <= 3 < |es| - 1 && es[3] == Address(5, 6, 32, src) && es[3 + 1] == Address(6, 6, 32, dst);
    } else if msgType == 3 {
      AddStarts(resolve, pid, src, dst, resolve(AF_INET6, "3ffe::1", "0").value);
      FifthCursor(p, es, resolve(AF_INET6, "3ffe::1", "0").value);
      assert 0 <= 4 < |es| - 1 && es[4] == Address(5, 6, 32, src) && es[4 + 1] == Address(6, 6, 32, dst);
    } else if msgType in {4, 5} {
      GetPlaces(p, resolve, pid, msgType, src, dst, resolve(AF_INET6, "3ffe::1", "0").value);
      assert 0 <= 1 < |es| - 1 && es[1] == Address(5, 6, 32, src) && es[1 + 1] == Address(6, 6, 32, dst);
    } else {
      FirstPlaces(p, resolve, pid, msgType, src, dst);
      assert 0 <= 0 < |es| - 1 && es[0] == Address(5, 6, 32, src) && es[0 + 1] == Address(6, 6, 32, dst);
    }
  }

  lemma {:induction false} GetSpiEndpoints(p: Platform, resolve: Resolver, pid: Pid, src: seq<byte>, dst: seq<byte>)
    requires Resolved(Planned(resolve, pid, 1))
    requires resolve(AF_INET, "10.0.3.4", "4660") == Some(src) && resolve(AF_INET, "127.0.0.1", "4660") == Some(dst)
    ensures TwoAddresses(p, Listed(resolve, pid, 1), 16, src, dst)
  {
    hide Planned, Listed, Pieces;
    GetSpiContents(resolve, pid, src, dst);
    var es := Listed(resolve, pid, 1);
    assert 0 <= 0 < |es| - 1 && es[0] == Address(5, 6, 32, src) && es[0 + 1] == Address(6, 6, 32, dst);
  }

  /**
   Each end's own address at its own place: the source first, under type 5, then the destination, under type 6,
   right after the source's padding.
   */
  ghost predicate EndsAt(h: Endian, bs: seq<byte>, at: nat, src: seq<byte>, dst: seq<byte>) {
    var next := at + 8 + Align8(|src|);
    && next + 8 + |dst| <= |bs|
    && Get16(h, bs[at + 2..at + 4]) == 5 && bs[at + 8..at + 8 + |src|] == src
    && Get16(h, bs[next + 2..next + 4]) == 6 && bs[next + 8..next + 8 + |dst|] == dst
  }

  lemma {:induction false} AddressesOnWire(m: KeyMessage, msgType: u32, at: nat, src: seq<byte>, dst: seq<byte>)
    requires m.Finished(msgType) && TwoAddresses(m.platform, m.exts, at, src, dst)
    ensures m.m_len <= m.m_buf.Length && EndsAt(m.platform.host, m.m_buf[..m.m_len], at, src, dst)
  {
    hide Pieces, Cursor, Align8, Get16, Fit, Built, BaseBytes, Len;
    var k :| 0 <= k < |m.exts| - 1 && m.exts[k] == Address(5, 6, 32, src) && m.exts[k + 1] == Address(6, 6, 32, dst)
             && Cursor(Pieces(m.platform, m.exts), k) == at;
    var next := at + 8 + Align8(|src|);
    AddressInMessage(m, msgType, k, at);
    AddressInMessage(m, msgType, k + 1, next);
    var bs := m.m_buf[..m.m_len];
    assert bs[at + 2..at + 4] == m.m_buf[at + 2..at + 4] && bs[next + 2..next + 4] == m.m_buf[next + 2..next + 4];
    assert bs[at + 8..at + 8 + |src|] == m.m_buf[at + 8..at + 8 + |src|];
    assert bs[next + 8..next + 8 + |dst|] == m.m_buf[next + 8..next + 8 + |dst|];
  }
}
