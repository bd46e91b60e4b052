/**
 The program from beginning to end: testp builds a message in its zeroed buffer and sends it, and a receiver takes
 it apart.
 */
module FirstMessages {
  import opened Bytes
  import opened Appending
  import opened Walking
  import opened Extensions
  import opened Runs
  import opened Messages
  import opened Schedule
  import opened Builder
  import opened Guarantees
  import opened FirstRun
  import opened Grammar
  import opened LaterMessages

  /** The listed extensions are found, in order and under their types, and read, sensitivities and proposals apart. */
  ghost predicate ReceivedAsListed(h: Endian, raws: seq<Raw>, es: seq<Ext>) {
    && |raws| == |es|
    && forall k {:trigger es[k]} :: 0 <= k < |es| ==>
         && raws[k].kind == KindOf(es[k])
         && (ReadsAt(h, raws, k, es[k]) <==> !es[k].Sens? && !es[k].Prop?)
  }

  ghost predicate ReadWhole(h: Endian, raws: seq<Raw>, es: seq<Ext>)
    requires |raws| == |es|
  {
    forall k {:trigger es[k]} :: 0 <= k < |es| ==> ReadsAt(h, raws, k, es[k])
  }

  /** Over zeros, the padding of identities does no harm. */
  lemma {:induction false} OverZeros(
      p: Platform, resolve: Resolver, pid: Pid, msgType: u32, raws: seq<Raw>, buf: seq<byte>)
    requires p.stride * 2 < COMB_SIZE && BsdResolver(resolve)
    requires Resolved(Planned(resolve, pid, msgType))
    requires Fit(p, |buf|, Listed(resolve, pid, msgType))
    requires ReceivedOver(p, raws, Listed(resolve, pid, msgType), buf) && AllZero(buf)
    ensures ReceivedAsListed(p.host, raws, Listed(resolve, pid, msgType))
  {
    hide Planned, BsdResolver, Fit, FreshReadable, Decode, KindOf, StripZeros, Padding, AllZero, ReadOverPadding;
    var es := Listed(resolve, pid, msgType);
    forall k | 0 <= k < |es|
      ensures raws[k].kind == KindOf(es[k])
      ensures ReadsAt(p.host, raws, k, es[k]) <==> !es[k].Sens? && !es[k].Prop?
    {
      AllWellPlanned(p, resolve, pid, msgType, k);
      ZeroPadding(p, buf, es, k);
      ReadOverZeros(p, raws[k], es[k], PaddingAt(p, buf, es, k));
    }
  }

  lemma {:induction false} ZeroPadding(p: Platform, buf: seq<byte>, es: seq<Ext>, k: nat)
    requires Fit(p, |buf|, es) && k < |es| && AllZero(buf)
    ensures AllZero(PaddingAt(p, buf, es, k))
  {
    hide Fit, Cursor, Pieces, Len;
    if es[k].Ident? {
      PaddingInside(p, |buf|, es, k);
      var lo, hi := Cursor(Pieces(p, es), k) + 16 + |es[k].name|, Cursor(Pieces(p, es), k) + Len(p, es[k]);
      assert forall i :: 0 <= i < hi - lo ==> buf[lo..hi][i] == buf[lo + i];
    }
  }

  lemma {:induction false} ReadOverZeros(p: Platform, raw: Raw, e: Ext, padding: seq<byte>)
    requires p.stride * 2 < COMB_SIZE && (FreshReadable(p, e) <==> !e.Sens? && !e.Prop?)
    requires ReadOverPadding(p.host, raw, e, padding) && AllZero(padding)
    ensures Decode(p.host, raw) == Some(e) <==> !e.Sens? && !e.Prop?
  {
    hide Decode, StripZeros, AllZero;
  }

  /** Such a message is read whole exactly when its type asks for neither a sensitivity nor a proposal. */
  lemma {:induction false} ReadWholeExactly(h: Endian, raws: seq<Raw>, resolve: Resolver, pid: Pid, msgType: u32)
    requires Resolved(Planned(resolve, pid, msgType))
    requires ReceivedAsListed(h, raws, Listed(resolve, pid, msgType))
    ensures ReadWhole(h, raws, Listed(resolve, pid, msgType)) <==> msgType !in {SADB_UPDATE, SADB_ADD, SADB_ACQUIRE}
  {
    hide Planned, Listed, ReadsAt, KindOf;
    ListsWithoutSensOrProp(resolve, pid, msgType);
    var es := Listed(resolve, pid, msgType);
  }

  /**
   rtems_bsd_command_testp, called once: the bytes that it passes to send, or none if it exits. Its buffer is
   large enough for what is planned: see Capacity.
   */
  method TestP(platform: Platform, pid: Pid, resolve: Resolver, bufsiz: nat, msgType: u32)
    returns (exited: bool, sent: seq<byte>)
    requires RoomForPlan(platform, bufsiz, Planned(resolve, pid, msgType))
    ensures exited <==> !Resolved(Planned(resolve, pid, msgType))
    ensures exited ==> sent == []
    ensures !exited && platform.stride * 2 < COMB_SIZE && BsdResolver(resolve) ==>
      Receive(platform.host, sent).Some?
    ensures !exited && platform.stride * 2 < COMB_SIZE && BsdResolver(resolve) ==>
      var m := Receive(platform.host, sent).value;
      && m.base.version == 2 && m.base.msgType == msgType % 0x100 && m.base.errno == 0 && m.base.satype == 3
      && 8 * m.base.units == |sent| && m.base.reserved == 0 && m.base.seqNo == 0 && m.base.pid == pid
      && (m.base.msgType == msgType <==> msgType < 0x100)
      && ReceivedAsListed(platform.host, m.raws, Listed(resolve, pid, msgType))
      && (ReadWhole(platform.host, m.raws, Listed(resolve, pid, msgType))
          <==> msgType !in {SADB_UPDATE, SADB_ADD, SADB_ACQUIRE})
  {
    hide Planned, RoomForPlan, BsdResolver, Receive, ReceivedOver, ReceivedAsListed, ReadWhole, BaseOf, AllZero,
         Listed, Fit, MLen;
    var m := new KeyMessage(platform, pid, resolve, bufsiz);
    ghost var zeros := m.m_buf[..];
    exited, sent := TestPAgain(m, msgType);
    if !exited && platform.stride * 2 < COMB_SIZE && BsdResolver(resolve) {
      ghost var got := Receive(platform.host, sent).value;
      OverZeros(platform, resolve, pid, msgType, got.raws, zeros);
      ReadWholeExactly(platform.host, got.raws, resolve, pid, msgType);
    }
  }
}
