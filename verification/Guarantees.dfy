/**
 What the messages built by test_pfkey.c mean to whoever receives them.
 */
module Guarantees {
  import opened Bytes
  import opened Appending
  import opened Walking
  import opened Extensions
  import opened Reading
  import opened Runs
  import opened Messages
  import opened Schedule
  import opened Builder

  /** The message carries extension e at place k, and a receiver reads e there. */
  ghost predicate ReadsAt(h: Endian, raws: seq<Raw>, k: nat, e: Ext)
    requires k < |raws|
  {
    Decode(h, raws[k]) == Some(e)
  }

  /**
   The whole message, for every buffer, every message type and every run of setters with arbitrary arguments:
   it is accepted exactly when its total length fits the 16-bit field; then the lengths add up, every extension
   is found in order under its own type, and each is read back exactly when it is readable over its stale bytes.
   */
  lemma {:induction false} MessageExact(
      p: Platform, bs: seq<byte>, buf: seq<byte>, es: seq<Ext>, msgType: u32, pid: u32)
    requires Fit(p, |buf|, es) && Sent(p, bs, buf, es)
    requires bs[..BASE] == BaseBytes(p.host, BaseOf(msgType, |bs| / 8, pid))
    ensures Receive(p.host, bs).Some? <==> |bs| < 8 * 0x1_0000
    ensures Receive(p.host, bs).Some? ==>
      var m := Receive(p.host, bs).value;
      && m.base == BaseOf(msgType, |bs| / 8, pid)
      && 8 * m.base.units == |bs|
      && m.base.units == 2 + SumUnits(m.raws)
      && |m.raws| == |es|
      && forall k :: 0 <= k < |es| ==>
           && m.raws[k].kind == KindOf(es[k])
           && (ReadsAt(p.host, m.raws, k, es[k]) <==> Readable(p, es[k], StaleAt(p, buf, es, k)))
  {
    hide Fit, Sent, BaseBytes, Found, SumUnits, Readable, StaleAt, Decode, KindOf, ReadBase, Walk;
    MessageReceived(p, bs, buf, es, msgType, pid);
    MLenAligned(p, es);
    SentLength(p, bs, buf, es);
    if |bs| < 8 * 0x1_0000 {
      UnitsExact(|bs|);
      var raws := Found(p, buf, es);
      forall k | 0 <= k < |es|
        ensures raws[k].kind == KindOf(es[k])
        ensures ReadsAt(p.host, raws, k, es[k]) <==> Readable(p, es[k], StaleAt(p, buf, es, k))
      {
        FoundExactly(p, buf, es, k);
      }
    }
  }

  /** A finished message in m_buf is such a message. */
  lemma {:induction false} FinishedIsSent(m: KeyMessage, msgType: u32)
    requires m.Finished(msgType)
    ensures Sent(m.platform, m.m_buf[..m.m_len], m.under, m.exts)
    ensures m.m_buf[..m.m_len][..BASE] == BaseBytes(m.platform.host, BaseOf(msgType, m.m_len / 8, m.pid))
  {
    hide Fit, Built, BaseBytes;
    var bs, image := m.m_buf[..], Built(m.platform, m.under, m.exts);
    var n := m.m_len;
    assert bs[BASE..] == image[BASE..];
    PrefixOfTail(bs, image, n);
  }

  lemma {:induction false} PrefixOfTail(bs: seq<byte>, image: seq<byte>, n: nat)
    requires |bs| == |image| && BASE <= n <= |bs| && bs[BASE..] == image[BASE..]
    ensures bs[..n][BASE..] == image[BASE..n]
    ensures bs[..n][..BASE] == bs[..BASE]
  {
    forall i | BASE <= i < n
      ensures bs[i] == image[i]
    {
      assert bs[BASE..][i - BASE] == image[BASE..][i - BASE];
    }
  }

  /** What a receiver makes of the bytes that sendkeymsg sends after key_setsadbmsg. */
  lemma {:induction false} WhatTheReceiverGets(m: KeyMessage, msgType: u32)
    requires m.Finished(msgType)
    ensures Receive(m.platform.host, m.m_buf[..m.m_len]).Some? <==> m.m_len < 8 * 0x1_0000
    ensures m.m_len < 8 * 0x1_0000 ==>
      var got := Receive(m.platform.host, m.m_buf[..m.m_len]).value;
      && got.base == BaseOf(msgType, m.m_len / 8, m.pid)
      && got.base.version == 2 && got.base.msgType == msgType % 0x100 && got.base.errno == 0 && got.base.satype == 3
      && got.base.reserved == 0 && got.base.seqNo == 0 && got.base.pid == m.pid
      && 8 * got.base.units == m.m_len
      && got.base.units == 2 + SumUnits(got.raws)
      && |got.raws| == |m.exts|
      && forall k :: 0 <= k < |m.exts| ==>
           && got.raws[k].kind == KindOf(m.exts[k])
           && (ReadsAt(m.platform.host, got.raws, k, m.exts[k])
               <==> Readable(m.platform, m.exts[k], StaleAt(m.platform, m.under, m.exts, k)))
  {
    FinishedIsSent(m, msgType);
    hide Sent, BaseBytes, SumUnits, Readable, StaleAt, KindOf, BaseOf, ReadsAt, Receive, MLen, Built, Fit;
    MessageExact(m.platform, m.m_buf[..m.m_len], m.under, m.exts, msgType, m.pid);
    BaseFields(msgType, m.m_len / 8, m.pid);
  }

  /**
   The message type survives exactly when it fits the 8 bits of its field; a wider one is sent under another
   type, but never with the extensions of that type.
   */
  lemma {:induction false} TypeExact(resolve: Resolver, pid: Pid, msgType: u32, units: nat)
    ensures BaseOf(msgType, units, pid).msgType == msgType <==> msgType < 0x100
    ensures BaseOf(msgType, units, pid).msgType != msgType ==> Planned(resolve, pid, msgType) == []
  {
    hide UpdateList, Identities, SourceExt, DestinationExt, ProxyExt;
  }
}
