/**
 PF_KEY v2 messages: the base header of section 2.1 of RFC 2367, followed by extensions.
 */
module Messages {
  import opened Bytes
  import opened Appending
  import opened Walking
  import opened Extensions
  import opened Runs

  const PF_KEY_V2: byte := 2
  const SADB_SATYPE_ESP: byte := 3

  datatype Base = Base(
    version: byte, msgType: byte, errno: byte, satype: byte,
    units: u16, reserved: u16, seqNo: u32, pid: u32)

  function BaseBytes(h: Endian, b: Base): (r: seq<byte>)
    ensures |r| == BASE
  {
    [b.version, b.msgType, b.errno, b.satype]
    + (Put16(h, b.units) + Put16(h, b.reserved))
    + (Put32(h, b.seqNo) + Put32(h, b.pid))
  }

  lemma {:induction false} BaseLoads(h: Endian, b: Base)
    ensures ReadBase(h, BaseBytes(h, b)) == b
  {
    hide Put16, Put32, Get16, Get32;
    Load16(h, b.units);
    Load16(h, b.reserved);
    Load32(h, b.seqNo);
    Load32(h, b.pid);
    Cut2(Put16(h, b.units), Put16(h, b.reserved));
    Cut2(Put32(h, b.seqNo), Put32(h, b.pid));
    Cut3([b.version, b.msgType, b.errno, b.satype],
         Put16(h, b.units) + Put16(h, b.reserved), Put32(h, b.seqNo) + Put32(h, b.pid));
  }

  function ReadBase(h: Endian, bs: seq<byte>): Base
    requires |bs| == BASE
  {
    var tags, lens, ids := bs[0..4], bs[4..8], bs[8..16];
    Base(tags[0], tags[1], tags[2], tags[3], Get16(h, lens[0..2]), Get16(h, lens[2..4]),
         Get32(h, ids[0..4]), Get32(h, ids[4..8]))
  }

  /** The base header that key_setsadbmsg stores; it takes an unsigned int, of which 8 bits are kept. */
  function BaseOf(msgType: u32, units: nat, pid: u32): Base {
    Base(PF_KEY_V2, msgType % 0x100, 0, SADB_SATYPE_ESP, units % 0x1_0000, 0, 0, pid)
  }

  /** struct sadb_msg: each field at its offset. */
  lemma {:induction false} BaseAt(h: Endian, b: Base, bs: seq<byte>)
    requires |bs| == 16 && bs == BaseBytes(h, b)
    ensures bs[0] == b.version && bs[1] == b.msgType && bs[2] == b.errno && bs[3] == b.satype
    ensures Get16(h, bs[4..6]) == b.units && Get16(h, bs[6..8]) == b.reserved
    ensures Get32(h, bs[8..12]) == b.seqNo && Get32(h, bs[12..16]) == b.pid
  {
    var tags := [b.version, b.msgType, b.errno, b.satype];
    var lens, ids := Put16(h, b.units) + Put16(h, b.reserved), Put32(h, b.seqNo) + Put32(h, b.pid);
    Load16(h, b.units);
    Load16(h, b.reserved);
    Load32(h, b.seqNo);
    Load32(h, b.pid);
    hide Put16, Put32, Get16, Get32;
    Cut2(Put16(h, b.units), Put16(h, b.reserved));
    Cut2(Put32(h, b.seqNo), Put32(h, b.pid));
    Cut3(tags, lens, ids);
    assert bs == tags + lens + ids;
    SubSlice(bs, 4, lens, 0, 2);
    SubSlice(bs, 4, lens, 2, 4);
    SubSlice(bs, 8, ids, 0, 4);
    SubSlice(bs, 8, ids, 4, 8);
  }

  /** The header that the program stores, written out. */
  lemma {:induction false} BaseFields(msgType: u32, units: nat, pid: u32)
    ensures var b := BaseOf(msgType, units, pid);
      && b.version == 2 && b.msgType == msgType % 0x100 && b.errno == 0 && b.satype == 3
      && b.units == units % 0x1_0000 && b.reserved == 0 && b.seqNo == 0 && b.pid == pid
  {
  }

  datatype Message = Message(base: Base, raws: seq<Raw>)

  /** A receiver checks that the base header's length is that of the message, and walks the extensions. */
  function Receive(h: Endian, bs: seq<byte>): Option<Message> {
    if |bs| < BASE then None
    else
      var base := ReadBase(h, bs[..BASE]);
      if 8 * base.units != |bs| then None
      else
        match Walk(h, bs, BASE)
        case None => None
        case Some(raws) => Some(Message(base, raws))
  }

  lemma {:induction false} CursorAligned(xs: seq<Piece>, k: nat)
    requires k <= |xs|
    ensures Cursor(xs, k) % 8 == 0
  {
    if k > 0 {
      CursorAligned(xs, k - 1);
    }
  }

  /** m_len is a multiple of 8 whatever the lengths of keys, identities and socket addresses. */
  lemma {:induction false} MLenAligned(p: Platform, es: seq<Ext>)
    ensures MLen(p, es) % 8 == 0
  {
    CursorAligned(Pieces(p, es), |es|);
  }

  /**
   After the total length has been stored in the base header, a receiver accepts the message, and finds every
   extension in it, exactly when the total length fits its field; the lengths then add up.
   */
  lemma {:induction false} MessageReceived(
      p: Platform, bs: seq<byte>, buf: seq<byte>, es: seq<Ext>, msgType: u32, pid: u32)
    requires Fit(p, |buf|, es) && Sent(p, bs, buf, es)
    requires bs[..BASE] == BaseBytes(p.host, BaseOf(msgType, |bs| / 8, pid))
    ensures |bs| < 8 * 0x1_0000 ==>
      && Receive(p.host, bs) == Some(Message(BaseOf(msgType, |bs| / 8, pid), Found(p, buf, es)))
      && BaseOf(msgType, |bs| / 8, pid).units == 2 + SumUnits(Found(p, buf, es))
    ensures |bs| >= 8 * 0x1_0000 ==> Receive(p.host, bs) == None
  {
    hide Fit, Sent, BaseBytes, ReadBase, Found, Walk, SumUnits, MLen;
    SentLength(p, bs, buf, es);
    MLenAligned(p, es);
    UnitsExact(|bs|);
    var base := BaseOf(msgType, |bs| / 8, pid);
    BaseLoads(p.host, base);
    assert ReadBase(p.host, bs[..BASE]) == base;
    assert 8 * base.units == |bs| <==> |bs| < 8 * 0x1_0000;
    hide BaseOf;
    if |bs| < 8 * 0x1_0000 {
      ShortIsExact(p, es);
      WalkFindsEveryExtension(p, bs, buf, es);
    }
  }

  /** PFKEY_UNIT64 loses nothing of an aligned length, and its 16-bit field nothing of a short one. */
  lemma {:induction false} UnitsExact(n: nat)
    requires n % 8 == 0
    ensures 8 * (n / 8 % 0x1_0000) == n <==> n < 8 * 0x1_0000
  {
  }

  lemma {:induction false} SentLength(p: Platform, bs: seq<byte>, buf: seq<byte>, es: seq<Ext>)
    requires Fit(p, |buf|, es) && Sent(p, bs, buf, es)
    ensures |bs| == MLen(p, es) >= BASE
  {
  }
}
