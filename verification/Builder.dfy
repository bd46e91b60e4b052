/**
 The message builder of test_pfkey.c: the buffer m_buf, the cursor m_len, and the functions that write them.
 */
module Builder {
  import opened Bytes
  import opened Appending
  import opened Walking
  import opened Extensions
  import opened Layout
  import opened Runs
  import opened Messages
  import opened Schedule
  import opened Contents

  /** memset */
  method MemSet(dst: array<byte>, off: nat, c: byte, n: nat)
    requires off + n <= dst.Length
    modifies dst
    ensures forall i :: 0 <= i < dst.Length ==> dst[i] == if off <= i < off + n then c else old(dst[i])
  {
    forall i | off <= i < off + n {
      dst[i] := c;
    }
  }

  /** memcpy */
  method MemCpy(dst: array<byte>, off: nat, src: seq<byte>)
    requires off + |src| <= dst.Length
    modifies dst
    ensures forall i :: 0 <= i < dst.Length ==> dst[i] == if off <= i < off + |src| then src[i - off] else old(dst[i])
    ensures dst[..] == Splice(old(dst[..]), off, src)
  {
    forall i | off <= i < off + |src| {
      dst[i] := src[i - off];
    }
  }

  /** key_setsadbextbuf */
  method KeySetSadbExtBuf(dst: array<byte>, off: nat, ebuf: seq<byte>, vbuf: seq<byte>)
    requires off + |ebuf| + |vbuf| <= dst.Length
    modifies dst
    ensures dst[..] == Splice(old(dst[..]), off, ebuf + vbuf)
  {
    MemSet(dst, off, 0, |ebuf| + |vbuf|);
    MemCpy(dst, off, ebuf);
    MemCpy(dst, off + |ebuf|, vbuf);
  }

  /** The extensions appended so far are the first of the planned ones. */
  ghost predicate Follows(plan: seq<Option<Ext>>, es: seq<Ext>) {
    |es| <= |plan| && forall k :: 0 <= k < |es| ==> plan[k] == Some(es[k])
  }

  /** The buffer has room for the plan, wherever it may have to stop at an address. */
  ghost predicate RoomForPlan(p: Platform, n: nat, plan: seq<Option<Ext>>) {
    BASE <= n && forall es {:trigger Follows(plan, es)} :: Follows(plan, es) ==> Fit(p, n, es)
  }

  lemma {:induction false} NextOnPlan(p: Platform, n: nat, plan: seq<Option<Ext>>, es: seq<Ext>, e: Ext)
    requires Follows(plan, es) && RoomForPlan(p, n, plan)
    requires |es| < |plan| && plan[|es|] == Some(e)
    ensures Follows(plan, es + [e])
    ensures MLen(p, es) + RoomFor(p, e) <= n
  {
    hide Fit, MLen, RoomFor;
    assert Follows(plan, es + [e]);
    RoomWhereItFits(p, n, es, e);
  }

  lemma {:induction false} PlanTail(plan: seq<Option<Ext>>, at: nat, tail: seq<Option<Ext>>)
    requires at <= |plan| && plan[at..] == tail
    ensures |plan| == at + |tail|
    ensures forall i :: 0 <= i < |tail| ==> plan[at + i] == tail[i]
  {
  }

  /** struct sadb_prop, for a proposal that declares len bytes */
  function PropStruct(h: Endian, len: nat): seq<byte> {
    Header(h, len / 8, EXT_PROPOSAL) + PropFields(0)
  }

  lemma {:induction false} TailIsString(bs: seq<byte>, n: nat, str: CString)
    requires n <= |bs| && bs[n..] == StrBytes(str)
    ensures |bs| == n + |str|
    ensures forall i :: 0 <= i < |str| ==> bs[n + i] == str[i] as int
  {
    forall i | 0 <= i < |str|
      ensures bs[n + i] == str[i] as int
    {
      assert bs[n + i] == bs[n..][i];
    }
  }

  // ---------------------------------------------------------------------
  // The structures that the setters fill in, as extensions and as bytes
  // ---------------------------------------------------------------------

  lemma {:induction false} SaStruct(p: Platform)
    ensures Len(p, SA_EXT) == 16
    ensures var bs := PieceOf(p, SA_EXT).bytes;
      && bs == Header(p.host, 2, EXT_SA) + SaFields(p.host, 0x12345678, 4, 0, SADB_AALG_NONE, SADB_X_EALG_AESGCM16, 0)
      && |bs| == 16
      && Get16(p.host, bs[0..2]) == 2 && Get16(p.host, bs[2..4]) == 1
      && Get32(Big, bs[4..8]) == 0x12345678
      && bs[8] == 4 && bs[9] == 0 && bs[10] == 0 && bs[11] == 20 && Get32(p.host, bs[12..16]) == 0
  {
    hide SaFields, Header, Get16, Get32;
    SaAt(p, 0x12345678, 4, 0, SADB_AALG_NONE, SADB_X_EALG_AESGCM16, 0);
  }

  lemma {:induction false} LifetimeStruct(p: Platform, ext: u32, time: u32)
    ensures Len(p, LifetimeExt(ext, time)) == 32
    ensures var bs := PieceOf(p, LifetimeExt(ext, time)).bytes;
      && bs == Header(p.host, 4, ext % 0x1_0000) + LifetimeFields(p.host, 0x2, 0x1000, time, 0x0020)
      && |bs| == 32
      && Get16(p.host, bs[0..2]) == 4 && Get16(p.host, bs[2..4]) == ext % 0x1_0000
      && Get32(p.host, bs[4..8]) == 2 && Get64(p.host, bs[8..16]) == 0x1000
      && Get64(p.host, bs[16..24]) == time && Get64(p.host, bs[24..32]) == 0x20
  {
    hide LifetimeFields, Header, Get16, Get32, Get64;
    LifetimeAt(p, ext % 0x1_0000, 0x2, 0x1000, time, 0x0020);
  }

  lemma {:induction false} SpiRangeStruct(p: Platform)
    ensures Len(p, SPIRANGE_EXT) == 16
    ensures var bs := PieceOf(p, SPIRANGE_EXT).bytes;
      && bs == Header(p.host, 2, EXT_SPIRANGE) + SpiRangeFields(p.host, 0x00001000, 0x00002000)
      && |bs| == 16
      && Get16(p.host, bs[0..2]) == 2 && Get16(p.host, bs[2..4]) == 16
      && Get32(p.host, bs[4..8]) == 0x1000 && Get32(p.host, bs[8..12]) == 0x2000 && Get32(p.host, bs[12..16]) == 0
  {
    hide SpiRangeFields, Header, Get16, Get32;
    SpiRangeAt(p, 0x00001000, 0x00002000);
  }

  lemma {:induction false} KeyStruct(p: Platform, ext: u32, str: CString)
    ensures Len(p, KeyExt(ext, str)) == 8 + Align8(|str|)
    ensures var bs := PieceOf(p, KeyExt(ext, str)).bytes;
      && bs == (Header(p.host, (8 + Align8(|str|)) / 8, ext % 0x1_0000) + KeyFields(p.host, |str| * 8 % 0x1_0000))
             + StrBytes(str)
      && |bs| == 8 + |str|
      && Get16(p.host, bs[0..2]) == (8 + Align8(|str|)) / 8 % 0x1_0000 && Get16(p.host, bs[2..4]) == ext % 0x1_0000
      && Get16(p.host, bs[4..6]) == 8 * |str| % 0x1_0000 && Get16(p.host, bs[6..8]) == 0
      && forall i :: 0 <= i < |str| ==> bs[8 + i] == str[i] as int
  {
    hide KeyFields, Header, Get16, Align8, StrBytes, Len;
    LenOfPayload(p, KeyExt(ext, str));
    KeyAt(p, ext % 0x1_0000, StrBytes(str));
    TailIsString(PieceOf(p, KeyExt(ext, str)).bytes, 8, str);
  }

  lemma {:induction false} IdentStruct(p: Platform, pid: Pid, ext: u32, str: CString)
    ensures Len(p, IdentExt(pid, ext, str)) == 16 + Align8(|str|)
    ensures var bs := PieceOf(p, IdentExt(pid, ext, str)).bytes;
      && bs == (Header(p.host, (16 + Align8(|str|)) / 8, ext % 0x1_0000)
                + IdentFields(p.host, SADB_IDENTTYPE_USERFQDN, pid)) + StrBytes(str)
      && |bs| == 16 + |str|
      && Get16(p.host, bs[0..2]) == (16 + Align8(|str|)) / 8 % 0x1_0000 && Get16(p.host, bs[2..4]) == ext % 0x1_0000
      && Get16(p.host, bs[4..6]) == 3 && Get16(p.host, bs[6..8]) == 0 && Get64(p.host, bs[8..16]) == pid
      && forall i :: 0 <= i < |str| ==> bs[16 + i] == str[i] as int
  {
    hide IdentFields, Header, Get16, Get64, Align8, StrBytes, Len;
    LenOfPayload(p, IdentExt(pid, ext, str));
    IdentAt(p, ext % 0x1_0000, SADB_IDENTTYPE_USERFQDN, pid, StrBytes(str));
    TailIsString(PieceOf(p, IdentExt(pid, ext, str)).bytes, 16, str);
  }

  lemma {:induction false} SensStruct(p: Platform)
    ensures Len(p, SENS_EXT) == 32 == 16 + Align8(4) + Align8(4)
    ensures var bs := PieceOf(p, SENS_EXT).bytes;
      && bs == (Header(p.host, 4, EXT_SENSITIVITY) + SensFields(p.host, 1, 2, Align8(4), 3, Align8(4)))
             + (Put32(Big, 0x01234567) + Put32(Big, 0x89abcdef))
      && |bs| == 24
      && Get16(p.host, bs[0..2]) == 4 && Get16(p.host, bs[2..4]) == 12
      && Get32(p.host, bs[4..8]) == 1
      && bs[8] == 2 && bs[9] == 8 && bs[10] == 3 && bs[11] == 8 && Get32(p.host, bs[12..16]) == 0
      && Get32(Big, bs[16..20]) == 0x01234567 && Get32(Big, bs[20..24]) == 0x89abcdef
  {
    hide SensFields, Header, Get16, Get32, Put32;
    SensAt(p, 1, 2, 3, 0x01234567, 0x89abcdef);
  }

  lemma {:induction false} AddressResolves(resolve: Resolver, ext: u32, af: Family, str: CString)
    ensures AddressExt(resolve, ext, af, str) == None
       <==> af.AF_OTHER? || resolve(af, str, if ext == 7 then "0" else "4660") == None
  {
  }

  lemma {:induction false} AddressStruct(
      p: Platform, resolve: Resolver, ext: u32, af: Family, str: CString, ai_addr: seq<byte>)
    requires !af.AF_OTHER? && resolve(af, str, if ext == 7 then "0" else "4660") == Some(ai_addr)
    ensures AddressExt(resolve, ext, af, str).Some?
    ensures Len(p, AddressExt(resolve, ext, af, str).value) == 8 + Align8(|ai_addr|)
    ensures var bs := PieceOf(p, AddressExt(resolve, ext, af, str).value).bytes;
      var plen: byte := if af == AF_INET then 32 else 128;
      && bs == (Header(p.host, (8 + Align8(|ai_addr|)) / 8, ext % 0x1_0000)
                + AddressFields(p.host, if ext == 7 then 0 else 6, plen)) + ai_addr
      && |bs| == 8 + |ai_addr|
      && Get16(p.host, bs[0..2]) == (8 + Align8(|ai_addr|)) / 8 % 0x1_0000
      && Get16(p.host, bs[2..4]) == ext % 0x1_0000
      && bs[4] == (if ext == 7 then 0 else 6) && bs[5] == plen && Get16(p.host, bs[6..8]) == 0
      && bs[8..] == ai_addr
  {
    hide Header, Get16, Align8, Len, AddressFields;
    LenOfPayload(p, AddressExt(resolve, ext, af, str).value);
    AddressAt(p, ext % 0x1_0000, if ext == 7 then 0 else 6, if af == AF_INET then 32 else 128, ai_addr);
  }

  lemma {:induction false} PropHead(h: Endian, len: nat)
    ensures var bs := PropStruct(h, len);
      && |bs| == 8
      && Get16(h, bs[0..2]) == len / 8 % 0x1_0000 && Get16(h, bs[2..4]) == 13
      && bs[4] == 0 && bs[5] == 0 && bs[6] == 0 && bs[7] == 0
  {
    var header := Header(h, len / 8, EXT_PROPOSAL);
    HeaderLoads(h, len / 8, EXT_PROPOSAL);
    hide Header, Get16;
    var bs := PropStruct(h, len);
    assert bs[0..2] == header[0..2] && bs[2..4] == header[2..4];
  }

  /** ESP AES-GCM-16, and ESP AES-CBC with AH HMAC-SHA2-256 */
  lemma {:induction false} ProgramCombs(h: Endian)
    ensures IsComb(h, CombBytes(h, AES_GCM), 0, 20, 0, 0, 128, 256)
    ensures IsComb(h, CombBytes(h, AES_CBC_WITH_SHA2), 5, 12, 256, 256, 128, 256)
  {
    hide CombBytes, Get16;
    CombAt(h, AES_GCM.limits, CombBytes(h, AES_GCM));
    CombAt(h, AES_CBC_WITH_SHA2.limits, CombBytes(h, AES_CBC_WITH_SHA2));
  }

  class KeyMessage {
    const platform: Platform
    const pid: Pid
    const resolve: Resolver

    const m_buf: array<byte>
    var m_len: nat

    // What m_buf held when the base header had been stored, and the extensions appended since.
    ghost var under: seq<byte>
    ghost var exts: seq<Ext>

    /** The two globals at program start, m_buf having BUFSIZ bytes. */
    constructor (platform: Platform, pid: Pid, resolve: Resolver, bufsiz: nat)
      ensures this.platform == platform && this.pid == pid && this.resolve == resolve
      ensures m_buf.Length == bufsiz && fresh(m_buf)
      ensures AllZero(m_buf[..]) && m_len == 0
    {
      this.platform, this.pid, this.resolve := platform, pid, resolve;
      m_buf := new byte[bufsiz](_ => 0);
      m_len, under, exts := 0, [], [];
    }

    /** m_buf and m_len are what the appended extensions have made of them: true between any two setter calls. */
    ghost predicate Building()
      reads this, m_buf
    {
      && |under| == m_buf.Length
      && Fit(platform, |under|, exts)
      && m_len == MLen(platform, exts)
      && m_buf[..] == Built(platform, under, exts)
    }

    /** The buffer has room for one more extension. */
    ghost predicate Room(e: Ext)
      reads this
    {
      m_len + RoomFor(platform, e) <= m_buf.Length
    }

    // -------------------------------------------------------------------
    // The extension setters
    // -------------------------------------------------------------------

    method KeySetSadbSa()
      requires Building() && Room(SA_EXT)
      modifies this, m_buf
      ensures m_len == old(m_len) + 16
      ensures m_len <= m_buf.Length
      ensures var h, bs := platform.host, m_buf[old(m_len)..m_len];
        && Get16(h, bs[0..2]) == 2 && Get16(h, bs[2..4]) == 1
        && Get32(Big, bs[4..8]) == 0x12345678
        && bs[8] == 4 && bs[9] == 0 && bs[10] == 0 && bs[11] == 20 && Get32(h, bs[12..16]) == 0
      ensures Building() && exts == old(exts) + [SA_EXT] && under == old(under)
      ensures m_buf[..] == Splice(old(m_buf[..]), old(m_len), PieceOf(platform, SA_EXT).bytes)
    {
      hide Fit, MLen, Built, Splice, PieceOf, Len, Header, Get16, Get32, Get64, SaFields;
      BuildStep(platform, under, exts, SA_EXT);
      var m_sa := Header(platform.host, 16 / 8, EXT_SA)
        + SaFields(platform.host, 0x12345678, 4, 0, SADB_AALG_NONE, SADB_X_EALG_AESGCM16, 0);
      SaStruct(platform);
      MemCpy(m_buf, m_len, m_sa);
      SpliceStands(old(m_buf[..]), m_len, m_sa);
      assert m_buf[m_len..m_len + 16] == m_buf[..][m_len..m_len + 16] == m_sa;
      m_len := m_len + 16;
      exts := exts + [SA_EXT];
    }

    method KeySetSadbLft(ext: u32, time: u32)
      requires Building() && Room(LifetimeExt(ext, time))
      modifies this, m_buf
      ensures m_len == old(m_len) + 32
      ensures m_len <= m_buf.Length
      ensures var h, bs := platform.host, m_buf[old(m_len)..m_len];
        && Get16(h, bs[0..2]) == 4 && Get16(h, bs[2..4]) == ext % 0x1_0000
        && Get32(h, bs[4..8]) == 2 && Get64(h, bs[8..16]) == 0x1000
        && Get64(h, bs[16..24]) == time && Get64(h, bs[24..32]) == 0x20
      ensures Building() && exts == old(exts) + [LifetimeExt(ext, time)] && under == old(under)
      ensures m_buf[..] == Splice(old(m_buf[..]), old(m_len), PieceOf(platform, LifetimeExt(ext, time)).bytes)
    {
      hide Fit, MLen, Built, Splice, PieceOf, Len, Header, Get16, Get32, Get64, LifetimeFields, LifetimeExt;
      BuildStep(platform, under, exts, LifetimeExt(ext, time));
      var m_lft := Header(platform.host, 32 / 8, ext % 0x1_0000)
        + LifetimeFields(platform.host, 0x2, 0x1000, time, 0x0020);
      LifetimeStruct(platform, ext, time);
      MemCpy(m_buf, m_len, m_lft);
      SpliceStands(old(m_buf[..]), m_len, m_lft);
      assert m_buf[m_len..m_len + 32] == m_buf[..][m_len..m_len + 32] == m_lft;
      m_len := m_len + 32;
      exts := exts + [LifetimeExt(ext, time)];
    }

    method KeySetSpiRange()
      requires Building() && Room(SPIRANGE_EXT)
      modifies this, m_buf
      ensures m_len == old(m_len) + 16
      ensures m_len <= m_buf.Length
      ensures var h, bs := platform.host, m_buf[old(m_len)..m_len];
        && Get16(h, bs[0..2]) == 2 && Get16(h, bs[2..4]) == 16
        && Get32(h, bs[4..8]) == 0x1000 && Get32(h, bs[8..12]) == 0x2000 && Get32(h, bs[12..16]) == 0
      ensures Building() && exts == old(exts) + [SPIRANGE_EXT] && under == old(under)
      ensures m_buf[..] == Splice(old(m_buf[..]), old(m_len), PieceOf(platform, SPIRANGE_EXT).bytes)
    {
      hide Fit, MLen, Built, Splice, PieceOf, Len, Header, Get16, Get32, Get64, SpiRangeFields;
      BuildStep(platform, under, exts, SPIRANGE_EXT);
      var m_spi := Header(platform.host, 16 / 8, EXT_SPIRANGE)
        + SpiRangeFields(platform.host, 0x00001000, 0x00002000);
      SpiRangeStruct(platform);
      MemCpy(m_buf, m_len, m_spi);
      SpliceStands(old(m_buf[..]), m_len, m_spi);
      assert m_buf[m_len..m_len + 16] == m_buf[..][m_len..m_len + 16] == m_spi;
      m_len := m_len + 16;
      exts := exts + [SPIRANGE_EXT];
    }

    method KeySetSadbKey(ext: u32, str: CString)
      requires Building() && Room(KeyExt(ext, str))
      modifies this, m_buf
      ensures m_len == old(m_len) + 8 + Align8(|str|)
      ensures old(m_len) + 8 + |str| <= m_len <= m_buf.Length
      ensures var h, bs := platform.host, m_buf[old(m_len)..old(m_len) + 8 + |str|];
        && Get16(h, bs[0..2]) == (m_len - old(m_len)) / 8 % 0x1_0000 && Get16(h, bs[2..4]) == ext % 0x1_0000
        && Get16(h, bs[4..6]) == 8 * |str| % 0x1_0000 && Get16(h, bs[6..8]) == 0
        && forall i :: 0 <= i < |str| ==> bs[8 + i] == str[i] as int
      ensures Building() && exts == old(exts) + [KeyExt(ext, str)] && under == old(under)
      ensures m_buf[..] == Splice(old(m_buf[..]), old(m_len), PieceOf(platform, KeyExt(ext, str)).bytes)
    {
      hide Fit, MLen, Built, Splice, PieceOf, Len, Header, Get16, Get32, Get64, KeyFields, Align8,
           StrBytes, KeyExt;
      BuildStep(platform, under, exts, KeyExt(ext, str));
      var keylen := |str|;
      var len := 8 + Align8(keylen);
      var m_key := Header(platform.host, len / 8, ext % 0x1_0000)
        + KeyFields(platform.host, keylen * 8 % 0x1_0000);
      KeyStruct(platform, ext, str);
      KeySetSadbExtBuf(m_buf, m_len, m_key, StrBytes(str));
      ghost var bs := m_key + StrBytes(str);
      SpliceStands(old(m_buf[..]), m_len, bs);
      assert m_buf[m_len..m_len + 8 + |str|] == m_buf[..][m_len..m_len + 8 + |str|] == bs;
      m_len := m_len + len;
      exts := exts + [KeyExt(ext, str)];
    }

    method KeySetSadbId(ext: u32, str: CString)
      requires Building() && Room(IdentExt(pid, ext, str))
      modifies this, m_buf
      ensures m_len == old(m_len) + 16 + Align8(|str|)
      ensures old(m_len) + 16 + |str| <= m_len <= m_buf.Length
      ensures var h, bs := platform.host, m_buf[old(m_len)..old(m_len) + 16 + |str|];
        && Get16(h, bs[0..2]) == (m_len - old(m_len)) / 8 % 0x1_0000 && Get16(h, bs[2..4]) == ext % 0x1_0000
        && Get16(h, bs[4..6]) == 3 && Get16(h, bs[6..8]) == 0 && Get64(h, bs[8..16]) == pid
        && forall i :: 0 <= i < |str| ==> bs[16 + i] == str[i] as int
      ensures Building() && exts == old(exts) + [IdentExt(pid, ext, str)] && under == old(under)
      ensures m_buf[..] == Splice(old(m_buf[..]), old(m_len), PieceOf(platform, IdentExt(pid, ext, str)).bytes)
    {
      hide Fit, MLen, Built, Splice, PieceOf, Len, Header, Get16, Get32, Get64, IdentFields, Align8,
           StrBytes, IdentExt;
      BuildStep(platform, under, exts, IdentExt(pid, ext, str));
      var idlen := |str|;
      var len := 16 + Align8(idlen);
      var m_id := Header(platform.host, len / 8, ext % 0x1_0000)
        + IdentFields(platform.host, SADB_IDENTTYPE_USERFQDN, pid);
      IdentStruct(platform, pid, ext, str);
      KeySetSadbExtBuf(m_buf, m_len, m_id, StrBytes(str));
      ghost var bs := m_id + StrBytes(str);
      SpliceStands(old(m_buf[..]), m_len, bs);
      assert m_buf[m_len..m_len + 16 + |str|] == m_buf[..][m_len..m_len + 16 + |str|] == bs;
      m_len := m_len + len;
      exts := exts + [IdentExt(pid, ext, str)];
    }

    method KeySetSadbSens()
      requires Building() && Room(SENS_EXT)
      modifies this, m_buf
      ensures m_len == old(m_len) + 32
      ensures m_len <= m_buf.Length
      ensures var h, bs := platform.host, m_buf[old(m_len)..old(m_len) + 24];
        && Get16(h, bs[0..2]) == 4 && Get16(h, bs[2..4]) == 12
        && Get32(h, bs[4..8]) == 1
        && bs[8] == 2 && bs[9] == 8 && bs[10] == 3 && bs[11] == 8 && Get32(h, bs[12..16]) == 0
        && Get32(Big, bs[16..20]) == 0x01234567 && Get32(Big, bs[20..24]) == 0x89abcdef
      ensures Building() && exts == old(exts) + [SENS_EXT] && under == old(under)
      ensures m_buf[..] == Splice(old(m_buf[..]), old(m_len), PieceOf(platform, SENS_EXT).bytes)
    {
      hide Fit, MLen, Built, Splice, PieceOf, Len, Header, Get16, Get32, Get64, SensFields, Put32;
      BuildStep(platform, under, exts, SENS_EXT);
      var s, i := Put32(Big, 0x01234567), Put32(Big, 0x89abcdef);
      var slen, ilen := |s|, |i|;
      var buf := s + i;
      var len := 16 + Align8(slen) + Align8(ilen);
      var m_sens := Header(platform.host, len / 8, EXT_SENSITIVITY)
        + SensFields(platform.host, 1, 2, Align8(slen), 3, Align8(ilen));
      SensStruct(platform);
      KeySetSadbExtBuf(m_buf, m_len, m_sens, buf);
      SpliceStands(old(m_buf[..]), m_len, m_sens + buf);
      assert m_buf[m_len..m_len + 24] == m_buf[..][m_len..m_len + 24] == m_sens + buf;
      m_len := m_len + len;
      exts := exts + [SENS_EXT];
    }

    method KeySetSadbProp()
      requires Building() && Room(PROP_EXT)
      modifies this, m_buf
      ensures m_len == old(m_len) + 8 + platform.stride * 2
      ensures old(m_len) + 152 <= m_buf.Length
      ensures var h, bs := platform.host, m_buf[old(m_len)..old(m_len) + 152];
        && Get16(h, bs[0..2]) == (8 + platform.stride * 2) / 8 % 0x1_0000 && Get16(h, bs[2..4]) == 13
        && bs[4] == 0 && bs[5] == 0 && bs[6] == 0 && bs[7] == 0
        && IsComb(h, bs[8..80], 0, 20, 0, 0, 128, 256)
        && IsComb(h, bs[80..152], 5, 12, 256, 256, 128, 256)
      ensures Building() && exts == old(exts) + [PROP_EXT] && under == old(under)
      ensures m_buf[..] == Splice(old(m_buf[..]), old(m_len), PieceOf(platform, PROP_EXT).bytes)
    {
      hide Fit, MLen, Built, Splice, PropStruct, CombBytes, CombsBytes, ReadComb, AES_GCM, AES_CBC_WITH_SHA2,
           PieceOf, Len, PROP_EXT, Get16, IsComb;
      BuildStep(platform, under, exts, PROP_EXT);
      var len := 8 + platform.stride * 2;
      var m_prop := PropStruct(platform.host, len);
      var buf := CombBytes(platform.host, AES_GCM) + CombBytes(platform.host, AES_CBC_WITH_SHA2);
      PropPiece(platform);
      KeySetSadbExtBuf(m_buf, m_len, m_prop, buf);
      SpliceStands(old(m_buf[..]), m_len, m_prop + buf);
      assert m_buf[m_len..m_len + 152] == m_buf[..][m_len..m_len + 152] == m_prop + buf;
      m_len := m_len + len;
      exts := exts + [PROP_EXT];
    }

    /** Returns whether the program has exited: nothing has been written then. */
    method KeySetSadbAddr(ext: u32, af: Family, str: CString) returns (exited: bool)
      requires Building()
      requires AddressExt(resolve, ext, af, str).Some? ==> Room(AddressExt(resolve, ext, af, str).value)
      modifies this, m_buf
      ensures exited <==> af.AF_OTHER? || resolve(af, str, if ext == 7 then "0" else "4660") == None
      ensures exited ==> exts == old(exts) && m_len == old(m_len) && m_buf[..] == old(m_buf[..])
      ensures !exited ==>
        var ai_addr := resolve(af, str, if ext == 7 then "0" else "4660").value;
        && m_len == old(m_len) + 8 + Align8(|ai_addr|) <= m_buf.Length
        && var h, bs := platform.host, m_buf[old(m_len)..old(m_len) + 8 + |ai_addr|];
          && Get16(h, bs[0..2]) == (8 + Align8(|ai_addr|)) / 8 % 0x1_0000 && Get16(h, bs[2..4]) == ext % 0x1_0000
          && bs[4] == (if ext == 7 then 0 else 6) && bs[5] == (if af == AF_INET then 32 else 128)
          && Get16(h, bs[6..8]) == 0
          && bs[8..] == ai_addr
      ensures Building() && under == old(under)
      ensures exited <==> AddressExt(resolve, ext, af, str) == None
      ensures !exited ==>
        var e := AddressExt(resolve, ext, af, str).value;
        && exts == old(exts) + [e]
        && m_len == old(m_len) + Len(platform, e)
        && m_buf[..] == Splice(old(m_buf[..]), old(m_len), PieceOf(platform, e).bytes)
    {
      hide Fit, MLen, Built, Splice, Header, AddressFields, Align8, PieceOf, Len, Get16, AddressExt;
      var plen: byte;
      AddressResolves(resolve, ext, af, str);
      match af {
        case AF_INET => plen := 4 * 8;
        case AF_INET6 => plen := 16 * 8;
        case AF_OTHER => return true;
      }
      var serv := if ext == EXT_ADDRESS_PROXY then "0" else "4660";
      var res := resolve(af, str, serv);
      if res == None {
        return true;
      }
      var ai_addr := res.value;
      ghost var e := AddressExt(resolve, ext, af, str).value;
      AddressStruct(platform, resolve, ext, af, str, ai_addr);
      BuildStep(platform, under, exts, e);

      var len := 8 + Align8(|ai_addr|);
      var m_addr := Header(platform.host, len / 8, ext % 0x1_0000)
        + AddressFields(platform.host, if ext == EXT_ADDRESS_PROXY then 0 else IPPROTO_TCP, plen);
      ghost var bs := PieceOf(platform, e).bytes;
      assert bs == m_addr + ai_addr;
      KeySetSadbExtBuf(m_buf, m_len, m_addr, ai_addr);
      SpliceStands(old(m_buf[..]), m_len, bs);
      assert m_buf[m_len..m_len + 8 + |ai_addr|] == m_buf[..][m_len..m_len + 8 + |ai_addr|] == bs;
      m_len := m_len + len;
      exts := exts + [e];
      return false;
    }

    // -------------------------------------------------------------------
    // The cases of key_setsadbmsg
    // -------------------------------------------------------------------

    /** The extensions appended so far are those planned, and the rest of the plan fits. */
    ghost predicate OnPlan(plan: seq<Option<Ext>>)
      reads this, m_buf
    {
      && Building()
      && Follows(plan, exts)
      && RoomForPlan(platform, m_buf.Length, plan)
    }

    /** Where the run stopped: at the end of the plan, or at an address that does not resolve. */
    ghost predicate Stopped(plan: seq<Option<Ext>>, exited: bool)
      reads this, m_buf
    {
      && OnPlan(plan)
      && (exited <==> |exts| < |plan|)
      && (exited ==> plan[|exts|] == None)
    }

    /** key_setsadbaddr, called for the next planned address. */
    method PlannedAddr(ghost plan: seq<Option<Ext>>, ext: u32, af: Family, str: CString) returns (exited: bool)
      requires OnPlan(plan)
      requires |exts| < |plan| && plan[|exts|] == AddressExt(resolve, ext, af, str)
      modifies this, m_buf
      ensures under == old(under) && OnPlan(plan)
      ensures if exited then exts == old(exts) && plan[|exts|] == None else |exts| == old(|exts|) + 1
    {
      ghost var o := AddressExt(resolve, ext, af, str);
      if o.Some? {
        NextOnPlan(platform, m_buf.Length, plan, exts, o.value);
      }
      exited := KeySetSadbAddr(ext, af, str);
    }

    /** The security association and its lifetimes */
    method SetSaAndLifetimes(ghost plan: seq<Option<Ext>>)
      requires OnPlan(plan) && |exts| + 3 <= |plan|
      requires plan[|exts|] == Some(SA_EXT)
      requires plan[|exts| + 1] == Some(LifetimeExt(EXT_LIFETIME_HARD, 10))
      requires plan[|exts| + 2] == Some(LifetimeExt(EXT_LIFETIME_SOFT, 5))
      modifies this, m_buf
      ensures under == old(under) && OnPlan(plan) && |exts| == old(|exts|) + 3
    {
      hide Fit, MLen, Built, RoomFor, RoomForPlan, IdentExt, KeyExt, LifetimeExt, AddressExt, SENS_EXT,
           PROP_EXT, SA_EXT, SPIRANGE_EXT, Len, Align8, Splice, PieceOf, StrBytes;
      NextOnPlan(platform, m_buf.Length, plan, exts, SA_EXT);
      KeySetSadbSa();
      NextOnPlan(platform, m_buf.Length, plan, exts, LifetimeExt(EXT_LIFETIME_HARD, 10));
      KeySetSadbLft(EXT_LIFETIME_HARD, 10);
      NextOnPlan(platform, m_buf.Length, plan, exts, LifetimeExt(EXT_LIFETIME_SOFT, 5));
      KeySetSadbLft(EXT_LIFETIME_SOFT, 5);
    }

    /** The authentication and encryption keys */
    method SetKeys(ghost plan: seq<Option<Ext>>)
      requires OnPlan(plan) && |exts| + 2 <= |plan|
      requires plan[|exts|] == Some(KeyExt(EXT_KEY_AUTH, AUTH_KEY))
      requires plan[|exts| + 1] == Some(KeyExt(EXT_KEY_ENCRYPT, ENCRYPT_KEY))
      modifies this, m_buf
      ensures under == old(under) && OnPlan(plan) && |exts| == old(|exts|) + 2
    {
      hide Fit, MLen, Built, RoomFor, RoomForPlan, IdentExt, KeyExt, LifetimeExt, AddressExt, SENS_EXT,
           PROP_EXT, SA_EXT, SPIRANGE_EXT, Len, Align8, Splice, PieceOf, StrBytes;
      NextOnPlan(platform, m_buf.Length, plan, exts, KeyExt(EXT_KEY_AUTH, AUTH_KEY));
      KeySetSadbKey(EXT_KEY_AUTH, AUTH_KEY);
      NextOnPlan(platform, m_buf.Length, plan, exts, KeyExt(EXT_KEY_ENCRYPT, ENCRYPT_KEY));
      KeySetSadbKey(EXT_KEY_ENCRYPT, ENCRYPT_KEY);
    }

    /** The identities and the sensitivity */
    method SetIdentities(ghost plan: seq<Option<Ext>>)
      requires OnPlan(plan) && |exts| + 3 <= |plan|
      requires plan[|exts|] == Identities(pid)[0] && plan[|exts| + 1] == Identities(pid)[1]
      requires plan[|exts| + 2] == Some(SENS_EXT)
      modifies this, m_buf
      ensures under == old(under) && OnPlan(plan) && |exts| == old(|exts|) + 3
    {
      hide Fit, MLen, Built, RoomFor, RoomForPlan, IdentExt, KeyExt, LifetimeExt, AddressExt, SENS_EXT,
           PROP_EXT, SA_EXT, SPIRANGE_EXT, Len, Align8, Splice, PieceOf, StrBytes;
      NextOnPlan(platform, m_buf.Length, plan, exts, IdentExt(pid, EXT_IDENTITY_SRC, SRC_IDENTITY));
      KeySetSadbId(EXT_IDENTITY_SRC, SRC_IDENTITY);
      NextOnPlan(platform, m_buf.Length, plan, exts, IdentExt(pid, EXT_IDENTITY_DST, DST_IDENTITY));
      KeySetSadbId(EXT_IDENTITY_DST, DST_IDENTITY);
      NextOnPlan(platform, m_buf.Length, plan, exts, SENS_EXT);
      KeySetSadbSens();
    }

    /** The source and destination addresses */
    method SetEndpoints(ghost plan: seq<Option<Ext>>) returns (exited: bool)
      requires OnPlan(plan) && |exts| + 2 <= |plan|
      requires plan[|exts|] == SourceExt(resolve) && plan[|exts| + 1] == DestinationExt(resolve)
      modifies this, m_buf
      ensures under == old(under) && OnPlan(plan)
      ensures if exited then |exts| < |plan| && plan[|exts|] == None else |exts| == old(|exts|) + 2
    {
      hide Fit, MLen, Built, RoomFor, RoomForPlan, IdentExt, KeyExt, LifetimeExt, AddressExt, SENS_EXT,
           PROP_EXT, SA_EXT, SPIRANGE_EXT, Len, Align8, Splice, PieceOf, StrBytes;
      exited := PlannedAddr(plan, EXT_ADDRESS_SRC, AF_INET, "192.168.1.1");
      if exited { return; }
      exited := PlannedAddr(plan, EXT_ADDRESS_DST, AF_INET, "10.0.3.4");
    }

    /** case SADB_GETSPI */
    method SetForGetSpi(ghost plan: seq<Option<Ext>>) returns (exited: bool)
      requires OnPlan(plan) && plan == Planned(resolve, pid, SADB_GETSPI) && exts == []
      modifies this, m_buf
      ensures under == old(under) && Stopped(plan, exited)
    {
      hide Fit, MLen, Built, RoomFor, RoomForPlan, IdentExt, KeyExt, LifetimeExt, AddressExt, SENS_EXT,
           PROP_EXT, SA_EXT, SPIRANGE_EXT, Len, Align8, Splice, PieceOf, StrBytes;
      exited := PlannedAddr(plan, EXT_ADDRESS_SRC, AF_INET, "10.0.3.4");
      if exited { return; }
      exited := PlannedAddr(plan, EXT_ADDRESS_DST, AF_INET, "127.0.0.1");
      if exited { return; }
      NextOnPlan(platform, m_buf.Length, plan, exts, SPIRANGE_EXT);
      KeySetSpiRange();
    }

    /** case SADB_UPDATE, into which case SADB_ADD falls */
    method SetForUpdate(ghost plan: seq<Option<Ext>>) returns (exited: bool)
      requires OnPlan(plan) && plan[|exts|..] == UpdateList(resolve, pid)
      modifies this, m_buf
      ensures under == old(under) && Stopped(plan, exited)
    {
      hide Fit, MLen, Built, RoomFor, RoomForPlan, IdentExt, KeyExt, LifetimeExt, AddressExt, SENS_EXT,
           PROP_EXT, SA_EXT, SPIRANGE_EXT, Len, Align8, Splice, PieceOf, StrBytes;
      PlanTail(plan, |exts|, UpdateList(resolve, pid));
      SetSaAndLifetimes(plan);
      exited := SetEndpoints(plan);
      if exited { return; }
      SetKeys(plan);
      SetIdentities(plan);
    }

    /** case SADB_DELETE and case SADB_GET */
    method SetForGet(ghost plan: seq<Option<Ext>>) returns (exited: bool)
      requires OnPlan(plan) && plan == Planned(resolve, pid, SADB_GET) && exts == []
      modifies this, m_buf
      ensures under == old(under) && Stopped(plan, exited)
    {
      hide Fit, MLen, Built, RoomFor, RoomForPlan, IdentExt, KeyExt, LifetimeExt, AddressExt, SENS_EXT,
           PROP_EXT, SA_EXT, SPIRANGE_EXT, Len, Align8, Splice, PieceOf, StrBytes;
      NextOnPlan(platform, m_buf.Length, plan, exts, SA_EXT);
      KeySetSadbSa();
      exited := SetEndpoints(plan);
      if exited { return; }
      exited := PlannedAddr(plan, EXT_ADDRESS_PROXY, AF_INET6, "3ffe::1");
    }

    /** case SADB_ACQUIRE */
    method SetForAcquire(ghost plan: seq<Option<Ext>>) returns (exited: bool)
      requires OnPlan(plan) && plan == Planned(resolve, pid, SADB_ACQUIRE) && exts == []
      modifies this, m_buf
      ensures under == old(under) && Stopped(plan, exited)
    {
      hide Fit, MLen, Built, RoomFor, RoomForPlan, IdentExt, KeyExt, LifetimeExt, AddressExt, SENS_EXT,
           PROP_EXT, SA_EXT, SPIRANGE_EXT, Len, Align8, Splice, PieceOf, StrBytes;
      exited := SetEndpoints(plan);
      if exited { return; }
      exited := PlannedAddr(plan, EXT_ADDRESS_PROXY, AF_INET6, "3ffe::1");
      if exited { return; }
      SetIdentities(plan);
      NextOnPlan(platform, m_buf.Length, plan, exts, PROP_EXT);
      KeySetSadbProp();
    }

    /** case SADB_X_SPDADD, which falls into case SADB_X_SPDDELETE */
    method SetForSpd(ghost plan: seq<Option<Ext>>) returns (exited: bool)
      requires OnPlan(plan) && plan == Planned(resolve, pid, SADB_X_SPDADD) && exts == []
      modifies this, m_buf
      ensures under == old(under) && Stopped(plan, exited)
    {
      hide Fit, MLen, Built, RoomFor, RoomForPlan, IdentExt, KeyExt, LifetimeExt, AddressExt, SENS_EXT,
           PROP_EXT, SA_EXT, SPIRANGE_EXT, Len, Align8, Splice, PieceOf, StrBytes;
      exited := SetEndpoints(plan);
    }

    /** A whole message: the patched base header, the appended extensions, the stale bytes where they were. */
    ghost predicate Finished(msgType: u32)
      reads this, m_buf
    {
      && |under| == m_buf.Length
      && Fit(platform, |under|, exts)
      && m_len == MLen(platform, exts) <= m_buf.Length
      && m_buf[..BASE] == BaseBytes(platform.host, BaseOf(msgType, m_len / 8, pid))
      && m_buf[BASE..] == Built(platform, under, exts)[BASE..]
    }

    /**
     key_setsadbmsg, from any earlier contents of m_buf. It appends what is planned for the message type and
     stores the total length last; where an address does not resolve, the program exits in between.
     */
    method KeySetSadbMsg(msgType: u32) returns (exited: bool)
      requires RoomForPlan(platform, m_buf.Length, Planned(resolve, pid, msgType))
      modifies this, m_buf
      ensures exited <==>
        || (msgType in {2, 3, 4, 5, 6, 14, 15} &&
              (resolve(AF_INET, "192.168.1.1", "4660") == None || resolve(AF_INET, "10.0.3.4", "4660") == None))
        || (msgType in {3, 4, 5, 6} && resolve(AF_INET6, "3ffe::1", "0") == None)
        || (msgType == 1 &&
              (resolve(AF_INET, "10.0.3.4", "4660") == None || resolve(AF_INET, "127.0.0.1", "4660") == None))
      ensures !exited ==> 16 <= m_len <= m_buf.Length
      ensures !exited ==>
        var h, bs := platform.host, m_buf[..16];
        && bs[0] == 2 && bs[1] == msgType % 0x100 && bs[2] == 0 && bs[3] == 3
        && Get16(h, bs[4..6]) == m_len / 8 % 0x1_0000 && Get16(h, bs[6..8]) == 0
        && Get32(h, bs[8..12]) == 0 && Get32(h, bs[12..16]) == pid
      ensures |under| == m_buf.Length && under[BASE..] == old(m_buf[BASE..])
      ensures var plan := Planned(resolve, pid, msgType);
        && Follows(plan, exts)
        && (exited <==> |exts| < |plan|)
        && (exited ==> plan[|exts|] == None)
      ensures exited <==> !Resolved(Planned(resolve, pid, msgType))
      ensures !exited ==> exts == Listed(resolve, pid, msgType) && Finished(msgType)
    {
      hide Planned, RoomForPlan, Fit, MLen, Built, BaseBytes, ReadBase, BaseOf, Splice, Get16, Get32;
      ghost var plan := Planned(resolve, pid, msgType);
      RoomForBase(platform, m_buf.Length, plan);
      var m_msg := BaseBytes(platform.host, BaseOf(msgType, 0, pid));
      m_len := BASE;
      MemCpy(m_buf, 0, m_msg);
      under, exts := m_buf[..], [];
      SpliceAtStart(old(m_buf[..]), m_msg);
      NothingAppended(platform, under);

      exited := SetForType(msgType, plan);
      if !exited {
        Patch(msgType);
        PlanFollowed(plan, exts);
        BaseAt(platform.host, BaseOf(msgType, m_len / 8, pid), m_buf[..16]);
        BaseFields(msgType, m_len / 8, pid);
      }
      ResolvedExactly(resolve, pid, msgType);
    }

    /** The switch of key_setsadbmsg */
    method SetForType(msgType: u32, ghost plan: seq<Option<Ext>>) returns (exited: bool)
      requires plan == Planned(resolve, pid, msgType)
      requires OnPlan(plan) && exts == []
      modifies this, m_buf
      ensures under == old(under) && Stopped(plan, exited)
    {
      hide Fit, MLen, Built, RoomForPlan, UpdateList, SourceExt, DestinationExt, Identities, SENS_EXT, PROP_EXT,
           SA_EXT, SPIRANGE_EXT;
      if msgType == SADB_GETSPI {
        exited := SetForGetSpi(plan);
      } else if msgType == SADB_ADD {
        exited := PlannedAddr(plan, EXT_ADDRESS_PROXY, AF_INET6, "3ffe::1");
        if !exited {
          exited := SetForUpdate(plan);
        }
      } else if msgType == SADB_UPDATE {
        exited := SetForUpdate(plan);
      } else if msgType == SADB_DELETE || msgType == SADB_GET {
        exited := SetForGet(plan);
      } else if msgType == SADB_ACQUIRE {
        exited := SetForAcquire(plan);
      } else if msgType == SADB_X_SPDADD || msgType == SADB_X_SPDDELETE {
        exited := SetForSpd(plan);
      } else {
        exited := false;
      }
    }

    /** The total length, stored in place once it is known. */
    method Patch(msgType: u32)
      requires Building()
      requires under[..BASE] == BaseBytes(platform.host, BaseOf(msgType, 0, pid))
      modifies m_buf
      ensures Finished(msgType)
    {
      hide Fit, MLen, Built, BaseBytes, ReadBase, Splice;
      BaseStays(platform, under, exts);
      PatchedBase(platform.host, m_buf[..], BaseOf(msgType, 0, pid), m_len / 8 % 0x1_0000);
      MemCpy(m_buf, 4, Put16(platform.host, m_len / 8 % 0x1_0000));
    }
  }

  lemma {:induction false} PlanFollowed(plan: seq<Option<Ext>>, es: seq<Ext>)
    requires Follows(plan, es) && |es| == |plan|
    ensures Resolved(plan) && Values(plan) == es
  {
  }

  lemma {:induction false} RoomForBase(p: Platform, n: nat, plan: seq<Option<Ext>>)
    requires RoomForPlan(p, n, plan)
    ensures BASE <= n
  {
  }

  lemma {:induction false} SpliceAtStart(buf: seq<byte>, bs: seq<byte>)
    requires |bs| <= |buf|
    ensures Splice(buf, 0, bs)[..|bs|] == bs
    ensures Splice(buf, 0, bs)[|bs|..] == buf[|bs|..]
  {
  }

  lemma {:induction false} NothingAppended(p: Platform, buf: seq<byte>)
    requires BASE <= |buf|
    ensures Fit(p, |buf|, []) && MLen(p, []) == BASE && Built(p, buf, []) == buf
  {
  }

  /** No setter touches the base header, and m_len stays inside the buffer. */
  lemma {:induction false} BaseStays(p: Platform, buf: seq<byte>, es: seq<Ext>)
    requires Fit(p, |buf|, es)
    ensures BASE <= MLen(p, es) <= |buf|
    ensures Built(p, buf, es)[..BASE] == buf[..BASE]
  {
    hide Pieces;
    var xs := Pieces(p, es);
    CursorInside(|buf|, xs, |es|);
    assert Image(buf, xs, 0) == buf && Cursor(xs, 0) == BASE;
    CursorMonotone(xs, 0, |es|);
    hide Cursor, Fits;
    SliceStays(buf, xs, 0, 0, BASE);
  }

  /** Storing a total length at offset 4 changes that field of the base header and nothing else. */
  lemma {:induction false} PatchedBase(h: Endian, buf: seq<byte>, b: Base, units: u16)
    requires BASE <= |buf| && buf[..BASE] == BaseBytes(h, b)
    ensures var patched := Splice(buf, 4, Put16(h, units));
      && patched[..BASE] == BaseBytes(h, b.(units := units))
      && patched[BASE..] == buf[BASE..]
  {
    hide Put32, Get32, Get16, ReadBase;
    var patched := Splice(buf, 4, Put16(h, units));
    forall i | 0 <= i < BASE
      ensures patched[..BASE][i] == BaseBytes(h, b.(units := units))[i]
    {
      assert patched[..BASE][i] == if 4 <= i < 6 then Put16(h, units)[i - 4] else BaseBytes(h, b)[i];
    }
  }

  lemma {:induction false} PropPiece(p: Platform)
    ensures Len(p, PROP_EXT) == 8 + p.stride * 2
    ensures PieceOf(p, PROP_EXT).bytes
         == PropStruct(p.host, 8 + p.stride * 2)
          + (CombBytes(p.host, AES_GCM) + CombBytes(p.host, AES_CBC_WITH_SHA2))
    ensures var h, bs := p.host, PieceOf(p, PROP_EXT).bytes;
        && |bs| == 152
        && Get16(h, bs[0..2]) == (8 + p.stride * 2) / 8 % 0x1_0000 && Get16(h, bs[2..4]) == 13
        && bs[4] == 0 && bs[5] == 0 && bs[6] == 0 && bs[7] == 0
        && IsComb(h, bs[8..80], 0, 20, 0, 0, 128, 256)
        && IsComb(h, bs[80..152], 5, 12, 256, 256, 128, 256)
  {
    PropIs(p);
    var h, head := p.host, PropStruct(p.host, 8 + p.stride * 2);
    var first, second := CombBytes(h, AES_GCM), CombBytes(h, AES_CBC_WITH_SHA2);
    hide PropStruct, CombBytes, PieceOf, Get16, AES_GCM, AES_CBC_WITH_SHA2, IsComb;
    PropHead(h, 8 + p.stride * 2);
    ProgramCombs(h);
    Offsets(PieceOf(p, PROP_EXT).bytes, head, first, second);
  }

  lemma {:induction false} Offsets(bs: seq<byte>, head: seq<byte>, first: seq<byte>, second: seq<byte>)
    requires bs == head + (first + second) && |head| == 8 && |first| == 72 && |second| == 72
    ensures bs[0..2] == head[0..2] && bs[2..4] == head[2..4]
    ensures bs[4] == head[4] && bs[5] == head[5] && bs[6] == head[6] && bs[7] == head[7]
    ensures bs[8..80] == first && bs[80..152] == second
  {
  }

  lemma {:induction false} PropIs(p: Platform)
    ensures Len(p, PROP_EXT) == 8 + p.stride * 2
    ensures PieceOf(p, PROP_EXT).bytes
         == PropStruct(p.host, 8 + p.stride * 2)
          + (CombBytes(p.host, AES_GCM) + CombBytes(p.host, AES_CBC_WITH_SHA2))
  {
    hide Header, PropFields, CombsBytes, CombBytes, ReadComb, AES_GCM, AES_CBC_WITH_SHA2;
    TwoCombs(p.host, AES_GCM, AES_CBC_WITH_SHA2);
  }

  lemma {:induction false} TwoCombs(h: Endian, first: Comb, second: Comb)
    ensures CombsBytes(h, [first, second]) == CombBytes(h, first) + CombBytes(h, second)
  {
    hide CombBytes, ReadComb;
    assert [first, second][1..] == [second];
    assert CombsBytes(h, [second]) == CombBytes(h, second) + CombsBytes(h, []);
  }
}
