/**
 The messages of the first run of testp, when m_buf still holds the zeros it starts with.
 */
module FirstRun {
  import opened Bytes
  import opened Appending
  import opened Walking
  import opened Extensions
  import opened Reading
  import opened Runs
  import opened Schedule
  import opened Guarantees

  /** What can be said of a setter call alone when its stale bytes are zeros. */
  ghost predicate FreshReadable(p: Platform, e: Ext) {
    && ProperKind(e)
    && match e
       case Address(_, _, _, sockaddr) => sockaddr != [] && sockaddr[0] == |sockaddr|
       case Key(_, key) => |key| < 8192
       case Ident(_, _, _, name) => name == [] || name[|name| - 1] != 0
       case Sens(_, _, _, _, _) => false
       case Prop(_, combs) => p.stride * 2 / COMB_SIZE == |combs|
       case _ => true
  }

  lemma {:induction false} ReadableOverZeros(p: Platform, e: Ext, under: seq<byte>)
    requires |under| == Len(p, e) && AllZero(under)
    ensures Readable(p, e, Stale(p, e, under)) <==> FreshReadable(p, e)
  {
    hide ProperKind, Fields, Value;
    assert AllZero(Stale(p, e, under));
  }

  /** Zeros from the base header on are zeros under every extension that no earlier proposal reaches into. */
  lemma {:induction false} ZerosUnder(p: Platform, buf: seq<byte>, es: seq<Ext>, k: nat)
    requires Fit(p, |buf|, es) && k < |es| && ClearBefore(p, es, k)
    requires BASE <= |buf| && AllZero(buf[BASE..])
    ensures AllZero(Under(buf, Pieces(p, es), k))
  {
    hide Pieces, PieceOf, Headed, AllZero, Under, Clear, ClearBefore;
    var xs := Pieces(p, es);
    ClearPieces(p, es, k);
    UnderIsStale(buf, xs, k);
    ZeroSlice(buf, BASE, Cursor(xs, k), Cursor(xs, k) + 8 * xs[k].units);
  }

  lemma {:induction false} ZeroSlice(buf: seq<byte>, base: nat, lo: nat, hi: nat)
    requires base <= lo <= hi <= |buf| && AllZero(buf[base..])
    ensures AllZero(buf[lo..hi])
  {
    forall i | 0 <= i < hi - lo
      ensures buf[lo..hi][i] == 0
    {
      assert buf[base..][lo + i - base] == 0;
    }
  }

  /** On zeros, what a receiver reads depends on the setter calls alone. */
  lemma {:induction false} FreshExactly(p: Platform, buf: seq<byte>, es: seq<Ext>, k: nat)
    requires Fit(p, |buf|, es) && k < |es| && ClearBefore(p, es, k)
    requires BASE <= |buf| && AllZero(buf[BASE..])
    ensures ReadsAt(p.host, Found(p, buf, es), k, es[k]) <==> FreshReadable(p, es[k])
  {
    hide Found, Decode, Readable, FreshReadable, Under, Stale, Fits, Pieces, PieceOf, Headed, AllZero,
         ClearBefore, KindOf;
    FoundExactly(p, buf, es, k);
    ZerosUnder(p, buf, es, k);
    UnderSize(p, buf, es, k);
    ReadableOverZeros(p, es[k], Under(buf, Pieces(p, es), k));
  }

  lemma {:induction false} UnderSize(p: Platform, buf: seq<byte>, es: seq<Ext>, k: nat)
    requires Fit(p, |buf|, es) && k < |es|
    ensures |Under(buf, Pieces(p, es), k)| == Len(p, es[k])
  {
    hide PieceOf, Len, Under;
  }

  // ---------------------------------------------------------------------
  // The two extensions that are not read back
  // ---------------------------------------------------------------------

  /**
   A receiver refuses every sensitivity extension; one that counts its lengths in bytes accepts it, and takes
   the stale word under its second block for its integrity word.
   */
  lemma {:induction false} SensReads(p: Platform, e: Ext, under: seq<byte>)
    requires e.Sens? && |under| == Len(p, e)
    ensures var raw := RawOf(p.host, PieceOf(p, e), under);
      && Decode(p.host, raw) == None
      && |raw.body| == 28 && |Stale(p, e, under)| == 8
      && DecodeSensInBytes(p.host, raw.body[..12], raw.body[12..])
           == Some(e.(integ := Get32(Big, Stale(p, e, under)[..4])))
  {
    BodyParts(p, e, under);
    var raw, fields, stale := RawOf(p.host, PieceOf(p, e), under), Fields(p.host, e), Stale(p, e, under);
    var payload := Value(p.host, e) + stale;
    PayloadDispatch(p.host, raw, e, fields, payload);
    assert |stale| == 8;
    FieldsLoad(p.host, e);
    SplitBytes(fields, payload);
    hide RawOf, PieceOf, Decode, Stale, Put32, Get32, DecodeSens, DecodeSensInBytes, Fields;
    SensRefused(p.host, fields, payload);
    SensInBytes(p.host, e, fields, stale);
  }

  /**
   The setter stores byte counts in two fields that section 2.3.6 of RFC 2367 counts in 64-bit words: as bytes
   they fill the extension exactly, as words they would run past its end.
   */
  lemma {:induction false} SensLengthsAreBytes(p: Platform, e: Ext, under: seq<byte>)
    requires e.Sens? && |under| == Len(p, e)
    ensures var raw := RawOf(p.host, PieceOf(p, e), under);
      && 16 + raw.body[5] + raw.body[7] == 4 + |raw.body|
      && 16 + 8 * (raw.body[5] + raw.body[7]) > 4 + |raw.body|
  {
    BodyParts(p, e, under);
    var raw, fields := RawOf(p.host, PieceOf(p, e), under), Fields(p.host, e);
    FieldsLoad(p.host, e);
    hide PieceOf, RawOf, Put32, Get32, Stale;
    assert raw.body[5] == fields[5] && raw.body[7] == fields[7];
  }

  /** A proposal declared by the size of a pointer is read as a proposal of nothing, whatever it was given. */
  lemma {:induction false} PropReadsEmpty(p: Platform, e: Ext, under: seq<byte>)
    requires e.Prop? && |under| == Len(p, e)
    requires p.stride * 2 < COMB_SIZE
    ensures Decode(p.host, RawOf(p.host, PieceOf(p, e), under)) == Some(Prop(e.replay, []))
  {
    hide RawOf, PieceOf, CombsBytes, Decode, Stale, Contained, Filled, Len;
    var raw := RawOf(p.host, PieceOf(p, e), under);
    BodyParts(p, e, under);
    PropReplay(p, e, under);
    PropSizes(p, e, under);
    PropDispatch(p.host, raw);
  }

  // ---------------------------------------------------------------------
  // The planned messages
  // ---------------------------------------------------------------------

  /** A socket address as BSD stacks make it: its first byte is its length. */
  ghost predicate BsdResolver(resolve: Resolver) {
    forall af, str, serv ::
      var r := resolve(af, str, serv);
      r.Some? ==> r.value != [] && r.value[0] == |r.value|
  }

  lemma {:induction false} AddressReadable(p: Platform, resolve: Resolver, ext: u32, af: Family, str: CString)
    requires BsdResolver(resolve) && EXT_ADDRESS_SRC <= ext <= EXT_ADDRESS_PROXY
    requires AddressExt(resolve, ext, af, str).Some?
    ensures AddressExt(resolve, ext, af, str).value.Address?
    ensures FreshReadable(p, AddressExt(resolve, ext, af, str).value)
  {
    var serv := if ext == EXT_ADDRESS_PROXY then "0" else "4660";
    assert resolve(af, str, serv).Some?;
  }

  /** A planned extension is read back unless it is a sensitivity or a proposal. */
  ghost predicate WellPlanned(p: Platform, o: Option<Ext>) {
    o.Some? ==> (FreshReadable(p, o.value) <==> !o.value.Sens? && !o.value.Prop?)
  }

  lemma {:induction false} AddressWellPlanned(p: Platform, resolve: Resolver, ext: u32, af: Family, str: CString)
    requires BsdResolver(resolve) && EXT_ADDRESS_SRC <= ext <= EXT_ADDRESS_PROXY
    ensures WellPlanned(p, AddressExt(resolve, ext, af, str))
  {
    hide BsdResolver;
    if AddressExt(resolve, ext, af, str).Some? {
      AddressReadable(p, resolve, ext, af, str);
    }
  }

  lemma {:induction false} IdentityWellPlanned(p: Platform, pid: Pid, ext: u32, str: CString)
    requires ext == EXT_IDENTITY_SRC || ext == EXT_IDENTITY_DST
    ensures WellPlanned(p, Some(IdentExt(pid, ext, str)))
  {
    var name := StrBytes(str);
    assert name == [] || name[|name| - 1] != 0;
  }

  lemma {:induction false} OthersWellPlanned(p: Platform)
    requires p.stride * 2 < COMB_SIZE
    ensures WellPlanned(p, Some(SA_EXT)) && WellPlanned(p, Some(SENS_EXT))
    ensures WellPlanned(p, Some(SPIRANGE_EXT)) && WellPlanned(p, Some(PROP_EXT))
    ensures WellPlanned(p, Some(LifetimeExt(EXT_LIFETIME_HARD, 10)))
    ensures WellPlanned(p, Some(LifetimeExt(EXT_LIFETIME_SOFT, 5)))
    ensures WellPlanned(p, Some(KeyExt(EXT_KEY_AUTH, AUTH_KEY)))
    ensures WellPlanned(p, Some(KeyExt(EXT_KEY_ENCRYPT, ENCRYPT_KEY)))
  {
    hide AES_GCM, AES_CBC_WITH_SHA2, StrBytes;
  }

  lemma {:induction false} AllWellPlanned(p: Platform, resolve: Resolver, pid: Pid, msgType: u32, k: nat)
    requires p.stride * 2 < COMB_SIZE && BsdResolver(resolve)
    requires k < |Planned(resolve, pid, msgType)|
    ensures WellPlanned(p, Planned(resolve, pid, msgType)[k])
  {
    hide WellPlanned, AddressExt, IdentExt, KeyExt, LifetimeExt, SA_EXT, SENS_EXT, PROP_EXT, SPIRANGE_EXT, BsdResolver;
    OthersWellPlanned(p);
    IdentityWellPlanned(p, pid, EXT_IDENTITY_SRC, SRC_IDENTITY);
    IdentityWellPlanned(p, pid, EXT_IDENTITY_DST, DST_IDENTITY);
    AddressWellPlanned(p, resolve, EXT_ADDRESS_SRC, AF_INET, "192.168.1.1");
    AddressWellPlanned(p, resolve, EXT_ADDRESS_DST, AF_INET, "10.0.3.4");
    AddressWellPlanned(p, resolve, EXT_ADDRESS_PROXY, AF_INET6, "3ffe::1");
    AddressWellPlanned(p, resolve, EXT_ADDRESS_SRC, AF_INET, "10.0.3.4");
    AddressWellPlanned(p, resolve, EXT_ADDRESS_DST, AF_INET, "127.0.0.1");
  }

  lemma {:induction false} PropsComeLast(resolve: Resolver, pid: Pid, msgType: u32, k: nat)
    requires k + 1 < |Planned(resolve, pid, msgType)| && Planned(resolve, pid, msgType)[k].Some?
    ensures !Planned(resolve, pid, msgType)[k].value.Prop?
  {
    hide AES_GCM, AES_CBC_WITH_SHA2, PROP_EXT, StrBytes;
  }

  /** The only proposal of a planned message comes last. */
  lemma {:induction false} PlannedIsClear(p: Platform, resolve: Resolver, pid: Pid, msgType: u32, k: nat)
    requires Resolved(Planned(resolve, pid, msgType)) && k < |Listed(resolve, pid, msgType)|
    ensures ClearBefore(p, Listed(resolve, pid, msgType), k)
  {
    hide Planned;
    var es := Listed(resolve, pid, msgType);
    forall j | 0 <= j < k
      ensures !es[j].Prop?
    {
      PropsComeLast(resolve, pid, msgType, j);
    }
    FittingIsClear(p, es, k);
  }

  /**
   The first message of the program, of any type, with addresses as BSD makes them: a receiver reads every
   extension as listed, except that it never finds the integrity word of a sensitivity nor the combinations
   of a proposal.
   */
  lemma {:induction false} FirstMessage(
      p: Platform, resolve: Resolver, pid: Pid, msgType: u32, buf: seq<byte>, k: nat)
    requires p.stride * 2 < COMB_SIZE && BsdResolver(resolve)
    requires Resolved(Planned(resolve, pid, msgType))
    requires var es := Listed(resolve, pid, msgType); Fit(p, |buf|, es) && k < |es|
    requires BASE <= |buf| && AllZero(buf[BASE..])
    ensures var es := Listed(resolve, pid, msgType);
      ReadsAt(p.host, Found(p, buf, es), k, es[k]) <==> !es[k].Sens? && !es[k].Prop?
  {
    hide Planned, FreshReadable, BsdResolver, Fit, Found, ReadsAt, AllZero, ClearBefore;
    var es := Listed(resolve, pid, msgType);
    AllWellPlanned(p, resolve, pid, msgType, k);
    PlannedIsClear(p, resolve, pid, msgType, k);
    FreshExactly(p, buf, es, k);
  }
}
