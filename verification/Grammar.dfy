/**
 The messages that key_setsadbmsg plans against the message grammar of section 3.1 of RFC 2367, most of which
 the comments of test_pfkey.c quote.
 */
module Grammar {
  import opened Bytes
  import opened Extensions
  import opened Schedule

  /** The extension types of a planned message, in order. */
  function KindList(msgType: u32): seq<u16> {
    if msgType == SADB_GETSPI then [EXT_ADDRESS_SRC, EXT_ADDRESS_DST, EXT_SPIRANGE]
    else if msgType == SADB_ADD then [EXT_ADDRESS_PROXY] + UPDATE_KINDS
    else if msgType == SADB_UPDATE then UPDATE_KINDS
    else if msgType == SADB_DELETE || msgType == SADB_GET then
      [EXT_SA, EXT_ADDRESS_SRC, EXT_ADDRESS_DST, EXT_ADDRESS_PROXY]
    else if msgType == SADB_ACQUIRE then
      [EXT_ADDRESS_SRC, EXT_ADDRESS_DST, EXT_ADDRESS_PROXY,
       EXT_IDENTITY_SRC, EXT_IDENTITY_DST, EXT_SENSITIVITY, EXT_PROPOSAL]
    else if msgType == SADB_X_SPDADD || msgType == SADB_X_SPDDELETE then [EXT_ADDRESS_SRC, EXT_ADDRESS_DST]
    else []
  }

  const UPDATE_KINDS: seq<u16> :=
    [EXT_SA, EXT_LIFETIME_HARD, EXT_LIFETIME_SOFT, EXT_ADDRESS_SRC, EXT_ADDRESS_DST,
     EXT_KEY_AUTH, EXT_KEY_ENCRYPT, EXT_IDENTITY_SRC, EXT_IDENTITY_DST, EXT_SENSITIVITY]

  /** The planned extension, if it comes to be, has the given type, and the setter is the one meant for it. */
  ghost predicate HasKind(o: Option<Ext>, kind: u16) {
    o.Some? ==> KindOf(o.value) == kind && ProperKind(o.value)
  }

  lemma {:induction false} AddressKind(resolve: Resolver, ext: u32, af: Family, str: CString)
    requires EXT_ADDRESS_SRC <= ext <= EXT_ADDRESS_PROXY
    ensures HasKind(AddressExt(resolve, ext, af, str), ext)
  {
  }

  lemma {:induction false} OtherKinds(pid: Pid)
    ensures HasKind(Some(SA_EXT), EXT_SA) && HasKind(Some(SENS_EXT), EXT_SENSITIVITY)
    ensures HasKind(Some(SPIRANGE_EXT), EXT_SPIRANGE) && HasKind(Some(PROP_EXT), EXT_PROPOSAL)
    ensures HasKind(Some(LifetimeExt(EXT_LIFETIME_HARD, 10)), EXT_LIFETIME_HARD)
    ensures HasKind(Some(LifetimeExt(EXT_LIFETIME_SOFT, 5)), EXT_LIFETIME_SOFT)
    ensures HasKind(Some(KeyExt(EXT_KEY_AUTH, AUTH_KEY)), EXT_KEY_AUTH)
    ensures HasKind(Some(KeyExt(EXT_KEY_ENCRYPT, ENCRYPT_KEY)), EXT_KEY_ENCRYPT)
    ensures HasKind(Some(IdentExt(pid, EXT_IDENTITY_SRC, SRC_IDENTITY)), EXT_IDENTITY_SRC)
    ensures HasKind(Some(IdentExt(pid, EXT_IDENTITY_DST, DST_IDENTITY)), EXT_IDENTITY_DST)
  {
    hide AES_GCM, AES_CBC_WITH_SHA2, StrBytes;
  }

  lemma {:induction false} PlannedLength(resolve: Resolver, pid: Pid, msgType: u32)
    ensures |Planned(resolve, pid, msgType)| == |KindList(msgType)|
  {
    hide AddressExt, IdentExt, KeyExt, LifetimeExt, SA_EXT, SENS_EXT, PROP_EXT, SPIRANGE_EXT;
  }

  lemma {:induction false} UpdateKind(resolve: Resolver, pid: Pid, k: nat)
    requires k < 10
    ensures |UpdateList(resolve, pid)| == 10
    ensures HasKind(UpdateList(resolve, pid)[k], UPDATE_KINDS[k])
  {
    hide HasKind, AddressExt, IdentExt, KeyExt, LifetimeExt, SA_EXT, SENS_EXT, PROP_EXT, SPIRANGE_EXT;
    OtherKinds(pid);
    AddressKind(resolve, EXT_ADDRESS_SRC, AF_INET, "192.168.1.1");
    AddressKind(resolve, EXT_ADDRESS_DST, AF_INET, "10.0.3.4");
  }

  lemma {:induction false} AcquireKind(resolve: Resolver, pid: Pid, k: nat)
    requires k < 7
    ensures HasKind(Planned(resolve, pid, SADB_ACQUIRE)[k], KindList(SADB_ACQUIRE)[k])
  {
    hide HasKind, AddressExt, IdentExt, KeyExt, LifetimeExt, SA_EXT, SENS_EXT, PROP_EXT, SPIRANGE_EXT,
         UpdateList, UPDATE_KINDS;
    OtherKinds(pid);
    AddressKind(resolve, EXT_ADDRESS_SRC, AF_INET, "192.168.1.1");
    AddressKind(resolve, EXT_ADDRESS_DST, AF_INET, "10.0.3.4");
    AddressKind(resolve, EXT_ADDRESS_PROXY, AF_INET6, "3ffe::1");
  }

  lemma {:induction false} ShortKind(resolve: Resolver, pid: Pid, msgType: u32, k: nat)
    requires msgType !in {SADB_UPDATE, SADB_ADD, SADB_ACQUIRE}
    requires k < |Planned(resolve, pid, msgType)| && k < |KindList(msgType)|
    ensures HasKind(Planned(resolve, pid, msgType)[k], KindList(msgType)[k])
  {
    hide HasKind, AddressExt, IdentExt, KeyExt, LifetimeExt, SA_EXT, SENS_EXT, PROP_EXT, SPIRANGE_EXT,
         UpdateList, UPDATE_KINDS;
    OtherKinds(pid);
    AddressKind(resolve, EXT_ADDRESS_SRC, AF_INET, "192.168.1.1");
    AddressKind(resolve, EXT_ADDRESS_DST, AF_INET, "10.0.3.4");
    AddressKind(resolve, EXT_ADDRESS_PROXY, AF_INET6, "3ffe::1");
    AddressKind(resolve, EXT_ADDRESS_SRC, AF_INET, "10.0.3.4");
    AddressKind(resolve, EXT_ADDRESS_DST, AF_INET, "127.0.0.1");
  }

  lemma {:induction false} PlannedKind(resolve: Resolver, pid: Pid, msgType: u32, k: nat)
    requires k < |Planned(resolve, pid, msgType)| && k < |KindList(msgType)|
    ensures HasKind(Planned(resolve, pid, msgType)[k], KindList(msgType)[k])
  {
    assert |UPDATE_KINDS| == 10;
    if msgType == SADB_UPDATE {
      hide HasKind, UpdateList, UPDATE_KINDS;
      UpdateKind(resolve, pid, k);
    } else if msgType == SADB_ADD {
      AddressKind(resolve, EXT_ADDRESS_PROXY, AF_INET6, "3ffe::1");
      hide HasKind, UpdateList, UPDATE_KINDS, AddressExt;
      if k > 0 {
        UpdateKind(resolve, pid, k - 1);
      }
    } else if msgType == SADB_ACQUIRE {
      assert |KindList(SADB_ACQUIRE)| == 7;
      hide *;
      AcquireKind(resolve, pid, k);
    } else {
      hide HasKind, Planned, KindList;
      ShortKind(resolve, pid, msgType, k);
    }
  }

  /** A listed extension has the type of its place, and was stored by the setter meant for that type. */
  lemma {:induction false} ListedKind(resolve: Resolver, pid: Pid, msgType: u32, k: nat)
    requires Resolved(Planned(resolve, pid, msgType)) && k < |Listed(resolve, pid, msgType)|
    ensures |Listed(resolve, pid, msgType)| == |KindList(msgType)|
    ensures KindOf(Listed(resolve, pid, msgType)[k]) == KindList(msgType)[k]
    ensures ProperKind(Listed(resolve, pid, msgType)[k])
  {
    hide KindOf, ProperKind, Planned, KindList;
    PlannedLength(resolve, pid, msgType);
    PlannedKind(resolve, pid, msgType, k);
  }

  /** The extensions that the grammar demands of a message to the kernel; None where it has no rule for one. */
  function Required(msgType: u32): Option<set<u16>> {
    if msgType == SADB_GETSPI then Some({EXT_ADDRESS_SRC, EXT_ADDRESS_DST, EXT_SPIRANGE})
    else if msgType == SADB_ADD || msgType == SADB_UPDATE then
      Some({EXT_SA, EXT_ADDRESS_SRC, EXT_ADDRESS_DST, EXT_KEY_AUTH, EXT_KEY_ENCRYPT})
    else if msgType == SADB_DELETE || msgType == SADB_GET then
      Some({EXT_SA, EXT_ADDRESS_SRC, EXT_ADDRESS_DST, EXT_ADDRESS_PROXY})
    else if msgType == SADB_ACQUIRE then Some({EXT_ADDRESS_SRC, EXT_ADDRESS_DST, EXT_PROPOSAL})
    else if msgType in {SADB_REGISTER, SADB_FLUSH, SADB_DUMP, SADB_X_PROMISC} then Some({})
    else None
  }

  /** The extensions that the grammar puts in parentheses. */
  function Optional(msgType: u32): set<u16> {
    if msgType == SADB_ADD || msgType == SADB_UPDATE then
      {EXT_LIFETIME_HARD, EXT_LIFETIME_SOFT, EXT_LIFETIME_CURRENT, EXT_ADDRESS_PROXY,
       EXT_IDENTITY_SRC, EXT_IDENTITY_DST, EXT_SENSITIVITY}
    else if msgType == SADB_ACQUIRE then
      {EXT_ADDRESS_PROXY, EXT_IDENTITY_SRC, EXT_IDENTITY_DST, EXT_SENSITIVITY}
    else {}
  }

  lemma {:induction false} KindListsConform(msgType: u32)
    requires Required(msgType).Some?
    ensures var kinds := KindList(msgType);
      && (forall kind :: kind in Required(msgType).value ==> kind in kinds)
      && (forall kind :: kind in kinds ==> kind in Required(msgType).value + Optional(msgType))
  {
    var kinds := KindList(msgType);
    if msgType == SADB_ADD {
      assert kinds == [EXT_ADDRESS_PROXY] + UPDATE_KINDS;
    }
    forall kind | kind in Required(msgType).value
      ensures kind in kinds
    {
      if msgType == SADB_ADD || msgType == SADB_UPDATE {
        var at := if msgType == SADB_ADD then 1 else 0;
        assert kinds[at] == EXT_SA && kinds[at + 3] == EXT_ADDRESS_SRC && kinds[at + 4] == EXT_ADDRESS_DST;
        assert kinds[at + 5] == EXT_KEY_AUTH && kinds[at + 6] == EXT_KEY_ENCRYPT;
      }
    }
  }

  lemma {:induction false} KindListsDistinct(msgType: u32, i: nat, j: nat)
    requires i < j < |KindList(msgType)|
    ensures KindList(msgType)[i] != KindList(msgType)[j]
  {
  }

  /**
   Every planned message holds all the extensions its rule demands and none that the rule does not allow, and
   no message of any type holds two extensions of one type.
   */
  lemma {:induction false} ListedConforms(resolve: Resolver, pid: Pid, msgType: u32)
    requires Resolved(Planned(resolve, pid, msgType))
    ensures var es := Listed(resolve, pid, msgType);
      && (forall i, j :: 0 <= i < j < |es| ==> KindOf(es[i]) != KindOf(es[j]))
      && (Required(msgType).Some? ==>
           && (forall kind :: kind in Required(msgType).value ==> exists k :: 0 <= k < |es| && KindOf(es[k]) == kind)
           && (forall k :: 0 <= k < |es| ==> KindOf(es[k]) in Required(msgType).value + Optional(msgType)))
  {
    hide Planned, KindOf, KindList, Required, Optional;
    var es, kinds := Listed(resolve, pid, msgType), KindList(msgType);
    PlannedLength(resolve, pid, msgType);
    forall k | 0 <= k < |es|
      ensures KindOf(es[k]) == kinds[k]
    {
      ListedKind(resolve, pid, msgType, k);
    }
    forall i, j | 0 <= i < j < |es|
      ensures KindOf(es[i]) != KindOf(es[j])
    {
      KindListsDistinct(msgType, i, j);
    }
    if Required(msgType).Some? {
      KindListsConform(msgType);
      forall kind | kind in Required(msgType).value
        ensures exists k :: 0 <= k < |es| && KindOf(es[k]) == kind
      {
        var k :| 0 <= k < |kinds| && kinds[k] == kind;
        assert KindOf(es[k]) == kind;
      }
    }
  }

  /** Which message types ask for neither a sensitivity nor a proposal. */
  lemma {:induction false} ListsWithoutSensOrProp(resolve: Resolver, pid: Pid, msgType: u32)
    requires Resolved(Planned(resolve, pid, msgType))
    ensures (forall k :: 0 <= k < |Listed(resolve, pid, msgType)| ==>
              !Listed(resolve, pid, msgType)[k].Sens? && !Listed(resolve, pid, msgType)[k].Prop?)
       <==> msgType !in {SADB_UPDATE, SADB_ADD, SADB_ACQUIRE}
  {
    hide KindOf, ProperKind, Planned;
    var es, kinds := Listed(resolve, pid, msgType), KindList(msgType);
    PlannedLength(resolve, pid, msgType);
    forall k | 0 <= k < |es|
      ensures es[k].Sens? <==> kinds[k] == EXT_SENSITIVITY
      ensures es[k].Prop? <==> kinds[k] == EXT_PROPOSAL
    {
      ListedKind(resolve, pid, msgType, k);
      KnownByKind(es[k]);
    }
    if msgType == SADB_UPDATE {
      assert kinds[9] == EXT_SENSITIVITY;
    } else if msgType == SADB_ADD {
      assert kinds[10] == EXT_SENSITIVITY;
    } else if msgType == SADB_ACQUIRE {
      assert kinds[5] == EXT_SENSITIVITY;
    }
  }

  lemma {:induction false} KnownByKind(e: Ext)
    requires ProperKind(e)
    ensures e.Sens? <==> KindOf(e) == EXT_SENSITIVITY
    ensures e.Prop? <==> KindOf(e) == EXT_PROPOSAL
  {
  }
}
