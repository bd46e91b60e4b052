/**
 m_buf is BUFSIZ bytes and no setter checks it: how much of it the planned messages take.
 */
module Capacity {
  import opened Bytes
  import opened Appending
  import opened Extensions
  import opened Runs
  import opened Schedule
  import opened Grammar
  import opened Builder
  import opened FirstRun

  // ---------------------------------------------------------------------
  // One extension
  // ---------------------------------------------------------------------

  /** No address extension takes up more than most bytes. */
  ghost predicate SizedResolver(resolve: Resolver, most: nat) {
    forall af, str, serv ::
      var r := resolve(af, str, serv);
      r.Some? ==> 8 + Align8(|r.value|) <= most
  }

  /** What the program declares for an extension of each type, addresses being at most so long. */
  function CostOf(p: Platform, kind: u16, most: nat): nat {
    if EXT_ADDRESS_SRC <= kind <= EXT_ADDRESS_PROXY then most
    else if EXT_LIFETIME_CURRENT <= kind <= EXT_LIFETIME_SOFT then 32
    else if kind == EXT_KEY_AUTH then 24
    else if kind == EXT_IDENTITY_SRC || kind == EXT_IDENTITY_DST then 40
    else if kind == EXT_SENSITIVITY then 32
    else if kind == EXT_PROPOSAL then 8 + p.stride * 2
    else 16
  }

  ghost predicate Costs(p: Platform, o: Option<Ext>, most: nat) {
    o.Some? ==>
      && Len(p, o.value) <= CostOf(p, KindOf(o.value), most)
      && (o.value.Prop? ==> |o.value.combs| == 2)
  }

  lemma {:induction false} AddressCosts(p: Platform, resolve: Resolver, most: nat, ext: u32, af: Family, str: CString)
    requires SizedResolver(resolve, most) && EXT_ADDRESS_SRC <= ext <= EXT_ADDRESS_PROXY
    ensures Costs(p, AddressExt(resolve, ext, af, str), most)
  {
    hide Align8;
    var serv := if ext == EXT_ADDRESS_PROXY then "0" else "4660";
    if AddressExt(resolve, ext, af, str).Some? {
      assert resolve(af, str, serv).Some?;
      LenOfPayload(p, AddressExt(resolve, ext, af, str).value);
    }
  }

  lemma {:induction false} OthersCost(p: Platform, pid: Pid, most: nat)
    ensures Costs(p, Some(SA_EXT), most) && Costs(p, Some(SENS_EXT), most)
    ensures Costs(p, Some(SPIRANGE_EXT), most) && Costs(p, Some(PROP_EXT), most)
    ensures Costs(p, Some(LifetimeExt(EXT_LIFETIME_HARD, 10)), most)
    ensures Costs(p, Some(LifetimeExt(EXT_LIFETIME_SOFT, 5)), most)
    ensures Costs(p, Some(KeyExt(EXT_KEY_AUTH, AUTH_KEY)), most)
    ensures Costs(p, Some(KeyExt(EXT_KEY_ENCRYPT, ENCRYPT_KEY)), most)
    ensures Costs(p, Some(IdentExt(pid, EXT_IDENTITY_SRC, SRC_IDENTITY)), most)
    ensures Costs(p, Some(IdentExt(pid, EXT_IDENTITY_DST, DST_IDENTITY)), most)
  {
    hide AES_GCM, AES_CBC_WITH_SHA2, StrBytes;
  }

  lemma {:induction false} PlannedCosts(p: Platform, resolve: Resolver, most: nat, pid: Pid, msgType: u32, k: nat)
    requires SizedResolver(resolve, most) && k < |Planned(resolve, pid, msgType)|
    ensures Costs(p, Planned(resolve, pid, msgType)[k], most)
  {
    hide Costs, AddressExt, IdentExt, KeyExt, LifetimeExt, SA_EXT, SENS_EXT, PROP_EXT, SPIRANGE_EXT, SizedResolver;
    OthersCost(p, pid, most);
    AddressCosts(p, resolve, most, EXT_ADDRESS_SRC, AF_INET, "192.168.1.1");
    AddressCosts(p, resolve, most, EXT_ADDRESS_DST, AF_INET, "10.0.3.4");
    AddressCosts(p, resolve, most, EXT_ADDRESS_PROXY, AF_INET6, "3ffe::1");
    AddressCosts(p, resolve, most, EXT_ADDRESS_SRC, AF_INET, "10.0.3.4");
    AddressCosts(p, resolve, most, EXT_ADDRESS_DST, AF_INET, "127.0.0.1");
  }

  // ---------------------------------------------------------------------
  // Whole messages
  // ---------------------------------------------------------------------

  function Total(p: Platform, kinds: seq<u16>, most: nat, k: nat): nat
    requires k <= |kinds|
  {
    if k == 0 then 0 else Total(p, kinds, most, k - 1) + CostOf(p, kinds[k - 1], most)
  }

  lemma {:induction false} TotalMonotone(p: Platform, kinds: seq<u16>, most: nat, j: nat, k: nat)
    requires j <= k <= |kinds|
    ensures Total(p, kinds, most, j) <= Total(p, kinds, most, k)
    decreases k
  {
    if j < k {
      TotalMonotone(p, kinds, most, j, k - 1);
    }
  }

  lemma {:induction false} CursorCosts(p: Platform, es: seq<Ext>, kinds: seq<u16>, most: nat, k: nat)
    requires k <= |es| <= |kinds|
    requires forall j {:trigger es[j]} :: 0 <= j < |es| ==> Len(p, es[j]) <= CostOf(p, kinds[j], most)
    ensures Cursor(Pieces(p, es), k) <= BASE + Total(p, kinds, most, k)
  {
    hide PieceOf, Len, Pieces, CostOf;
    if k > 0 {
      CursorCosts(p, es, kinds, most, k - 1);
      assert Pieces(p, es)[k - 1] == PieceOf(p, es[k - 1]);
    }
  }

  lemma {:induction false} UpdateTotal(p: Platform, most: nat)
    ensures |UPDATE_KINDS| == 10 && Total(p, UPDATE_KINDS, most, 10) == 232 + 2 * most
  {
    var ks := UPDATE_KINDS;
    assert Total(p, ks, most, 0) == 0;
    assert Total(p, ks, most, 2) == 48;
    assert Total(p, ks, most, 4) == 80 + most;
    assert Total(p, ks, most, 6) == 104 + 2 * most;
    assert Total(p, ks, most, 8) == 160 + 2 * most;
  }

  lemma {:induction false} TotalAfter(p: Platform, first: u16, kinds: seq<u16>, most: nat, k: nat)
    requires k <= |kinds|
    ensures Total(p, [first] + kinds, most, k + 1) == CostOf(p, first, most) + Total(p, kinds, most, k)
  {
    hide CostOf;
    if k == 0 {
      assert Total(p, [first] + kinds, most, 0) == 0;
    } else {
      TotalAfter(p, first, kinds, most, k - 1);
    }
  }

  lemma {:induction false} AcquireTotal(p: Platform, most: nat)
    ensures |KindList(SADB_ACQUIRE)| == 7 && KindList(SADB_ACQUIRE)[6] == EXT_PROPOSAL
    ensures Total(p, KindList(SADB_ACQUIRE), most, 6) == 112 + 3 * most
    ensures Total(p, KindList(SADB_ACQUIRE), most, 7) == 120 + 3 * most + p.stride * 2
  {
    var ks := KindList(SADB_ACQUIRE);
    assert Total(p, ks, most, 0) == 0;
    assert Total(p, ks, most, 2) == 2 * most;
    assert Total(p, ks, most, 4) == 3 * most + 40;
    assert Total(p, ks, most, 6) == 3 * most + 112;
  }

  /** Every message other than SADB_ACQUIRE. */
  lemma {:induction false} OtherTotals(p: Platform, msgType: u32, most: nat)
    requires msgType != SADB_ACQUIRE
    ensures Total(p, KindList(msgType), most, |KindList(msgType)|) <= 232 + 3 * most
  {
    UpdateTotal(p, most);
    if msgType == SADB_ADD {
      TotalAfter(p, EXT_ADDRESS_PROXY, UPDATE_KINDS, most, 10);
    } else if msgType != SADB_UPDATE {
      var ks := KindList(msgType);
      assert Total(p, ks, most, 0) == 0;
      assert |ks| >= 2 ==> Total(p, ks, most, 2) <= 16 + 2 * most;
      assert |ks| >= 3 ==> Total(p, ks, most, 3) <= 16 + 2 * most;
    }
  }

  lemma {:induction false} OnlyAcquireProposes(msgType: u32, k: nat)
    requires k < |KindList(msgType)| && KindList(msgType)[k] == EXT_PROPOSAL
    ensures msgType == SADB_ACQUIRE && k == 6
  {
  }

  /** What stands at a place of the plan. */
  lemma {:induction false} PlaceOnPlan(
      p: Platform, resolve: Resolver, most: nat, pid: Pid, msgType: u32, es: seq<Ext>, k: nat)
    requires SizedResolver(resolve, most) && Follows(Planned(resolve, pid, msgType), es) && k < |es|
    ensures |es| <= |KindList(msgType)|
    ensures Len(p, es[k]) <= CostOf(p, KindList(msgType)[k], most)
    ensures es[k].Prop? ==> msgType == SADB_ACQUIRE && k == 6 && |es[k].combs| == 2
  {
    hide Planned, SizedResolver, Len, PROP_EXT, CostOf, KindList;
    PlannedLength(resolve, pid, msgType);
    PlannedKind(resolve, pid, msgType, k);
    PlannedCosts(p, resolve, most, pid, msgType, k);
    if es[k].Prop? {
      OnlyAcquireProposes(msgType, k);
    }
  }

  /** However far the plan has been followed, the cursor and the copied combinations stay below this. */
  lemma {:induction false} FollowingFits(
      p: Platform, resolve: Resolver, most: nat, pid: Pid, msgType: u32, n: nat, es: seq<Ext>)
    requires SizedResolver(resolve, most) && p.stride * 2 <= COMB_SIZE * 2 && 280 + 3 * most <= n
    requires Follows(Planned(resolve, pid, msgType), es)
    ensures Fit(p, n, es)
  {
    hide Planned, SizedResolver, Len, Cursor, Pieces, Fit, CostOf, KindList, Total;
    var kinds := KindList(msgType);
    PlannedLength(resolve, pid, msgType);
    forall k | 0 <= k < |es|
      ensures Len(p, es[k]) <= CostOf(p, kinds[k], most)
      ensures es[k].Prop? ==> msgType == SADB_ACQUIRE && k == 6 && |es[k].combs| == 2
    {
      PlaceOnPlan(p, resolve, most, pid, msgType, es, k);
    }
    CapacityExact(p, n, es);
    CursorCosts(p, es, kinds, most, |es|);
    TotalMonotone(p, kinds, most, |es|, |kinds|);
    if msgType == SADB_ACQUIRE {
      AcquireTotal(p, most);
      if 6 < |es| {
        CursorCosts(p, es, kinds, most, 6);
      }
    } else {
      OtherTotals(p, msgType, most);
    }
  }

  /** A buffer that is large enough for every planned message, and for every write that building it makes. */
  lemma {:induction false} PlansFit(p: Platform, resolve: Resolver, most: nat, pid: Pid, msgType: u32, n: nat)
    requires SizedResolver(resolve, most) && p.stride * 2 <= COMB_SIZE * 2 && 280 + 3 * most <= n
    ensures RoomForPlan(p, n, Planned(resolve, pid, msgType))
  {
    hide Planned, SizedResolver, Follows;
    var plan := Planned(resolve, pid, msgType);
    forall es | Follows(plan, es)
      ensures Fit(p, n, es)
    {
      FollowingFits(p, resolve, most, pid, msgType, n, es);
    }
  }

  /** No socket address is longer than that of IPv6: 400 bytes are enough. */
  lemma {:induction false} SmallPlansFit(p: Platform, resolve: Resolver, pid: Pid, msgType: u32, n: nat)
    requires p.stride * 2 <= COMB_SIZE * 2 && 400 <= n
    requires forall af, str, serv :: var r := resolve(af, str, serv); r.Some? ==> |r.value| <= 28
    ensures RoomForPlan(p, n, Planned(resolve, pid, msgType))
  {
    hide Planned, RoomForPlan;
    forall af, str, serv
      ensures var r := resolve(af, str, serv); r.Some? ==> 8 + Align8(|r.value|) <= 40
    {
      assert resolve(af, str, serv).Some? ==> |resolve(af, str, serv).value| <= 28;
    }
    PlansFit(p, resolve, 40, pid, msgType, n);
  }

  // ---------------------------------------------------------------------
  // The bound is reached
  // ---------------------------------------------------------------------

  lemma {:induction false} PrefixFits(p: Platform, n: nat, es: seq<Ext>, k: nat)
    requires Fit(p, n, es) && k <= |es|
    ensures Fit(p, n, es[..k])
  {
    hide PieceOf, Footprint;
    var xs, ys := Pieces(p, es), Pieces(p, es[..k]);
    forall j | 0 <= j < k
      ensures Cursor(ys, j) + Footprint(ys[j]) <= n
    {
      SameCursor(xs, ys, j);
      assert ys[j] == PieceOf(p, es[j]) == xs[j];
      assert Cursor(xs, j) + Footprint(xs[j]) <= n;
    }
  }

  /** Where every address resolves there is room for the plan exactly when the whole message fits. */
  lemma {:induction false} RoomExactly(p: Platform, n: nat, plan: seq<Option<Ext>>)
    requires Resolved(plan)
    ensures RoomForPlan(p, n, plan) <==> Fit(p, n, Values(plan))
  {
    hide Fit;
    var whole := Values(plan);
    assert Follows(plan, whole);
    if Fit(p, n, whole) {
      forall es | Follows(plan, es)
        ensures Fit(p, n, es)
      {
        assert es == whole[..|es|];
        PrefixFits(p, n, whole, |es|);
      }
      BaseFits(p, n, whole);
    }
  }

  lemma {:induction false} BaseFits(p: Platform, n: nat, es: seq<Ext>)
    requires Fit(p, n, es)
    ensures BASE <= n
  {
  }

  lemma {:induction false} AcquirePlaces(p: Platform, resolve: Resolver, pid: Pid)
    requires Resolved(Planned(resolve, pid, SADB_ACQUIRE))
    ensures var es := Listed(resolve, pid, SADB_ACQUIRE);
      && |es| == 7 && es[6] == PROP_EXT
      && Len(p, es[3]) == 40 && Len(p, es[4]) == 40 && Len(p, es[5]) == 32
    ensures forall k :: 0 <= k < 6 ==> !Listed(resolve, pid, SADB_ACQUIRE)[k].Prop?
  {
    hide StrBytes, AES_GCM, AES_CBC_WITH_SHA2;
  }

  /** The bytes that building an acquire message writes: its three addresses take what they take, the rest 280. */
  lemma {:induction false} AcquireRoom(p: Platform, resolve: Resolver, pid: Pid, n: nat)
    requires Resolved(Planned(resolve, pid, SADB_ACQUIRE)) && p.stride * 2 <= COMB_SIZE * 2
    ensures |Listed(resolve, pid, SADB_ACQUIRE)| == 7
    ensures var es := Listed(resolve, pid, SADB_ACQUIRE);
      RoomForPlan(p, n, Planned(resolve, pid, SADB_ACQUIRE)) <==>
        280 + Len(p, es[0]) + Len(p, es[1]) + Len(p, es[2]) <= n
  {
    PropIsProp(p);
    hide Planned, Cursor, Pieces, Len, Fit, RoomForPlan, PROP_EXT;
    var es := Listed(resolve, pid, SADB_ACQUIRE);
    AcquirePlaces(p, resolve, pid);
    SixLengths(p, es);
    CursorNext(p, es, 6);
    CapacityExact(p, n, es);
    RoomExactly(p, n, Planned(resolve, pid, SADB_ACQUIRE));
  }

  lemma {:induction false} PropIsProp(p: Platform)
    ensures PROP_EXT.Prop? && |PROP_EXT.combs| == 2 && Len(p, PROP_EXT) == 8 + p.stride * 2
  {
  }

  // ---------------------------------------------------------------------
  // No planned message is too long to be accepted
  // ---------------------------------------------------------------------

  /** The first byte of a socket address, its length, is at most 255. */
  lemma {:induction false} BsdIsSized(resolve: Resolver)
    requires BsdResolver(resolve)
    ensures SizedResolver(resolve, 264)
  {
    forall af, str, serv
      ensures var r := resolve(af, str, serv); r.Some? ==> 8 + Align8(|r.value|) <= 264
    {
      assert resolve(af, str, serv).Some? ==> resolve(af, str, serv).value[0] == |resolve(af, str, serv).value|;
    }
  }

  /** No planned message comes near the length at which a receiver refuses it. */
  lemma {:induction false} PlansAreShort(p: Platform, resolve: Resolver, pid: Pid, msgType: u32)
    requires BsdResolver(resolve) && p.stride * 2 < COMB_SIZE
    requires Resolved(Planned(resolve, pid, msgType))
    ensures MLen(p, Listed(resolve, pid, msgType)) <= 1072
  {
    BsdIsSized(resolve);
    hide Planned, SizedResolver, BsdResolver, Cursor, Pieces, Fit;
    var es := Listed(resolve, pid, msgType);
    assert Follows(Planned(resolve, pid, msgType), es);
    FollowingFits(p, resolve, 264, pid, msgType, 1072, es);
    CapacityExact(p, 1072, es);
  }
}
