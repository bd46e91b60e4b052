/**
 The extensions of each message, written out: type numbers, constants, names, and what each name resolves to.
 */
module Contents {
  import opened Bytes
  import opened Extensions
  import opened Schedule

  /** The names that each message type looks up; where one of them is not found, the program exits. */
  lemma {:induction false} ResolvedExactly(resolve: Resolver, pid: Pid, msgType: u32)
    ensures Resolved(Planned(resolve, pid, msgType)) <==>
      && (msgType in {2, 3, 4, 5, 6, 14, 15} ==>
            resolve(AF_INET, "192.168.1.1", "4660") != None && resolve(AF_INET, "10.0.3.4", "4660") != None)
      && (msgType in {3, 4, 5, 6} ==> resolve(AF_INET6, "3ffe::1", "0") != None)
      && (msgType == 1 ==>
            resolve(AF_INET, "10.0.3.4", "4660") != None && resolve(AF_INET, "127.0.0.1", "4660") != None)
  {
    hide StrBytes, AES_GCM, AES_CBC_WITH_SHA2;
    var plan := Planned(resolve, pid, msgType);
    if msgType == 1 {
      assert plan[0] == AddressExt(resolve, 5, AF_INET, "10.0.3.4");
      assert plan[1] == AddressExt(resolve, 6, AF_INET, "127.0.0.1");
    } else if msgType == 2 {
      assert plan[3] == SourceExt(resolve) && plan[4] == DestinationExt(resolve);
    } else if msgType == 3 {
      assert plan[0] == ProxyExt(resolve) && plan[4] == SourceExt(resolve) && plan[5] == DestinationExt(resolve);
    } else if msgType == 4 || msgType == 5 {
      assert plan[1] == SourceExt(resolve) && plan[2] == DestinationExt(resolve) && plan[3] == ProxyExt(resolve);
    } else if msgType == 6 {
      assert plan[0] == SourceExt(resolve) && plan[1] == DestinationExt(resolve) && plan[2] == ProxyExt(resolve);
    } else if msgType == 14 || msgType == 15 {
      assert plan[0] == SourceExt(resolve) && plan[1] == DestinationExt(resolve);
    }
  }

  /** SADB_GETSPI */
  lemma {:induction false} GetSpiContents(resolve: Resolver, pid: Pid, src: seq<byte>, dst: seq<byte>)
    requires Resolved(Planned(resolve, pid, 1))
    requires resolve(AF_INET, "10.0.3.4", "4660") == Some(src) && resolve(AF_INET, "127.0.0.1", "4660") == Some(dst)
    ensures Listed(resolve, pid, 1) == [Address(5, 6, 32, src), Address(6, 6, 32, dst), SpiRange(0x1000, 0x2000)]
  {
  }

  /** SADB_UPDATE */
  lemma {:induction false} UpdateContents(resolve: Resolver, pid: Pid, src: seq<byte>, dst: seq<byte>)
    requires Resolved(Planned(resolve, pid, 2))
    requires resolve(AF_INET, "192.168.1.1", "4660") == Some(src) && resolve(AF_INET, "10.0.3.4", "4660") == Some(dst)
    ensures Listed(resolve, pid, 2) ==
      [Sa(0x12345678, 4, 0, 0, 20, 0), Lifetime(3, 2, 0x1000, 10, 0x20), Lifetime(4, 2, 0x1000, 5, 0x20),
       Address(5, 6, 32, src), Address(6, 6, 32, dst),
       Key(8, StrBytes("1234567812345678")), Key(9, StrBytes("12345678")),
       Ident(10, 3, pid, StrBytes("hoge1234@hoge.com")), Ident(11, 3, pid, StrBytes("hage5678@hage.net")),
       Sens(1, 2, 3, 0x01234567, 0x89abcdef)]
  {
    hide StrBytes;
  }

  /** SADB_ADD, which falls into SADB_UPDATE */
  lemma {:induction false} AddContents(resolve: Resolver, pid: Pid, proxy: seq<byte>)
    requires Resolved(Planned(resolve, pid, 2)) && Resolved(Planned(resolve, pid, 3))
    requires resolve(AF_INET6, "3ffe::1", "0") == Some(proxy)
    ensures Listed(resolve, pid, 3) == [Address(7, 0, 128, proxy)] + Listed(resolve, pid, 2)
  {
    hide UpdateList;
    var es, fs := Listed(resolve, pid, 3), Listed(resolve, pid, 2);
    assert forall k :: 0 <= k < |fs| ==> Planned(resolve, pid, 3)[k + 1] == Planned(resolve, pid, 2)[k];
    assert es[1..] == fs;
  }

  /** SADB_DELETE and SADB_GET */
  lemma {:induction false} GetContents(
      resolve: Resolver, pid: Pid, msgType: u32, src: seq<byte>, dst: seq<byte>, proxy: seq<byte>)
    requires msgType in {4, 5} && Resolved(Planned(resolve, pid, msgType))
    requires resolve(AF_INET, "192.168.1.1", "4660") == Some(src) && resolve(AF_INET, "10.0.3.4", "4660") == Some(dst)
    requires resolve(AF_INET6, "3ffe::1", "0") == Some(proxy)
    ensures Listed(resolve, pid, msgType) ==
      [Sa(0x12345678, 4, 0, 0, 20, 0), Address(5, 6, 32, src), Address(6, 6, 32, dst), Address(7, 0, 128, proxy)]
  {
  }

  /** SADB_ACQUIRE */
  lemma {:induction false} AcquireContents(
      resolve: Resolver, pid: Pid, src: seq<byte>, dst: seq<byte>, proxy: seq<byte>)
    requires Resolved(Planned(resolve, pid, 6))
    requires resolve(AF_INET, "192.168.1.1", "4660") == Some(src) && resolve(AF_INET, "10.0.3.4", "4660") == Some(dst)
    requires resolve(AF_INET6, "3ffe::1", "0") == Some(proxy)
    ensures Listed(resolve, pid, 6) ==
      [Address(5, 6, 32, src), Address(6, 6, 32, dst), Address(7, 0, 128, proxy),
       Ident(10, 3, pid, StrBytes("hoge1234@hoge.com")), Ident(11, 3, pid, StrBytes("hage5678@hage.net")),
       Sens(1, 2, 3, 0x01234567, 0x89abcdef),
       Prop(0, [Comb(CombLimits(0, 20, 0, 0, 0, 128, 256, 0, 0, 0), CombTimes(0, 0, 0, 0, 0, 0)),
                Comb(CombLimits(5, 12, 0, 256, 256, 128, 256, 0, 0, 0), CombTimes(0, 0, 0, 0, 0, 0))])]
  {
    hide StrBytes;
  }

  /** SADB_X_SPDADD and SADB_X_SPDDELETE */
  lemma {:induction false} SpdContents(resolve: Resolver, pid: Pid, msgType: u32, src: seq<byte>, dst: seq<byte>)
    requires msgType in {14, 15} && Resolved(Planned(resolve, pid, msgType))
    requires resolve(AF_INET, "192.168.1.1", "4660") == Some(src) && resolve(AF_INET, "10.0.3.4", "4660") == Some(dst)
    ensures Listed(resolve, pid, msgType) == [Address(5, 6, 32, src), Address(6, 6, 32, dst)]
  {
  }

  /** All other types: the base header alone */
  lemma {:induction false} NoContents(resolve: Resolver, pid: Pid, msgType: u32)
    requires Resolved(Planned(resolve, pid, msgType))
    ensures Listed(resolve, pid, msgType) == [] <==> msgType !in {1, 2, 3, 4, 5, 6, 14, 15}
  {
    hide AddressExt, IdentExt, KeyExt, LifetimeExt, SA_EXT, SENS_EXT, PROP_EXT, SPIRANGE_EXT;
  }
}
