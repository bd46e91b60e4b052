/**
 The extensions that each setter of test_pfkey.c appends, and the list that key_setsadbmsg asks for.
 */
module Schedule {
  import opened Bytes
  import opened Extensions

  // Message types (RFC 2367, section 2.1; 13 and up from the KAME headers)
  const SADB_GETSPI: u32 := 1
  const SADB_UPDATE: u32 := 2
  const SADB_ADD: u32 := 3
  const SADB_DELETE: u32 := 4
  const SADB_GET: u32 := 5
  const SADB_ACQUIRE: u32 := 6
  const SADB_REGISTER: u32 := 7
  const SADB_FLUSH: u32 := 9
  const SADB_DUMP: u32 := 10
  const SADB_X_PROMISC: u32 := 11
  const SADB_X_SPDADD: u32 := 14
  const SADB_X_SPDDELETE: u32 := 15

  const SADB_AALG_NONE: byte := 0
  const SADB_X_AALG_SHA2_256: byte := 5
  const SADB_X_EALG_RIJNDAELCBC: byte := 12
  const SADB_X_EALG_AESGCM16: byte := 20
  const SADB_IDENTTYPE_USERFQDN: u16 := 3
  const IPPROTO_TCP: byte := 6

  /** A NUL-terminated string of 8-bit characters, without its terminator. */
  type CString = s: string | forall c :: c in s ==> 0 < c as int < 0x100

  /** The bytes that strlen counts and memcpy copies. */
  function StrBytes(s: CString): (bs: seq<byte>)
    ensures |bs| == |s|
    ensures forall i :: 0 <= i < |bs| ==> bs[i] == s[i] as int && bs[i] != 0
  {
    seq(|s|, i requires 0 <= i < |s| => assert s[i] in s; s[i] as int)
  }

  /** getpid() returns a positive pid_t. */
  type Pid = x: int | 0 < x < 0x8000_0000 witness 1

  /** The address families that key_setsadbaddr tells apart. */
  datatype Family = AF_INET | AF_INET6 | AF_OTHER

  /** getaddrinfo with a numeric host and service: the one socket address found, or None. */
  type Resolver = (Family, CString, string) -> Option<seq<byte>>

  // ---------------------------------------------------------------------
  // What each setter appends
  // ---------------------------------------------------------------------

  /** An extension type is passed as an unsigned int and stored in 16 bits. */
  function Kind(ext: u32): u16 {
    ext % 0x1_0000
  }

  const SA_EXT := Sa(0x12345678, 4, 0, SADB_AALG_NONE, SADB_X_EALG_AESGCM16, 0)
  const SENS_EXT := Sens(1, 2, 3, 0x01234567, 0x89abcdef)
  const SPIRANGE_EXT := SpiRange(0x00001000, 0x00002000)
  const PROP_EXT := Prop(0, [AES_GCM, AES_CBC_WITH_SHA2])

  const NO_TIMES := CombTimes(0, 0, 0, 0, 0, 0)
  const AES_GCM :=
    Comb(CombLimits(SADB_AALG_NONE, SADB_X_EALG_AESGCM16, 0, 0, 0, 128, 256, 0, 0, 0), NO_TIMES)
  const AES_CBC_WITH_SHA2 :=
    Comb(CombLimits(SADB_X_AALG_SHA2_256, SADB_X_EALG_RIJNDAELCBC, 0, 256, 256, 128, 256, 0, 0, 0), NO_TIMES)

  function LifetimeExt(ext: u32, time: u32): Ext {
    Lifetime(Kind(ext), 0x2, 0x1000, time, 0x0020)
  }

  function KeyExt(ext: u32, str: CString): Ext {
    Key(Kind(ext), StrBytes(str))
  }

  function IdentExt(pid: Pid, ext: u32, str: CString): Ext {
    Ident(Kind(ext), SADB_IDENTTYPE_USERFQDN, pid, StrBytes(str))
  }

  function PrefixLength(af: Family): byte {
    if af == AF_INET then 32 else 128
  }

  /** None where key_setsadbaddr exits: an unknown family, a name that does not resolve to one address. */
  function AddressExt(resolve: Resolver, ext: u32, af: Family, str: CString): Option<Ext> {
    if af == AF_OTHER then None
    else
      match resolve(af, str, if ext == EXT_ADDRESS_PROXY then "0" else "4660")
      case None => None
      case Some(sockaddr) =>
        Some(Address(Kind(ext), if ext == EXT_ADDRESS_PROXY then 0 else IPPROTO_TCP, PrefixLength(af), sockaddr))
  }

  // ---------------------------------------------------------------------
  // The list for each message type
  // ---------------------------------------------------------------------

  const AUTH_KEY: CString := "1234567812345678"
  const ENCRYPT_KEY: CString := "12345678"
  const SRC_IDENTITY: CString := "hoge1234@hoge.com"
  const DST_IDENTITY: CString := "hage5678@hage.net"

  function SourceExt(resolve: Resolver): Option<Ext> {
    AddressExt(resolve, EXT_ADDRESS_SRC, AF_INET, "192.168.1.1")
  }

  function DestinationExt(resolve: Resolver): Option<Ext> {
    AddressExt(resolve, EXT_ADDRESS_DST, AF_INET, "10.0.3.4")
  }

  function ProxyExt(resolve: Resolver): Option<Ext> {
    AddressExt(resolve, EXT_ADDRESS_PROXY, AF_INET6, "3ffe::1")
  }

  function Identities(pid: Pid): seq<Option<Ext>> {
    [Some(IdentExt(pid, EXT_IDENTITY_SRC, SRC_IDENTITY)), Some(IdentExt(pid, EXT_IDENTITY_DST, DST_IDENTITY))]
  }

  function UpdateList(resolve: Resolver, pid: Pid): seq<Option<Ext>> {
    [Some(SA_EXT), Some(LifetimeExt(EXT_LIFETIME_HARD, 10)), Some(LifetimeExt(EXT_LIFETIME_SOFT, 5)),
     SourceExt(resolve), DestinationExt(resolve),
     Some(KeyExt(EXT_KEY_AUTH, AUTH_KEY)), Some(KeyExt(EXT_KEY_ENCRYPT, ENCRYPT_KEY))]
    + Identities(pid) + [Some(SENS_EXT)]
  }

  /** What key_setsadbmsg appends for a message type, None standing for an address at which it exits. */
  function Planned(resolve: Resolver, pid: Pid, msgType: u32): seq<Option<Ext>> {
    if msgType == SADB_GETSPI then
      [AddressExt(resolve, EXT_ADDRESS_SRC, AF_INET, "10.0.3.4"),
       AddressExt(resolve, EXT_ADDRESS_DST, AF_INET, "127.0.0.1"),
       Some(SPIRANGE_EXT)]
    else if msgType == SADB_ADD then [ProxyExt(resolve)] + UpdateList(resolve, pid)
    else if msgType == SADB_UPDATE then UpdateList(resolve, pid)
    else if msgType == SADB_DELETE || msgType == SADB_GET then
      [Some(SA_EXT), SourceExt(resolve), DestinationExt(resolve), ProxyExt(resolve)]
    else if msgType == SADB_ACQUIRE then
      [SourceExt(resolve), DestinationExt(resolve), ProxyExt(resolve)]
      + Identities(pid) + [Some(SENS_EXT), Some(PROP_EXT)]
    else if msgType == SADB_X_SPDADD || msgType == SADB_X_SPDDELETE then
      [SourceExt(resolve), DestinationExt(resolve)]
    else []  // the base header alone: all other cases of the switch, and types that it does not name
  }

  /** Every address resolves, so that the message is built to its end. */
  predicate Resolved(os: seq<Option<Ext>>) {
    forall k :: 0 <= k < |os| ==> os[k].Some?
  }

  function Values(os: seq<Option<Ext>>): (es: seq<Ext>)
    requires Resolved(os)
    ensures |es| == |os|
    ensures forall k :: 0 <= k < |es| ==> os[k] == Some(es[k])
  {
    seq(|os|, k requires 0 <= k < |os| => os[k].value)
  }

  /** The extensions of a message of the given type. */
  function Listed(resolve: Resolver, pid: Pid, msgType: u32): seq<Ext>
    requires Resolved(Planned(resolve, pid, msgType))
  {
    Values(Planned(resolve, pid, msgType))
  }
}
