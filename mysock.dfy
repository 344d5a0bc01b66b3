/**
 * Peer-address helpers (mysock.c): the address equality the eviction rule
 * counts by, and the text form of a peer address.
 */
module MySock {
  import opened Util

  const AF_UNIX: int := 1
  const AF_INET: int := 2
  const AF_INET6: int := 10

  /** Bytes of a sockaddr_storage after its 2-byte family field. */
  const STORAGE_BYTES: nat := 126
  /** Size of sockaddr_un.sun_path, which starts right after the family. */
  const SUN_PATH: nat := 108

  type StorageBytes = b: seq<char> | |b| == STORAGE_BYTES
    witness seq(STORAGE_BYTES, _ => '\0')

  /**
   * struct sockaddr_storage: the family and the remaining bytes. Viewed as a
   * sockaddr_in, bytes 0-1 are the port and bytes 2-5 the IPv4 address; viewed
   * as a sockaddr_in6, bytes 0-1 are the port, 2-5 the flow label and 6-21
   * the IPv6 address; viewed as a sockaddr_un, bytes 0-107 are sun_path.
   */
  datatype SockAddr = SockAddr(family: int, bytes: StorageBytes)

  function InAddr(a: SockAddr): seq<char> { a.bytes[2..6] }
  function SunPath(a: SockAddr): string { CString(a.bytes[..SUN_PATH]) }

  /**
   * sockets_same_addr: different families never match; AF_INET compares the
   * 32-bit address only; every other family compares sun_path as a C string.
   */
  predicate SameAddr(a: SockAddr, b: SockAddr)
  {
    a.family == b.family &&
    if a.family == AF_INET then InAddr(a) == InAddr(b) else SunPath(a) == SunPath(b)
  }

  /** The comparison is an equivalence: every slot matches itself, and matching is symmetric and transitive. */
  lemma SameAddrEquivalence(a: SockAddr, b: SockAddr, c: SockAddr)
    ensures SameAddr(a, a)
    ensures SameAddr(a, b) ==> SameAddr(b, a)
    ensures SameAddr(a, b) && SameAddr(b, c) ==> SameAddr(a, c)
  {
  }

  /** Addresses of different families never compare equal. */
  lemma DifferentFamilies(a: SockAddr, b: SockAddr)
    requires a.family != b.family
    ensures !SameAddr(a, b)
  {
  }

  /** Two IPv4 peers with the same address but any ports compare equal. */
  lemma InetIgnoresPort(a: SockAddr, b: SockAddr)
    requires a.family == AF_INET == b.family
    ensures SameAddr(a, b) <==> a.bytes[2..6] == b.bytes[2..6]
  {
  }

  /**
   * For AF_INET6 the sun_path view starts at the port: two IPv6 peers whose
   * port's high byte is zero compare equal whatever their addresses are.
   */
  lemma Inet6ComparesFromPort(a: SockAddr, b: SockAddr)
    requires a.family == AF_INET6 == b.family
    requires a.bytes[0] == '\0' && b.bytes[0] == '\0'
    ensures SameAddr(a, b)
  {
  }

  /** Two IPv6 peers: equal when their bytes agree up to the first NUL from the port on. */
  lemma Inet6SamePrefix(a: SockAddr, b: SockAddr, n: nat)
    requires a.family == AF_INET6 == b.family
    requires n < SUN_PATH && a.bytes[..n] == b.bytes[..n] && '\0' !in a.bytes[..n]
    requires a.bytes[n] == '\0' && b.bytes[n] == '\0'
    ensures SameAddr(a, b)
  {
    CStringOfTerminated(a.bytes[..SUN_PATH], a.bytes[..n]);
    CStringOfTerminated(b.bytes[..SUN_PATH], b.bytes[..n]);
  }

  /** What get_socket_inaddr reports and leaves in its destination. */
  datatype AddrText = AddrText(ret: int, text: string)

  /** snprintf(str, len, lit): the destination keeps at most len-1 bytes of lit (nothing when len is 0). */
  function Snprintf(len: nat, lit: string): (r: Option<string>)
    ensures len == 0 <==> r.None?
    ensures r.Some? ==> r.value <= lit && |r.value| < len
    ensures r.Some? && |lit| < len ==> r.value == lit
  {
    if len == 0 then None
    else if |lit| < len then Some(lit)
    else Some(lit[..len - 1])
  }

  /**
   * get_socket_inaddr: AF_INET and AF_INET6 go through inet_ntop, whose
   * result (None for failure) is a parameter; AF_UNIX writes "uds" and any
   * other family "-", both returning 0. `prev` is what str held before, kept
   * when nothing is written.
   */
  function GetSocketInaddr(a: SockAddr, len: nat, ntop: Option<string>, prev: string): (r: AddrText)
    ensures r.ret == 0 || r.ret == 1
    ensures (a.family == AF_INET || a.family == AF_INET6) ==>
      (r.ret == 1 <==> ntop.None?) && (ntop.Some? ==> r.text == ntop.value)
    ensures a.family == AF_UNIX ==> r.ret == 0 && (len > 3 ==> r.text == "uds")
    ensures a.family !in {AF_INET, AF_INET6, AF_UNIX} ==> r.ret == 0 && (len > 1 ==> r.text == "-")
    ensures len == 0 && a.family !in {AF_INET, AF_INET6} ==> r.text == prev
  {
    if a.family == AF_INET || a.family == AF_INET6 then
      match ntop
      case None => AddrText(1, prev)
      case Some(t) => AddrText(0, t)
    else
      var lit := if a.family == AF_UNIX then "uds" else "-";
      match Snprintf(len, lit)
      case None => AddrText(0, prev)
      case Some(t) => AddrText(0, t)
  }
}
