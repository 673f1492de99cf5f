/**
 * Bytes, IPv6 addresses and the fixed layout of the packet buffer `uip_buf`
 * as seen by the Neighbor Discovery engine (RFC 4861 section 4, RFC 6775
 * section 4.1).  The link-layer header length is zero and no IPv6 extension
 * header precedes the ICMPv6 header, so the IPv6 header starts at 0 and the
 * ICMPv6 header at 40.
 */
module Wire {

  type byte = x: int | 0 <= x < 256

  /** A 128-bit IPv6 address, network byte order. */
  type Addr = s: seq<byte> | |s| == 16 witness [0, 0, 0, 0, 0, 0, 0, 0, 0, 0, 0, 0, 0, 0, 0, 0]

  /** An IEEE 802.15.4 long (EUI-64) link-layer address. */
  type LlAddr = s: seq<byte> | |s| == 8 witness [0, 0, 0, 0, 0, 0, 0, 0]

  // ---- IPv6 header (RFC 8200 section 3) ----
  const VTC := 0
  const TCFLOW := 1
  const FLOW := 2
  const PAYLOAD_LEN := 4
  const PROTO := 6
  const TTL := 7
  const SRC := 8
  const DST := 24
  const IPH_LEN := 40

  // ---- ICMPv6 header ----
  const ICMP_TYPE := 40
  const ICMP_CODE := 41
  const ICMP_CHKSUM := 42
  const ICMPH_LEN := 4
  /** uip_l3_icmp_hdr_len: where the ND message body starts. */
  const BODY := 44

  const PROTO_ICMP6 := 58
  const ND6_HOP_LIMIT := 255

  const ICMP6_RS := 133
  const ICMP6_RA := 134
  const ICMP6_NS := 135
  const ICMP6_NA := 136

  // ---- ND message bodies (after the ICMPv6 header) ----
  const NS_LEN := 20
  const NA_LEN := 20
  const RS_LEN := 4
  const RA_LEN := 12
  /** NS and NA carry the target address 4 bytes into the body. */
  const TARGET := 48
  /** First byte of NA: R, S and O flags. */
  const NA_FLAGS := 44
  const RA_CUR_TTL := 44
  const RA_FLAGS := 45
  const RA_ROUTER_LIFETIME := 46
  const RA_REACHABLE := 48
  const RA_RETRANS := 52

  const NA_FLAG_ROUTER := 0x80
  const NA_FLAG_SOLICITED := 0x40
  const NA_FLAG_OVERRIDE := 0x20

  // ---- ND options ----
  const OPT_SLLAO := 1
  const OPT_TLLAO := 2
  const OPT_PREFIX_INFO := 3
  const OPT_MTU := 5
  const OPT_ARO := 33

  const LLADDR_LEN := 8
  const OPT_LLAO_LEN := 16
  const OPT_ARO_LEN := 16
  const OPT_MTU_LEN := 8
  const OPT_PREFIX_INFO_LEN := 32

  const ARO_STATUS_SUCCESS := 0
  const ARO_STATUS_DUPLICATE := 1
  const ARO_STATUS_RTR_NC_FULL := 2

  const RA_FLAG_ONLINK := 0x80
  const RA_FLAG_AUTONOMOUS := 0x40
  const INFINITE_LIFETIME := 0xFFFF_FFFF
  const DEFAULT_PREFIX_LEN := 64

  /** The largest message this engine builds: an NA with a TLLAO and an ARO. */
  const MIN_BUFSIZE := 96

  /** `b` with `x` written at `at` (a memcpy into the buffer). */
  function Write(b: seq<byte>, at: nat, x: seq<byte>): (r: seq<byte>)
    requires at + |x| <= |b|
    ensures |r| == |b|
    ensures r[at..at + |x|] == x
    ensures forall i {:trigger r[i]} :: 0 <= i < |b| && !(at <= i < at + |x|) ==> r[i] == b[i]
  {
    seq(|b|, i requires 0 <= i < |b| => if at <= i < at + |x| then x[i - at] else b[i])
  }

  /** A write leaves every slice that does not overlap it unchanged. */
  lemma WriteElsewhere(b: seq<byte>, at: nat, x: seq<byte>, lo: nat, hi: nat)
    requires at + |x| <= |b| && lo <= hi <= |b| && (hi <= at || at + |x| <= lo)
    ensures Write(b, at, x)[lo..hi] == b[lo..hi]
  {
    assert forall i :: lo <= i < hi ==> Write(b, at, x)[i] == b[i];
  }

  /** Two sequences that agree on a slice agree on every slice inside it. */
  lemma SliceWithin(x: seq<byte>, y: seq<byte>, lo: nat, hi: nat, a: nat, c: nat)
    requires lo <= a <= c <= hi <= |x| && hi <= |y| && x[lo..hi] == y[lo..hi]
    ensures x[a..c] == y[a..c]
  {
    assert forall i :: a <= i < c ==> x[i] == x[lo..hi][i - lo] && y[i] == y[lo..hi][i - lo];
  }

  /** A slice of a slice whose contents are known. */
  lemma SliceOfKnown(x: seq<byte>, lo: nat, hi: nat, y: seq<byte>, a: nat, c: nat)
    requires lo <= a <= c <= hi <= |x| && x[lo..hi] == y
    ensures x[a..c] == y[a - lo..c - lo]
  {
    assert forall i :: a <= i < c ==> x[i] == x[lo..hi][i - lo];
  }

  /** A slice made of two known slices. */
  lemma SliceJoin(x: seq<byte>, lo: nat, mid: nat, hi: nat, u: seq<byte>, v: seq<byte>)
    requires lo <= mid <= hi <= |x| && x[lo..mid] == u && x[mid..hi] == v
    ensures x[lo..hi] == u + v
  {
    assert x[lo..hi] == x[lo..mid] + x[mid..hi];
  }

  function Zeros(n: nat): (r: seq<byte>)
    ensures |r| == n && forall i :: 0 <= i < n ==> r[i] == 0
  {
    seq(n, i => 0)
  }

  function BE16(b: seq<byte>, at: nat): nat
    requires at + 2 <= |b|
  {
    (b[at] as int) * 256 + b[at + 1]
  }

  function BE32(b: seq<byte>, at: nat): nat
    requires at + 4 <= |b|
  {
    (((b[at] as int) * 256 + b[at + 1]) * 256 + b[at + 2]) * 256 + b[at + 3]
  }

  /** uip_htons: a 16-bit value as two bytes, network order (truncating). */
  function BE16Bytes(v: nat): (r: seq<byte>)
    ensures |r| == 2
  {
    [(v / 256) % 256, v % 256]
  }

  function BE32Bytes(v: nat): (r: seq<byte>)
    ensures |r| == 4
  {
    [(v / 16777216) % 256, (v / 65536) % 256, (v / 256) % 256, v % 256]
  }

  /** Four bytes read in network order and written back are the same four bytes. */
  lemma BE32BytesOf(b: seq<byte>, at: nat)
    requires at + 4 <= |b|
    ensures BE32(b, at) < 0x1_0000_0000 && BE32Bytes(BE32(b, at)) == b[at..at + 4]
  {
    var v := BE32(b, at);
    assert v / 16777216 == b[at];
    assert (v / 65536) % 256 == b[at + 1];
    assert (v / 256) % 256 == b[at + 2];
  }

  lemma BE16RoundTrip(v: nat)
    requires v < 65536
    ensures BE16(BE16Bytes(v), 0) == v
  {
  }

  lemma BE32RoundTrip(v: nat)
    requires v < 0x1_0000_0000
    ensures BE32(BE32Bytes(v), 0) == v
  {
    var a, q := v / 256, v % 256;
    var a2, q2 := a / 256, a % 256;
    var a3, q3 := a2 / 256, a2 % 256;
    assert v == a * 256 + q;
    assert a == a2 * 256 + q2;
    assert a2 == a3 * 256 + q3;
    assert a3 < 256;
    assert (v / 65536) == a2;
    assert (v / 16777216) == a3;
  }

  /** uip_htons on a value wider than 16 bits keeps its low 16 bits. */
  lemma BE16Low(v: nat)
    ensures BE16(BE16Bytes(v), 0) == v % 65536
  {
    var q, r := v / 256, v % 256;
    assert v == 256 * q + r;
    var q2, r2 := q / 256, q % 256;
    assert q == 256 * q2 + r2;
    assert v == 65536 * q2 + (256 * r2 + r);
    assert v / 65536 == q2 && v % 65536 == 256 * r2 + r;
  }

  // ---- address classes (Contiki's uip_is_addr_* macros) ----

  const Unspecified: Addr := Zeros(16)

  predicate IsUnspecified(a: Addr) { a == Unspecified }

  predicate IsMcast(a: Addr) { a[0] == 0xff }

  predicate IsLinkLocal(a: Addr) { a[0] == 0xfe && a[1] == 0x80 }

  /** ff02::1:ffXX:XXXX */
  predicate IsSolicitedNode(a: Addr)
  {
    a[0] == 0xff && a[1] == 0x02 && a[2..11] == Zeros(9) && a[11] == 0x01 && a[12] == 0xff
  }

  /** uip_create_solicited_node: ff02::1:ff00:0/104 plus the low 24 bits of `a`. */
  function SolicitedNode(a: Addr): (r: Addr)
    ensures IsSolicitedNode(r) && IsMcast(r) && r[13..] == a[13..]
  {
    [0xff, 0x02] + Zeros(9) + [0x01, 0xff] + a[13..]
  }

  /** ff02::1 */
  const AllNodes: Addr := [0xff, 0x02] + Zeros(13) + [0x01]

  /** ff02::2 */
  const AllRouters: Addr := [0xff, 0x02] + Zeros(13) + [0x02]

  /** Flip the universal/local bit (0x02) of an EUI-64's first byte. */
  function FlipUniversalLocal(x: byte): (r: byte)
    ensures r != x && (r / 2) % 2 != (x / 2) % 2
  {
    if (x / 2) % 2 == 1 then x - 2 else x + 2
  }

  /** uip_ds6_set_addr_iid: the interface identifier derived from an EUI-64. */
  function WithIid(a: Addr, ll: LlAddr): (r: Addr)
    ensures r[..8] == a[..8] && r[9..] == ll[1..] && r[8] == FlipUniversalLocal(ll[0])
  {
    a[..8] + [FlipUniversalLocal(ll[0])] + ll[1..]
  }

  /** uip_ipaddr_prefixcmp: compares only the whole bytes of the prefix length. */
  predicate PrefixMatches(a: Addr, b: Addr, len: nat)
  {
    var n := if len / 8 <= 16 then len / 8 else 16;
    a[..n] == b[..n]
  }
}
