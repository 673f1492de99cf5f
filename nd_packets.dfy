/**
 * The packets the ND engine builds in uip_buf: uip_nd6_create_na,
 * uip_nd6_append_icmp_opt, create_llao, create_aro, the checksum update and
 * the three output routines.  Each builder is the sequence of stores the
 * source performs, in the source's order, so that a store that overwrites a
 * byte a later read uses is visible.
 */
module NdPackets {
  import opened Wire
  import opened Ds6
  import opened Nd6Config
  import opened NdOptions

  /** uip_buf and uip_len. */
  datatype Pkt = Pkt(b: seq<byte>, len: nat)

  function Src(b: seq<byte>): Addr
    requires |b| >= IPH_LEN
  {
    b[SRC..SRC + 16]
  }

  function Dst(b: seq<byte>): Addr
    requires |b| >= IPH_LEN
  {
    b[DST..DST + 16]
  }

  /** The target address of an NS or NA. */
  function Target(b: seq<byte>): Addr
    requires |b| >= TARGET + 16
  {
    b[TARGET..TARGET + 16]
  }

  /** `(x & mask) != 0` for a one-bit mask 2^k. */
  predicate HasBit(x: byte, mask: nat)
    requires mask > 0
  {
    (x / mask) % 2 == 1
  }

  /** The bitwise complement of a 16-bit value (`~` stored back into a uint16_t). */
  function Complement(x: Bytes2): (r: Bytes2)
    ensures BE16(r, 0) == 65535 - BE16(x, 0)
  {
    [255 - x[0], 255 - x[1]]
  }

  /** uip_nd6_update_icmp_checksum: zero the field, then store the complemented checksum. */
  function WithChecksum(cfg: Config, p: Pkt): (r: Pkt)
    requires |p.b| >= MIN_BUFSIZE
  {
    var z := Write(p.b, ICMP_CHKSUM, [0, 0]);
    Pkt(Write(z, ICMP_CHKSUM, Complement(cfg.checksum(z, p.len))), p.len)
  }

  /** Where copied data comes from: a value outside uip_buf, or 8 bytes of uip_buf. */
  datatype Source = Value(v: LlAddr) | At(at: nat)

  predicate Readable(b: seq<byte>, s: Source)
  {
    s.At? ==> s.at + 8 <= |b|
  }

  function Read8(b: seq<byte>, s: Source): LlAddr
    requires Readable(b, s)
  {
    if s.Value? then s.v else b[s.at..s.at + 8]
  }

  /** The fixed IPv6 header fields: version 6, zero traffic class and flow, ICMPv6, hop limit 255. */
  function IpFixed(b: seq<byte>): (r: seq<byte>)
    requires |b| >= MIN_BUFSIZE
    ensures |r| == |b|
  {
    Write(Write(b, VTC, [0x60, 0, 0, 0]), PROTO, [PROTO_ICMP6, ND6_HOP_LIMIT])
  }

  /**
   * uip_nd6_create_na: `src` and `dst` are the values the two address
   * arguments held on entry, `tgt` the value its target argument holds once
   * the header is written.
   */
  function CreateNa(b: seq<byte>, src: Addr, dst: Addr, tgt: Addr, flags: byte): (r: Pkt)
    requires |b| >= MIN_BUFSIZE
    ensures |r.b| == |b| && r.len == IPH_LEN + ICMPH_LEN + NA_LEN
  {
    var b1 := Write(Write(b, DST, dst), SRC, src);
    var b2 := Write(b1, VTC, [0x60, 0, 0, 0, 0, ICMPH_LEN + NA_LEN, PROTO_ICMP6, ND6_HOP_LIMIT]);
    var b3 := Write(Write(b2, ICMP_TYPE, [ICMP6_NA, 0]), NA_FLAGS, [flags]);
    Pkt(Write(b3, TARGET, tgt), IPH_LEN + ICMPH_LEN + NA_LEN)
  }

  /** `UIP_IP_BUF->len[1] += n` on a uint8_t. */
  function GrowLen(b: seq<byte>, n: nat): (r: seq<byte>)
    requires |b| >= IPH_LEN
    ensures |r| == |b|
  {
    Write(b, PAYLOAD_LEN + 1, [(b[PAYLOAD_LEN + 1] + n) % 256])
  }

  /** uip_nd6_append_icmp_opt for an SLLAO or TLLAO: type, length 2, the address, six bytes of padding. */
  function AppendLlao(p: Pkt, kind: byte, data: Source): (r: Pkt)
    requires |p.b| >= MIN_BUFSIZE && p.len + OPT_LLAO_LEN <= |p.b|
    requires Readable(p.b, data)
    ensures |r.b| == |p.b| && r.len == p.len + OPT_LLAO_LEN
  {
    var b1 := Write(p.b, p.len, [kind, OPT_LLAO_LEN / 8]);
    var b2 := Write(b1, p.len + 2, Read8(b1, data) + [0, 0, 0, 0, 0, 0]);
    Pkt(GrowLen(b2, OPT_LLAO_LEN), p.len + OPT_LLAO_LEN)
  }

  /**
   * uip_nd6_append_icmp_opt for an ARO: type, length 2, status, zero
   * reserved fields, the lifetime as passed (already in network order), the
   * EUI-64.
   */
  function AppendAro(p: Pkt, status: byte, lifetime: Bytes2, eui: Source): (r: Pkt)
    requires |p.b| >= MIN_BUFSIZE && p.len + OPT_ARO_LEN <= |p.b|
    requires Readable(p.b, eui)
    ensures |r.b| == |p.b| && r.len == p.len + OPT_ARO_LEN
  {
    var b1 := Write(p.b, p.len, [OPT_ARO, OPT_ARO_LEN / 8, status, 0, 0, 0] + lifetime);
    var b2 := Write(b1, p.len + 8, Read8(b1, eui));
    Pkt(GrowLen(b2, OPT_ARO_LEN), p.len + OPT_ARO_LEN)
  }

  /** create_llao: an SLLAO or TLLAO carrying uip_lladdr at `at`. */
  function Llao(cfg: Config, b: seq<byte>, at: nat, kind: byte): (r: seq<byte>)
    requires at + OPT_LLAO_LEN <= |b|
    ensures |r| == |b|
  {
    Write(b, at, [kind, OPT_LLAO_LEN / 8] + cfg.myLl + [0, 0, 0, 0, 0, 0])
  }

  /**
   * create_aro: type, length 2, status 0, the lifetime truncated to 16 bits,
   * uip_lladdr; the reserved bytes are not written.
   */
  function Aro(cfg: Config, b: seq<byte>, at: nat, lifetime: nat): (r: seq<byte>)
    requires at + OPT_ARO_LEN <= |b|
    ensures |r| == |b|
  {
    Write(Write(b, at, [OPT_ARO, OPT_ARO_LEN / 8, ARO_STATUS_SUCCESS]), at + 6, BE16Bytes(lifetime % 65536) + cfg.myLl)
  }

  /** uip_nd6_ra_output. */
  function RaOutput(cfg: Config, b: seq<byte>, addrs: seq<AddrEntry>, iface: Iface, dest: Option<Addr>): (r: Pkt)
    requires |b| >= MIN_BUFSIZE
    ensures |r.b| == |b|
  {
    var dst := if dest.Some? then dest.value else AllNodes;
    var b1 := Write(IpFixed(b), DST, dst);
    var b2 := Write(b1, SRC, cfg.selectSrc(addrs, dst));
    var b3 := Write(b2, ICMP_TYPE, [ICMP6_RA, 0]);
    WithChecksum(cfg, Pkt(RaBody(cfg, b3, iface), IPH_LEN + ICMPH_LEN + RA_LEN + OPT_LLAO_LEN + OPT_MTU_LEN))
  }

  /**
   * The RA body of uip_nd6_ra_output: hop limit, M/O flags, router lifetime,
   * zero reachable and retransmission times, an SLLAO, an MTU option of 1500,
   * and the payload length.
   */
  function RaBody(cfg: Config, b: seq<byte>, iface: Iface): (r: seq<byte>)
    requires |b| >= MIN_BUFSIZE
    ensures |r| == |b|
  {
    var flags := (if cfg.mFlag then 0x80 else 0) + (if cfg.oFlag then 0x40 else 0);
    var b4 := Write(b, BODY, [iface.curHopLimit, flags] + BE16Bytes(cfg.routerLifetime) + [0, 0, 0, 0, 0, 0, 0, 0]);
    var b5 := Llao(cfg, b4, BODY + RA_LEN, OPT_SLLAO);
    var b6 := Write(b5, BODY + RA_LEN + OPT_LLAO_LEN, [OPT_MTU, OPT_MTU_LEN / 8, 0, 0] + BE32Bytes(1500));
    Write(b6, PAYLOAD_LEN, [0, RA_LEN + ICMPH_LEN + OPT_LLAO_LEN + OPT_MTU_LEN])
  }

  /** uip_nd6_rs_output: an SLLAO only when a source address is available; the reserved field is not written. */
  function RsOutput(cfg: Config, b: seq<byte>, addrs: seq<AddrEntry>): (r: Pkt)
    requires |b| >= MIN_BUFSIZE
    ensures |r.b| == |b|
  {
    var b1 := Write(IpFixed(b), DST, AllRouters);
    var src := cfg.selectSrc(addrs, AllRouters);
    var b2 := Write(Write(b1, SRC, src), ICMP_TYPE, [ICMP6_RS, 0]);
    var b3 := Write(b2, PAYLOAD_LEN, [0]);
    if IsUnspecified(src) then
      WithChecksum(cfg, Pkt(Write(b3, PAYLOAD_LEN + 1, [ICMPH_LEN + RS_LEN]), BODY + RS_LEN))
    else
      var b4 := Write(b3, PAYLOAD_LEN + 1, [ICMPH_LEN + RS_LEN + OPT_LLAO_LEN]);
      WithChecksum(cfg, Pkt(Llao(cfg, b4, BODY + RS_LEN, OPT_SLLAO), BODY + RS_LEN + OPT_LLAO_LEN))
  }

  /** The 6LoWPAN-ND tail of uip_nd6_ns_output: an SLLAO, an ARO, and the payload length. */
  function NsSixLoOptions(cfg: Config, b: seq<byte>, reachableTime: nat): (r: seq<byte>)
    requires |b| >= MIN_BUFSIZE
    ensures |r| == |b|
  {
    var b4 := Llao(cfg, b, BODY + NS_LEN, OPT_SLLAO);
    var b5 := Aro(cfg, b4, BODY + NS_LEN + OPT_LLAO_LEN, reachableTime);
    Write(b5, PAYLOAD_LEN + 1, [ICMPH_LEN + NS_LEN + OPT_LLAO_LEN + OPT_ARO_LEN])
  }

  /** The result of uip_nd6_ns_output: the packet, and where nd6_opt_aro points afterwards. */
  datatype NsOut = NsOut(p: Pkt, aroAt: Option<nat>)

  /**
   * uip_nd6_ns_output.  Classic: an SLLAO unless the target is one of our
   * addresses (then the source is ::); no suitable source drops the packet.
   * 6LoWPAN-ND: always an SLLAO and an ARO.  RPL: neither, and uip_len is
   * left as it was.
   */
  function NsOutput(cfg: Config, b: seq<byte>, len: nat, addrs: seq<AddrEntry>, reachableTime: nat,
                    src: Option<Addr>, dest: Option<Addr>, tgt: Addr, aroAt: Option<nat>): (r: NsOut)
    requires |b| >= MIN_BUFSIZE
    ensures |r.p.b| == |b|
  {
    var b1 := Write(Write(IpFixed(b), ICMP_TYPE, [ICMP6_NS, 0]), BODY, [0, 0, 0, 0]);
    var b2 := Write(Write(b1, TARGET, tgt), PAYLOAD_LEN, [0]);
    var dst := if dest.Some? then dest.value else SolicitedNode(tgt);
    var b3 := Write(b2, DST, dst);
    var s := if src.Some? then src.value else cfg.selectSrc(addrs, dst);
    match cfg.engine
    case Classic =>
      if AddrLookup(addrs, tgt).None? then
        var b4 := Write(b3, SRC, s);
        if IsUnspecified(s) then NsOut(Pkt(b4, 0), aroAt)
        else
          var b5 := Llao(cfg, Write(b4, PAYLOAD_LEN + 1, [ICMPH_LEN + NS_LEN + OPT_LLAO_LEN]), BODY + NS_LEN, OPT_SLLAO);
          NsOut(WithChecksum(cfg, Pkt(b5, BODY + NS_LEN + OPT_LLAO_LEN)), aroAt)
      else
        var b4 := Write(Write(b3, SRC, Unspecified), PAYLOAD_LEN + 1, [ICMPH_LEN + NS_LEN]);
        NsOut(WithChecksum(cfg, Pkt(b4, BODY + NS_LEN)), aroAt)
    case SixLo =>
      NsOut(WithChecksum(cfg, Pkt(NsSixLoOptions(cfg, Write(b3, SRC, s), reachableTime), BODY + NS_LEN + OPT_LLAO_LEN + OPT_ARO_LEN)),
            Some(BODY + NS_LEN + OPT_LLAO_LEN))
    case Rpl =>
      NsOut(WithChecksum(cfg, Pkt(b3, len)), aroAt)
  }

  // ---- what the builders produce, read back through the option parser ----

  /** The checksum update touches only the checksum field. */
  lemma ChecksumElsewhere(cfg: Config, p: Pkt, lo: nat, hi: nat)
    requires |p.b| >= MIN_BUFSIZE && lo <= hi <= |p.b| && (hi <= ICMP_CHKSUM || BODY <= lo)
    ensures WithChecksum(cfg, p).b[lo..hi] == p.b[lo..hi] && WithChecksum(cfg, p).len == p.len
  {
    var z := Write(p.b, ICMP_CHKSUM, [0, 0]);
    WriteElsewhere(p.b, ICMP_CHKSUM, [0, 0], lo, hi);
    WriteElsewhere(z, ICMP_CHKSUM, Complement(cfg.checksum(z, p.len)), lo, hi);
  }

  /** The checksum update keeps both addresses, the target, the flags and the message type. */
  lemma ChecksumKeepsHeader(cfg: Config, p: Pkt)
    requires |p.b| >= MIN_BUFSIZE
    ensures var q := WithChecksum(cfg, p);
      && Src(q.b) == Src(p.b) && Dst(q.b) == Dst(p.b) && Target(q.b) == Target(p.b)
      && q.b[NA_FLAGS] == p.b[NA_FLAGS] && q.b[ICMP_TYPE] == p.b[ICMP_TYPE] && q.len == p.len
  {
    var q := WithChecksum(cfg, p);
    ChecksumElsewhere(cfg, p, 0, ICMP_CHKSUM);
    ChecksumElsewhere(cfg, p, BODY, TARGET + 16);
    SliceWithin(q.b, p.b, 0, ICMP_CHKSUM, SRC, SRC + 16);
    SliceWithin(q.b, p.b, 0, ICMP_CHKSUM, DST, DST + 16);
    SliceWithin(q.b, p.b, BODY, TARGET + 16, TARGET, TARGET + 16);
    assert q.b[NA_FLAGS] == q.b[BODY..TARGET + 16][0] == p.b[NA_FLAGS];
    assert q.b[ICMP_TYPE] == q.b[0..ICMP_CHKSUM][ICMP_TYPE] == p.b[ICMP_TYPE];
  }

  /**
   * The options of a 6LoWPAN-ND NS: an SLLAO at 64 and an ARO at 80, both
   * carrying uip_lladdr, with status 0 and `lifetime` truncated to 16 bits.
   */
  predicate SixLoNsOpts(cfg: Config, b: seq<byte>, lifetime: nat)
    requires |b| >= MIN_BUFSIZE
  {
    && b[64] == OPT_SLLAO && b[65] == 2 && b[66..74] == cfg.myLl
    && b[80] == OPT_ARO && b[81] == 2 && b[82] == ARO_STATUS_SUCCESS
    && BE16(b, 86) == lifetime % 65536 && b[88..96] == cfg.myLl
  }

  lemma SixLoNsOptsWritten(cfg: Config, b: seq<byte>, rt: nat)
    requires |b| >= MIN_BUFSIZE
    ensures SixLoNsOpts(cfg, NsSixLoOptions(cfg, b, rt), rt)
  {
    var llao := [OPT_SLLAO, 2] + cfg.myLl + [0, 0, 0, 0, 0, 0];
    var b4 := Write(b, 64, llao);
    var a3: seq<byte> := [OPT_ARO, 2, ARO_STATUS_SUCCESS];
    var lt := BE16Bytes(rt % 65536);
    var b5a := Write(b4, 80, a3);
    var b5 := Write(b5a, 86, lt + cfg.myLl);
    var b6 := Write(b5, PAYLOAD_LEN + 1, [56]);
    assert b6 == NsSixLoOptions(cfg, b, rt);
    WriteElsewhere(b4, 80, a3, 64, 80);
    WriteElsewhere(b5a, 86, lt + cfg.myLl, 64, 83);
    WriteElsewhere(b5, PAYLOAD_LEN + 1, [56], 64, 96);
    SliceWithin(b6, b5, 64, 96, 64, 80);
    SliceWithin(b6, b5, 64, 96, 80, 83);
    SliceWithin(b6, b5, 64, 96, 86, 96);
    SliceWithin(b5, b5a, 64, 83, 64, 80);
    SliceWithin(b5, b5a, 64, 83, 80, 83);
    assert b6[64..80] == llao;
    assert b6[80..83] == a3;
    assert b6[86..96] == lt + cfg.myLl;
    SliceOfKnown(b6, 64, 80, llao, 66, 74);
    SliceOfKnown(b6, 86, 96, lt + cfg.myLl, 88, 96);
    SliceOfKnown(b6, 86, 96, lt + cfg.myLl, 86, 88);
    assert b6[64] == b6[64..80][0] && b6[65] == b6[64..80][1];
    assert b6[80] == b6[80..83][0] && b6[81] == b6[80..83][1] && b6[82] == b6[80..83][2];
    assert BE16(b6, 86) == BE16(lt, 0);
    BE16Low(rt % 65536);
  }

  /** Two buffers that agree from the message body on agree on everything the walker reads. */
  lemma SixLoNsOptsKept(cfg: Config, x: seq<byte>, y: seq<byte>, rt: nat)
    requires |x| >= MIN_BUFSIZE && |y| >= MIN_BUFSIZE && x[BODY..96] == y[BODY..96] && SixLoNsOpts(cfg, x, rt)
    ensures SixLoNsOpts(cfg, y, rt)
  {
    SliceWithin(x, y, BODY, 96, 66, 74);
    SliceWithin(x, y, BODY, 96, 88, 96);
    assert forall i :: BODY <= i < 96 ==> x[i] == x[BODY..96][i - BODY] && y[i] == y[BODY..96][i - BODY];
  }

  lemma SixLoNsWalk(cfg: Config, b: seq<byte>, rt: nat)
    requires |b| >= MIN_BUFSIZE && SixLoNsOpts(cfg, b, rt)
    ensures Walk(b, 96, NS_LEN) == Chain([Opt(OPT_SLLAO, 2, 64), Opt(OPT_ARO, 2, 80)], Completed)
  {
    assert Walk(b, 96, 52) == Chain([], Completed);
    assert Walk(b, 96, 36) == Chain([Opt(OPT_ARO, 2, 80)], Completed);
  }

  /**
   * A 6LoWPAN-ND NS leaves with an SLLAO and then an ARO that both carry
   * uip_lladdr, with status 0 and the reachable time (truncated to 16 bits)
   * as lifetime, and the NS walker reads exactly those two options back.
   */
  lemma {:induction false} NsOutputSixLoParses(cfg: Config, b: seq<byte>, len: nat, addrs: seq<AddrEntry>, rt: nat,
                                               src: Option<Addr>, dest: Option<Addr>, tgt: Addr, aroAt: Option<nat>)
    requires |b| >= MIN_BUFSIZE && cfg.engine == SixLo
    ensures var r := NsOutput(cfg, b, len, addrs, rt, src, dest, tgt, aroAt);
      && r.p.len == BODY + NS_LEN + OPT_LLAO_LEN + OPT_ARO_LEN
      && r.aroAt == Some(BODY + NS_LEN + OPT_LLAO_LEN)
      && SixLoNsOpts(cfg, r.p.b, rt)
      && Walk(r.p.b, r.p.len, NS_LEN) == Chain([Opt(OPT_SLLAO, 2, 64), Opt(OPT_ARO, 2, 80)], Completed)
  {
    var r := NsOutput(cfg, b, len, addrs, rt, src, dest, tgt, aroAt);
    var b1 := Write(Write(IpFixed(b), ICMP_TYPE, [ICMP6_NS, 0]), BODY, [0, 0, 0, 0]);
    var b2 := Write(Write(b1, TARGET, tgt), PAYLOAD_LEN, [0]);
    var dst := if dest.Some? then dest.value else SolicitedNode(tgt);
    var s := if src.Some? then src.value else cfg.selectSrc(addrs, dst);
    var x := NsSixLoOptions(cfg, Write(Write(b2, DST, dst), SRC, s), rt);
    assert r.p == WithChecksum(cfg, Pkt(x, 96));
    SixLoNsOptsWritten(cfg, Write(Write(b2, DST, dst), SRC, s), rt);
    ChecksumElsewhere(cfg, Pkt(x, 96), BODY, 96);
    SixLoNsOptsKept(cfg, x, r.p.b, rt);
    SixLoNsWalk(cfg, r.p.b, rt);
  }

  /** The header uip_nd6_ns_output writes before it looks at the engine. */
  lemma NsHeaderWritten(b: seq<byte>, tgt: Addr, dst: Addr)
    requires |b| >= MIN_BUFSIZE
    ensures var b1 := Write(Write(IpFixed(b), ICMP_TYPE, [ICMP6_NS, 0]), BODY, [0, 0, 0, 0]);
      var b3 := Write(Write(Write(b1, TARGET, tgt), PAYLOAD_LEN, [0]), DST, dst);
      && Dst(b3) == dst && Target(b3) == tgt && Src(b3) == Src(b)
      && b3[ICMP_TYPE] == ICMP6_NS && b3[PAYLOAD_LEN] == 0
  {
    var b0 := IpFixed(b);
    assert Src(b0) == Src(b) by {
      WriteElsewhere(b, VTC, [0x60, 0, 0, 0], SRC, SRC + 16);
      WriteElsewhere(Write(b, VTC, [0x60, 0, 0, 0]), PROTO, [PROTO_ICMP6, ND6_HOP_LIMIT], SRC, SRC + 16);
    }
    var b1 := Write(Write(b0, ICMP_TYPE, [ICMP6_NS, 0]), BODY, [0, 0, 0, 0]);
    WriteElsewhere(b0, ICMP_TYPE, [ICMP6_NS, 0], SRC, SRC + 16);
    WriteElsewhere(Write(b0, ICMP_TYPE, [ICMP6_NS, 0]), BODY, [0, 0, 0, 0], SRC, SRC + 16);
    var b2 := Write(Write(b1, TARGET, tgt), PAYLOAD_LEN, [0]);
    WriteElsewhere(b1, TARGET, tgt, SRC, SRC + 16);
    WriteElsewhere(Write(b1, TARGET, tgt), PAYLOAD_LEN, [0], SRC, SRC + 16);
    WriteElsewhere(Write(b1, TARGET, tgt), PAYLOAD_LEN, [0], TARGET, TARGET + 16);
    var b3 := Write(b2, DST, dst);
    WriteElsewhere(b2, DST, dst, SRC, SRC + 16);
    WriteElsewhere(b2, DST, dst, TARGET, TARGET + 16);
  }

  /**
   * Every NS goes to `dest`, or to the solicited-node address of the target
   * when none is given, and carries `tgt` as its target.  Its source is
   * `src`, or the one selected for the destination, except in a classic DAD
   * probe for one of our own addresses, which leaves from ::; under RPL the
   * source and uip_len are left as they were.
   */
  lemma {:induction false} NsOutputAddressed(cfg: Config, b: seq<byte>, len: nat, addrs: seq<AddrEntry>, rt: nat,
                                             src: Option<Addr>, dest: Option<Addr>, tgt: Addr, aroAt: Option<nat>)
    requires |b| >= MIN_BUFSIZE
    ensures var r := NsOutput(cfg, b, len, addrs, rt, src, dest, tgt, aroAt);
      var dst := if dest.Some? then dest.value else SolicitedNode(tgt);
      var s := if src.Some? then src.value else cfg.selectSrc(addrs, dst);
      && Dst(r.p.b) == dst && Target(r.p.b) == tgt && r.p.b[ICMP_TYPE] == ICMP6_NS
      && (cfg.engine == SixLo ==> Src(r.p.b) == s)
      && (cfg.engine == Classic ==> Src(r.p.b) == if AddrLookup(addrs, tgt).Some? then Unspecified else s)
      && (cfg.engine == Rpl ==> Src(r.p.b) == Src(b) && r.p.len == len)
  {
    var dst := if dest.Some? then dest.value else SolicitedNode(tgt);
    NsHeaderWritten(b, tgt, dst);
    match cfg.engine
    case Classic =>
      if AddrLookup(addrs, tgt).None? {
        NsProbeAddressed(cfg, b, len, addrs, rt, src, dest, tgt, aroAt);
      } else {
        NsDadAddressed(cfg, b, len, addrs, rt, src, dest, tgt, aroAt);
      }
    case SixLo =>
      var b1 := Write(Write(IpFixed(b), ICMP_TYPE, [ICMP6_NS, 0]), BODY, [0, 0, 0, 0]);
      var b3 := Write(Write(Write(b1, TARGET, tgt), PAYLOAD_LEN, [0]), DST, dst);
      var s := if src.Some? then src.value else cfg.selectSrc(addrs, dst);
      SrcWritten(b3, s);
      NsSixLoKeepsHeader(cfg, Write(b3, SRC, s), rt);
      ChecksumKeepsHeader(cfg, Pkt(NsSixLoOptions(cfg, Write(b3, SRC, s), rt), BODY + NS_LEN + OPT_LLAO_LEN + OPT_ARO_LEN));
    case Rpl =>
      var b1 := Write(Write(IpFixed(b), ICMP_TYPE, [ICMP6_NS, 0]), BODY, [0, 0, 0, 0]);
      ChecksumKeepsHeader(cfg, Pkt(Write(Write(Write(b1, TARGET, tgt), PAYLOAD_LEN, [0]), DST, dst), len));
  }

  /** The classic NS for an address that is not ours leaves from `src` or the selected source. */
  lemma NsProbeAddressed(cfg: Config, b: seq<byte>, len: nat, addrs: seq<AddrEntry>, rt: nat,
                         src: Option<Addr>, dest: Option<Addr>, tgt: Addr, aroAt: Option<nat>)
    requires |b| >= MIN_BUFSIZE && cfg.engine == Classic && AddrLookup(addrs, tgt).None?
    ensures var r := NsOutput(cfg, b, len, addrs, rt, src, dest, tgt, aroAt);
      var dst := if dest.Some? then dest.value else SolicitedNode(tgt);
      && Dst(r.p.b) == dst && Target(r.p.b) == tgt && r.p.b[ICMP_TYPE] == ICMP6_NS
      && Src(r.p.b) == if src.Some? then src.value else cfg.selectSrc(addrs, dst)
  {
    var b1 := Write(Write(IpFixed(b), ICMP_TYPE, [ICMP6_NS, 0]), BODY, [0, 0, 0, 0]);
    var dst := if dest.Some? then dest.value else SolicitedNode(tgt);
    var b3 := Write(Write(Write(b1, TARGET, tgt), PAYLOAD_LEN, [0]), DST, dst);
    var s := if src.Some? then src.value else cfg.selectSrc(addrs, dst);
    NsHeaderWritten(b, tgt, dst);
    var b4 := Write(b3, SRC, s);
    SrcWritten(b3, s);
    if !IsUnspecified(s) {
      var b45 := Write(b4, PAYLOAD_LEN + 1, [ICMPH_LEN + NS_LEN + OPT_LLAO_LEN]);
      var b5 := Llao(cfg, b45, BODY + NS_LEN, OPT_SLLAO);
      assert NsOutput(cfg, b, len, addrs, rt, src, dest, tgt, aroAt).p == WithChecksum(cfg, Pkt(b5, BODY + NS_LEN + OPT_LLAO_LEN));
      LenWritten(b4, ICMPH_LEN + NS_LEN + OPT_LLAO_LEN);
      LlaoKeepsHeader(cfg, b45);
      ChecksumKeepsHeader(cfg, Pkt(b5, BODY + NS_LEN + OPT_LLAO_LEN));
    }
  }

  /** The classic DAD probe for one of our own addresses leaves from ::. */
  lemma NsDadAddressed(cfg: Config, b: seq<byte>, len: nat, addrs: seq<AddrEntry>, rt: nat,
                       src: Option<Addr>, dest: Option<Addr>, tgt: Addr, aroAt: Option<nat>)
    requires |b| >= MIN_BUFSIZE && cfg.engine == Classic && AddrLookup(addrs, tgt).Some?
    ensures var r := NsOutput(cfg, b, len, addrs, rt, src, dest, tgt, aroAt);
      var dst := if dest.Some? then dest.value else SolicitedNode(tgt);
      Dst(r.p.b) == dst && Target(r.p.b) == tgt && r.p.b[ICMP_TYPE] == ICMP6_NS && Src(r.p.b) == Unspecified
  {
    var b1 := Write(Write(IpFixed(b), ICMP_TYPE, [ICMP6_NS, 0]), BODY, [0, 0, 0, 0]);
    var dst := if dest.Some? then dest.value else SolicitedNode(tgt);
    var b3 := Write(Write(Write(b1, TARGET, tgt), PAYLOAD_LEN, [0]), DST, dst);
    NsHeaderWritten(b, tgt, dst);
    var b4 := Write(b3, SRC, Unspecified);
    SrcWritten(b3, Unspecified);
    var b5 := Write(b4, PAYLOAD_LEN + 1, [ICMPH_LEN + NS_LEN]);
    assert NsOutput(cfg, b, len, addrs, rt, src, dest, tgt, aroAt).p == WithChecksum(cfg, Pkt(b5, BODY + NS_LEN));
    LenWritten(b4, ICMPH_LEN + NS_LEN);
    ChecksumKeepsHeader(cfg, Pkt(b5, BODY + NS_LEN));
  }

  /** Writing the low byte of the payload length keeps the addresses, the target and the message type. */
  lemma LenWritten(b: seq<byte>, n: byte)
    requires |b| >= MIN_BUFSIZE
    ensures var w := Write(b, PAYLOAD_LEN + 1, [n]);
      Src(w) == Src(b) && Dst(w) == Dst(b) && Target(w) == Target(b) && w[ICMP_TYPE] == b[ICMP_TYPE]
  {
    WriteElsewhere(b, PAYLOAD_LEN + 1, [n], SRC, SRC + 16);
    WriteElsewhere(b, PAYLOAD_LEN + 1, [n], DST, DST + 16);
    WriteElsewhere(b, PAYLOAD_LEN + 1, [n], TARGET, TARGET + 16);
  }

  /** An SLLAO after the NS header keeps the addresses, the target and the message type. */
  lemma LlaoKeepsHeader(cfg: Config, b: seq<byte>)
    requires |b| >= MIN_BUFSIZE
    ensures var w := Llao(cfg, b, BODY + NS_LEN, OPT_SLLAO);
      Src(w) == Src(b) && Dst(w) == Dst(b) && Target(w) == Target(b) && w[ICMP_TYPE] == b[ICMP_TYPE]
  {
    var llao := [OPT_SLLAO, OPT_LLAO_LEN / 8] + cfg.myLl + [0, 0, 0, 0, 0, 0];
    WriteElsewhere(b, BODY + NS_LEN, llao, SRC, SRC + 16);
    WriteElsewhere(b, BODY + NS_LEN, llao, DST, DST + 16);
    WriteElsewhere(b, BODY + NS_LEN, llao, TARGET, TARGET + 16);
  }

  /** Writing the source address keeps the destination, the target and the message type. */
  lemma SrcWritten(b: seq<byte>, s: Addr)
    requires |b| >= MIN_BUFSIZE
    ensures var w := Write(b, SRC, s);
      Src(w) == s && Dst(w) == Dst(b) && Target(w) == Target(b) && w[ICMP_TYPE] == b[ICMP_TYPE]
  {
    WriteElsewhere(b, SRC, s, DST, DST + 16);
    WriteElsewhere(b, SRC, s, TARGET, TARGET + 16);
  }

  /** The 6LoWPAN-ND options are written past the NS header. */
  lemma NsSixLoKeepsHeader(cfg: Config, b: seq<byte>, rt: nat)
    requires |b| >= MIN_BUFSIZE
    ensures var x := NsSixLoOptions(cfg, b, rt);
      Src(x) == Src(b) && Dst(x) == Dst(b) && Target(x) == Target(b) && x[ICMP_TYPE] == b[ICMP_TYPE]
  {
    var b4 := Llao(cfg, b, BODY + NS_LEN, OPT_SLLAO);
    var b5 := Aro(cfg, b4, BODY + NS_LEN + OPT_LLAO_LEN, rt);
    var x := NsSixLoOptions(cfg, b, rt);
    assert forall i :: 0 <= i < BODY + NS_LEN && i != PAYLOAD_LEN + 1 ==> x[i] == b5[i] == b4[i] == b[i];
    assert Src(x) == Src(b) && Dst(x) == Dst(b) && Target(x) == Target(b);
  }

  /**
   * A classic NS: a DAD probe for one of our own addresses has no option; any
   * other NS carries an SLLAO with uip_lladdr, or is dropped (uip_len 0) when
   * no source address is available.  The NS walker reads exactly those
   * options back, and the payload length matches uip_len.
   */
  lemma {:induction false} NsOutputClassicParses(cfg: Config, b: seq<byte>, len: nat, addrs: seq<AddrEntry>, rt: nat,
                                                 src: Option<Addr>, dest: Option<Addr>, tgt: Addr, aroAt: Option<nat>)
    requires |b| >= MIN_BUFSIZE && cfg.engine == Classic
    ensures var r := NsOutput(cfg, b, len, addrs, rt, src, dest, tgt, aroAt);
      var dst := if dest.Some? then dest.value else SolicitedNode(tgt);
      var s := if src.Some? then src.value else cfg.selectSrc(addrs, dst);
      && r.aroAt == aroAt
      && (AddrLookup(addrs, tgt).Some? ==> r.p.len == 64 && Walk(r.p.b, r.p.len, NS_LEN) == Chain([], Completed))
      && (AddrLookup(addrs, tgt).None? && IsUnspecified(s) ==> r.p.len == 0)
      && (AddrLookup(addrs, tgt).None? && !IsUnspecified(s) ==>
            && r.p.len == 80 && r.p.b[66..74] == cfg.myLl
            && Walk(r.p.b, r.p.len, NS_LEN) == Chain([Opt(OPT_SLLAO, 2, 64)], Completed))
      && (r.p.len != 0 ==> r.p.b[PAYLOAD_LEN] == 0 && r.p.b[PAYLOAD_LEN + 1] == r.p.len - IPH_LEN)
  {
    var r := NsOutput(cfg, b, len, addrs, rt, src, dest, tgt, aroAt);
    var b1 := Write(Write(IpFixed(b), ICMP_TYPE, [ICMP6_NS, 0]), BODY, [0, 0, 0, 0]);
    var b2 := Write(Write(b1, TARGET, tgt), PAYLOAD_LEN, [0]);
    var dst := if dest.Some? then dest.value else SolicitedNode(tgt);
    var b3 := Write(b2, DST, dst);
    var s := if src.Some? then src.value else cfg.selectSrc(addrs, dst);
    NsHeaderWritten(b, tgt, dst);
    if AddrLookup(addrs, tgt).None? {
      if !IsUnspecified(s) {
        var b4 := Write(Write(b3, SRC, s), PAYLOAD_LEN + 1, [ICMPH_LEN + NS_LEN + OPT_LLAO_LEN]);
        var b5 := Llao(cfg, b4, BODY + NS_LEN, OPT_SLLAO);
        assert r.p == WithChecksum(cfg, Pkt(b5, 80));
        assert b5[PAYLOAD_LEN] == 0 && b5[PAYLOAD_LEN + 1] == 40;
        ChecksumElsewhere(cfg, Pkt(b5, 80), 0, ICMP_CHKSUM);
        ChecksumElsewhere(cfg, Pkt(b5, 80), BODY, 80);
        assert r.p.b[PAYLOAD_LEN] == r.p.b[0..ICMP_CHKSUM][PAYLOAD_LEN] == b5[PAYLOAD_LEN];
        assert r.p.b[PAYLOAD_LEN + 1] == r.p.b[0..ICMP_CHKSUM][PAYLOAD_LEN + 1] == b5[PAYLOAD_LEN + 1];
        assert r.p.b[64] == r.p.b[BODY..80][20] == b5[64];
        assert r.p.b[65] == r.p.b[BODY..80][21] == b5[65];
        SliceWithin(r.p.b, b5, BODY, 80, 66, 74);
        assert b5[66..74] == cfg.myLl;
        assert Walk(r.p.b, 80, 36) == Chain([], Completed);
      }
    } else {
      var b4 := Write(Write(b3, SRC, Unspecified), PAYLOAD_LEN + 1, [ICMPH_LEN + NS_LEN]);
      assert r.p == WithChecksum(cfg, Pkt(b4, 64));
      ChecksumElsewhere(cfg, Pkt(b4, 64), 0, ICMP_CHKSUM);
      assert r.p.b[PAYLOAD_LEN] == r.p.b[0..ICMP_CHKSUM][PAYLOAD_LEN] == b4[PAYLOAD_LEN];
      assert r.p.b[PAYLOAD_LEN + 1] == r.p.b[0..ICMP_CHKSUM][PAYLOAD_LEN + 1] == b4[PAYLOAD_LEN + 1];
    }
  }

  /** The fields of an RA body as uip_nd6_ra_output fills them. */
  predicate RaFields(cfg: Config, b: seq<byte>, iface: Iface)
    requires |b| >= MIN_BUFSIZE
  {
    && b[RA_CUR_TTL] == iface.curHopLimit
    && BE16(b, RA_ROUTER_LIFETIME) == cfg.routerLifetime % 65536
    && BE32(b, RA_REACHABLE) == 0 && BE32(b, RA_RETRANS) == 0
    && b[56] == OPT_SLLAO && b[57] == 2 && b[58..66] == cfg.myLl
    && b[72] == OPT_MTU && b[73] == 1 && BE32(b, 76) == 1500
  }

  lemma RaHeaderWritten(cfg: Config, b: seq<byte>, iface: Iface)
    requires |b| >= MIN_BUFSIZE
    ensures var r := RaBody(cfg, b, iface);
      && r[RA_CUR_TTL] == iface.curHopLimit
      && BE16(r, RA_ROUTER_LIFETIME) == cfg.routerLifetime % 65536
      && BE32(r, RA_REACHABLE) == 0 && BE32(r, RA_RETRANS) == 0
  {
    var flags := (if cfg.mFlag then 0x80 else 0) + (if cfg.oFlag then 0x40 else 0);
    var lt := BE16Bytes(cfg.routerLifetime);
    var hdr := [iface.curHopLimit, flags] + lt + [0, 0, 0, 0, 0, 0, 0, 0];
    var b4 := Write(b, BODY, hdr);
    var r := RaBody(cfg, b, iface);
    assert forall i :: BODY <= i < 56 ==> r[i] == b4[i];
    assert r[44] == hdr[0] && r[46] == lt[0] && r[47] == lt[1];
    assert r[48] == 0 && r[49] == 0 && r[50] == 0 && r[51] == 0;
    assert r[52] == 0 && r[53] == 0 && r[54] == 0 && r[55] == 0;
    BE16Low(cfg.routerLifetime);
  }

  lemma RaOptionsWritten(cfg: Config, b: seq<byte>, iface: Iface)
    requires |b| >= MIN_BUFSIZE
    ensures var r := RaBody(cfg, b, iface);
      && r[56] == OPT_SLLAO && r[57] == 2 && r[58..66] == cfg.myLl
      && r[72] == OPT_MTU && r[73] == 1 && BE32(r, 76) == 1500
  {
    var llao := [OPT_SLLAO, 2] + cfg.myLl + [0, 0, 0, 0, 0, 0];
    var mtu := [OPT_MTU, OPT_MTU_LEN / 8, 0, 0] + BE32Bytes(1500);
    var b4 := Write(b, BODY, [iface.curHopLimit, (if cfg.mFlag then 0x80 else 0) + (if cfg.oFlag then 0x40 else 0)]
                             + BE16Bytes(cfg.routerLifetime) + [0, 0, 0, 0, 0, 0, 0, 0]);
    var b5 := Write(b4, 56, llao);
    var r := RaBody(cfg, b, iface);
    assert forall i :: 56 <= i < 72 ==> r[i] == b5[i];
    assert forall i :: 58 <= i < 66 ==> r[i] == cfg.myLl[i - 58];
    assert r[58..66] == cfg.myLl;
    assert r[56] == 1 && r[57] == 2 && r[72] == 5 && r[73] == 1;
    BE32RoundTrip(1500);
    assert r[76] == mtu[4] && r[77] == mtu[5] && r[78] == mtu[6] && r[79] == mtu[7];
  }

  lemma RaPrefixWritten(cfg: Config, b: seq<byte>, iface: Iface)
    requires |b| >= MIN_BUFSIZE
    ensures var r := RaBody(cfg, b, iface);
      r[PAYLOAD_LEN] == 0 && r[PAYLOAD_LEN + 1] == 40 && r[DST..DST + 16] == b[DST..DST + 16]
  {
    var r := RaBody(cfg, b, iface);
    assert forall i :: DST <= i < DST + 16 ==> r[i] == b[i];
  }

  /** Two buffers that agree on the RA body agree on its fields. */
  lemma RaFieldsKept(cfg: Config, x: seq<byte>, y: seq<byte>, iface: Iface)
    requires |x| >= MIN_BUFSIZE && |y| >= MIN_BUFSIZE && x[BODY..80] == y[BODY..80] && RaFields(cfg, x, iface)
    ensures RaFields(cfg, y, iface)
  {
    SliceWithin(x, y, BODY, 80, 58, 66);
    assert forall i :: BODY <= i < 80 ==> x[i] == x[BODY..80][i - BODY] && y[i] == y[BODY..80][i - BODY];
  }

  lemma RaFieldsWalk(cfg: Config, b: seq<byte>, iface: Iface)
    requires |b| >= MIN_BUFSIZE && RaFields(cfg, b, iface)
    ensures Walk(b, 80, RA_LEN) == Chain([Opt(OPT_SLLAO, 2, 56), Opt(OPT_MTU, 1, 72)], Completed)
  {
    assert Walk(b, 80, 36) == Chain([], Completed);
    assert Walk(b, 80, 28) == Chain([Opt(OPT_MTU, 1, 72)], Completed);
  }

  /**
   * A router advertisement carries exactly an SLLAO with uip_lladdr and an
   * MTU option of 1500: the prefix loop at uip-nd6.c:908 is compiled out in
   * every build that compiles this routine.
   */
  lemma {:induction false} RaOutputParses(cfg: Config, b: seq<byte>, addrs: seq<AddrEntry>, iface: Iface, dest: Option<Addr>)
    requires |b| >= MIN_BUFSIZE
    ensures var r := RaOutput(cfg, b, addrs, iface, dest);
      && r.len == 80 && RaFields(cfg, r.b, iface)
      && Walk(r.b, r.len, RA_LEN) == Chain([Opt(OPT_SLLAO, 2, 56), Opt(OPT_MTU, 1, 72)], Completed)
  {
    var dst := if dest.Some? then dest.value else AllNodes;
    var b3 := Write(Write(Write(IpFixed(b), DST, dst), SRC, cfg.selectSrc(addrs, dst)), ICMP_TYPE, [ICMP6_RA, 0]);
    var x := RaBody(cfg, b3, iface);
    var r := RaOutput(cfg, b, addrs, iface, dest);
    assert r == WithChecksum(cfg, Pkt(x, 80));
    RaHeaderWritten(cfg, b3, iface);
    RaOptionsWritten(cfg, b3, iface);
    ChecksumElsewhere(cfg, Pkt(x, 80), BODY, 80);
    RaFieldsKept(cfg, x, r.b, iface);
    RaFieldsWalk(cfg, r.b, iface);
  }

  /** The RA goes to the given destination, or to all nodes, with a payload length of 40. */
  lemma {:induction false} RaOutputAddressed(cfg: Config, b: seq<byte>, addrs: seq<AddrEntry>, iface: Iface, dest: Option<Addr>)
    requires |b| >= MIN_BUFSIZE
    ensures var r := RaOutput(cfg, b, addrs, iface, dest);
      && Dst(r.b) == (if dest.Some? then dest.value else AllNodes)
      && BE16(r.b, PAYLOAD_LEN) == r.len - IPH_LEN
  {
    var dst := if dest.Some? then dest.value else AllNodes;
    var b1 := Write(IpFixed(b), DST, dst);
    var b2 := Write(b1, SRC, cfg.selectSrc(addrs, dst));
    var b3 := Write(b2, ICMP_TYPE, [ICMP6_RA, 0]);
    var x := RaBody(cfg, b3, iface);
    var r := RaOutput(cfg, b, addrs, iface, dest);
    assert r == WithChecksum(cfg, Pkt(x, 80));
    WriteElsewhere(b1, SRC, cfg.selectSrc(addrs, dst), DST, DST + 16);
    WriteElsewhere(b2, ICMP_TYPE, [ICMP6_RA, 0], DST, DST + 16);
    assert Dst(b3) == dst;
    RaPrefixWritten(cfg, b3, iface);
    ChecksumElsewhere(cfg, Pkt(x, 80), 0, ICMP_CHKSUM);
    SliceWithin(r.b, x, 0, ICMP_CHKSUM, DST, DST + 16);
    assert r.b[PAYLOAD_LEN] == r.b[0..ICMP_CHKSUM][PAYLOAD_LEN] == x[PAYLOAD_LEN];
    assert r.b[PAYLOAD_LEN + 1] == r.b[0..ICMP_CHKSUM][PAYLOAD_LEN + 1] == x[PAYLOAD_LEN + 1];
  }

  /** A router solicitation carries an SLLAO exactly when a source address was found. */
  lemma {:induction false} RsOutputParses(cfg: Config, b: seq<byte>, addrs: seq<AddrEntry>)
    requires |b| >= MIN_BUFSIZE
    ensures var r := RsOutput(cfg, b, addrs);
      && Dst(r.b) == AllRouters && Src(r.b) == cfg.selectSrc(addrs, AllRouters)
      && (IsUnspecified(Src(r.b)) ==> r.len == 48 && Walk(r.b, r.len, RS_LEN) == Chain([], Completed))
      && (!IsUnspecified(Src(r.b)) ==>
            (r.len == 64 && r.b[50..58] == cfg.myLl && Walk(r.b, r.len, RS_LEN) == Chain([Opt(OPT_SLLAO, 2, 48)], Completed)))
      && r.b[PAYLOAD_LEN + 1] == r.len - IPH_LEN
  {
    var r := RsOutput(cfg, b, addrs);
    assert Src(r.b) == cfg.selectSrc(addrs, AllRouters);
    assert Dst(r.b) == AllRouters;
    if !IsUnspecified(Src(r.b)) {
      assert r.b[48] == 1 && r.b[49] == 2;
      assert r.b[50..58] == cfg.myLl;
      assert Walk(r.b, 64, 20) == Chain([], Completed);
    }
  }

  /**
   * The NA a classic NS handler sends: addresses, flags and target as given,
   * and one TLLAO carrying `ll`, which the NA walker reads back.
   */
  lemma {:induction false} NaReplyParses(cfg: Config, b: seq<byte>, src: Addr, dst: Addr, tgt: Addr, flags: byte, ll: LlAddr)
    requires |b| >= MIN_BUFSIZE
    ensures var r := WithChecksum(cfg, AppendLlao(CreateNa(b, src, dst, tgt, flags), OPT_TLLAO, Value(ll)));
      && r.len == 80 && Src(r.b) == src && Dst(r.b) == dst && Target(r.b) == tgt
      && r.b[ICMP_TYPE] == ICMP6_NA && r.b[NA_FLAGS] == flags && r.b[TTL] == ND6_HOP_LIMIT
      && Walk(r.b, r.len, NA_LEN) == Chain([Opt(OPT_TLLAO, 2, 64)], Completed)
      && r.b[66..74] == ll && r.b[PAYLOAD_LEN] == 0 && r.b[PAYLOAD_LEN + 1] == r.len - IPH_LEN
  {
    var r := WithChecksum(cfg, AppendLlao(CreateNa(b, src, dst, tgt, flags), OPT_TLLAO, Value(ll)));
    assert r.b[64] == 2 && r.b[65] == 2;
    assert r.b[66..74] == ll;
    assert Walk(r.b, 80, 36) == Chain([], Completed);
    assert Src(r.b) == src && Dst(r.b) == dst && Target(r.b) == tgt;
  }
}
