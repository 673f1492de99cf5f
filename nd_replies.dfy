/**
 * What the NA replies of ns_input contain, read back from the buffer: the
 * header uip_nd6_create_na writes, and the options appended after it.
 */
module NdReplies {
  import opened Wire
  import opened Ds6
  import opened Nd6Config
  import opened NdOptions
  import opened NdPackets

  /** Two address writes, source last, leave both addresses as written. */
  lemma AddressesWritten(b: seq<byte>, dst: Addr, src: Addr)
    requires |b| >= MIN_BUFSIZE
    ensures var w := Write(Write(b, DST, dst), SRC, src);
      Dst(w) == dst && Src(w) == src && Target(w) == Target(b) && w[BODY..] == b[BODY..]
  {
    var w1 := Write(b, DST, dst);
    WriteElsewhere(w1, SRC, src, DST, DST + 16);
    WriteElsewhere(b, DST, dst, TARGET, TARGET + 16);
    WriteElsewhere(w1, SRC, src, TARGET, TARGET + 16);
    WriteElsewhere(b, DST, dst, BODY, |b|);
    WriteElsewhere(w1, SRC, src, BODY, |b|);
  }

  /** The header uip_nd6_create_na writes, and the bytes after it that it keeps. */
  lemma CreateNaFields(b: seq<byte>, src: Addr, dst: Addr, tgt: Addr, flags: byte)
    requires |b| >= MIN_BUFSIZE
    ensures var p := CreateNa(b, src, dst, tgt, flags);
      && Src(p.b) == src && Dst(p.b) == dst && Target(p.b) == tgt
      && p.b[NA_FLAGS] == flags && p.b[ICMP_TYPE] == ICMP6_NA && p.b[TTL] == ND6_HOP_LIMIT
      && p.len == 64 && p.b[64..] == b[64..] && p.b[PAYLOAD_LEN] == 0 && p.b[PAYLOAD_LEN + 1] == ICMPH_LEN + NA_LEN
  {
    var b1 := Write(Write(b, DST, dst), SRC, src);
    var b2 := Write(b1, VTC, [0x60, 0, 0, 0, 0, ICMPH_LEN + NA_LEN, PROTO_ICMP6, ND6_HOP_LIMIT]);
    var b3 := Write(Write(b2, ICMP_TYPE, [ICMP6_NA, 0]), NA_FLAGS, [flags]);
    var p := CreateNa(b, src, dst, tgt, flags);
    assert p.b == Write(b3, TARGET, tgt);
    AddressesWritten(b, dst, src);
    assert Src(b2) == src && Dst(b2) == dst;
    assert Src(p.b) == src && Dst(p.b) == dst;
    assert b3[NA_FLAGS] == flags;
    assert b2[PAYLOAD_LEN] == 0 && b2[PAYLOAD_LEN + 1] == ICMPH_LEN + NA_LEN;
    WriteElsewhere(b, DST, dst, 64, |b|);
    WriteElsewhere(Write(b, DST, dst), SRC, src, 64, |b|);
    WriteElsewhere(b1, VTC, [0x60, 0, 0, 0, 0, ICMPH_LEN + NA_LEN, PROTO_ICMP6, ND6_HOP_LIMIT], 64, |b|);
    WriteElsewhere(b2, ICMP_TYPE, [ICMP6_NA, 0], 64, |b|);
    WriteElsewhere(Write(b2, ICMP_TYPE, [ICMP6_NA, 0]), NA_FLAGS, [flags], 64, |b|);
    WriteElsewhere(b3, TARGET, tgt, 64, |b|);
  }

  /** `UIP_IP_BUF->len[1] += k` changes that byte only. */
  lemma GrowLenKeeps(b: seq<byte>, k: nat, lo: nat, hi: nat)
    requires |b| >= IPH_LEN && lo <= hi <= |b| && (hi <= PAYLOAD_LEN + 1 || PAYLOAD_LEN + 2 <= lo)
    ensures GrowLen(b, k)[lo..hi] == b[lo..hi] && GrowLen(b, k)[PAYLOAD_LEN + 1] == (b[PAYLOAD_LEN + 1] + k) % 256
  {
    WriteElsewhere(b, PAYLOAD_LEN + 1, [(b[PAYLOAD_LEN + 1] + k) % 256], lo, hi);
  }

  /** The bytes uip_nd6_append_icmp_opt writes for an SLLAO or TLLAO, before uip_len grows. */
  function LlaoBytes(p: Pkt, kind: byte, data: Source): (r: seq<byte>)
    requires p.len + OPT_LLAO_LEN <= |p.b| && Readable(p.b, data)
    ensures |r| == |p.b|
  {
    var b1 := Write(p.b, p.len, [kind, OPT_LLAO_LEN / 8]);
    Write(b1, p.len + 2, Read8(b1, data) + Zeros(6))
  }

  lemma LlaoBytesWritten(p: Pkt, kind: byte, data: Source)
    requires p.len + OPT_LLAO_LEN <= |p.b| && Readable(p.b, data)
    ensures var w := LlaoBytes(p, kind, data); var n := p.len;
      && w[n] == kind && w[n + 1] == 2 && w[n + 2..n + 10] == Read8(Write(p.b, n, [kind, 2]), data)
      && w[n + 10..n + 16] == Zeros(6) && w[..n] == p.b[..n] && w[n + 16..] == p.b[n + 16..]
  {
    var n := p.len;
    var b1 := Write(p.b, n, [kind, OPT_LLAO_LEN / 8]);
    var w := LlaoBytes(p, kind, data);
    SliceOfKnown(w, n + 2, n + 16, Read8(b1, data) + Zeros(6), n + 2, n + 10);
    SliceOfKnown(w, n + 2, n + 16, Read8(b1, data) + Zeros(6), n + 10, n + 16);
    WriteElsewhere(p.b, n, [kind, OPT_LLAO_LEN / 8], 0, n);
    WriteElsewhere(b1, n + 2, Read8(b1, data) + Zeros(6), 0, n);
    WriteElsewhere(p.b, n, [kind, OPT_LLAO_LEN / 8], n + 16, |p.b|);
    WriteElsewhere(b1, n + 2, Read8(b1, data) + Zeros(6), n + 16, |p.b|);
  }

  /**
   * An appended SLLAO or TLLAO: its type and length at the old end of the
   * message, the 8 bytes it copies, uip_len grown by 16, and everything
   * else kept.
   */
  lemma LlaoAppended(p: Pkt, kind: byte, data: Source)
    requires |p.b| >= MIN_BUFSIZE && IPH_LEN <= p.len && p.len + OPT_LLAO_LEN <= |p.b| && Readable(p.b, data)
    ensures var r := AppendLlao(p, kind, data); var n := p.len;
      && r.b[n] == kind && r.b[n + 1] == 2 && r.b[n + 2..n + 10] == Read8(Write(p.b, n, [kind, 2]), data)
      && r.b[n + 10..n + 16] == Zeros(6)
      && r.b[..PAYLOAD_LEN + 1] == p.b[..PAYLOAD_LEN + 1] && r.b[PAYLOAD_LEN + 1] == (p.b[PAYLOAD_LEN + 1] as int + 16) % 256
      && r.b[PAYLOAD_LEN + 2..n] == p.b[PAYLOAD_LEN + 2..n] && r.b[n + 16..] == p.b[n + 16..]
  {
    var n := p.len;
    var w := LlaoBytes(p, kind, data);
    var r := AppendLlao(p, kind, data);
    assert Zeros(6) == [0, 0, 0, 0, 0, 0];
    assert r.b == GrowLen(w, OPT_LLAO_LEN);
    LlaoBytesWritten(p, kind, data);
    GrowLenKeeps(w, OPT_LLAO_LEN, n, |p.b|);
    GrowLenKeeps(w, OPT_LLAO_LEN, 0, PAYLOAD_LEN + 1);
    GrowLenKeeps(w, OPT_LLAO_LEN, PAYLOAD_LEN + 2, n);
    SliceWithin(r.b, w, n, |p.b|, n + 2, n + 10);
    SliceWithin(r.b, w, n, |p.b|, n + 10, n + 16);
    SliceWithin(r.b, w, n, |p.b|, n + 16, |p.b|);
    assert r.b[n] == r.b[n..|p.b|][0] == w[n];
    assert r.b[n + 1] == r.b[n..|p.b|][1] == w[n + 1];
    SliceWithin(w, p.b, 0, n, 0, PAYLOAD_LEN + 1);
    SliceWithin(w, p.b, 0, n, PAYLOAD_LEN + 2, n);
    assert w[PAYLOAD_LEN + 1] == w[..n][PAYLOAD_LEN + 1] == p.b[PAYLOAD_LEN + 1];
  }

  /** The bytes uip_nd6_append_icmp_opt writes for an ARO, before uip_len grows. */
  function AroBytes(p: Pkt, status: byte, lifetime: Bytes2, eui: Source): (r: seq<byte>)
    requires p.len + OPT_ARO_LEN <= |p.b| && Readable(p.b, eui)
    ensures |r| == |p.b|
  {
    var b1 := Write(p.b, p.len, [OPT_ARO, OPT_ARO_LEN / 8, status, 0, 0, 0] + lifetime);
    Write(b1, p.len + 8, Read8(b1, eui))
  }

  lemma AroBytesWritten(p: Pkt, status: byte, lifetime: Bytes2, eui: Source)
    requires p.len + OPT_ARO_LEN <= |p.b| && Readable(p.b, eui)
    ensures var w := AroBytes(p, status, lifetime, eui); var n := p.len;
      && w[n] == OPT_ARO && w[n + 1] == 2 && w[n + 2] == status && w[n + 6..n + 8] == lifetime
      && w[n + 8..n + 16] == Read8(Write(p.b, n, [OPT_ARO, 2, status, 0, 0, 0] + lifetime), eui)
      && w[..n] == p.b[..n] && w[n + 16..] == p.b[n + 16..]
  {
    var n := p.len;
    var h := [OPT_ARO, OPT_ARO_LEN / 8, status, 0, 0, 0] + lifetime;
    var b1 := Write(p.b, n, h);
    var w := AroBytes(p, status, lifetime, eui);
    WriteElsewhere(b1, n + 8, Read8(b1, eui), n, n + 8);
    SliceOfKnown(b1, n, n + 8, h, n + 6, n + 8);
    SliceOfKnown(w, n, n + 8, h, n + 6, n + 8);
    assert w[n] == w[n..n + 8][0] == h[0];
    assert w[n + 1] == w[n..n + 8][1] == h[1];
    assert w[n + 2] == w[n..n + 8][2] == h[2];
    WriteElsewhere(p.b, n, h, 0, n);
    WriteElsewhere(b1, n + 8, Read8(b1, eui), 0, n);
    WriteElsewhere(p.b, n, h, n + 16, |p.b|);
    WriteElsewhere(b1, n + 8, Read8(b1, eui), n + 16, |p.b|);
  }

  /** An appended ARO: its fields at the old end of the message, uip_len grown by 16, the rest kept. */
  lemma AroAppended(p: Pkt, status: byte, lifetime: Bytes2, eui: Source)
    requires |p.b| >= MIN_BUFSIZE && IPH_LEN <= p.len && p.len + OPT_ARO_LEN <= |p.b| && Readable(p.b, eui)
    ensures var r := AppendAro(p, status, lifetime, eui); var n := p.len;
      && r.b[n] == OPT_ARO && r.b[n + 1] == 2 && r.b[n + 2] == status && r.b[n + 6..n + 8] == lifetime
      && r.b[n + 8..n + 16] == Read8(Write(p.b, n, [OPT_ARO, 2, status, 0, 0, 0] + lifetime), eui)
      && r.b[..PAYLOAD_LEN + 1] == p.b[..PAYLOAD_LEN + 1] && r.b[PAYLOAD_LEN + 1] == (p.b[PAYLOAD_LEN + 1] as int + 16) % 256
      && r.b[PAYLOAD_LEN + 2..n] == p.b[PAYLOAD_LEN + 2..n] && r.b[n + 16..] == p.b[n + 16..]
  {
    AroAppendedOption(p, status, lifetime, eui);
    AroAppendedRest(p, status, lifetime, eui);
  }

  /** The option part of AroAppended. */
  lemma AroAppendedOption(p: Pkt, status: byte, lifetime: Bytes2, eui: Source)
    requires |p.b| >= MIN_BUFSIZE && IPH_LEN <= p.len && p.len + OPT_ARO_LEN <= |p.b| && Readable(p.b, eui)
    ensures var r := AppendAro(p, status, lifetime, eui); var n := p.len;
      && r.b[n] == OPT_ARO && r.b[n + 1] == 2 && r.b[n + 2] == status && r.b[n + 6..n + 8] == lifetime
      && r.b[n + 8..n + 16] == Read8(Write(p.b, n, [OPT_ARO, 2, status, 0, 0, 0] + lifetime), eui)
  {
    var n := p.len;
    var w := AroBytes(p, status, lifetime, eui);
    var r := AppendAro(p, status, lifetime, eui);
    assert r.b == GrowLen(w, OPT_ARO_LEN);
    AroBytesWritten(p, status, lifetime, eui);
    GrowLenKeeps(w, OPT_ARO_LEN, n, |p.b|);
    SliceWithin(r.b, w, n, |p.b|, n + 6, n + 8);
    SliceWithin(r.b, w, n, |p.b|, n + 8, n + 16);
    assert r.b[n] == r.b[n..|p.b|][0] == w[n];
    assert r.b[n + 1] == r.b[n..|p.b|][1] == w[n + 1];
    assert r.b[n + 2] == r.b[n..|p.b|][2] == w[n + 2];
  }

  /** The header and tail part of AroAppended. */
  lemma AroAppendedRest(p: Pkt, status: byte, lifetime: Bytes2, eui: Source)
    requires |p.b| >= MIN_BUFSIZE && IPH_LEN <= p.len && p.len + OPT_ARO_LEN <= |p.b| && Readable(p.b, eui)
    ensures var r := AppendAro(p, status, lifetime, eui); var n := p.len;
      && r.b[..PAYLOAD_LEN + 1] == p.b[..PAYLOAD_LEN + 1] && r.b[PAYLOAD_LEN + 1] == (p.b[PAYLOAD_LEN + 1] as int + 16) % 256
      && r.b[PAYLOAD_LEN + 2..n] == p.b[PAYLOAD_LEN + 2..n] && r.b[n + 16..] == p.b[n + 16..]
  {
    var n := p.len;
    var w := AroBytes(p, status, lifetime, eui);
    var r := AppendAro(p, status, lifetime, eui);
    assert r.b == GrowLen(w, OPT_ARO_LEN);
    AroBytesWritten(p, status, lifetime, eui);
    GrowLenKeeps(w, OPT_ARO_LEN, n, |p.b|);
    GrowLenKeeps(w, OPT_ARO_LEN, 0, PAYLOAD_LEN + 1);
    GrowLenKeeps(w, OPT_ARO_LEN, PAYLOAD_LEN + 2, n);
    SliceWithin(r.b, w, n, |p.b|, n + 16, |p.b|);
    SliceWithin(w, p.b, 0, n, 0, PAYLOAD_LEN + 1);
    SliceWithin(w, p.b, 0, n, PAYLOAD_LEN + 2, n);
    assert w[PAYLOAD_LEN + 1] == w[..n][PAYLOAD_LEN + 1] == p.b[PAYLOAD_LEN + 1];
  }

  /** Two messages that agree outside the length and checksum bytes have the same NA header. */
  lemma HeaderKept(x: seq<byte>, y: seq<byte>)
    requires |x| >= MIN_BUFSIZE && |y| >= MIN_BUFSIZE
    requires x[PAYLOAD_LEN + 2..ICMP_CHKSUM] == y[PAYLOAD_LEN + 2..ICMP_CHKSUM] && x[BODY..64] == y[BODY..64]
    ensures Src(x) == Src(y) && Dst(x) == Dst(y) && Target(x) == Target(y)
    ensures x[NA_FLAGS] == y[NA_FLAGS] && x[ICMP_TYPE] == y[ICMP_TYPE] && x[TTL] == y[TTL]
  {
    SliceWithin(x, y, PAYLOAD_LEN + 2, ICMP_CHKSUM, SRC, SRC + 16);
    SliceWithin(x, y, PAYLOAD_LEN + 2, ICMP_CHKSUM, DST, DST + 16);
    SliceWithin(x, y, BODY, 64, TARGET, TARGET + 16);
    assert x[NA_FLAGS] == x[BODY..64][0] == y[NA_FLAGS];
    assert x[ICMP_TYPE] == x[PAYLOAD_LEN + 2..ICMP_CHKSUM][ICMP_TYPE - PAYLOAD_LEN - 2] == y[ICMP_TYPE];
    assert x[TTL] == x[PAYLOAD_LEN + 2..ICMP_CHKSUM][TTL - PAYLOAD_LEN - 2] == y[TTL];
  }

  /**
   * uip_nd6_registration_error, and the 6LoWPAN-ND `create_na` with a
   * TLLAO: an NA from the NS destination to its source with the R flag and
   * the target copied from NULL, a TLLAO carrying the 8 bytes at `l + 2` and
   * an ARO carrying `status` and the lifetime and EUI-64 found at `a + 6` and
   * `a + 8`, each read from uip_buf as it stands when copied.
   */
  function ErrorNa(cfg: Config, b: seq<byte>, l: nat, a: nat, status: byte): (r: Pkt)
    requires |b| >= MIN_BUFSIZE && l + 2 + LLADDR_LEN <= |b| && a + OPT_ARO_LEN <= |b|
    ensures |r.b| == |b|
  {
    var p := AppendLlao(CreateNa(b, Dst(b), Src(b), cfg.nullTarget, NA_FLAG_ROUTER), OPT_TLLAO, At(l + 2));
    WithChecksum(cfg, AppendAro(p, status, p.b[a + 6..a + 8], At(a + 8)))
  }

  /** The 6LoWPAN-ND `create_na` without a TLLAO: the same NA with only the ARO. */
  function SuccessNa(cfg: Config, b: seq<byte>, at: nat): (r: Pkt)
    requires |b| >= MIN_BUFSIZE && at + OPT_ARO_LEN <= |b|
    ensures |r.b| == |b|
  {
    var p := CreateNa(b, Dst(b), Src(b), cfg.nullTarget, NA_FLAG_ROUTER);
    WithChecksum(cfg, AppendAro(p, ARO_STATUS_SUCCESS, p.b[at + 6..at + 8], At(at + 8)))
  }

  /** The NA header fields of a message, with `plen` in the low payload-length byte. */
  predicate NaHead(x: seq<byte>, src: Addr, dst: Addr, tgt: Addr, flags: byte, plen: nat)
    requires |x| >= MIN_BUFSIZE
  {
    && Src(x) == src && Dst(x) == dst && Target(x) == tgt && x[NA_FLAGS] == flags
    && x[ICMP_TYPE] == ICMP6_NA && x[TTL] == ND6_HOP_LIMIT && x[PAYLOAD_LEN] == 0 && x[PAYLOAD_LEN + 1] == plen
  }

  lemma CreateNaHead(b: seq<byte>, src: Addr, dst: Addr, tgt: Addr, flags: byte)
    requires |b| >= MIN_BUFSIZE
    ensures NaHead(CreateNa(b, src, dst, tgt, flags).b, src, dst, tgt, flags, ICMPH_LEN + NA_LEN)
  {
    CreateNaFields(b, src, dst, tgt, flags);
  }

  lemma LlaoKeepsHead(p: Pkt, kind: byte, data: Source, src: Addr, dst: Addr, tgt: Addr, flags: byte, plen: nat)
    requires |p.b| >= MIN_BUFSIZE && 64 <= p.len && p.len + OPT_LLAO_LEN <= |p.b| && Readable(p.b, data)
    requires NaHead(p.b, src, dst, tgt, flags, plen) && plen + 16 < 256
    ensures NaHead(AppendLlao(p, kind, data).b, src, dst, tgt, flags, plen + 16)
  {
    var r := AppendLlao(p, kind, data);
    LlaoAppended(p, kind, data);
    SliceWithin(r.b, p.b, PAYLOAD_LEN + 2, p.len, PAYLOAD_LEN + 2, ICMP_CHKSUM);
    SliceWithin(r.b, p.b, PAYLOAD_LEN + 2, p.len, BODY, 64);
    HeaderKept(r.b, p.b);
    assert r.b[PAYLOAD_LEN] == r.b[..PAYLOAD_LEN + 1][PAYLOAD_LEN] == p.b[PAYLOAD_LEN];
  }

  lemma AroKeepsHead(p: Pkt, status: byte, lifetime: Bytes2, eui: Source, src: Addr, dst: Addr, tgt: Addr, flags: byte, plen: nat)
    requires |p.b| >= MIN_BUFSIZE && 64 <= p.len && p.len + OPT_ARO_LEN <= |p.b| && Readable(p.b, eui)
    requires NaHead(p.b, src, dst, tgt, flags, plen) && plen + 16 < 256
    ensures NaHead(AppendAro(p, status, lifetime, eui).b, src, dst, tgt, flags, plen + 16)
  {
    var r := AppendAro(p, status, lifetime, eui);
    AroAppended(p, status, lifetime, eui);
    SliceWithin(r.b, p.b, PAYLOAD_LEN + 2, p.len, PAYLOAD_LEN + 2, ICMP_CHKSUM);
    SliceWithin(r.b, p.b, PAYLOAD_LEN + 2, p.len, BODY, 64);
    HeaderKept(r.b, p.b);
    assert r.b[PAYLOAD_LEN] == r.b[..PAYLOAD_LEN + 1][PAYLOAD_LEN] == p.b[PAYLOAD_LEN];
  }

  lemma ChecksumKeepsHead(cfg: Config, p: Pkt, src: Addr, dst: Addr, tgt: Addr, flags: byte, plen: nat)
    requires |p.b| >= MIN_BUFSIZE && NaHead(p.b, src, dst, tgt, flags, plen)
    ensures NaHead(WithChecksum(cfg, p).b, src, dst, tgt, flags, plen) && WithChecksum(cfg, p).len == p.len
  {
    var q := WithChecksum(cfg, p);
    ChecksumElsewhere(cfg, p, 0, ICMP_CHKSUM);
    ChecksumElsewhere(cfg, p, BODY, 64);
    SliceWithin(q.b, p.b, 0, ICMP_CHKSUM, PAYLOAD_LEN + 2, ICMP_CHKSUM);
    HeaderKept(q.b, p.b);
    assert q.b[PAYLOAD_LEN] == q.b[..ICMP_CHKSUM][PAYLOAD_LEN] == p.b[PAYLOAD_LEN];
    assert q.b[PAYLOAD_LEN + 1] == q.b[..ICMP_CHKSUM][PAYLOAD_LEN + 1] == p.b[PAYLOAD_LEN + 1];
  }

  /** The header of an error NA: addressed back to the NS sender, R flag, target from NULL. */
  lemma ErrorNaHeader(cfg: Config, b: seq<byte>, l: nat, a: nat, status: byte)
    requires |b| >= MIN_BUFSIZE && l + 2 + LLADDR_LEN <= |b| && a + OPT_ARO_LEN <= |b|
    ensures var q := ErrorNa(cfg, b, l, a, status);
      q.len == 96 && NaHead(q.b, Dst(b), Src(b), cfg.nullTarget, NA_FLAG_ROUTER, q.len - IPH_LEN)
  {
    var p0 := CreateNa(b, Dst(b), Src(b), cfg.nullTarget, NA_FLAG_ROUTER);
    var p := AppendLlao(p0, OPT_TLLAO, At(l + 2));
    var r := AppendAro(p, status, p.b[a + 6..a + 8], At(a + 8));
    CreateNaHead(b, Dst(b), Src(b), cfg.nullTarget, NA_FLAG_ROUTER);
    LlaoKeepsHead(p0, OPT_TLLAO, At(l + 2), Dst(b), Src(b), cfg.nullTarget, NA_FLAG_ROUTER, 24);
    AroKeepsHead(p, status, p.b[a + 6..a + 8], At(a + 8), Dst(b), Src(b), cfg.nullTarget, NA_FLAG_ROUTER, 40);
    ChecksumKeepsHead(cfg, r, Dst(b), Src(b), cfg.nullTarget, NA_FLAG_ROUTER, 56);
  }

  /** The header of a success NA. */
  lemma SuccessNaHeader(cfg: Config, b: seq<byte>, at: nat)
    requires |b| >= MIN_BUFSIZE && at + OPT_ARO_LEN <= |b|
    ensures var q := SuccessNa(cfg, b, at);
      q.len == 80 && NaHead(q.b, Dst(b), Src(b), cfg.nullTarget, NA_FLAG_ROUTER, q.len - IPH_LEN)
  {
    var p := CreateNa(b, Dst(b), Src(b), cfg.nullTarget, NA_FLAG_ROUTER);
    var r := AppendAro(p, ARO_STATUS_SUCCESS, p.b[at + 6..at + 8], At(at + 8));
    CreateNaHead(b, Dst(b), Src(b), cfg.nullTarget, NA_FLAG_ROUTER);
    AroKeepsHead(p, ARO_STATUS_SUCCESS, p.b[at + 6..at + 8], At(at + 8), Dst(b), Src(b), cfg.nullTarget, NA_FLAG_ROUTER, 24);
    ChecksumKeepsHead(cfg, r, Dst(b), Src(b), cfg.nullTarget, NA_FLAG_ROUTER, 40);
  }

  /** The NA after its TLLAO, the address copied from the option at `l >= 64`. */
  lemma TllaoStage(cfg: Config, b: seq<byte>, l: nat)
    requires |b| >= MIN_BUFSIZE && 64 <= l && l + 2 + LLADDR_LEN <= |b|
    ensures var p := AppendLlao(CreateNa(b, Dst(b), Src(b), cfg.nullTarget, NA_FLAG_ROUTER), OPT_TLLAO, At(l + 2));
      && p.len == 80 && p.b[64] == OPT_TLLAO && p.b[65] == 2 && p.b[66..74] == b[l + 2..l + 10]
      && p.b[74..80] == Zeros(6) && p.b[80..] == b[80..]
  {
    var p0 := CreateNa(b, Dst(b), Src(b), cfg.nullTarget, NA_FLAG_ROUTER);
    var p := AppendLlao(p0, OPT_TLLAO, At(l + 2));
    CreateNaFields(b, Dst(b), Src(b), cfg.nullTarget, NA_FLAG_ROUTER);
    LlaoAppended(p0, OPT_TLLAO, At(l + 2));
    WriteElsewhere(p0.b, 64, [OPT_TLLAO, 2], l + 2, l + 10);
    SliceWithin(p0.b, b, 64, |b|, l + 2, l + 10);
    SliceWithin(p0.b, b, 64, |b|, 80, |b|);
  }

  /** The NA after its ARO, appended at 80 to a message whose first 80 bytes it keeps. */
  lemma AroStage(cfg: Config, p: Pkt, a: nat, status: byte)
    requires |p.b| >= MIN_BUFSIZE && p.len == 80 && a + OPT_ARO_LEN <= |p.b|
    ensures var q := WithChecksum(cfg, AppendAro(p, status, p.b[a + 6..a + 8], At(a + 8)));
      && q.b[64..80] == p.b[64..80] && q.b[80] == OPT_ARO && q.b[81] == 2 && q.b[82] == status
      && q.b[86..88] == p.b[a + 6..a + 8]
      && q.b[88..96] == Write(p.b, 80, [OPT_ARO, 2, status, 0, 0, 0] + p.b[a + 6..a + 8])[a + 8..a + 16]
  {
    var r := AppendAro(p, status, p.b[a + 6..a + 8], At(a + 8));
    var q := WithChecksum(cfg, r);
    AroAppended(p, status, p.b[a + 6..a + 8], At(a + 8));
    ChecksumElsewhere(cfg, r, BODY, 96);
    SliceWithin(q.b, r.b, BODY, 96, 64, 80);
    SliceWithin(r.b, p.b, PAYLOAD_LEN + 2, 80, 64, 80);
    SliceWithin(q.b, r.b, BODY, 96, 86, 88);
    SliceWithin(q.b, r.b, BODY, 96, 88, 96);
    assert q.b[80] == q.b[BODY..96][80 - BODY] == r.b[80];
    assert q.b[81] == q.b[BODY..96][81 - BODY] == r.b[81];
    assert q.b[82] == q.b[BODY..96][82 - BODY] == r.b[82];
  }

  /** The same, appended at 64 to a message whose first 64 bytes it keeps. */
  lemma AroStage64(cfg: Config, p: Pkt, a: nat, status: byte)
    requires |p.b| >= MIN_BUFSIZE && p.len == 64 && a + OPT_ARO_LEN <= |p.b|
    ensures var q := WithChecksum(cfg, AppendAro(p, status, p.b[a + 6..a + 8], At(a + 8)));
      && q.b[64] == OPT_ARO && q.b[65] == 2 && q.b[66] == status && q.b[70..72] == p.b[a + 6..a + 8]
      && q.b[72..80] == Write(p.b, 64, [OPT_ARO, 2, status, 0, 0, 0] + p.b[a + 6..a + 8])[a + 8..a + 16]
  {
    var r := AppendAro(p, status, p.b[a + 6..a + 8], At(a + 8));
    var q := WithChecksum(cfg, r);
    AroAppended(p, status, p.b[a + 6..a + 8], At(a + 8));
    ChecksumElsewhere(cfg, r, BODY, 80);
    SliceWithin(q.b, r.b, BODY, 80, 70, 72);
    SliceWithin(q.b, r.b, BODY, 80, 72, 80);
    assert q.b[64] == q.b[BODY..80][64 - BODY] == r.b[64];
    assert q.b[65] == q.b[BODY..80][65 - BODY] == r.b[65];
    assert q.b[66] == q.b[BODY..80][66 - BODY] == r.b[66];
  }

  /**
   * The options of an error NA: a TLLAO carrying the address of the NS's
   * SLLAO, then an ARO with the status; the NA walker reads exactly these two.
   */
  lemma ErrorNaOptions(cfg: Config, b: seq<byte>, l: nat, a: nat, status: byte)
    requires |b| >= MIN_BUFSIZE && 64 <= l && l + 2 + LLADDR_LEN <= |b| && a + OPT_ARO_LEN <= |b|
    ensures var q := ErrorNa(cfg, b, l, a, status);
      && q.b[64] == OPT_TLLAO && q.b[65] == 2 && q.b[66..74] == b[l + 2..l + 10]
      && q.b[80] == OPT_ARO && q.b[81] == 2 && q.b[82] == status
      && Walk(q.b, q.len, NA_LEN) == Chain([Opt(OPT_TLLAO, 2, 64), Opt(OPT_ARO, 2, 80)], Completed)
  {
    var p := AppendLlao(CreateNa(b, Dst(b), Src(b), cfg.nullTarget, NA_FLAG_ROUTER), OPT_TLLAO, At(l + 2));
    var q := ErrorNa(cfg, b, l, a, status);
    TllaoStage(cfg, b, l);
    AroStage(cfg, p, a, status);
    SliceOfKnown(q.b, 64, 80, p.b[64..80], 66, 74);
    assert q.b[64] == q.b[64..80][0] == p.b[64];
    assert q.b[65] == q.b[64..80][1] == p.b[65];
    assert Walk(q.b, 96, 52) == Chain([], Completed);
    assert Walk(q.b, 96, 36) == Chain([Opt(OPT_ARO, 2, 80)], Completed);
  }

  /** When the NS's ARO lies past the TLLAO the reply writes, the error NA echoes its lifetime and EUI-64. */
  lemma ErrorNaEchoes(cfg: Config, b: seq<byte>, l: nat, a: nat, status: byte)
    requires |b| >= MIN_BUFSIZE && 64 <= l && l + 2 + LLADDR_LEN <= |b| && 80 <= a && a + OPT_ARO_LEN <= |b|
    ensures var q := ErrorNa(cfg, b, l, a, status);
      q.b[86..88] == b[a + 6..a + 8] && q.b[88..96] == b[a + 8..a + 16]
  {
    var p := AppendLlao(CreateNa(b, Dst(b), Src(b), cfg.nullTarget, NA_FLAG_ROUTER), OPT_TLLAO, At(l + 2));
    var lt := p.b[a + 6..a + 8];
    TllaoStage(cfg, b, l);
    AroStage(cfg, p, a, status);
    SliceWithin(p.b, b, 80, |b|, a + 6, a + 8);
    WriteElsewhere(p.b, 80, [OPT_ARO, 2, status, 0, 0, 0] + lt, a + 8, a + 16);
    SliceWithin(p.b, b, 80, |b|, a + 8, a + 16);
  }

  /**
   * When the NS carries its ARO at 64, before an SLLAO at 80, the TLLAO the
   * reply writes at 64 covers the ARO before its fields are copied: the
   * error NA's lifetime is two bytes of the link-layer address and its
   * EUI-64 the address's last two bytes followed by six bytes of padding.
   */
  lemma ErrorNaOverwritesAro(cfg: Config, b: seq<byte>, status: byte)
    requires |b| >= MIN_BUFSIZE
    ensures var q := ErrorNa(cfg, b, 80, 64, status);
      q.b[86..88] == b[86..88] && q.b[88..96] == b[88..90] + Zeros(6)
  {
    var p := AppendLlao(CreateNa(b, Dst(b), Src(b), cfg.nullTarget, NA_FLAG_ROUTER), OPT_TLLAO, At(82));
    TllaoStage(cfg, b, 80);
    AroStage(cfg, p, 64, status);
    OverwrittenAro(p.b, b, status);
  }

  lemma OverwrittenAro(x: seq<byte>, b: seq<byte>, status: byte)
    requires |x| >= MIN_BUFSIZE && |b| >= MIN_BUFSIZE && x[66..74] == b[82..90] && x[74..80] == Zeros(6)
    ensures x[70..72] == b[86..88]
    ensures Write(x, 80, [OPT_ARO, 2, status, 0, 0, 0] + x[70..72])[72..80] == b[88..90] + Zeros(6)
  {
    SliceOfKnown(x, 66, 74, b[82..90], 70, 72);
    SliceOfKnown(x, 66, 74, b[82..90], 72, 74);
    WriteElsewhere(x, 80, [OPT_ARO, 2, status, 0, 0, 0] + x[70..72], 72, 80);
    SliceJoin(x, 72, 74, 80, b[88..90], Zeros(6));
  }

  /**
   * The option of a success NA: one ARO with status 0, the only option the
   * NA walker reads.
   */
  lemma SuccessNaOptions(cfg: Config, b: seq<byte>, at: nat)
    requires |b| >= MIN_BUFSIZE && 64 <= at && at + OPT_ARO_LEN <= |b|
    ensures var q := SuccessNa(cfg, b, at);
      && q.b[64] == OPT_ARO && q.b[65] == 2 && q.b[66] == ARO_STATUS_SUCCESS
      && Walk(q.b, q.len, NA_LEN) == Chain([Opt(OPT_ARO, 2, 64)], Completed)
  {
    var p := CreateNa(b, Dst(b), Src(b), cfg.nullTarget, NA_FLAG_ROUTER);
    var q := SuccessNa(cfg, b, at);
    AroStage64(cfg, p, at, ARO_STATUS_SUCCESS);
    SuccessNaHeader(cfg, b, at);
    assert Walk(q.b, 80, 36) == Chain([], Completed);
  }

  /** A success NA echoes the lifetime and EUI-64 of the NS's ARO at `at >= 64`. */
  lemma SuccessNaEchoes(cfg: Config, b: seq<byte>, at: nat)
    requires |b| >= MIN_BUFSIZE && 64 <= at && at + OPT_ARO_LEN <= |b|
    ensures var q := SuccessNa(cfg, b, at);
      q.b[70..72] == b[at + 6..at + 8] && q.b[72..80] == b[at + 8..at + 16]
  {
    var p := CreateNa(b, Dst(b), Src(b), cfg.nullTarget, NA_FLAG_ROUTER);
    var lt := p.b[at + 6..at + 8];
    CreateNaFields(b, Dst(b), Src(b), cfg.nullTarget, NA_FLAG_ROUTER);
    AroStage64(cfg, p, at, ARO_STATUS_SUCCESS);
    SliceWithin(p.b, b, 64, |b|, at + 6, at + 8);
    WriteElsewhere(p.b, 64, [OPT_ARO, 2, ARO_STATUS_SUCCESS, 0, 0, 0] + lt, at + 8, at + 16);
    SliceWithin(p.b, b, 64, |b|, at + 8, at + 16);
  }

  /**
   * What an error NA built from an SLLAO at `l` and an ARO at `a` holds:
   * the header back to the NS sender, a TLLAO with the SLLAO's address, an
   * ARO with `status`, exactly these two options, and, when the ARO lies
   * past the TLLAO, its lifetime and EUI-64 echoed.
   */
  predicate ErrorReply(cfg: Config, q: Pkt, b: seq<byte>, l: nat, a: nat, status: byte)
    requires |q.b| >= MIN_BUFSIZE && |b| >= MIN_BUFSIZE && l + 2 + LLADDR_LEN <= |b| && a + OPT_ARO_LEN <= |b|
  {
    && q.len == 96 && NaHead(q.b, Dst(b), Src(b), cfg.nullTarget, NA_FLAG_ROUTER, q.len - IPH_LEN)
    && q.b[64] == OPT_TLLAO && q.b[66..74] == b[l + 2..l + 10] && q.b[80] == OPT_ARO && q.b[82] == status
    && Walk(q.b, q.len, NA_LEN) == Chain([Opt(OPT_TLLAO, 2, 64), Opt(OPT_ARO, 2, 80)], Completed)
    && (a >= 80 ==> q.b[86..88] == b[a + 6..a + 8] && q.b[88..96] == b[a + 8..a + 16])
  }

  lemma ErrorNaReply(cfg: Config, b: seq<byte>, l: nat, a: nat, status: byte)
    requires |b| >= MIN_BUFSIZE && 64 <= l && l + 2 + LLADDR_LEN <= |b| && a + OPT_ARO_LEN <= |b|
    ensures ErrorReply(cfg, ErrorNa(cfg, b, l, a, status), b, l, a, status)
  {
    ErrorNaHeader(cfg, b, l, a, status);
    ErrorNaOptions(cfg, b, l, a, status);
    if a >= 80 {
      ErrorNaEchoes(cfg, b, l, a, status);
    }
  }

  /**
   * What a success NA for an ARO at `at` holds: the header back to the NS
   * sender, one ARO with status 0 echoing the lifetime and EUI-64.
   */
  predicate SuccessReply(cfg: Config, q: Pkt, b: seq<byte>, at: nat)
    requires |q.b| >= MIN_BUFSIZE && |b| >= MIN_BUFSIZE && at + OPT_ARO_LEN <= |b|
  {
    && q.len == 80 && NaHead(q.b, Dst(b), Src(b), cfg.nullTarget, NA_FLAG_ROUTER, q.len - IPH_LEN)
    && q.b[64] == OPT_ARO && q.b[66] == ARO_STATUS_SUCCESS
    && q.b[70..72] == b[at + 6..at + 8] && q.b[72..80] == b[at + 8..at + 16]
    && Walk(q.b, q.len, NA_LEN) == Chain([Opt(OPT_ARO, 2, 64)], Completed)
  }

  lemma SuccessNaReply(cfg: Config, b: seq<byte>, at: nat)
    requires |b| >= MIN_BUFSIZE && 64 <= at && at + OPT_ARO_LEN <= |b|
    ensures SuccessReply(cfg, SuccessNa(cfg, b, at), b, at)
  {
    SuccessNaHeader(cfg, b, at);
    SuccessNaOptions(cfg, b, at);
    SuccessNaEchoes(cfg, b, at);
  }
}
