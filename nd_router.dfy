/**
 * rs_input (uip-nd6.c:778-869) and ra_input (uip-nd6.c:1035-1293): the
 * handling of Router Solicitations and Router Advertisements of RFC 4861
 * sections 6.2.6 and 6.3.4.  Neither answers in place: an RS is left in
 * uip_buf after scheduling a solicited RA, and every RA is discarded once
 * handled.
 */
module Nd6Router {
  import opened Wire
  import opened Ds6
  import opened Nd6Config
  import opened NdPackets
  import opened Nd6State
  import opened Nd6Walk

  // ---- rs_input ----

  /** The validity checks of uip-nd6.c:795-798. */
  predicate RsChecks(b: seq<byte>)
    requires |b| >= MIN_BUFSIZE
  {
    b[TTL] == ND6_HOP_LIMIT && b[ICMP_CODE] == 0
  }

  /** The option loop of rs_input, which clears nd6_opt_llao first. */
  function RsWalk(cfg: Config, s: St, b: seq<byte>, len: nat): Flow
    requires |b| >= MIN_BUFSIZE
  {
    OptLoop(RsH, cfg, s.(llaoAt := None), b, len, RS_LEN)
  }

  /** rs_input. */
  function RsInput(cfg: Config, s: St, b: seq<byte>, len: nat): (r: Step)
    requires |b| >= MIN_BUFSIZE
  {
    if !RsChecks(b) then Leave(s, b, len, Discard)
    else match RsWalk(cfg, s, b, len)
      case Halt(s1, o) => Leave(s1, b, len, o)
      case Go(s1) =>
        match s1.llaoAt
        case None => RsSolicit(cfg, s1, b, len)
        case Some(at) =>
          if IsUnspecified(Src(b)) then Leave(s1, b, len, Discard)
          else if at + 2 + LLADDR_LEN > |b| then Leave(s1, b, len, Undefined(BeyondBuffer))
          else RsNeighbor(cfg, s1, b, len, LlData(b, at))
  }

  /**
   * The neighbor entry of the solicitor (uip-nd6.c:830-856).  A new entry is
   * STALE and not a router; in 6LoWPAN-ND its timers, registration state and
   * nscount are then cleared through the pointer uip_ds6_nbr_add returned,
   * which is NULL when the cache is full.  A changed link-layer address
   * replaces the entry by a new one.
   */
  function RsNeighbor(cfg: Config, s: St, b: seq<byte>, len: nat, ll: LlAddr): (r: Step)
    requires |b| >= MIN_BUFSIZE
  {
    var src := Src(b);
    if src !in s.nbrs then
      match NbrAdd(s.nbrs, cfg.caps.nbrs, src, ll, false, Stale)
      case None =>
        if cfg.engine == SixLo then Leave(s.(nbrRef := None), b, len, Undefined(NullDeref))
        else RsSolicit(cfg, s.(nbrRef := None), b, len)
      case Some(t) => RsSolicit(cfg, s.(nbrs := t, nbrRef := Some(src)), b, len)
    else if ll != s.nbrs[src].ll then
      var t0 := NbrRm(s.nbrs, src);
      match NbrAdd(t0, cfg.caps.nbrs, src, ll, false, Stale)
      case None => Leave(s.(nbrs := t0, nbrRef := None), b, len, Undefined(NullDeref))
      case Some(t) => RsSolicit(cfg, s.(nbrs := t[src := t[src].(isRouter := false)], nbrRef := Some(src)), b, len)
    else RsSolicit(cfg, s.(nbrs := s.nbrs[src := s.nbrs[src].(isRouter := false)], nbrRef := Some(src)), b, len)
  }

  /**
   * uip_ds6_send_ra_sollicited, called in the classic and 6LoWPAN-ND builds
   * (uip-nd6.c:861-863); the handler then returns with uip_len untouched.
   */
  function RsSolicit(cfg: Config, s: St, b: seq<byte>, len: nat): (r: Step)
  {
    Leave(if cfg.engine == Rpl then s else s.(events := s.events + [SolicitedRa]), b, len, Forward)
  }

  // ---- ra_input ----

  /** The validity checks of uip-nd6.c:1045-1051. */
  predicate RaChecks(b: seq<byte>)
    requires |b| >= MIN_BUFSIZE
  {
    b[TTL] == ND6_HOP_LIMIT && IsLinkLocal(Src(b)) && b[ICMP_CODE] == 0
  }

  /**
   * The interface parameters an RA carries (uip-nd6.c:1053-1068); `rnd` is
   * the value uip_ds6_compute_reachable_time draws for a new base.
   */
  function RaIface(i: Iface, b: seq<byte>, rnd: nat): Iface
    requires |b| >= MIN_BUFSIZE
  {
    var base := BE32(b, RA_REACHABLE);
    var retrans := BE32(b, RA_RETRANS);
    var i1 := if b[RA_CUR_TTL] != 0 then i.(curHopLimit := b[RA_CUR_TTL]) else i;
    var i2 := if base != 0 && base != i.baseReachable then i1.(baseReachable := base, reachableTime := rnd) else i1;
    if retrans != 0 then i2.(retransTimer := retrans) else i2
  }

  /** The option loop of ra_input; nd6_opt_llao is not cleared. */
  function RaWalk(cfg: Config, s: St, b: seq<byte>, len: nat, rnd: nat): Flow
    requires |b| >= MIN_BUFSIZE
  {
    OptLoop(RaH, cfg, s.(iface := RaIface(s.iface, b, rnd)), b, len, RA_LEN)
  }

  /** ra_input. */
  function RaInput(cfg: Config, s: St, b: seq<byte>, len: nat, rnd: nat): (r: Step)
    requires |b| >= MIN_BUFSIZE
  {
    if !RaChecks(b) then Leave(s, b, len, Discard)
    else match RaWalk(cfg, s, b, len, rnd)
      case Halt(s1, o) => Leave(s1, b, len, o)
      case Go(s1) => RaRouter(cfg, s1, b, len)
  }

  /**
   * The router lifetime (uip-nd6.c:1250-1271).  A nonzero lifetime marks
   * the entry nbr points to as a router, which is the sender's entry only
   * when this RA carried an SLLAO; a zero lifetime removes the entry defrt
   * points to, which this handler sets only in 6LoWPAN-ND and only for a
   * nonzero lifetime.
   */
  function RaRouter(cfg: Config, s: St, b: seq<byte>, len: nat): (r: Step)
    requires |b| >= MIN_BUFSIZE
  {
    if BE16(b, RA_ROUTER_LIFETIME) != 0 then
      match s.nbrRef
      case None => RaDefrt(cfg, s, b, len)
      case Some(a) =>
        if a !in s.nbrs then Leave(s, b, len, Undefined(StalePointer))
        else RaDefrt(cfg, s.(nbrs := s.nbrs[a := s.nbrs[a].(isRouter := true)]), b, len)
    else
      match s.defrtRef
      case None => Leave(s, b, len, Discard)
      case Some(a) =>
        if a !in s.defrts then Leave(s, b, len, Undefined(StalePointer))
        else Leave(s.(defrts := s.defrts - {a}), b, len, Discard)
  }

  /** The 6LoWPAN-ND default-router update (uip-nd6.c:1254-1264). */
  function RaDefrt(cfg: Config, s: St, b: seq<byte>, len: nat): (r: Step)
    requires |b| >= MIN_BUFSIZE
  {
    if cfg.engine != SixLo then Leave(s, b, len, Discard)
    else
      var src := Src(b);
      var lifetime := BE16(b, RA_ROUTER_LIFETIME);
      var d := if src in s.defrts then s.defrts[src := lifetime] else DefrtAdd(s.defrts, cfg.caps.defrts, src, lifetime);
      Leave(s.(defrtRef := Lookup(s.defrts, src), defrts := d), b, len, Discard)
  }
}
