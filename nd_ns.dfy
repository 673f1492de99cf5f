/**
 * ns_input (uip-nd6.c:171-446) and uip_nd6_registration_error
 * (uip-nd6.c:1375-1390): duplicate address detection, address resolution and
 * neighbor unreachability detection (RFC 4861 sections 7.1.1 and 7.2.3), and
 * the address registration of RFC 6775 section 6.5 in the 6LoWPAN-ND build.
 */
module Nd6Ns {
  import opened Wire
  import opened Ds6
  import opened Nd6Config
  import opened NdOptions
  import opened NdPackets
  import opened Nd6State
  import opened Nd6Walk
  import opened NdReplies

  /** The validity checks of uip-nd6.c:187-193. */
  predicate NsChecks(b: seq<byte>)
    requires |b| >= MIN_BUFSIZE
  {
    b[TTL] == ND6_HOP_LIMIT && !IsMcast(Target(b)) && b[ICMP_CODE] == 0
  }

  /** nd6_opt_llao, and in 6LoWPAN-ND nd6_opt_aro, are cleared before the walk. */
  function NsReset(cfg: Config, s: St): (r: St)
    ensures r.llaoAt == None && (cfg.engine == SixLo ==> r.aroAt == None)
    ensures r == s.(llaoAt := None, aroAt := r.aroAt) && (cfg.engine != SixLo ==> r.aroAt == s.aroAt)
  {
    s.(llaoAt := None, aroAt := if cfg.engine == SixLo then None else s.aroAt)
  }

  /** The option loop of ns_input. */
  function NsWalk(cfg: Config, s: St, b: seq<byte>, len: nat): Flow
    requires |b| >= MIN_BUFSIZE
  {
    OptLoop(NsH, cfg, NsReset(cfg, s), b, len, NS_LEN)
  }

  /** ns_input. */
  function NsInput(cfg: Config, s: St, b: seq<byte>, len: nat): (r: Step)
    requires |b| >= MIN_BUFSIZE
  {
    if !NsChecks(b) then Leave(s, b, len, Discard)
    else match NsWalk(cfg, s, b, len)
      case Halt(s1, o) => Leave(s1, b, len, o)
      case Go(s1) =>
        match cfg.engine
        case Classic => NsClassic(cfg, s1, b, len)
        case SixLo => NsSixLo(cfg, s1, b, len)
        case Rpl => Leave(s1, b, len, Forward)
  }

  /** The classic part of ns_input, after the options (uip-nd6.c:258-325). */
  function NsClassic(cfg: Config, s: St, b: seq<byte>, len: nat): (r: Step)
    requires |b| >= MIN_BUFSIZE
  {
    var t := Target(b);
    match AddrLookup(s.addrs, t)
    case None => Leave(s, b, len, Discard)
    case Some(i) =>
      if IsUnspecified(Src(b)) then
        if !cfg.dad || !IsSolicitedNode(Dst(b)) then Leave(s, b, len, Discard)
        else if s.addrs[i].state != Tentative then
          var b1 := Write(b, DST, AllNodes);
          NsAnswer(cfg, s, Write(b1, SRC, cfg.selectSrc(s.addrs, AllNodes)), len, NA_FLAG_OVERRIDE)
        else Leave(s.(events := s.events + [DadFailed(t)]), b, len, Discard)
      else if IsMyAddr(s.addrs, Src(b)) then Leave(s, b, len, Discard)
      else if IsSolicitedNode(Dst(b)) || AddrLookup(s.addrs, Dst(b)) == Some(i) then
        NsAnswer(cfg, s, Write(Write(b, DST, Src(b)), SRC, t), len, NA_FLAG_SOLICITED + NA_FLAG_OVERRIDE)
      else Leave(s, b, len, Discard)
  }

  /**
   * The `create_na` label in the classic build (uip-nd6.c:409-436).  The NA
   * body is compiled only when the guard at 409 holds; otherwise the
   * received NS, with its addresses already rewritten, gets a new checksum
   * and is sent as it is.
   */
  function NsAnswer(cfg: Config, s: St, b: seq<byte>, len: nat, flags: byte): (r: Step)
    requires |b| >= MIN_BUFSIZE && flags < NA_FLAG_ROUTER
  {
    if Guard409(cfg) then
      var f: byte := if cfg.router then flags + NA_FLAG_ROUTER else flags;
      var p := AppendLlao(CreateNa(b, Src(b), Dst(b), Src(b), f), OPT_TLLAO, Value(cfg.myLl));
      var q := WithChecksum(cfg, p);
      Leave(s, q.b, q.len, Reply)
    else
      var q := WithChecksum(cfg, Pkt(b, len));
      Leave(s, q.b, q.len, Reply)
  }

  /** The ARO ns_input acts on (uip-nd6.c:327-330): none without a source or an SLLAO. */
  function AroOf(s: St, b: seq<byte>): Option<nat>
    requires |b| >= MIN_BUFSIZE
  {
    if IsUnspecified(Src(b)) || s.llaoAt.None? then None else s.aroAt
  }

  /** The 6LoWPAN-ND part of ns_input, after the options (uip-nd6.c:326-405). */
  function NsSixLo(cfg: Config, s: St, b: seq<byte>, len: nat): (r: Step)
    requires |b| >= MIN_BUFSIZE
  {
    var s1 := s.(aroAt := AroOf(s, b));
    match AroOf(s, b)
    case None => Leave(s1, b, len, Forward)
    case Some(at) =>
      if at + 3 > |b| then Leave(s1, b, len, Undefined(BeyondBuffer))
      else if b[at + 1] != 2 || b[at + 2] != ARO_STATUS_SUCCESS then Leave(s1, b, len, Discard)
      else if at + OPT_ARO_LEN > |b| then Leave(s1, b, len, Undefined(BeyondBuffer))
      else
        var src := Src(b);
        var eui: LlAddr := b[at + 8..at + 16];
        var s2 := s1.(nbrRef := Lookup(s.nbrs, src));
        if src !in s.nbrs then
          match NbrAdd(s.nbrs, cfg.caps.nbrs, src, eui, true, Reachable)
          case None => RegistrationError(cfg, s2, b, len, ARO_STATUS_RTR_NC_FULL)
          case Some(t) =>
            var n := t[src].(reachable := BE16(b, at + 6) / 1000, state := Reachable,
                             sendns := cfg.nsRegTimer, reg := RegRegistered);
            SixLoAnswer(cfg, s2.(nbrs := t[src := n]), b, len, at)
        else if eui != s.nbrs[src].ll then RegistrationError(cfg, s2, b, len, ARO_STATUS_DUPLICATE)
        // re-registration writes through reg_neighbor, which this path never assigns
        else if s.nbrs[src].state != GarbageCollectable then Leave(s2, b, len, Undefined(UninitPointer))
        else Leave(s2, b, len, Discard)
  }

  /**
   * The `create_na` label in the 6LoWPAN-ND build (uip-nd6.c:420-426): the
   * success NA.  When the guard at 409 also holds, that block first reads
   * `flags`, which this path never assigns.
   */
  function SixLoAnswer(cfg: Config, s: St, b: seq<byte>, len: nat, at: nat): (r: Step)
    requires |b| >= MIN_BUFSIZE && at + OPT_ARO_LEN <= |b|
  {
    if Guard409(cfg) then Leave(s, b, len, Undefined(UninitFlags))
    else
      var q := SuccessNa(cfg, b, at);
      Leave(s, q.b, q.len, Reply)
  }

  /** uip_nd6_registration_error, which writes through both option pointers. */
  function RegistrationError(cfg: Config, s: St, b: seq<byte>, len: nat, status: byte): (r: Step)
    requires |b| >= MIN_BUFSIZE
  {
    match (s.llaoAt, s.aroAt)
    case (None, _) => Leave(s, b, len, Undefined(NullDeref))
    case (_, None) => Leave(s, b, len, Undefined(NullDeref))
    case (Some(l), Some(a)) =>
      if l + 2 + LLADDR_LEN > |b| || a + OPT_ARO_LEN > |b| then Leave(s, b, len, Undefined(BeyondBuffer))
      else
        var q := ErrorNa(cfg, b, l, a, status);
        Leave(s, q.b, q.len, Reply)
  }
}
