/**
 * na_input (uip-nd6.c:551-774): duplicate address detection, address
 * resolution and unreachability detection on the answering side (RFC 4861
 * section 7.2.5), and the registration answers of RFC 6775 section 6.5 in the
 * 6LoWPAN-ND build.  Every NA is discarded once handled.
 */
module Nd6Na {
  import opened Wire
  import opened Ds6
  import opened Nd6Config
  import opened NdPackets
  import opened Nd6State
  import opened Nd6Walk

  /** The R, S and O flags of an NA. */
  predicate RouterFlag(b: seq<byte>) requires |b| >= MIN_BUFSIZE { HasBit(b[NA_FLAGS], NA_FLAG_ROUTER) }
  predicate SolicitedFlag(b: seq<byte>) requires |b| >= MIN_BUFSIZE { HasBit(b[NA_FLAGS], NA_FLAG_SOLICITED) }
  predicate OverrideFlag(b: seq<byte>) requires |b| >= MIN_BUFSIZE { HasBit(b[NA_FLAGS], NA_FLAG_OVERRIDE) }

  /** The validity checks of uip-nd6.c:579-586. */
  predicate NaChecks(b: seq<byte>)
    requires |b| >= MIN_BUFSIZE
  {
    && b[TTL] == ND6_HOP_LIMIT && b[ICMP_CODE] == 0 && !IsMcast(Target(b))
    && !(SolicitedFlag(b) && IsMcast(Dst(b)))
  }

  /** The option loop of na_input: nd6_opt_llao is cleared first, nd6_opt_aro is not. */
  function NaWalk(cfg: Config, s: St, b: seq<byte>, len: nat): Flow
    requires |b| >= MIN_BUFSIZE
  {
    OptLoop(NaH, cfg, s.(llaoAt := None), b, len, NA_LEN)
  }

  /** na_input. */
  function NaInput(cfg: Config, s: St, b: seq<byte>, len: nat): (r: Step)
    requires |b| >= MIN_BUFSIZE
  {
    if !NaChecks(b) then Leave(s, b, len, Discard)
    else match NaWalk(cfg, s, b, len)
      case Halt(s1, o) => Leave(s1, b, len, o)
      case Go(s1) =>
        match cfg.engine
        case Classic => NaClassic(cfg, s1, b, len)
        case SixLo => NaSixLo(cfg, s1, b, len)
        case Rpl => Leave(s1, b, len, Discard)
  }

  /**
   * The 6LoWPAN-ND part (uip-nd6.c:623-673): the answer to one of our
   * registrations, read through nd6_opt_aro, which may still point at an
   * ARO of an earlier message.
   */
  function NaSixLo(cfg: Config, s: St, b: seq<byte>, len: nat): (r: Step)
    requires |b| >= MIN_BUFSIZE
  {
    var src := Src(b);
    var s1 := s.(nbrRef := Lookup(s.nbrs, src));
    match s.aroAt
    case None => Leave(s1, b, len, Discard)
    case Some(at) =>
      if src !in s.nbrs then Leave(s1, b, len, Undefined(NullDeref))
      else if s.nbrs[src].state == GarbageCollectable then Leave(s1, b, len, Discard)
      else if at + 8 > |b| then Leave(s1, b, len, Undefined(BeyondBuffer))
      else if BE16(b, at + 6) == 0 && s.nbrs[src].reg == RegToBeUnregistered then
        Leave(s1.(nbrs := NbrRm(s.nbrs, src)), b, len, Discard)
      else if b[at + 2] == ARO_STATUS_SUCCESS then
        var n := s.nbrs[src].(state := Reachable, reg := RegRegistered, nscount := 0,
                              reachable := BE16(b, at + 6) / 1000, sendns := cfg.nsRegTimer);
        Leave(s1.(nbrs := s.nbrs[src := n], defrtRef := Lookup(s.defrts, src)), b, len, Discard)
      else if b[at + 2] == ARO_STATUS_DUPLICATE then
        Leave(s1.(addrs := AddrRm(s.addrs, AddrLookup(s.addrs, Target(b)))), b, len, Discard)
      else if b[at + 2] == ARO_STATUS_RTR_NC_FULL then
        Leave(s1.(nbrs := NbrRm(s.nbrs, src)), b, len, Discard)
      else Leave(s1, b, len, Discard)
  }

  /** The classic part (uip-nd6.c:676-741). */
  function NaClassic(cfg: Config, s: St, b: seq<byte>, len: nat): (r: Step)
    requires |b| >= MIN_BUFSIZE
  {
    var t := Target(b);
    match AddrLookup(s.addrs, t)
    case Some(i) =>
      if cfg.dad && s.addrs[i].state == Tentative then Leave(s.(events := s.events + [DadFailed(t)]), b, len, Discard)
      else Leave(s, b, len, Discard)
    case None =>
      // uip-nd6.c:683 asks uip_ds6_nbr_get_ll for the entry's address before
      // the NULL check at 684, and the pointer it returns is used only after
      // that check; the call is taken to have no effect when there is no entry
      var s1 := s.(nbrRef := Lookup(s.nbrs, t));
      if t !in s.nbrs then Leave(s1, b, len, Discard)
      else if s.llaoAt.Some? && s.llaoAt.value + 2 + LLADDR_LEN > |b| then Leave(s1, b, len, Undefined(BeyondBuffer))
      else
        var llao: Option<LlAddr> := if s.llaoAt.Some? then Some(LlData(b, s.llaoAt.value)) else None;
        NaUpdate(cfg, s1, b, len, s.nbrs[t], llao)
  }

  /**
   * How na_input updates the target's entry `n` (uip-nd6.c:693-739), with
   * `llao` the address of the TLLAO if there is one.
   */
  function NaUpdate(cfg: Config, s: St, b: seq<byte>, len: nat, n: Nbr, llao: Option<LlAddr>): (r: Step)
    requires |b| >= MIN_BUFSIZE
  {
    var t := Target(b);
    var isRouter, solicited, override := RouterFlag(b), SolicitedFlag(b), OverrideFlag(b);
    var llchange := llao.Some? && llao.value != n.ll;
    var rt := s.iface.reachableTime / 1000;
    if n.state == Incomplete then
      if llao.None? then Leave(s, b, len, Discard)
      else
        var n1 := if solicited then n.(ll := llao.value, state := Reachable, nscount := 0, reachable := rt)
                  else n.(ll := llao.value, state := Stale);
        Leave(s.(nbrs := s.nbrs[t := n1.(isRouter := isRouter)]), b, len, Discard)
    else if !override && llchange then
      Leave(s.(nbrs := s.nbrs[t := if n.state == Reachable then n.(state := Stale) else n]), b, len, Discard)
    else
      // the condition at uip-nd6.c:724-725 holds whenever this branch is reached
      var n1 := if llao.Some? then n.(ll := llao.value) else n;
      var n2 := if solicited then n1.(state := Reachable, reachable := rt)
                else if llchange then n1.(state := Stale) else n1;
      var s2 := if n.isRouter && !isRouter then s.(defrtRef := Lookup(s.defrts, Src(b)), defrts := s.defrts - {Src(b)})
                else s;
      Leave(s2.(nbrs := s.nbrs[t := n2.(isRouter := isRouter)]), b, len, Discard)
  }
}
