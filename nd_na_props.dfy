/**
 * What na_input promises: it never answers and never adds a neighbor or a
 * default router, the classic build applies the update rules of RFC 4861
 * section 7.2.5 to the target's entry only, and the 6LoWPAN-ND build applies
 * a registration answer to the sender's entry only.
 */
module Nd6NaProps {
  import opened Wire
  import opened Ds6
  import opened Nd6Config
  import opened NdOptions
  import opened NdPackets
  import opened Nd6State
  import opened Nd6Walk
  import opened Nd6Na

  /** No ARO among the options of a chain. */
  predicate NoAro(opts: seq<Opt>)
  {
    forall i :: 0 <= i < |opts| ==> opts[i].kind != OPT_ARO
  }

  /**
   * The NA option loop keeps nd6_opt_aro when the message has no ARO, so the
   * 6LoWPAN-ND handler then acts on the ARO of an earlier message; an ARO
   * pointer the loop does set names an ARO of length 2 carrying our own
   * EUI-64.
   */
  lemma {:induction false} NaLoopAro(cfg: Config, s: St, b: seq<byte>, len: nat, off: nat)
    requires |b| >= MIN_BUFSIZE
    ensures var r := OptLoop(NaH, cfg, s, b, len, off);
      && (r.Go? && NoAro(Walk(b, len, off).opts) ==> r.s.aroAt == s.aroAt)
      && (r.Go? && r.s.aroAt.Some? && r.s.aroAt != s.aroAt ==>
            var a := r.s.aroAt.value;
            a + OPT_ARO_LEN <= |b| && b[a] == OPT_ARO && b[a + 1] == 2 && b[a + 8..a + 16] == cfg.myLl)
    decreases if len > off then len - off else 0
  {
    if BODY + off < len && BODY + off + 1 < |b| && b[BODY + off + 1] != 0 {
      var next := NextOffset(off, b[BODY + off + 1]);
      var w := Walk(b, len, off);
      assert w.opts[0].kind == b[BODY + off];
      assert w.opts[1..] == Walk(b, len, next).opts;
      match NaOption(cfg, s, b, BODY + off)
      case Halt(s1, o) =>
      case Go(s1) => NaLoopAro(cfg, s1, b, len, next);
    }
  }

  /** What every NA handler may do to the state: `key` is the one entry it may change. */
  predicate Consumed(s: St, r: Step, b: seq<byte>, key: Addr)
  {
    && (r.out == Discard || r.out.Undefined?) && r.b == b
    && r.s.nbrs.Keys <= s.nbrs.Keys && r.s.defrts.Keys <= s.defrts.Keys
    && r.s.prefixes == s.prefixes && r.s.iface == s.iface
    && (forall a :: a in r.s.nbrs && a != key ==> r.s.nbrs[a] == s.nbrs[a])
  }

  lemma NaUpdateConsumed(cfg: Config, s: St, b: seq<byte>, len: nat, n: Nbr, llao: Option<LlAddr>)
    requires |b| >= MIN_BUFSIZE && Target(b) in s.nbrs
    ensures var r := NaUpdate(cfg, s, b, len, n, llao);
      Consumed(s, r, b, Target(b)) && r.s.addrs == s.addrs && r.s.events == s.events
  {
  }

  lemma NaClassicConsumed(cfg: Config, s: St, b: seq<byte>, len: nat)
    requires |b| >= MIN_BUFSIZE
    ensures var r := NaClassic(cfg, s, b, len); Consumed(s, r, b, Target(b)) && r.s.addrs == s.addrs
  {
    var t := Target(b);
    if AddrLookup(s.addrs, t).None? && t in s.nbrs
       && !(s.llaoAt.Some? && s.llaoAt.value + 2 + LLADDR_LEN > |b|) {
      var llao: Option<LlAddr> := if s.llaoAt.Some? then Some(LlData(b, s.llaoAt.value)) else None;
      NaUpdateConsumed(cfg, s.(nbrRef := Lookup(s.nbrs, t)), b, len, s.nbrs[t], llao);
    }
  }

  lemma NaSixLoConsumed(cfg: Config, s: St, b: seq<byte>, len: nat)
    requires |b| >= MIN_BUFSIZE
    ensures var r := NaSixLo(cfg, s, b, len); Consumed(s, r, b, Src(b)) && r.s.defrts == s.defrts
  {
  }

  /**
   * Every NA, in every build, is consumed: no answer goes out, no neighbor
   * entry and no default router is added, only the target's entry (classic)
   * or the sender's entry (6LoWPAN-ND) changes, and the prefix list and
   * interface parameters stay as they were.
   */
  lemma NaOnlyTouchesOneEntry(cfg: Config, s: St, b: seq<byte>, len: nat)
    requires |b| >= MIN_BUFSIZE
    ensures var r := NaInput(cfg, s, b, len);
      && (cfg.engine == Classic ==> Consumed(s, r, b, Target(b)) && r.s.addrs == s.addrs)
      && (cfg.engine == SixLo ==> Consumed(s, r, b, Src(b)) && r.s.defrts == s.defrts)
      && (cfg.engine == Rpl ==> Consumed(s, r, b, Src(b)) && SameTables(s, r.s))
  {
    var s0 := s.(llaoAt := None);
    PointerOnlyLoops(NaH, cfg, s0, b, len, NA_LEN);
    LoopHalts(NaH, cfg, s0, b, len, NA_LEN);
    if NaChecks(b) && NaWalk(cfg, s, b, len).Go? {
      var s1 := NaWalk(cfg, s, b, len).s;
      NaClassicConsumed(cfg, s1, b, len);
      NaSixLoConsumed(cfg, s1, b, len);
    }
  }

  /** Under RPL na_input changes no table and records no event. */
  lemma NaRplIgnores(cfg: Config, s: St, b: seq<byte>, len: nat)
    requires |b| >= MIN_BUFSIZE && cfg.engine == Rpl
    ensures var r := NaInput(cfg, s, b, len);
      SameTables(s, r.s) && r.s.events == s.events && (r.out == Discard || r.out.Undefined?)
  {
    PointerOnlyLoops(NaH, cfg, s.(llaoAt := None), b, len, NA_LEN);
    LoopHalts(NaH, cfg, s.(llaoAt := None), b, len, NA_LEN);
  }

  // ---- the classic build ----

  /** The classic lemmas assume an NA that passed its checks and its option loop. */
  predicate ClassicWalked(cfg: Config, s: St, b: seq<byte>, len: nat)
  {
    |b| >= MIN_BUFSIZE && cfg.engine == Classic && NaChecks(b) && NaWalk(cfg, s, b, len).Go?
  }

  /** The TLLAO the classic handler reads: the last one of the chain. */
  lemma NaWalkTllao(cfg: Config, s: St, b: seq<byte>, len: nat)
    requires |b| >= MIN_BUFSIZE && NaWalk(cfg, s, b, len).Go?
    ensures var s1 := NaWalk(cfg, s, b, len).s;
      && SameTables(s, s1) && s1.events == s.events
      && s1.llaoAt == LastOf(Walk(b, len, NA_LEN).opts, OPT_TLLAO, None)
  {
    PointerOnlyLoops(NaH, cfg, s.(llaoAt := None), b, len, NA_LEN);
  }

  /**
   * An NA for one of our own addresses is discarded; it ends duplicate
   * address detection with a failure when the address is still TENTATIVE.
   */
  lemma NaForOurAddress(cfg: Config, s: St, b: seq<byte>, len: nat)
    requires ClassicWalked(cfg, s, b, len) && AddrLookup(s.addrs, Target(b)).Some?
    ensures var r := NaInput(cfg, s, b, len); var i := AddrLookup(s.addrs, Target(b)).value;
      && r.out == Discard && r.len == 0 && SameTables(s, r.s)
      && r.s.events == s.events + (if cfg.dad && s.addrs[i].state == Tentative then [DadFailed(Target(b))] else [])
  {
    NaWalkTllao(cfg, s, b, len);
  }

  /** An NA for a target with no neighbor entry changes nothing. */
  lemma NaForUnknownTarget(cfg: Config, s: St, b: seq<byte>, len: nat)
    requires ClassicWalked(cfg, s, b, len) && AddrLookup(s.addrs, Target(b)).None? && Target(b) !in s.nbrs
    ensures var r := NaInput(cfg, s, b, len);
      r.out == Discard && r.len == 0 && SameTables(s, r.s) && r.s.events == s.events
  {
    NaWalkTllao(cfg, s, b, len);
  }

  /** The classic lemmas below: an NA for a neighbor's address with its TLLAO inside uip_buf. */
  predicate ForNeighbor(cfg: Config, s: St, b: seq<byte>, len: nat)
  {
    && ClassicWalked(cfg, s, b, len) && AddrLookup(s.addrs, Target(b)).None? && Target(b) in s.nbrs
    && var l := NaWalk(cfg, s, b, len).s.llaoAt; l.Some? ==> l.value + 2 + LLADDR_LEN <= |b|
  }

  /** The link-layer address the NA carries, if any. */
  function Tllao(cfg: Config, s: St, b: seq<byte>, len: nat): Option<LlAddr>
    requires ForNeighbor(cfg, s, b, len)
  {
    var l := NaWalk(cfg, s, b, len).s.llaoAt;
    if l.Some? then Some(LlData(b, l.value)) else None
  }

  /**
   * Address resolution completes (RFC 4861 section 7.2.5): an INCOMPLETE
   * entry takes the advertised link-layer address and becomes REACHABLE,
   * with a fresh reachable timer and no pending probes, when the NA was
   * solicited, and STALE otherwise; its router flag follows R.  Without a
   * TLLAO nothing changes.
   */
  lemma NaCompletesResolution(cfg: Config, s: St, b: seq<byte>, len: nat)
    requires ForNeighbor(cfg, s, b, len) && s.nbrs[Target(b)].state == Incomplete
    ensures var r := NaInput(cfg, s, b, len); var n := s.nbrs[Target(b)]; var llao := Tllao(cfg, s, b, len);
      && r.out == Discard && r.s.defrts == s.defrts && r.s.nbrs.Keys == s.nbrs.Keys
      && (llao.None? ==> r.s.nbrs == s.nbrs)
      && (llao.Some? ==>
            var m := r.s.nbrs[Target(b)];
            && m.ll == llao.value && m.isRouter == RouterFlag(b) && m.reg == n.reg && m.sendns == n.sendns
            && (SolicitedFlag(b) ==> m.state == Reachable && m.nscount == 0 && m.reachable == s.iface.reachableTime / 1000)
            && (!SolicitedFlag(b) ==> m.state == Stale && m.nscount == n.nscount && m.reachable == n.reachable))
  {
    NaWalkTllao(cfg, s, b, len);
  }

  /**
   * Without the O flag an NA naming a different link-layer address does not
   * replace the cached one: the entry only drops from REACHABLE to STALE.
   */
  lemma NaWithoutOverride(cfg: Config, s: St, b: seq<byte>, len: nat)
    requires ForNeighbor(cfg, s, b, len) && s.nbrs[Target(b)].state != Incomplete && !OverrideFlag(b)
    requires var llao := Tllao(cfg, s, b, len); llao.Some? && llao.value != s.nbrs[Target(b)].ll
    ensures var r := NaInput(cfg, s, b, len); r.out == Discard && r.s.defrts == s.defrts && r.s.nbrs.Keys == s.nbrs.Keys
    ensures var r := NaInput(cfg, s, b, len); var n := s.nbrs[Target(b)]; var m := r.s.nbrs[Target(b)];
      && m.ll == n.ll && m.isRouter == n.isRouter && m.reachable == n.reachable && m.nscount == n.nscount
      && m.state == (if n.state == Reachable then Stale else n.state)
  {
    NaWalkTllao(cfg, s, b, len);
  }

  /**
   * Otherwise the entry takes the advertised address, if any; a solicited NA
   * makes it REACHABLE with a fresh timer, an unsolicited one that changes
   * the address makes it STALE, and any other leaves its state.  Its router
   * flag follows R, and a router that now says it is a host loses its
   * default-router entry, looked up by the NA's source.
   */
  lemma NaUpdatesNeighbor(cfg: Config, s: St, b: seq<byte>, len: nat)
    requires ForNeighbor(cfg, s, b, len) && s.nbrs[Target(b)].state != Incomplete
    requires var llao := Tllao(cfg, s, b, len); OverrideFlag(b) || llao.None? || llao.value == s.nbrs[Target(b)].ll
    ensures var r := NaInput(cfg, s, b, len); r.out == Discard && r.s.nbrs.Keys == s.nbrs.Keys
    ensures var r := NaInput(cfg, s, b, len); var n := s.nbrs[Target(b)]; var m := r.s.nbrs[Target(b)];
      var llao := Tllao(cfg, s, b, len); var changed := llao.Some? && llao.value != n.ll;
      && m.ll == (if llao.Some? then llao.value else n.ll) && m.isRouter == RouterFlag(b) && m.nscount == n.nscount
      && (SolicitedFlag(b) ==> m.state == Reachable && m.reachable == s.iface.reachableTime / 1000)
      && (!SolicitedFlag(b) && changed ==> m.state == Stale && m.reachable == n.reachable)
      && (!SolicitedFlag(b) && !changed ==> m.state == n.state && m.reachable == n.reachable)
      && r.s.defrts == (if n.isRouter && !RouterFlag(b) then s.defrts - {Src(b)} else s.defrts)
  {
    NaWalkTllao(cfg, s, b, len);
  }

  // ---- the 6LoWPAN-ND build ----

  /**
   * An NA with no ARO keeps the ARO pointer of an earlier message, and the
   * registration answer is then read from wherever that pointer lies.
   */
  lemma NaKeepsEarlierAro(cfg: Config, s: St, b: seq<byte>, len: nat)
    requires |b| >= MIN_BUFSIZE && NaWalk(cfg, s, b, len).Go? && NoAro(Walk(b, len, NA_LEN).opts)
    ensures NaWalk(cfg, s, b, len).s.aroAt == s.aroAt
  {
    NaLoopAro(cfg, s.(llaoAt := None), b, len, NA_LEN);
  }

  /** An ARO pointer the NA loop sets names an ARO carrying our own EUI-64. */
  lemma NaAroIsOurs(cfg: Config, s: St, b: seq<byte>, len: nat)
    requires |b| >= MIN_BUFSIZE && NaWalk(cfg, s, b, len).Go?
    requires NaWalk(cfg, s, b, len).s.aroAt.Some? && NaWalk(cfg, s, b, len).s.aroAt != s.aroAt
    ensures var a := NaWalk(cfg, s, b, len).s.aroAt.value;
      a + OPT_ARO_LEN <= |b| && b[a] == OPT_ARO && b[a + 1] == 2 && b[a + 8..a + 16] == cfg.myLl
  {
    NaLoopAro(cfg, s.(llaoAt := None), b, len, NA_LEN);
  }

  /** The 6LoWPAN-ND lemmas below: an ARO to act on, from a neighbor that is not garbage-collectible. */
  predicate Answered(cfg: Config, s: St, b: seq<byte>, len: nat)
  {
    && |b| >= MIN_BUFSIZE && cfg.engine == SixLo && NaChecks(b) && NaWalk(cfg, s, b, len).Go?
    && var a := NaWalk(cfg, s, b, len).s.aroAt;
       a.Some? && a.value + 8 <= |b| && Src(b) in s.nbrs && s.nbrs[Src(b)].state != GarbageCollectable
  }

  /** The ARO the 6LoWPAN-ND handler reads. */
  function AroAt(cfg: Config, s: St, b: seq<byte>, len: nat): (at: nat)
    requires Answered(cfg, s, b, len)
    ensures at + 8 <= |b|
  {
    NaWalk(cfg, s, b, len).s.aroAt.value
  }

  /** Whether the answer confirms an unregistration: lifetime 0 for an entry being unregistered. */
  predicate Unregistration(cfg: Config, s: St, b: seq<byte>, len: nat)
    requires Answered(cfg, s, b, len)
  {
    BE16(b, AroAt(cfg, s, b, len) + 6) == 0 && s.nbrs[Src(b)].reg == RegToBeUnregistered
  }

  /** A confirmed unregistration removes the router's neighbor entry, whatever the status. */
  lemma NaConfirmsUnregistration(cfg: Config, s: St, b: seq<byte>, len: nat)
    requires Answered(cfg, s, b, len) && Unregistration(cfg, s, b, len)
    ensures var r := NaInput(cfg, s, b, len);
      r.out == Discard && r.s.nbrs.Keys == s.nbrs.Keys - {Src(b)} && r.s.addrs == s.addrs && r.s.defrts == s.defrts
  {
    NaWalkTllao(cfg, s, b, len);
  }

  /**
   * Status 0 (success): the router's entry becomes REACHABLE and REGISTERED
   * with no pending probes, its reachable timer taken from the ARO lifetime
   * and its registration timer restarted; nd6's default-router pointer
   * moves to that router's entry.
   */
  lemma NaConfirmsRegistration(cfg: Config, s: St, b: seq<byte>, len: nat)
    requires Answered(cfg, s, b, len) && !Unregistration(cfg, s, b, len)
    requires b[AroAt(cfg, s, b, len) + 2] == ARO_STATUS_SUCCESS
    ensures var r := NaInput(cfg, s, b, len);
      r.out == Discard && r.s.nbrs.Keys == s.nbrs.Keys && r.s.addrs == s.addrs && r.s.defrts == s.defrts
      && r.s.defrtRef == Lookup(s.defrts, Src(b))
    ensures var r := NaInput(cfg, s, b, len); var n := s.nbrs[Src(b)]; var m := r.s.nbrs[Src(b)];
      && m.state == Reachable && m.reg == RegRegistered && m.nscount == 0
      && m.reachable == BE16(b, AroAt(cfg, s, b, len) + 6) / 1000 && m.sendns == cfg.nsRegTimer
      && m.ll == n.ll && m.isRouter == n.isRouter
  {
    NaWalkTllao(cfg, s, b, len);
  }

  /** Status 1 (duplicate): the address registered, the NA's target, is removed from our addresses. */
  lemma NaRefusesDuplicate(cfg: Config, s: St, b: seq<byte>, len: nat)
    requires Answered(cfg, s, b, len) && !Unregistration(cfg, s, b, len)
    requires b[AroAt(cfg, s, b, len) + 2] == ARO_STATUS_DUPLICATE
    ensures var r := NaInput(cfg, s, b, len); var i := AddrLookup(s.addrs, Target(b));
      && r.out == Discard && r.s.nbrs == s.nbrs && r.s.defrts == s.defrts
      && (i.None? ==> r.s.addrs == s.addrs)
      && (i.Some? ==> r.s.addrs == s.addrs[..i.value] + s.addrs[i.value + 1..])
  {
    NaWalkTllao(cfg, s, b, len);
  }

  /** Status 2 (router's cache full): the router's neighbor entry is removed. */
  lemma NaRefusesFullCache(cfg: Config, s: St, b: seq<byte>, len: nat)
    requires Answered(cfg, s, b, len) && !Unregistration(cfg, s, b, len)
    requires b[AroAt(cfg, s, b, len) + 2] == ARO_STATUS_RTR_NC_FULL
    ensures var r := NaInput(cfg, s, b, len);
      r.out == Discard && r.s.nbrs.Keys == s.nbrs.Keys - {Src(b)} && r.s.addrs == s.addrs && r.s.defrts == s.defrts
  {
    NaWalkTllao(cfg, s, b, len);
  }

  /** Any other status changes no table. */
  lemma NaIgnoresOtherStatus(cfg: Config, s: St, b: seq<byte>, len: nat)
    requires Answered(cfg, s, b, len) && !Unregistration(cfg, s, b, len)
    requires b[AroAt(cfg, s, b, len) + 2] > ARO_STATUS_RTR_NC_FULL
    ensures var r := NaInput(cfg, s, b, len); r.out == Discard && SameTables(s, r.s)
  {
    NaWalkTllao(cfg, s, b, len);
  }

  /** An ARO to act on from a sender without a neighbor entry is a read through NULL. */
  lemma NaFromUnknownRouter(cfg: Config, s: St, b: seq<byte>, len: nat)
    requires |b| >= MIN_BUFSIZE && cfg.engine == SixLo && NaChecks(b) && NaWalk(cfg, s, b, len).Go?
    requires NaWalk(cfg, s, b, len).s.aroAt.Some? && Src(b) !in s.nbrs
    ensures NaInput(cfg, s, b, len).out == Undefined(NullDeref)
  {
    NaWalkTllao(cfg, s, b, len);
  }
}
