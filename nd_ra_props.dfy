/**
 * What ra_input promises: the interface parameters follow the RA header as
 * RFC 4861 section 6.3.4 asks, the option loop changes only the sender's
 * neighbor entry besides the prefix and address lists, and the router
 * lifetime acts on the entries the static pointers nbr and defrt hold.
 */
module Nd6RaProps {
  import opened Wire
  import opened Ds6
  import opened Nd6Config
  import opened NdOptions
  import opened NdPackets
  import opened Nd6State
  import opened Nd6Walk
  import opened Nd6Router
  import opened Nd6RsProps

  /** No option of the chain has type `kind`. */
  predicate Lacks(opts: seq<Opt>, kind: byte)
  {
    forall i :: 0 <= i < |opts| ==> opts[i].kind != kind
  }

  /** What the RA option loop may change: the sender's neighbor entry, the link MTU, the prefixes and addresses. */
  predicate RaEffect(s: St, t: St, src: Addr)
  {
    && t.defrts == s.defrts && t.events == s.events && t.defrtRef == s.defrtRef && t.aroAt == s.aroAt
    && t.iface == s.iface.(linkMtu := t.iface.linkMtu)
    && OnlyEntry(s.nbrs, t.nbrs, src)
  }

  /** nbr points to the sender's entry, or is NULL when the sender has none. */
  predicate Fresh(t: St, src: Addr)
  {
    t.nbrRef == Lookup(t.nbrs, src)
  }

  lemma RaEffectTrans(s: St, t: St, u: St, src: Addr)
    requires RaEffect(s, t, src) && RaEffect(t, u, src)
    ensures RaEffect(s, u, src)
  {
  }

  /** Writing the entry of `src` keeps a table within OnlyEntry. */
  lemma OnlyEntrySet(m: NbrTable, n: NbrTable, src: Addr, x: Nbr)
    requires OnlyEntry(m, n, src)
    ensures OnlyEntry(m, n[src := x], src)
  {
  }

  /** The SLLAO case for a sender without an entry. */
  lemma RaSllaoNew(cfg: Config, s: St, b: seq<byte>, at: nat)
    requires at + RaSllaoReads(cfg) <= |b| && |b| >= IPH_LEN && Src(b) !in s.nbrs
    ensures var r := RaSllao(cfg, s, b, at);
      && RaEffect(s, r.s, Src(b)) && r.s.iface == s.iface
      && (r.Go? ==> Fresh(r.s, Src(b)))
  {
    var src := Src(b);
    if cfg.engine == Rpl {
      assert RaSllao(cfg, s, b, at).s.nbrs == s.nbrs;
      return;
    }
    var added := NbrAdd(s.nbrs, cfg.caps.nbrs, src, LlData(b, at), true, Reachable);
    OnlyEntryAdd(s.nbrs, cfg.caps.nbrs, src, LlData(b, at), true, Reachable);
    if added.Some? {
      var t := added.value;
      var n := RaSllao(cfg, s, b, at).s.nbrs;
      if cfg.engine == Classic {
        assert n == t[src := t[src].(reachable := s.iface.reachableTime / 1000)];
        OnlyEntrySet(s.nbrs, t, src, t[src].(reachable := s.iface.reachableTime / 1000));
      } else {
        assert n == t[src := t[src].(reachable := s.iface.reachableTime / 1000, sendns := cfg.nsRegTimer,
                                     reg := RegToBeRegistered, nscount := 0)];
        OnlyEntrySet(s.nbrs, t, src, n[src]);
      }
    }
  }

  /** The SLLAO case for a sender with an entry. */
  lemma RaSllaoKnown(cfg: Config, s: St, b: seq<byte>, at: nat)
    requires at + RaSllaoReads(cfg) <= |b| && |b| >= IPH_LEN && Src(b) in s.nbrs
    ensures var r := RaSllao(cfg, s, b, at);
      && RaEffect(s, r.s, Src(b)) && r.s.iface == s.iface && r.Go? && Fresh(r.s, Src(b))
  {
    var n := RaSllao(cfg, s, b, at).s.nbrs;
    assert n == s.nbrs[Src(b) := n[Src(b)]];
    OnlyEntrySet(s.nbrs, s.nbrs, Src(b), n[Src(b)]);
  }

  /** The prefix case changes only the prefix and address lists. */
  lemma RaPrefixKeeps(cfg: Config, s: St, pi: PrefixInfo)
    ensures RaPrefix(cfg, s, pi) == s.(prefixes := RaPrefix(cfg, s, pi).prefixes, addrs := RaPrefix(cfg, s, pi).addrs)
  {
    assert OnLink(cfg, s, pi) == s.(prefixes := OnLink(cfg, s, pi).prefixes);
    var s1 := if HasBit(pi.flags, RA_FLAG_ONLINK) then OnLink(cfg, s, pi) else s;
    assert Autonomous(cfg, s1, pi) == s1.(addrs := Autonomous(cfg, s1, pi).addrs);
  }

  /** One RA option: the loop's effect, and only an SLLAO moves nbr or changes the neighbor cache. */
  lemma RaOptionEffect(cfg: Config, s: St, b: seq<byte>, at: nat)
    requires at < |b| && |b| >= IPH_LEN
    ensures var r := RaOption(cfg, s, b, at);
      && RaEffect(s, r.s, Src(b))
      && (b[at] != OPT_SLLAO ==> r.s.nbrs == s.nbrs && r.s.nbrRef == s.nbrRef)
      && (b[at] == OPT_SLLAO && r.Go? ==> Fresh(r.s, Src(b)))
  {
    if b[at] == OPT_SLLAO {
      if at + RaSllaoReads(cfg) <= |b| {
        if Src(b) in s.nbrs {
          RaSllaoKnown(cfg, s, b, at);
        } else {
          RaSllaoNew(cfg, s, b, at);
        }
      }
    } else if b[at] == OPT_PREFIX_INFO && at + OPT_PREFIX_INFO_LEN <= |b| {
      RaPrefixKeeps(cfg, s, ReadPrefixInfo(b, at));
    }
  }

  /**
   * What the RA option loop from `off` promises: it changes only what
   * RaEffect allows; without an SLLAO it leaves the neighbor cache and nbr
   * alone, and once an SLLAO has been handled nbr points to the sender's
   * entry.
   */
  predicate RaLoopKeeps(cfg: Config, s: St, b: seq<byte>, len: nat, off: nat)
    requires |b| >= IPH_LEN
  {
    var r := OptLoop(RaH, cfg, s, b, len, off); var w := Walk(b, len, off);
    && RaEffect(s, r.s, Src(b))
    && (Lacks(w.opts, OPT_SLLAO) ==> r.s.nbrs == s.nbrs && r.s.nbrRef == s.nbrRef)
    && (r.Go? && (Fresh(s, Src(b)) || !Lacks(w.opts, OPT_SLLAO)) ==> Fresh(r.s, Src(b)))
  }

  /** The RA option loop keeps RaLoopKeeps from every offset. */
  lemma {:induction false} RaLoop(cfg: Config, s: St, b: seq<byte>, len: nat, off: nat)
    requires |b| >= IPH_LEN
    ensures RaLoopKeeps(cfg, s, b, len, off)
    decreases if len > off then len - off else 0
  {
    if BODY + off < len && BODY + off + 1 < |b| && b[BODY + off + 1] != 0 {
      var f := RaOption(cfg, s, b, BODY + off);
      if f.Go? {
        RaLoop(cfg, f.s, b, len, NextOffset(off, b[BODY + off + 1]));
      }
      RaLoopStep(cfg, s, b, len, off);
    }
  }

  /** A chain lacks a kind when its head and its tail do. */
  lemma LacksCons(opts: seq<Opt>, kind: byte)
    requires opts != []
    ensures Lacks(opts, kind) <==> opts[0].kind != kind && Lacks(opts[1..], kind)
  {
    if opts[0].kind != kind && Lacks(opts[1..], kind) {
      forall i | 0 <= i < |opts| ensures opts[i].kind != kind {
        if i > 0 {
          assert opts[i] == opts[1..][i - 1];
        }
      }
    }
  }

  /** One option followed by the rest of the loop, whose promise holds. */
  lemma RaLoopStep(cfg: Config, s: St, b: seq<byte>, len: nat, off: nat)
    requires |b| >= IPH_LEN && BODY + off < len && BODY + off + 1 < |b| && b[BODY + off + 1] != 0
    requires var f := RaOption(cfg, s, b, BODY + off);
      f.Go? ==> RaLoopKeeps(cfg, f.s, b, len, NextOffset(off, b[BODY + off + 1]))
    ensures RaLoopKeeps(cfg, s, b, len, off)
  {
    var next := NextOffset(off, b[BODY + off + 1]);
    var w := Walk(b, len, off);
    assert w.opts[0].kind == b[BODY + off] && w.opts[1..] == Walk(b, len, next).opts;
    LacksCons(w.opts, OPT_SLLAO);
    RaOptionEffect(cfg, s, b, BODY + off);
    var f := RaOption(cfg, s, b, BODY + off);
    if f.Go? {
      RaEffectTrans(s, f.s, OptLoop(RaH, cfg, f.s, b, len, next).s, Src(b));
    }
  }

  /** An RA that passes the checks and whose option loop runs to its end. */
  predicate RaAccepted(cfg: Config, s: St, b: seq<byte>, len: nat, rnd: nat)
  {
    |b| >= MIN_BUFSIZE && RaChecks(b) && RaWalk(cfg, s, b, len, rnd).Go?
  }

  /** The state after the option loop of an accepted RA. */
  function Walked(cfg: Config, s: St, b: seq<byte>, len: nat, rnd: nat): St
    requires RaAccepted(cfg, s, b, len, rnd)
  {
    RaWalk(cfg, s, b, len, rnd).s
  }

  /** The router lifetime handling changes no interface parameter, prefix, address or event. */
  lemma RaRouterKeeps(cfg: Config, s: St, b: seq<byte>, len: nat)
    requires |b| >= MIN_BUFSIZE
    ensures var r := RaRouter(cfg, s, b, len);
      && r.s.iface == s.iface && r.s.events == s.events && r.s.addrs == s.addrs && r.s.prefixes == s.prefixes
      && r.b == b && (r.out == Discard || r.out == Undefined(StalePointer))
  {
  }

  /** An RA that fails its checks is discarded without any change. */
  lemma RaRejected(cfg: Config, s: St, b: seq<byte>, len: nat, rnd: nat)
    requires |b| >= MIN_BUFSIZE && !RaChecks(b)
    ensures var r := RaInput(cfg, s, b, len, rnd); r.out == Discard && r.len == 0 && r.s == s
  {
  }

  /**
   * A checked RA sets the current hop limit, base reachable time,
   * reachable time and retransmission timer as RFC 4861 section 6.3.4 asks:
   * each only from a nonzero field, and the reachable time redrawn only when
   * the base changes.  It never answers and calls nothing outside.
   */
  lemma RaSetsParameters(cfg: Config, s: St, b: seq<byte>, len: nat, rnd: nat)
    requires |b| >= MIN_BUFSIZE && RaChecks(b)
    ensures var r := RaInput(cfg, s, b, len, rnd); var i := r.s.iface;
      var base := BE32(b, RA_REACHABLE); var retrans := BE32(b, RA_RETRANS);
      && i.curHopLimit == (if b[RA_CUR_TTL] != 0 then b[RA_CUR_TTL] else s.iface.curHopLimit)
      && i.baseReachable == (if base != 0 then base else s.iface.baseReachable)
      && i.reachableTime == (if base != 0 && base != s.iface.baseReachable then rnd else s.iface.reachableTime)
      && i.retransTimer == (if retrans != 0 then retrans else s.iface.retransTimer)
      && r.s.events == s.events && r.b == b && (r.out == Discard || r.out.Undefined?)
  {
    var s0 := s.(iface := RaIface(s.iface, b, rnd));
    RaLoop(cfg, s0, b, len, RA_LEN);
    LoopHalts(RaH, cfg, s0, b, len, RA_LEN);
    match RaWalk(cfg, s, b, len, rnd)
    case Halt(s1, o) =>
    case Go(s1) => RaRouterKeeps(cfg, s1, b, len);
  }

  // ---- the link MTU ----

  /**
   * The link MTU after a chain of options: the value of the last MTU
   * option, where an SLLAO counts as one because its case has no `break`
   * (uip-nd6.c:1125-1130) and reads the MTU field, which in an SLLAO holds
   * bytes 2 to 5 of the link-layer address.
   */
  function LinkMtuAfter(b: seq<byte>, opts: seq<Opt>, mtu: nat): nat
    decreases |opts|
  {
    if opts == [] then mtu
    else
      var o := opts[0];
      var carries := (o.kind == OPT_SLLAO || o.kind == OPT_MTU) && o.at + 8 <= |b|;
      LinkMtuAfter(b, opts[1..], if carries then BE32(b, o.at + 4) else mtu)
  }

  lemma RaOptionMtu(cfg: Config, s: St, b: seq<byte>, at: nat)
    requires at < |b| && |b| >= IPH_LEN
    ensures var r := RaOption(cfg, s, b, at);
      var carries := (b[at] == OPT_SLLAO || b[at] == OPT_MTU) && at + 8 <= |b|;
      r.Go? ==> r.s.iface.linkMtu == (if carries then BE32(b, at + 4) else s.iface.linkMtu)
  {
    if b[at] == OPT_SLLAO && at + RaSllaoReads(cfg) <= |b| {
      if Src(b) in s.nbrs {
        RaSllaoKnown(cfg, s, b, at);
      } else {
        RaSllaoNew(cfg, s, b, at);
      }
    } else if b[at] == OPT_PREFIX_INFO && at + OPT_PREFIX_INFO_LEN <= |b| {
      RaPrefixKeeps(cfg, s, ReadPrefixInfo(b, at));
    }
  }

  /** What the RA option loop from `off` does to the link MTU when it runs to its end. */
  predicate MtuFollows(cfg: Config, s: St, b: seq<byte>, len: nat, off: nat)
    requires |b| >= IPH_LEN
  {
    var r := OptLoop(RaH, cfg, s, b, len, off);
    r.Go? ==> r.s.iface.linkMtu == LinkMtuAfter(b, Walk(b, len, off).opts, s.iface.linkMtu)
  }

  lemma {:induction false} RaLoopMtu(cfg: Config, s: St, b: seq<byte>, len: nat, off: nat)
    requires |b| >= IPH_LEN
    ensures MtuFollows(cfg, s, b, len, off)
    decreases if len > off then len - off else 0
  {
    if BODY + off < len && BODY + off + 1 < |b| && b[BODY + off + 1] != 0 {
      var f := RaOption(cfg, s, b, BODY + off);
      if f.Go? {
        RaLoopMtu(cfg, f.s, b, len, NextOffset(off, b[BODY + off + 1]));
      }
      RaMtuStep(cfg, s, b, len, off);
    }
  }

  /** One option followed by the rest of the loop, whose link MTU follows the chain. */
  lemma RaMtuStep(cfg: Config, s: St, b: seq<byte>, len: nat, off: nat)
    requires |b| >= IPH_LEN && BODY + off < len && BODY + off + 1 < |b| && b[BODY + off + 1] != 0
    requires var f := RaOption(cfg, s, b, BODY + off);
      f.Go? ==> MtuFollows(cfg, f.s, b, len, NextOffset(off, b[BODY + off + 1]))
    ensures MtuFollows(cfg, s, b, len, off)
  {
    var next := NextOffset(off, b[BODY + off + 1]);
    var w := Walk(b, len, off);
    assert w.opts[0] == Opt(b[BODY + off], b[BODY + off + 1], BODY + off) && w.opts[1..] == Walk(b, len, next).opts;
    RaOptionMtu(cfg, s, b, BODY + off);
  }

  /**
   * An accepted RA leaves the link MTU at the value of its last MTU option
   * or SLLAO, and unchanged when it has neither.
   */
  lemma RaLinkMtu(cfg: Config, s: St, b: seq<byte>, len: nat, rnd: nat)
    requires RaAccepted(cfg, s, b, len, rnd)
    ensures RaInput(cfg, s, b, len, rnd).s.iface.linkMtu == LinkMtuAfter(b, Walk(b, len, RA_LEN).opts, s.iface.linkMtu)
  {
    RaLoopMtu(cfg, s.(iface := RaIface(s.iface, b, rnd)), b, len, RA_LEN);
    RaRouterKeeps(cfg, Walked(cfg, s, b, len, rnd), b, len);
  }

  /**
   * The consequence of the missing `break`: an RA whose only option is an
   * SLLAO sets the link MTU to bytes 2 to 5 of the sender's link-layer
   * address.
   */
  lemma RaSllaoSetsMtu(cfg: Config, s: St, b: seq<byte>, len: nat, rnd: nat)
    requires RaAccepted(cfg, s, b, len, rnd) && Walk(b, len, RA_LEN).opts == [Opt(OPT_SLLAO, 2, BODY + RA_LEN)]
    ensures BODY + RA_LEN + 2 + LLADDR_LEN <= |b|
    ensures RaInput(cfg, s, b, len, rnd).s.iface.linkMtu == BE32(LlData(b, BODY + RA_LEN), 2)
  {
    RaLinkMtu(cfg, s, b, len, rnd);
    var s0 := s.(iface := RaIface(s.iface, b, rnd));
    assert RaOption(cfg, s0, b, BODY + RA_LEN).Go?;
  }

  // ---- the router lifetime ----

  /** An RA with an SLLAO and a nonzero router lifetime marks its sender, if it has an entry, as a router. */
  lemma RaSenderIsRouter(cfg: Config, s: St, b: seq<byte>, len: nat, rnd: nat)
    requires RaAccepted(cfg, s, b, len, rnd) && BE16(b, RA_ROUTER_LIFETIME) != 0
    requires !Lacks(Walk(b, len, RA_LEN).opts, OPT_SLLAO)
    ensures var r := RaInput(cfg, s, b, len, rnd);
      && r.out == Discard && r.len == 0
      && r.s.nbrs.Keys == Walked(cfg, s, b, len, rnd).nbrs.Keys
      && (Src(b) in r.s.nbrs ==> r.s.nbrs[Src(b)].isRouter)
  {
    RaLoop(cfg, s.(iface := RaIface(s.iface, b, rnd)), b, len, RA_LEN);
  }

  /**
   * Without an SLLAO, a nonzero router lifetime marks as a router whichever
   * entry nbr still points to from an earlier message, which need not be
   * the sender's; a pointer to an entry since removed is written through.
   */
  lemma RaMarksEarlierNeighbor(cfg: Config, s: St, b: seq<byte>, len: nat, rnd: nat, a: Addr)
    requires RaAccepted(cfg, s, b, len, rnd) && BE16(b, RA_ROUTER_LIFETIME) != 0
    requires Lacks(Walk(b, len, RA_LEN).opts, OPT_SLLAO) && s.nbrRef == Some(a)
    ensures var r := RaInput(cfg, s, b, len, rnd);
      && (a in s.nbrs ==> r.out == Discard && r.s.nbrs == s.nbrs[a := s.nbrs[a].(isRouter := true)])
      && (a !in s.nbrs ==> r.out == Undefined(StalePointer))
  {
    RaLoop(cfg, s.(iface := RaIface(s.iface, b, rnd)), b, len, RA_LEN);
  }

  /**
   * In 6LoWPAN-ND a nonzero router lifetime makes the sender a default
   * router with that lifetime (refreshing its entry, or adding one when the
   * list has room), and defrt points to the entry it had before.  The
   * requirement on nbr excludes the stale pointer of RaMarksEarlierNeighbor.
   */
  lemma RaDefaultRouter(cfg: Config, s: St, b: seq<byte>, len: nat, rnd: nat)
    requires RaAccepted(cfg, s, b, len, rnd) && cfg.engine == SixLo && BE16(b, RA_ROUTER_LIFETIME) != 0
    requires Fresh(s, Src(b)) || !Lacks(Walk(b, len, RA_LEN).opts, OPT_SLLAO)
    ensures var r := RaInput(cfg, s, b, len, rnd); var src := Src(b); var lifetime := BE16(b, RA_ROUTER_LIFETIME);
      && r.out == Discard && r.s.defrtRef == Lookup(s.defrts, src)
      && r.s.defrts == if src in s.defrts || |s.defrts| < cfg.caps.defrts then s.defrts[src := lifetime] else s.defrts
  {
    RaLoop(cfg, s.(iface := RaIface(s.iface, b, rnd)), b, len, RA_LEN);
  }

  /** The classic and RPL builds keep no default-router list in ra_input: a nonzero lifetime leaves it alone. */
  lemma RaKeepsRoutersOutside6Lo(cfg: Config, s: St, b: seq<byte>, len: nat, rnd: nat)
    requires RaAccepted(cfg, s, b, len, rnd) && cfg.engine != SixLo && BE16(b, RA_ROUTER_LIFETIME) != 0
    ensures var r := RaInput(cfg, s, b, len, rnd); r.s.defrts == s.defrts && r.s.defrtRef == s.defrtRef
  {
    RaLoop(cfg, s.(iface := RaIface(s.iface, b, rnd)), b, len, RA_LEN);
  }

  /**
   * A zero router lifetime removes the default router defrt points to,
   * whichever router that is: the sender's own entry is removed only when
   * defrt last pointed to it, and a pointer to an entry already removed is
   * used again.  The neighbor cache keeps what the option loop left.
   */
  lemma RaZeroLifetime(cfg: Config, s: St, b: seq<byte>, len: nat, rnd: nat)
    requires RaAccepted(cfg, s, b, len, rnd) && BE16(b, RA_ROUTER_LIFETIME) == 0
    ensures var r := RaInput(cfg, s, b, len, rnd);
      && r.s.nbrs == Walked(cfg, s, b, len, rnd).nbrs && r.s.defrtRef == s.defrtRef
      && (s.defrtRef.None? ==> r.out == Discard && r.s.defrts == s.defrts)
      && (s.defrtRef.Some? && s.defrtRef.value in s.defrts ==>
            r.out == Discard && r.s.defrts == s.defrts - {s.defrtRef.value})
      && (s.defrtRef.Some? && s.defrtRef.value !in s.defrts ==> r.out == Undefined(StalePointer))
  {
    RaLoop(cfg, s.(iface := RaIface(s.iface, b, rnd)), b, len, RA_LEN);
  }
}
