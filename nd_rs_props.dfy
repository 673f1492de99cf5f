/**
 * What rs_input promises: a solicitation is left for the RA scheduler,
 * its source's neighbor entry is created or refreshed as RFC 4861 section
 * 6.2.6 asks, and nothing else in the tables changes.
 */
module Nd6RsProps {
  import opened Wire
  import opened Ds6
  import opened Nd6Config
  import opened NdOptions
  import opened NdPackets
  import opened Nd6State
  import opened Nd6Walk
  import opened Nd6Router

  /**
   * The RS loop only moves nd6_opt_llao, to the last SLLAO of the chain; it
   * runs to its end exactly when the chain is well formed, and otherwise
   * discards on a zero length or stops at the end of uip_buf.
   */
  lemma {:induction false} RsLoop(cfg: Config, s: St, b: seq<byte>, len: nat, off: nat)
    requires |b| >= IPH_LEN
    ensures var r := OptLoop(RsH, cfg, s, b, len, off); var w := Walk(b, len, off);
      && r.s == s.(llaoAt := r.s.llaoAt)
      && (r.Go? <==> w.stop == Completed)
      && (r.Go? ==> r.s.llaoAt == LastOf(w.opts, OPT_SLLAO, s.llaoAt))
      && (r.Halt? ==> r.out == if w.stop == ZeroLength then Discard else Undefined(BeyondBuffer))
    decreases if len > off then len - off else 0
  {
    if BODY + off < len && BODY + off + 1 < |b| && b[BODY + off + 1] != 0 {
      var next := NextOffset(off, b[BODY + off + 1]);
      var w := Walk(b, len, off);
      assert w.opts[1..] == Walk(b, len, next).opts;
      RsLoop(cfg, RsOption(s, b, BODY + off).s, b, len, next);
    }
  }

  /** The SLLAO rs_input acts on: the last one of the chain. */
  function SllaoOf(b: seq<byte>, len: nat): Option<nat>
  {
    LastOf(Walk(b, len, RS_LEN).opts, OPT_SLLAO, None)
  }

  /** An RS that passes the checks and whose option chain is well formed. */
  predicate RsAccepted(b: seq<byte>, len: nat)
  {
    |b| >= MIN_BUFSIZE && RsChecks(b) && Walk(b, len, RS_LEN).stop == Completed
  }

  /** The RA scheduler is called in the classic and 6LoWPAN-ND builds. */
  function Solicited(cfg: Config, ev: seq<Event>): seq<Event>
  {
    if cfg.engine == Rpl then ev else ev + [SolicitedRa]
  }

  /** An RS failing its checks or carrying a zero-length option is discarded, and only nd6_opt_llao moves. */
  lemma RsRejected(cfg: Config, s: St, b: seq<byte>, len: nat)
    requires |b| >= MIN_BUFSIZE && (!RsChecks(b) || Walk(b, len, RS_LEN).stop == ZeroLength)
    ensures var r := RsInput(cfg, s, b, len);
      r.out == Discard && r.len == 0 && r.s == s.(llaoAt := r.s.llaoAt)
  {
    RsLoop(cfg, s.(llaoAt := None), b, len, RS_LEN);
  }

  /** Without an SLLAO the RS changes no table and only schedules the RA. */
  lemma RsWithoutSllao(cfg: Config, s: St, b: seq<byte>, len: nat)
    requires RsAccepted(b, len) && SllaoOf(b, len).None?
    ensures var r := RsInput(cfg, s, b, len);
      r.out == Forward && r.b == b && r.len == len && r.s == s.(llaoAt := None, events := Solicited(cfg, s.events))
  {
    RsLoop(cfg, s.(llaoAt := None), b, len, RS_LEN);
  }

  /** An SLLAO from the unspecified address makes the RS invalid: discarded, no RA scheduled. */
  lemma RsUnspecifiedSource(cfg: Config, s: St, b: seq<byte>, len: nat)
    requires RsAccepted(b, len) && SllaoOf(b, len).Some? && IsUnspecified(Src(b))
    ensures var r := RsInput(cfg, s, b, len);
      r.out == Discard && r.len == 0 && r.s == s.(llaoAt := SllaoOf(b, len))
  {
    RsLoop(cfg, s.(llaoAt := None), b, len, RS_LEN);
  }

  /** The entry uip_ds6_nbr_add creates for a solicitor: STALE, not a router, timers expired. */
  function StaleEntry(ll: LlAddr): Nbr
  {
    Nbr(ll, Stale, false, 0, RegNone, 0, 0)
  }

  /** A solicitor without an entry gets a STALE one with the SLLAO's address, when the cache has room. */
  lemma RsNewNeighbor(cfg: Config, s: St, b: seq<byte>, len: nat)
    requires RsAccepted(b, len) && SllaoOf(b, len).Some? && !IsUnspecified(Src(b))
    requires SllaoOf(b, len).value + 2 + LLADDR_LEN <= |b|
    requires Src(b) !in s.nbrs && |s.nbrs| < cfg.caps.nbrs
    ensures var at := SllaoOf(b, len).value; var r := RsInput(cfg, s, b, len);
      && r.out == Forward && r.b == b && r.len == len
      && r.s == s.(llaoAt := Some(at), nbrs := s.nbrs[Src(b) := StaleEntry(LlData(b, at))],
                   nbrRef := Some(Src(b)), events := Solicited(cfg, s.events))
  {
    RsLoop(cfg, s.(llaoAt := None), b, len, RS_LEN);
  }

  /**
   * With the cache full a new solicitor gets no entry: nbr is NULL, which
   * the 6LoWPAN-ND build then writes through.
   */
  lemma RsCacheFull(cfg: Config, s: St, b: seq<byte>, len: nat)
    requires RsAccepted(b, len) && SllaoOf(b, len).Some? && !IsUnspecified(Src(b))
    requires SllaoOf(b, len).value + 2 + LLADDR_LEN <= |b|
    requires Src(b) !in s.nbrs && |s.nbrs| >= cfg.caps.nbrs
    ensures var r := RsInput(cfg, s, b, len);
      && (cfg.engine == SixLo ==> r.out == Undefined(NullDeref))
      && (cfg.engine != SixLo ==>
            r.out == Forward && r.s == s.(llaoAt := SllaoOf(b, len), nbrRef := None, events := Solicited(cfg, s.events)))
  {
    RsLoop(cfg, s.(llaoAt := None), b, len, RS_LEN);
  }

  /** A known solicitor repeating its link-layer address is only marked as a host. */
  lemma RsSameAddress(cfg: Config, s: St, b: seq<byte>, len: nat)
    requires RsAccepted(b, len) && SllaoOf(b, len).Some? && !IsUnspecified(Src(b))
    requires SllaoOf(b, len).value + 2 + LLADDR_LEN <= |b|
    requires Src(b) in s.nbrs && LlData(b, SllaoOf(b, len).value) == s.nbrs[Src(b)].ll
    ensures var r := RsInput(cfg, s, b, len);
      && r.out == Forward && r.b == b && r.len == len
      && r.s == s.(llaoAt := SllaoOf(b, len), nbrs := s.nbrs[Src(b) := s.nbrs[Src(b)].(isRouter := false)],
                   nbrRef := Some(Src(b)), events := Solicited(cfg, s.events))
  {
    RsLoop(cfg, s.(llaoAt := None), b, len, RS_LEN);
  }

  /** Removing a present key makes a map one entry smaller. */
  lemma RmShrinks(t: NbrTable, ip: Addr)
    requires ip in t
    ensures |NbrRm(t, ip)| == |t| - 1
  {
    var u := NbrRm(t, ip);
    assert t.Keys == u.Keys + {ip};
    assert |t.Keys| == |u.Keys| + 1;
  }

  /**
   * A known solicitor with a new link-layer address gets its entry replaced
   * by a new STALE one (in a cache within its bound the re-add always finds
   * room): state, timers, counters and registration of the old entry are
   * lost.
   */
  lemma RsChangedAddress(cfg: Config, s: St, b: seq<byte>, len: nat)
    requires RsAccepted(b, len) && SllaoOf(b, len).Some? && !IsUnspecified(Src(b))
    requires SllaoOf(b, len).value + 2 + LLADDR_LEN <= |b|
    requires Src(b) in s.nbrs && LlData(b, SllaoOf(b, len).value) != s.nbrs[Src(b)].ll
    requires |s.nbrs| <= cfg.caps.nbrs
    ensures var at := SllaoOf(b, len).value; var r := RsInput(cfg, s, b, len);
      && r.out == Forward && r.b == b && r.len == len
      && r.s == s.(llaoAt := Some(at), nbrs := s.nbrs[Src(b) := StaleEntry(LlData(b, at))],
                   nbrRef := Some(Src(b)), events := Solicited(cfg, s.events))
  {
    RsLoop(cfg, s.(llaoAt := None), b, len, RS_LEN);
    ReplaceEntry(s.nbrs, cfg.caps.nbrs, Src(b), LlData(b, SllaoOf(b, len).value));
  }

  /** Removing an entry and adding it back with a new address, as rs_input does, leaves a STALE entry. */
  lemma ReplaceEntry(nbrs: NbrTable, cap: nat, src: Addr, ll: LlAddr)
    requires src in nbrs && |nbrs| <= cap
    ensures var a := NbrAdd(NbrRm(nbrs, src), cap, src, ll, false, Stale);
      a.Some? && a.value[src := a.value[src].(isRouter := false)] == nbrs[src := StaleEntry(ll)]
  {
    RmShrinks(nbrs, src);
    var t := NbrAdd(NbrRm(nbrs, src), cap, src, ll, false, Stale).value;
    assert t[src := t[src].(isRouter := false)] == nbrs[src := StaleEntry(ll)];
  }

  /** What rs_input may do to the tables: add or change the entry of `src` and nothing else. */
  predicate RsEffect(s: St, t: St, src: Addr)
  {
    && t.addrs == s.addrs && t.prefixes == s.prefixes && t.defrts == s.defrts && t.iface == s.iface
    && OnlyEntry(s.nbrs, t.nbrs, src)
  }

  /** `n` differs from `m` at most in the entry of `src`, which it may add, change or drop. */
  predicate OnlyEntry(m: NbrTable, n: NbrTable, src: Addr)
  {
    n.Keys <= m.Keys + {src} && (forall a :: a in m && a != src ==> a in n && n[a] == m[a])
  }

  lemma OnlyEntryAdd(t: NbrTable, cap: nat, ip: Addr, ll: LlAddr, isRouter: bool, state: NbrState)
    ensures var r := NbrAdd(t, cap, ip, ll, isRouter, state);
      r.Some? ==> OnlyEntry(t, r.value, ip) && OnlyEntry(t, r.value[ip := r.value[ip].(isRouter := false)], ip)
  {
  }

  // One lemma per branch of RsNeighbor: the three together are too costly for one proof.

  lemma RsAddEffect(cfg: Config, s: St, b: seq<byte>, len: nat, ll: LlAddr)
    requires |b| >= MIN_BUFSIZE && Src(b) !in s.nbrs
    ensures var r := RsNeighbor(cfg, s, b, len, ll); RsEffect(s, r.s, Src(b)) && r.out != Reply && r.b == b
  {
    var added := NbrAdd(s.nbrs, cfg.caps.nbrs, Src(b), ll, false, Stale);
    OnlyEntryAdd(s.nbrs, cfg.caps.nbrs, Src(b), ll, false, Stale);
    assert RsNeighbor(cfg, s, b, len, ll).s.nbrs == if added.Some? then added.value else s.nbrs;
  }

  lemma RsReplaceEffect(cfg: Config, s: St, b: seq<byte>, len: nat, ll: LlAddr)
    requires |b| >= MIN_BUFSIZE && Src(b) in s.nbrs && ll != s.nbrs[Src(b)].ll
    ensures var r := RsNeighbor(cfg, s, b, len, ll); RsEffect(s, r.s, Src(b)) && r.out != Reply && r.b == b
  {
    var src := Src(b);
    var added := NbrAdd(NbrRm(s.nbrs, src), cfg.caps.nbrs, src, ll, false, Stale);
    OnlyEntryAdd(NbrRm(s.nbrs, src), cfg.caps.nbrs, src, ll, false, Stale);
    assert OnlyEntry(s.nbrs, NbrRm(s.nbrs, src), src);
    assert RsNeighbor(cfg, s, b, len, ll).s.nbrs ==
      if added.Some? then added.value[src := added.value[src].(isRouter := false)] else NbrRm(s.nbrs, src);
  }

  lemma RsMarkEffect(cfg: Config, s: St, b: seq<byte>, len: nat, ll: LlAddr)
    requires |b| >= MIN_BUFSIZE && Src(b) in s.nbrs && ll == s.nbrs[Src(b)].ll
    ensures var r := RsNeighbor(cfg, s, b, len, ll); RsEffect(s, r.s, Src(b)) && r.out != Reply && r.b == b
  {
  }

  /**
   * An RS never answers in place and touches no table but the neighbor
   * cache, and there only its source's entry: every other entry is kept and
   * no other key appears.
   */
  lemma RsOnlyTouchesSource(cfg: Config, s: St, b: seq<byte>, len: nat)
    requires |b| >= MIN_BUFSIZE
    ensures var r := RsInput(cfg, s, b, len); RsEffect(s, r.s, Src(b)) && r.out != Reply && r.b == b
  {
    RsLoop(cfg, s.(llaoAt := None), b, len, RS_LEN);
    if RsChecks(b) && RsWalk(cfg, s, b, len).Go? {
      var s1 := RsWalk(cfg, s, b, len).s;
      if s1.llaoAt.Some? && s1.llaoAt.value + 2 + LLADDR_LEN <= |b| {
        var ll := LlData(b, s1.llaoAt.value);
        if Src(b) !in s1.nbrs {
          RsAddEffect(cfg, s1, b, len, ll);
        } else if ll != s1.nbrs[Src(b)].ll {
          RsReplaceEffect(cfg, s1, b, len, ll);
        } else {
          RsMarkEffect(cfg, s1, b, len, ll);
        }
      }
    }
  }
}
