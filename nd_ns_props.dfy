/**
 * What ns_input promises: the option loop only touches the neighbor cache,
 * duplicate address detection, resolution and unreachability detection
 * answer as RFC 4861 section 7.2.4 asks, and the 6LoWPAN-ND registration
 * path answers as far as its code can reach.
 */
module Nd6NsProps {
  import opened Wire
  import opened Ds6
  import opened Nd6Config
  import opened NdOptions
  import opened NdPackets
  import opened Nd6State
  import opened Nd6Walk
  import opened Nd6Ns
  import opened NdReplies

  lemma CardMono(a: set<Addr>, c: set<Addr>)
    requires a <= c
    ensures |a| <= |c|
  {
    if a != {} {
      var x :| x in a;
      CardMono(a - {x}, c - {x});
    }
  }

  /** `src` has a neighbor entry, or the neighbor cache has no room for one. */
  predicate Registered(cfg: Config, nbrs: NbrTable, src: Addr)
  {
    src in nbrs || |nbrs| >= cfg.caps.nbrs
  }

  /** A cache that only grew keeps every entry registered and every full cache full. */
  lemma RegisteredGrows(cfg: Config, t: NbrTable, u: NbrTable, src: Addr)
    requires t.Keys <= u.Keys && Registered(cfg, t, src)
    ensures Registered(cfg, u, src)
  {
    CardMono(t.Keys, u.Keys);
  }

  /** What one NS option does to the state (uip-nd6.c:211-255). */
  predicate NsEffect(cfg: Config, s: St, t: St, src: Addr)
  {
    && t.addrs == s.addrs && t.prefixes == s.prefixes && t.defrts == s.defrts
    && t.iface == s.iface && t.events == s.events && t.defrtRef == s.defrtRef
    && s.nbrs.Keys <= t.nbrs.Keys && t.nbrs.Keys <= s.nbrs.Keys + {src}
    && (forall a :: a in s.nbrs && a != src ==> t.nbrs[a] == s.nbrs[a])
    && (IsUnspecified(src) ==> t.nbrs == s.nbrs)
  }

  lemma NsEffectTrans(cfg: Config, s: St, t: St, u: St, src: Addr)
    requires NsEffect(cfg, s, t, src) && NsEffect(cfg, t, u, src)
    ensures NsEffect(cfg, s, u, src)
  {
  }

  lemma NsOptionEffect(cfg: Config, s: St, b: seq<byte>, at: nat)
    requires at + 1 < |b| && |b| >= MIN_BUFSIZE
    ensures NsEffect(cfg, s, NsOption(cfg, s, b, at).s, Src(b))
  {
  }

  /** An SLLAO leaves the source registered, and a registered source stays so. */
  lemma NsOptionRegisters(cfg: Config, s: St, b: seq<byte>, at: nat)
    requires at + 1 < |b| && |b| >= MIN_BUFSIZE
    ensures var r := NsOption(cfg, s, b, at);
      r.Go? && (r.s.llaoAt != s.llaoAt || Registered(cfg, s.nbrs, Src(b))) ==> Registered(cfg, r.s.nbrs, Src(b))
  {
    var src := Src(b);
    var r := NsOption(cfg, s, b, at);
    if r.Go? && b[at] == OPT_SLLAO && src !in s.nbrs {
      var added := NbrAdd(s.nbrs, cfg.caps.nbrs, src, LlData(b, at), false, Stale);
      assert r.s.nbrs == if added.Some? then added.value else s.nbrs;
    }
  }

  /**
   * The NS option loop changes no table but the neighbor cache, adds
   * entries only for the NS source and keeps every other entry; an NS from
   * the unspecified address changes nothing.  Once an SLLAO has been walked,
   * the source has an entry or the cache is full.
   */
  lemma {:induction false} NsLoopEffects(cfg: Config, s: St, b: seq<byte>, len: nat, off: nat)
    requires |b| >= MIN_BUFSIZE
    ensures var r := OptLoop(NsH, cfg, s, b, len, off);
      && NsEffect(cfg, s, r.s, Src(b))
      && (r.Go? && (Registered(cfg, s.nbrs, Src(b)) || r.s.llaoAt != s.llaoAt) ==> Registered(cfg, r.s.nbrs, Src(b)))
    decreases if len > off then len - off else 0
  {
    if BODY + off < len && BODY + off + 1 < |b| && b[BODY + off + 1] != 0 {
      var at := BODY + off;
      var next := NextOffset(off, b[at + 1]);
      NsOptionEffect(cfg, s, b, at);
      NsOptionRegisters(cfg, s, b, at);
      match NsOption(cfg, s, b, at)
      case Halt(s1, o) =>
      case Go(s1) =>
        NsLoopEffects(cfg, s1, b, len, next);
        NsEffectTrans(cfg, s, s1, OptLoop(NsH, cfg, s1, b, len, next).s, Src(b));
    }
  }

  /** The SLLAO's link-layer address lies inside uip_buf. */
  predicate LlaoInside(s: St, b: seq<byte>)
  {
    s.llaoAt.Some? ==> s.llaoAt.value + 2 + LLADDR_LEN <= |b|
  }

  /**
   * The option pointers lie after the NS body.  The SLLAO's address lies
   * inside uip_buf unless the source already had an entry: only the
   * classic build reads the address of a known source.
   */
  predicate NsPointers(s: St, b: seq<byte>)
    requires |b| >= IPH_LEN
  {
    && (s.llaoAt.Some? ==> BODY + NS_LEN <= s.llaoAt.value)
    && (LlaoInside(s, b) || Src(b) in s.nbrs)
    && (s.aroAt.Some? ==> BODY + NS_LEN <= s.aroAt.value)
  }

  lemma {:induction false} NsLoopPointers(cfg: Config, s: St, b: seq<byte>, len: nat, off: nat)
    requires |b| >= MIN_BUFSIZE && NS_LEN <= off && NsPointers(s, b)
    ensures var r := OptLoop(NsH, cfg, s, b, len, off); r.Go? ==> NsPointers(r.s, b)
    decreases if len > off then len - off else 0
  {
    if BODY + off < len && BODY + off + 1 < |b| && b[BODY + off + 1] != 0 {
      match NsOption(cfg, s, b, BODY + off)
      case Halt(s1, o) =>
      case Go(s1) =>
        NsOptionEffect(cfg, s, b, BODY + off);
        NsLoopPointers(cfg, s1, b, len, NextOffset(off, b[BODY + off + 1]));
    }
  }

  /**
   * In 6LoWPAN-ND an NS whose ARO is acted on always comes from a source that
   * has a neighbor entry or finds the cache full: the SLLAO it must carry has
   * already registered the source as STALE.  The branch of uip-nd6.c:342-361
   * that registers a new neighbor as REACHABLE is therefore never taken.
   */
  lemma NsAroSourceRegistered(cfg: Config, s: St, b: seq<byte>, len: nat)
    requires |b| >= MIN_BUFSIZE && NsWalk(cfg, s, b, len).Go?
    ensures var s1 := NsWalk(cfg, s, b, len).s;
      AroOf(s1, b).Some? ==> Registered(cfg, s1.nbrs, Src(b))
  {
    NsLoopEffects(cfg, NsReset(cfg, s), b, len, NS_LEN);
  }

  // ---- the classic build ----

  /**
   * The `create_na` label of the classic build: with the guard at
   * uip-nd6.c:409 an NA carrying `flags` (plus R on a router), the address
   * that is the packet's new source as target and a TLLAO with uip_lladdr;
   * without it the received NS itself, with its rewritten addresses and a
   * new checksum.
   */
  lemma NsAnswerReply(cfg: Config, s: St, b: seq<byte>, len: nat, flags: byte)
    requires |b| >= MIN_BUFSIZE && flags < NA_FLAG_ROUTER
    ensures var r := NsAnswer(cfg, s, b, len, flags);
      && r.out == Reply && r.s == s && Src(r.b) == Src(b) && Dst(r.b) == Dst(b)
      && (Guard409(cfg) ==>
            && r.len == 80 && r.b[ICMP_TYPE] == ICMP6_NA && Target(r.b) == Src(b)
            && r.b[NA_FLAGS] == (if cfg.router then flags + NA_FLAG_ROUTER else flags)
            && Walk(r.b, r.len, NA_LEN) == Chain([Opt(OPT_TLLAO, 2, 64)], Completed)
            && r.b[66..74] == cfg.myLl)
      && (!Guard409(cfg) ==>
            r.len == len && r.b[ICMP_TYPE] == b[ICMP_TYPE] && Target(r.b) == Target(b) && r.b[NA_FLAGS] == b[NA_FLAGS])
  {
    if Guard409(cfg) {
      var f: byte := if cfg.router then flags + NA_FLAG_ROUTER else flags;
      NaReplyParses(cfg, b, Src(b), Dst(b), Src(b), f, cfg.myLl);
    } else {
      ChecksumKeepsHeader(cfg, Pkt(b, len));
    }
  }

  /**
   * Duplicate address detection finds a duplicate: an NS from the
   * unspecified address to a solicited-node address for a TENTATIVE address
   * of ours calls uip_ds6_dad_failed and is discarded.
   */
  lemma NsDadTentative(cfg: Config, s: St, b: seq<byte>, len: nat)
    requires |b| >= MIN_BUFSIZE && cfg.engine == Classic && NsChecks(b) && NsWalk(cfg, s, b, len).Go?
    requires IsUnspecified(Src(b)) && cfg.dad && IsSolicitedNode(Dst(b))
    requires AddrLookup(s.addrs, Target(b)).Some? && s.addrs[AddrLookup(s.addrs, Target(b)).value].state == Tentative
    ensures var r := NsInput(cfg, s, b, len);
      r.out == Discard && r.len == 0 && SameTables(s, r.s) && r.s.events == s.events + [DadFailed(Target(b))]
  {
    NsLoopEffects(cfg, NsReset(cfg, s), b, len, NS_LEN);
  }

  /**
   * Duplicate address detection defends an address: the same NS for an
   * address of ours that is not TENTATIVE is answered to all nodes with the
   * O flag, from the source uip_ds6_select_src picks, and nothing else
   * changes.  The NA names that source, not the NS target, as its target.
   */
  lemma NsDadDefends(cfg: Config, s: St, b: seq<byte>, len: nat)
    requires |b| >= MIN_BUFSIZE && cfg.engine == Classic && NsChecks(b) && NsWalk(cfg, s, b, len).Go?
    requires IsUnspecified(Src(b)) && cfg.dad && IsSolicitedNode(Dst(b))
    requires AddrLookup(s.addrs, Target(b)).Some? && s.addrs[AddrLookup(s.addrs, Target(b)).value].state != Tentative
    ensures var r := NsInput(cfg, s, b, len);
      && r.out == Reply && SameTables(s, r.s) && r.s.events == s.events
      && Dst(r.b) == AllNodes && Src(r.b) == cfg.selectSrc(s.addrs, AllNodes)
      && (Guard409(cfg) ==>
            && r.len == 80 && r.b[ICMP_TYPE] == ICMP6_NA && Target(r.b) == cfg.selectSrc(s.addrs, AllNodes)
            && r.b[NA_FLAGS] == (if cfg.router then NA_FLAG_ROUTER + NA_FLAG_OVERRIDE else NA_FLAG_OVERRIDE)
            && Walk(r.b, r.len, NA_LEN) == Chain([Opt(OPT_TLLAO, 2, 64)], Completed) && r.b[66..74] == cfg.myLl)
      && (!Guard409(cfg) ==> r.len == len && Target(r.b) == Target(b))
  {
    var s1 := NsWalk(cfg, s, b, len).s;
    NsLoopEffects(cfg, NsReset(cfg, s), b, len, NS_LEN);
    var b2 := Write(Write(b, DST, AllNodes), SRC, cfg.selectSrc(s1.addrs, AllNodes));
    AddressesWritten(b, AllNodes, cfg.selectSrc(s1.addrs, AllNodes));
    NsAnswerReply(cfg, s1, b2, len, NA_FLAG_OVERRIDE);
  }

  /**
   * Any other NS from the unspecified address (no duplicate address
   * detection, not to a solicited-node address, or for an address not ours)
   * is discarded without any change (the option loop may end the handler
   * first, changing nothing either).
   */
  lemma NsDadIgnored(cfg: Config, s: St, b: seq<byte>, len: nat)
    requires |b| >= MIN_BUFSIZE && cfg.engine == Classic && NsChecks(b)
    requires IsUnspecified(Src(b)) && (!cfg.dad || !IsSolicitedNode(Dst(b)) || AddrLookup(s.addrs, Target(b)).None?)
    ensures var r := NsInput(cfg, s, b, len);
      && SameTables(s, r.s) && r.s.events == s.events
      && (NsWalk(cfg, s, b, len).Go? ==> r.out == Discard && r.len == 0)
  {
    NsLoopEffects(cfg, NsReset(cfg, s), b, len, NS_LEN);
  }

  /** uip_ds6_addr_lookup finds the same entry for two addresses only when they are equal. */
  lemma SameEntry(addrs: seq<AddrEntry>, a: Addr, c: Addr)
    requires AddrLookup(addrs, c).Some?
    ensures AddrLookup(addrs, a) == AddrLookup(addrs, c) <==> a == c
  {
  }

  /**
   * Address resolution and unreachability detection: an NS from another
   * node for an address of ours, sent to its solicited-node address or to
   * the address itself, is answered to its sender from the target address
   * with the S and O flags; the neighbor cache holds what the options left.
   */
  lemma NsResolves(cfg: Config, s: St, b: seq<byte>, len: nat)
    requires |b| >= MIN_BUFSIZE && cfg.engine == Classic && NsChecks(b) && NsWalk(cfg, s, b, len).Go?
    requires !IsUnspecified(Src(b)) && !IsMyAddr(s.addrs, Src(b)) && AddrLookup(s.addrs, Target(b)).Some?
    requires IsSolicitedNode(Dst(b)) || Dst(b) == Target(b)
    ensures var r := NsInput(cfg, s, b, len);
      && r.out == Reply && r.s == NsWalk(cfg, s, b, len).s && Dst(r.b) == Src(b) && Src(r.b) == Target(b)
      && (Guard409(cfg) ==>
            && r.len == 80 && r.b[ICMP_TYPE] == ICMP6_NA && Target(r.b) == Target(b)
            && r.b[NA_FLAGS] == (if cfg.router then NA_FLAG_ROUTER else 0) + NA_FLAG_SOLICITED + NA_FLAG_OVERRIDE
            && Walk(r.b, r.len, NA_LEN) == Chain([Opt(OPT_TLLAO, 2, 64)], Completed) && r.b[66..74] == cfg.myLl)
      && (!Guard409(cfg) ==> r.len == len)
  {
    var s1 := NsWalk(cfg, s, b, len).s;
    NsLoopEffects(cfg, NsReset(cfg, s), b, len, NS_LEN);
    SameEntry(s1.addrs, Dst(b), Target(b));
    var b2 := Write(Write(b, DST, Src(b)), SRC, Target(b));
    AddressesWritten(b, Src(b), Target(b));
    NsAnswerReply(cfg, s1, b2, len, NA_FLAG_SOLICITED + NA_FLAG_OVERRIDE);
  }

  /**
   * Every other NS from another node is discarded: one for an address not
   * ours, one claiming one of our addresses as its source, or one sent to
   * neither the target nor its solicited-node address.
   */
  lemma NsNotForUs(cfg: Config, s: St, b: seq<byte>, len: nat)
    requires |b| >= MIN_BUFSIZE && cfg.engine == Classic && NsChecks(b) && NsWalk(cfg, s, b, len).Go?
    requires !IsUnspecified(Src(b))
    requires || AddrLookup(s.addrs, Target(b)).None? || IsMyAddr(s.addrs, Src(b))
             || (!IsSolicitedNode(Dst(b)) && Dst(b) != Target(b))
    ensures var r := NsInput(cfg, s, b, len);
      r.out == Discard && r.len == 0 && r.s == NsWalk(cfg, s, b, len).s
  {
    var s1 := NsWalk(cfg, s, b, len).s;
    NsLoopEffects(cfg, NsReset(cfg, s), b, len, NS_LEN);
    if AddrLookup(s.addrs, Target(b)).Some? {
      SameEntry(s1.addrs, Dst(b), Target(b));
    }
  }

  /** Under RPL the NS handler never answers: it forwards or discards. */
  lemma NsRplNeverReplies(cfg: Config, s: St, b: seq<byte>, len: nat)
    requires |b| >= MIN_BUFSIZE && cfg.engine == Rpl
    ensures var r := NsInput(cfg, s, b, len);
      && r.out != Reply && r.s.events == s.events && r.s.addrs == s.addrs
      && (NsChecks(b) && NsWalk(cfg, s, b, len).Go? ==> r.out == Forward && r.b == b && r.len == len)
  {
    LoopHalts(NsH, cfg, NsReset(cfg, s), b, len, NS_LEN);
    NsLoopEffects(cfg, NsReset(cfg, s), b, len, NS_LEN);
  }

  // ---- the 6LoWPAN-ND build ----

  /** What the 6LoWPAN-ND lemmas assume: an NS that passed its checks and its option loop. */
  predicate SixLoWalked(cfg: Config, s: St, b: seq<byte>, len: nat)
  {
    |b| >= MIN_BUFSIZE && cfg.engine == SixLo && NsChecks(b) && NsWalk(cfg, s, b, len).Go?
  }

  /** The ARO the handler acts on, well-formed (length 2, status 0) and inside uip_buf. */
  predicate GoodAro(s1: St, b: seq<byte>)
    requires |b| >= MIN_BUFSIZE
  {
    match AroOf(s1, b)
    case None => false
    case Some(at) => at + OPT_ARO_LEN <= |b| && b[at + 1] == 2 && b[at + 2] == ARO_STATUS_SUCCESS
  }

  /** An NS without an ARO to act on is left to the rest of the stack, untouched. */
  lemma NsSixLoNoAro(cfg: Config, s: St, b: seq<byte>, len: nat)
    requires SixLoWalked(cfg, s, b, len) && AroOf(NsWalk(cfg, s, b, len).s, b).None?
    ensures var r := NsInput(cfg, s, b, len);
      r.out == Forward && r.b == b && r.len == len && r.s == NsWalk(cfg, s, b, len).s.(aroAt := None)
  {
  }

  /** An ARO with a wrong length or a nonzero status makes the handler discard the NS. */
  lemma NsSixLoBadAro(cfg: Config, s: St, b: seq<byte>, len: nat)
    requires SixLoWalked(cfg, s, b, len)
    requires var s1 := NsWalk(cfg, s, b, len).s;
      AroOf(s1, b).Some? && AroOf(s1, b).value + 3 <= |b|
      && (b[AroOf(s1, b).value + 1] != 2 || b[AroOf(s1, b).value + 2] != ARO_STATUS_SUCCESS)
    ensures var r := NsInput(cfg, s, b, len);
      r.out == Discard && r.len == 0 && SameTables(NsWalk(cfg, s, b, len).s, r.s)
  {
  }

  /** The option loop leaves both pointers where the error NA can be built from them. */
  lemma SixLoPointers(cfg: Config, s: St, b: seq<byte>, len: nat)
    requires SixLoWalked(cfg, s, b, len)
    ensures NsPointers(NsWalk(cfg, s, b, len).s, b)
  {
    NsLoopPointers(cfg, NsReset(cfg, s), b, len, NS_LEN);
  }

  /**
   * A well-formed ARO from a source without a neighbor entry is refused with
   * status 2 (neighbor cache full), and no entry is created: the SLLAO
   * before it already failed to find room.
   */
  lemma NsSixLoCacheFull(cfg: Config, s: St, b: seq<byte>, len: nat)
    requires SixLoWalked(cfg, s, b, len) && GoodAro(NsWalk(cfg, s, b, len).s, b)
    requires Src(b) !in NsWalk(cfg, s, b, len).s.nbrs
    ensures var s1 := NsWalk(cfg, s, b, len).s; var r := NsInput(cfg, s, b, len);
      && s1.llaoAt.Some? && NsPointers(s1, b)
      && r.out == Reply && SameTables(s1, r.s) && Src(b) !in r.s.nbrs
      && ErrorReply(cfg, Pkt(r.b, r.len), b, s1.llaoAt.value, s1.aroAt.value, ARO_STATUS_RTR_NC_FULL)
  {
    var s1 := NsWalk(cfg, s, b, len).s;
    NsAroSourceRegistered(cfg, s, b, len);
    SixLoPointers(cfg, s, b, len);
    ErrorNaReply(cfg, b, s1.llaoAt.value, s1.aroAt.value, ARO_STATUS_RTR_NC_FULL);
  }

  /**
   * A well-formed ARO naming another EUI-64 than the source's entry is
   * refused with status 1 (duplicate address) and the entry is kept as it
   * was.  The SLLAO of a source that already had an entry was not read, so
   * the error NA copying it reads past uip_buf when it ends there.
   */
  lemma NsSixLoDuplicate(cfg: Config, s: St, b: seq<byte>, len: nat)
    requires SixLoWalked(cfg, s, b, len) && GoodAro(NsWalk(cfg, s, b, len).s, b)
    requires var s1 := NsWalk(cfg, s, b, len).s; var at := AroOf(s1, b).value;
      Src(b) in s1.nbrs && b[at + 8..at + 16] != s1.nbrs[Src(b)].ll
    ensures var s1 := NsWalk(cfg, s, b, len).s; var r := NsInput(cfg, s, b, len);
      && s1.llaoAt.Some? && NsPointers(s1, b) && SameTables(s1, r.s) && r.s.nbrRef == Some(Src(b))
      && (LlaoInside(s1, b) ==>
            r.out == Reply && ErrorReply(cfg, Pkt(r.b, r.len), b, s1.llaoAt.value, s1.aroAt.value, ARO_STATUS_DUPLICATE))
      && (!LlaoInside(s1, b) ==> r.out == Undefined(BeyondBuffer))
  {
    var s1 := NsWalk(cfg, s, b, len).s;
    SixLoPointers(cfg, s, b, len);
    assert NsInput(cfg, s, b, len) == NsSixLo(cfg, s1, b, len);
    SixLoDuplicateAnswer(cfg, s1, b, len);
  }

  /** The duplicate-address branch of NsSixLo, from the state the option loop left. */
  lemma SixLoDuplicateAnswer(cfg: Config, s1: St, b: seq<byte>, len: nat)
    requires |b| >= MIN_BUFSIZE && GoodAro(s1, b) && NsPointers(s1, b) && s1.llaoAt.Some?
    requires var at := AroOf(s1, b).value; Src(b) in s1.nbrs && b[at + 8..at + 16] != s1.nbrs[Src(b)].ll
    ensures var r := NsSixLo(cfg, s1, b, len);
      && SameTables(s1, r.s) && r.s.nbrRef == Some(Src(b))
      && (LlaoInside(s1, b) ==>
            r.out == Reply && ErrorReply(cfg, Pkt(r.b, r.len), b, s1.llaoAt.value, s1.aroAt.value, ARO_STATUS_DUPLICATE))
      && (!LlaoInside(s1, b) ==> r.out == Undefined(BeyondBuffer))
  {
    if LlaoInside(s1, b) {
      ErrorNaReply(cfg, b, s1.llaoAt.value, s1.aroAt.value, ARO_STATUS_DUPLICATE);
    }
  }

  /**
   * A well-formed ARO repeating the EUI-64 of the source's entry: discarded
   * when the entry is garbage-collectible, and otherwise a write through
   * reg_neighbor, which this path leaves uninitialised.
   */
  lemma NsSixLoSameEui(cfg: Config, s: St, b: seq<byte>, len: nat)
    requires SixLoWalked(cfg, s, b, len) && GoodAro(NsWalk(cfg, s, b, len).s, b)
    requires var s1 := NsWalk(cfg, s, b, len).s; var at := AroOf(s1, b).value;
      Src(b) in s1.nbrs && b[at + 8..at + 16] == s1.nbrs[Src(b)].ll
    ensures var s1 := NsWalk(cfg, s, b, len).s; var r := NsInput(cfg, s, b, len);
      && SameTables(s1, r.s)
      && (s1.nbrs[Src(b)].state == GarbageCollectable ==> r.out == Discard && r.len == 0)
      && (s1.nbrs[Src(b)].state != GarbageCollectable ==> r.out == Undefined(UninitPointer))
  {
  }

  /**
   * The registration branch itself (uip-nd6.c:342-361), taken from a state
   * where the source has no entry and the cache has room: a new REACHABLE,
   * REGISTERED entry for the ARO's EUI-64, its reachable timer from the ARO
   * lifetime, and a reply.  NsAroSourceRegistered shows ns_input never
   * reaches it.
   */
  lemma NsSixLoRegisters(cfg: Config, s: St, b: seq<byte>, len: nat, at: nat)
    requires |b| >= MIN_BUFSIZE && !Guard409(cfg) && AroOf(s, b) == Some(at)
    requires at + OPT_ARO_LEN <= |b| && b[at + 1] == 2 && b[at + 2] == ARO_STATUS_SUCCESS
    requires Src(b) !in s.nbrs && |s.nbrs| < cfg.caps.nbrs
    ensures NsSixLo(cfg, s, b, len).s == s.(aroAt := Some(at), nbrRef := None, nbrs := s.nbrs[Src(b) := RegisteredEntry(cfg, b, at)])
  {
    var t := NbrAdd(s.nbrs, cfg.caps.nbrs, Src(b), b[at + 8..at + 16], true, Reachable).value;
    RegisterBranch(cfg, s, b, len, at);
    RegisterEntry(cfg, s.nbrs, b, at);
  }

  /** The branch NsSixLo takes for a new source with room in the cache. */
  lemma RegisterBranch(cfg: Config, s: St, b: seq<byte>, len: nat, at: nat)
    requires |b| >= MIN_BUFSIZE && !Guard409(cfg) && AroOf(s, b) == Some(at)
    requires at + OPT_ARO_LEN <= |b| && b[at + 1] == 2 && b[at + 2] == ARO_STATUS_SUCCESS
    requires Src(b) !in s.nbrs && |s.nbrs| < cfg.caps.nbrs
    ensures var t := NbrAdd(s.nbrs, cfg.caps.nbrs, Src(b), b[at + 8..at + 16], true, Reachable).value;
      var n := t[Src(b)].(reachable := BE16(b, at + 6) / 1000, state := Reachable, sendns := cfg.nsRegTimer, reg := RegRegistered);
      NsSixLo(cfg, s, b, len).s == s.(aroAt := Some(at), nbrRef := None, nbrs := t[Src(b) := n])
  {
  }

  lemma RegisterEntry(cfg: Config, nbrs: NbrTable, b: seq<byte>, at: nat)
    requires |b| >= IPH_LEN && at + OPT_ARO_LEN <= |b| && Src(b) !in nbrs && |nbrs| < cfg.caps.nbrs
    ensures var t := NbrAdd(nbrs, cfg.caps.nbrs, Src(b), b[at + 8..at + 16], true, Reachable).value;
      var n := t[Src(b)].(reachable := BE16(b, at + 6) / 1000, state := Reachable, sendns := cfg.nsRegTimer, reg := RegRegistered);
      t[Src(b) := n] == nbrs[Src(b) := RegisteredEntry(cfg, b, at)]
  {
  }

  /** The registration branch replies with the success NA of SuccessNaReply, which echoes the ARO. */
  lemma NsSixLoRegistersReply(cfg: Config, s: St, b: seq<byte>, len: nat, at: nat)
    requires |b| >= MIN_BUFSIZE && !Guard409(cfg) && AroOf(s, b) == Some(at)
    requires at + OPT_ARO_LEN <= |b| && b[at + 1] == 2 && b[at + 2] == ARO_STATUS_SUCCESS
    requires Src(b) !in s.nbrs && |s.nbrs| < cfg.caps.nbrs
    ensures var r := NsSixLo(cfg, s, b, len); r.out == Reply && Pkt(r.b, r.len) == SuccessNa(cfg, b, at)
  {
  }

  /** The entry a successful registration creates for the ARO at `at`. */
  function RegisteredEntry(cfg: Config, b: seq<byte>, at: nat): Nbr
    requires at + OPT_ARO_LEN <= |b|
  {
    Nbr(b[at + 8..at + 16], Reachable, true, 0, RegRegistered, BE16(b, at + 6) / 1000, cfg.nsRegTimer)
  }

}
