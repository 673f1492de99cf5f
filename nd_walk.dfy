/**
 * The option loops of ns_input, na_input, rs_input and ra_input: what each
 * handler does with one option, and the loop that applies it to every option
 * of the chain with the offset kept as an unbounded integer.
 */
module Nd6Walk {
  import opened Wire
  import opened Ds6
  import opened Nd6Config
  import opened NdOptions
  import opened NdPackets
  import opened Nd6State

  datatype Handler = NsH | NaH | RsH | RaH

  /** The 8 bytes of link-layer address an SLLAO or TLLAO at `at` carries. */
  function LlData(b: seq<byte>, at: nat): LlAddr
    requires at + 2 + LLADDR_LEN <= |b|
  {
    b[at + 2..at + 2 + LLADDR_LEN]
  }

  // ---- ns_input ----

  /** One option of an NS (uip-nd6.c:211-255). */
  function NsOption(cfg: Config, s: St, b: seq<byte>, at: nat): (r: Flow)
    requires at < |b| && |b| >= IPH_LEN
  {
    if b[at] == OPT_SLLAO then
      var s1 := s.(llaoAt := Some(at));
      var src := Src(b);
      if IsUnspecified(src) then Halt(s1, Discard)
      else if src !in s.nbrs then
        if at + 2 + LLADDR_LEN > |b| then Halt(s1, Undefined(BeyondBuffer))
        else
          var added := NbrAdd(s.nbrs, cfg.caps.nbrs, src, LlData(b, at), false, Stale);
          Go(s1.(nbrRef := None, nbrs := if added.Some? then added.value else s.nbrs))
      else if cfg.engine == Classic then
        if at + 2 + LLADDR_LEN > |b| then Halt(s1, Undefined(BeyondBuffer))
        else
          var n := s.nbrs[src];
          var n' := if LlData(b, at) != n.ll then n.(ll := LlData(b, at), state := Stale)
                    else if n.state == Incomplete then n.(state := Stale)
                    else n;
          Go(s1.(nbrRef := Some(src), nbrs := s.nbrs[src := n']))
      else Go(s1.(nbrRef := Some(src)))
    else if b[at] == OPT_ARO && cfg.engine == SixLo then
      Go(s.(aroAt := Some(at)))
    else Go(s)
  }

  // ---- na_input ----

  /** One option of an NA (uip-nd6.c:598-621). */
  function NaOption(cfg: Config, s: St, b: seq<byte>, at: nat): (r: Flow)
    requires at + 1 < |b|
  {
    if b[at] == OPT_TLLAO then Go(s.(llaoAt := Some(at)))
    else if b[at] == OPT_ARO && cfg.engine == SixLo then
      if b[at + 1] != 2 then Go(s.(aroAt := None))
      else if at + OPT_ARO_LEN > |b| then Halt(s, Undefined(BeyondBuffer))
      else if b[at + 8..at + 16] != cfg.myLl then Go(s.(aroAt := None))
      else Go(s.(aroAt := Some(at)))
    else Go(s)
  }

  // ---- rs_input ----

  /** One option of an RS (uip-nd6.c:814-821). */
  function RsOption(s: St, b: seq<byte>, at: nat): (r: Flow)
    requires at < |b|
  {
    if b[at] == OPT_SLLAO then Go(s.(llaoAt := Some(at))) else Go(s)
  }

  // ---- ra_input ----

  /**
   * The bytes of an RA's SLLAO that ra_input reads: the link-layer address
   * in the classic and 6LoWPAN-ND builds, and under RPL only the MTU field
   * of the case it falls through into.
   */
  function RaSllaoReads(cfg: Config): nat
  {
    if cfg.engine == Rpl then OPT_MTU_LEN else 2 + LLADDR_LEN
  }

  /**
   * The SLLAO case of ra_input (uip-nd6.c:1080-1125).  It has no `break`:
   * control continues into the MTU case, which the caller applies.
   */
  function RaSllao(cfg: Config, s: St, b: seq<byte>, at: nat): (r: Flow)
    requires at + RaSllaoReads(cfg) <= |b| && |b| >= IPH_LEN
  {
    var src := Src(b);
    var rt := s.iface.reachableTime / 1000;
    var s1 := s.(llaoAt := Some(at), nbrRef := Lookup(s.nbrs, src));
    match cfg.engine
    case Rpl => Go(s1)
    case Classic =>
      var ll := LlData(b, at);
      if src !in s.nbrs then
        match NbrAdd(s.nbrs, cfg.caps.nbrs, src, ll, true, Reachable)
        case None => Halt(s1.(nbrRef := None), Undefined(NullDeref))
        case Some(t) => Go(s1.(nbrRef := Some(src), nbrs := t[src := t[src].(reachable := rt)]))
      else
        var n := s.nbrs[src];
        var n1 := if n.state == Incomplete then n.(state := Reachable, reachable := rt) else n;
        var n2 := if ll != n.ll then n1.(ll := ll, state := Stale) else n1;
        Go(s1.(nbrs := s.nbrs[src := n2.(isRouter := true)]))
    case SixLo =>
      var ll := LlData(b, at);
      if src !in s.nbrs then
        match NbrAdd(s.nbrs, cfg.caps.nbrs, src, ll, true, Reachable)
        case None => Halt(s1.(nbrRef := None), Undefined(NullDeref))
        case Some(t) =>
          var n := t[src].(reachable := rt, sendns := cfg.nsRegTimer, reg := RegToBeRegistered, nscount := 0);
          Go(s1.(nbrRef := Some(src), nbrs := t[src := n]))
      else
        var n := s.nbrs[src];
        var n1 := if n.state == Stale then n.(state := Reachable, reachable := rt) else n;
        var n2 := if ll != n.ll then n1.(ll := ll, state := Reachable, reachable := rt) else n1;
        Go(s1.(nbrs := s.nbrs[src := n2.(isRouter := true)]))
  }

  /**
   * The MTU case of ra_input: only the link MTU changes, to the option's
   * 32-bit field read in network byte order (bytes 4 to 7, most significant
   * first).
   */
  function RaMtu(s: St, b: seq<byte>, at: nat): (r: St)
    requires at + OPT_MTU_LEN <= |b|
    ensures r == s.(iface := s.iface.(linkMtu := r.iface.linkMtu))
    ensures r.iface.linkMtu < 0x1_0000_0000 && BE32Bytes(r.iface.linkMtu) == b[at + 4..at + 8]
  {
    BE32BytesOf(b, at + 4);
    s.(iface := s.iface.(linkMtu := BE32(b, at + 4)))
  }

  /** The fields of a Prefix Information option (RFC 4861 section 4.6.2) at `at`. */
  datatype PrefixInfo = PrefixInfo(plen: byte, flags: byte, valid: nat, preferred: nat, prefix: Addr)

  function ReadPrefixInfo(b: seq<byte>, at: nat): (r: PrefixInfo)
    requires at + OPT_PREFIX_INFO_LEN <= |b|
  {
    PrefixInfo(b[at + 2], b[at + 3], BE32(b, at + 4), BE32(b, at + 8), b[at + 16..at + 32])
  }

  /** The on-link part of the prefix case (uip-nd6.c:1139-1179). */
  function OnLink(cfg: Config, s: St, pi: PrefixInfo): (r: St)
  {
    match PrefixLookup(s.prefixes, pi.prefix, pi.plen)
    case None =>
      if pi.valid != 0 && pi.valid != INFINITE_LIFETIME then
        var e := if cfg.router then PrefixEntry(pi.prefix, pi.plen, pi.valid, false, true, pi.flags, pi.preferred)
                 else PrefixEntry(pi.prefix, pi.plen, pi.valid, false, false, 0, 0);
        s.(prefixes := PrefixAdd(s.prefixes, cfg.caps.prefixes, e))
      else s
    case Some(i) =>
      if cfg.router then s
      else if pi.valid == 0 then s.(prefixes := s.prefixes[..i] + s.prefixes[i + 1..])
      else if pi.valid == INFINITE_LIFETIME then s.(prefixes := s.prefixes[i := s.prefixes[i].(isInfinite := true)])
      else s.(prefixes := s.prefixes[i := s.prefixes[i].(vlifetime := pi.valid, isInfinite := false)])
  }

  /**
   * The valid lifetime ra_input gives an existing autoconfigured address
   * (uip-nd6.c:1197-1210): the advertised value when it exceeds two hours or
   * the time remaining, two hours otherwise.
   */
  function AutoconfLifetime(valid: nat, remaining: nat): (r: nat)
  {
    if valid > 2 * 60 * 60 || valid > remaining then valid else 2 * 60 * 60
  }

  /** The autonomous part of the prefix case (uip-nd6.c:1182-1222). */
  function Autonomous(cfg: Config, s: St, pi: PrefixInfo): (r: St)
  {
    var ip := WithIid(pi.prefix, cfg.myLl);
    var i := AddrLookup(s.addrs, ip);
    if i.Some? && s.addrs[i.value].kind == Autoconf then
      var a := s.addrs[i.value];
      var a' := if pi.valid != INFINITE_LIFETIME then a.(vlifetime := AutoconfLifetime(pi.valid, a.vlifetime), isInfinite := false)
                else a.(isInfinite := true);
      s.(addrs := s.addrs[i.value := a'])
    else
      s.(addrs := AddrAdd(s.addrs, cfg.caps.addrs, ip, if pi.valid == INFINITE_LIFETIME then 0 else pi.valid, Autoconf, cfg.dad))
  }

  /** The prefix case of ra_input (uip-nd6.c:1128-1225). */
  function RaPrefix(cfg: Config, s: St, pi: PrefixInfo): (r: St)
  {
    if pi.valid >= pi.preferred && !IsLinkLocal(pi.prefix) then
      var s1 := if HasBit(pi.flags, RA_FLAG_ONLINK) then OnLink(cfg, s, pi) else s;
      if HasBit(pi.flags, RA_FLAG_AUTONOMOUS) && pi.valid != 0 && pi.plen == DEFAULT_PREFIX_LEN then Autonomous(cfg, s1, pi)
      else s1
    else s
  }

  /** One option of an RA (uip-nd6.c:1078-1246). */
  function RaOption(cfg: Config, s: St, b: seq<byte>, at: nat): (r: Flow)
    requires at < |b| && |b| >= IPH_LEN
  {
    if b[at] == OPT_SLLAO then
      if at + RaSllaoReads(cfg) > |b| then Halt(s, Undefined(BeyondBuffer))
      else match RaSllao(cfg, s, b, at)
        case Halt(s1, o) => Halt(s1, o)
        case Go(s1) => Go(RaMtu(s1, b, at))
    else if b[at] == OPT_MTU then
      if at + OPT_MTU_LEN > |b| then Halt(s, Undefined(BeyondBuffer)) else Go(RaMtu(s, b, at))
    else if b[at] == OPT_PREFIX_INFO then
      if at + OPT_PREFIX_INFO_LEN > |b| then Halt(s, Undefined(BeyondBuffer))
      else Go(RaPrefix(cfg, s, ReadPrefixInfo(b, at)))
    else Go(s)
  }

  // ---- the loop ----

  function OptionStep(h: Handler, cfg: Config, s: St, b: seq<byte>, at: nat): (r: Flow)
    requires at + 1 < |b| && |b| >= IPH_LEN
  {
    match h
    case NsH => NsOption(cfg, s, b, at)
    case NaH => NaOption(cfg, s, b, at)
    case RsH => RsOption(s, b, at)
    case RaH => RaOption(cfg, s, b, at)
  }

  /**
   * `while(uip_l3_icmp_hdr_len + nd6_opt_offset < uip_len)`: a zero length
   * discards, otherwise the option is handled and the offset advances by
   * length * 8.
   */
  function OptLoop(h: Handler, cfg: Config, s: St, b: seq<byte>, len: nat, off: nat): (r: Flow)
    requires |b| >= IPH_LEN
    decreases if len > off then len - off else 0
  {
    if BODY + off >= len then Go(s)
    else if BODY + off + 1 >= |b| then Halt(s, Undefined(BeyondBuffer))
    else if b[BODY + off + 1] == 0 then Halt(s, Discard)
    else match OptionStep(h, cfg, s, b, BODY + off)
      case Halt(s1, o) => Halt(s1, o)
      case Go(s1) => OptLoop(h, cfg, s1, b, len, NextOffset(off, b[BODY + off + 1]))
  }

  // ---- the loop with the offset as the source declares it ----

  /**
   * The same loop with `nd6_opt_offset` a `uint8_t` (uip-nd6.c:127), so
   * that the advance at uip-nd6.c:260 wraps at 256.  Such a loop need not
   * end: it advances the offset at most `fuel` times, and None means it has
   * not ended by then.
   */
  function OptLoopAsWritten(h: Handler, cfg: Config, s: St, b: seq<byte>, len: nat, off: byte, fuel: nat): Option<Flow>
    requires |b| >= IPH_LEN
    decreases fuel
  {
    if BODY + off >= len then Some(Go(s))
    else if BODY + off + 1 >= |b| then Some(Halt(s, Undefined(BeyondBuffer)))
    else if b[BODY + off + 1] == 0 then Some(Halt(s, Discard))
    else match OptionStep(h, cfg, s, b, BODY + off)
      case Halt(s1, o) => Some(Halt(s1, o))
      case Go(s1) =>
        if fuel == 0 then None
        else OptLoopAsWritten(h, cfg, s1, b, len, NextOffsetAsWritten(off, b[BODY + off + 1]), fuel - 1)
  }

  /**
   * With the 8-bit offset the loop condition holds for every offset once
   * uip_len exceeds 44 + 255 = 299: such a message never completes its
   * option loop, whatever the fuel; only a zero length, an option handler
   * or a read outside uip_buf ends it.
   */
  lemma {:induction false} AsWrittenNeverCompletes(h: Handler, cfg: Config, s: St, b: seq<byte>, len: nat, off: byte, fuel: nat)
    requires |b| >= IPH_LEN && len > BODY + 255
    ensures var r := OptLoopAsWritten(h, cfg, s, b, len, off, fuel); r.None? || r.value.Halt?
    decreases fuel
  {
    if BODY + off + 1 < |b| && b[BODY + off + 1] != 0 && fuel > 0 {
      match OptionStep(h, cfg, s, b, BODY + off)
      case Halt(s1, o) =>
      case Go(s1) => AsWrittenNeverCompletes(h, cfg, s1, b, len, NextOffsetAsWritten(off, b[BODY + off + 1]), fuel - 1);
    }
  }

  /** None of the option types any handler acts on. */
  predicate UnknownKind(k: byte)
  {
    k != OPT_SLLAO && k != OPT_TLLAO && k != OPT_PREFIX_INFO && k != OPT_MTU && k != OPT_ARO
  }

  /**
   * An option of unknown type with length byte 32 inside the message: the
   * 8-bit offset moves by 256, that is not at all, and the loop re-reads
   * the same option for ever; the loop with a wide offset skips the option,
   * and completes when the message ends within its 256 bytes.
   */
  lemma {:induction false} AsWrittenLoopsForEver(h: Handler, cfg: Config, s: St, b: seq<byte>, len: nat, off: byte, fuel: nat)
    requires |b| >= IPH_LEN && BODY + off < len && BODY + off + 1 < |b|
    requires UnknownKind(b[BODY + off]) && b[BODY + off + 1] == 32
    ensures OptLoopAsWritten(h, cfg, s, b, len, off, fuel).None?
    ensures len <= BODY + off + 256 ==> OptLoop(h, cfg, s, b, len, off) == Go(s)
    decreases fuel
  {
    assert OptionStep(h, cfg, s, b, BODY + off) == Go(s);
    assert NextOffsetAsWritten(off, 32) == off;
    if fuel > 0 {
      AsWrittenLoopsForEver(h, cfg, s, b, len, off, fuel - 1);
    }
  }

  /**
   * The option loop of this model, whose offset does not wrap, is the
   * source's loop on every message whose options end within 256 bytes of
   * the message body (every message this engine builds is at most 96
   * bytes long), given fuel for one advance per option.
   */
  lemma {:induction false} AsWrittenAgrees(h: Handler, cfg: Config, s: St, b: seq<byte>, len: nat, off: byte, fuel: nat)
    requires |b| >= IPH_LEN && EndOf(Walk(b, len, off), off) < BODY + 256 && fuel >= |Walk(b, len, off).opts|
    ensures OptLoopAsWritten(h, cfg, s, b, len, off, fuel) == Some(OptLoop(h, cfg, s, b, len, off))
    decreases fuel
  {
    if BODY + off < len && BODY + off + 1 < |b| && b[BODY + off + 1] != 0 {
      var next := NextOffset(off, b[BODY + off + 1]);
      var c := Walk(b, len, off);
      var rest := Walk(b, len, next);
      assert c.opts == [Opt(b[BODY + off], b[BODY + off + 1], BODY + off)] + rest.opts;
      WalkEndsAfter(b, len, next);
      if rest.opts != [] {
        assert c.opts[|c.opts| - 1] == rest.opts[|rest.opts| - 1];
      }
      assert EndOf(c, off) == EndOf(rest, next);
      assert NextOffsetAsWritten(off, b[BODY + off + 1]) == next;
      match OptionStep(h, cfg, s, b, BODY + off)
      case Halt(s1, o) =>
      case Go(s1) => AsWrittenAgrees(h, cfg, s1, b, len, next, fuel - 1);
    }
  }

  // ---- the loop follows the option walker ----

  /** The handler's options applied in order, then the walker's stop reason. */
  function Apply(h: Handler, cfg: Config, s: St, b: seq<byte>, opts: seq<Opt>, stop: Stop): Flow
    requires |b| >= IPH_LEN && forall i :: 0 <= i < |opts| ==> opts[i].at + 1 < |b|
    decreases |opts|
  {
    if opts == [] then
      match stop
      case Completed => Go(s)
      case ZeroLength => Halt(s, Discard)
      case OutOfBuffer => Halt(s, Undefined(BeyondBuffer))
    else match OptionStep(h, cfg, s, b, opts[0].at)
      case Halt(s1, o) => Halt(s1, o)
      case Go(s1) => Apply(h, cfg, s1, b, opts[1..], stop)
  }

  /**
   * Every handler's loop visits exactly the options the walker yields, in
   * order, and ends as the walker does unless an option ends it first.
   */
  lemma {:induction false} OptLoopFollowsWalk(h: Handler, cfg: Config, s: St, b: seq<byte>, len: nat, off: nat)
    requires |b| >= IPH_LEN
    ensures forall i :: 0 <= i < |Walk(b, len, off).opts| ==> Walk(b, len, off).opts[i].at + 1 < |b|
    ensures OptLoop(h, cfg, s, b, len, off) == Apply(h, cfg, s, b, Walk(b, len, off).opts, Walk(b, len, off).stop)
    decreases if len > off then len - off else 0
  {
    WalkOptions(b, len, off);
    if BODY + off < len && BODY + off + 1 < |b| && b[BODY + off + 1] != 0 {
      var next := NextOffset(off, b[BODY + off + 1]);
      var w := Walk(b, len, off);
      assert w.opts[1..] == Walk(b, len, next).opts;
      match OptionStep(h, cfg, s, b, BODY + off)
      case Halt(s1, o) =>
      case Go(s1) => OptLoopFollowsWalk(h, cfg, s1, b, len, next);
    }
  }

  /** An option handler leaves its handler only to discard or with undefined behaviour. */
  lemma OptionStepHalts(h: Handler, cfg: Config, s: St, b: seq<byte>, at: nat)
    requires at + 1 < |b| && |b| >= IPH_LEN
    ensures var r := OptionStep(h, cfg, s, b, at); r.Halt? ==> r.out == Discard || r.out.Undefined?
  {
  }

  /**
   * A zero option length ends every handler's loop with a discard (or the
   * undefined behaviour of an earlier option); a loop that runs to its end
   * has walked a complete, well-formed chain.
   */
  lemma {:induction false} ZeroLengthDiscards(h: Handler, cfg: Config, s: St, b: seq<byte>, len: nat, off: nat)
    requires |b| >= IPH_LEN
    ensures var r := OptLoop(h, cfg, s, b, len, off);
      && (Walk(b, len, off).stop == ZeroLength ==> r.Halt? && (r.out == Discard || r.out.Undefined?))
      && (r.Go? ==> Walk(b, len, off).stop == Completed)
    decreases if len > off then len - off else 0
  {
    if BODY + off < len && BODY + off + 1 < |b| && b[BODY + off + 1] != 0 {
      OptionStepHalts(h, cfg, s, b, BODY + off);
      match OptionStep(h, cfg, s, b, BODY + off)
      case Halt(s1, o) =>
      case Go(s1) => ZeroLengthDiscards(h, cfg, s1, b, len, NextOffset(off, b[BODY + off + 1]));
    }
  }

  /** Every handler's loop leaves its handler only to discard or with undefined behaviour. */
  lemma {:induction false} LoopHalts(h: Handler, cfg: Config, s: St, b: seq<byte>, len: nat, off: nat)
    requires |b| >= IPH_LEN
    ensures var r := OptLoop(h, cfg, s, b, len, off); r.Halt? ==> r.out == Discard || r.out.Undefined?
    decreases if len > off then len - off else 0
  {
    if BODY + off < len && BODY + off + 1 < |b| && b[BODY + off + 1] != 0 {
      OptionStepHalts(h, cfg, s, b, BODY + off);
      match OptionStep(h, cfg, s, b, BODY + off)
      case Halt(s1, o) =>
      case Go(s1) => LoopHalts(h, cfg, s1, b, len, NextOffset(off, b[BODY + off + 1]));
    }
  }

  /** The last option of a kind in a chain, or `dflt` when there is none. */
  function LastOf(opts: seq<Opt>, kind: byte, dflt: Option<nat>): (r: Option<nat>)
    ensures r != dflt ==> exists i :: 0 <= i < |opts| && opts[i].kind == kind && r == Some(opts[i].at)
    decreases |opts|
  {
    if opts == [] then dflt
    else LastOf(opts[1..], kind, if opts[0].kind == kind then Some(opts[0].at) else dflt)
  }

  /**
   * The NA and RS loops only move the option pointers: no table, event or
   * entry pointer changes, and nd6_opt_llao ends at the chain's last
   * link-layer address option.
   */
  lemma {:induction false} PointerOnlyLoops(h: Handler, cfg: Config, s: St, b: seq<byte>, len: nat, off: nat)
    requires |b| >= IPH_LEN && (h == NaH || h == RsH)
    ensures var r := OptLoop(h, cfg, s, b, len, off);
      && SameTables(s, r.s) && r.s.events == s.events && r.s.nbrRef == s.nbrRef && r.s.defrtRef == s.defrtRef
      && (r.Go? ==> r.s.llaoAt == LastOf(Walk(b, len, off).opts, if h == NaH then OPT_TLLAO else OPT_SLLAO, s.llaoAt))
    decreases if len > off then len - off else 0
  {
    if BODY + off < len && BODY + off + 1 < |b| && b[BODY + off + 1] != 0 {
      var next := NextOffset(off, b[BODY + off + 1]);
      match OptionStep(h, cfg, s, b, BODY + off)
      case Halt(s1, o) =>
      case Go(s1) =>
        PointerOnlyLoops(h, cfg, s1, b, len, next);
        var w := Walk(b, len, off);
        assert w.opts[1..] == Walk(b, len, next).opts;
    }
  }
}
