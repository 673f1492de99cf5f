/**
 * The ND engine as uip-nd6.c runs it: the static pointers and the tables it
 * updates in place, uip_buf as a fixed-size array and uip_len, and one method
 * per handler.  Each handler method is proved to leave the engine, the
 * buffer and uip_len exactly as the specification functions of Nd6Ns,
 * Nd6Na and Nd6Router say, whose properties are proved in the *Props
 * modules.
 */
module Nd6Engine {
  import opened Wire
  import opened Ds6
  import opened Nd6Config
  import opened NdOptions
  import opened NdPackets
  import opened Nd6State
  import opened Nd6Walk
  import Nd6Ns
  import Nd6Na
  import Nd6Router

  /** The post-option parts of the handlers write their answer inside uip_buf. */
  lemma NsAnswerKeepsBuffer(cfg: Config, s: St, b: seq<byte>, len: nat, flags: byte)
    requires |b| >= MIN_BUFSIZE && flags < NA_FLAG_ROUTER
    ensures |Nd6Ns.NsAnswer(cfg, s, b, len, flags).b| == |b|
  {
  }

  lemma NsClassicKeepsBuffer(cfg: Config, s: St, b: seq<byte>, len: nat)
    requires |b| >= MIN_BUFSIZE
    ensures |Nd6Ns.NsClassic(cfg, s, b, len).b| == |b|
  {
    var b1 := Write(b, DST, AllNodes);
    NsAnswerKeepsBuffer(cfg, s, Write(b1, SRC, cfg.selectSrc(s.addrs, AllNodes)), len, NA_FLAG_OVERRIDE);
    NsAnswerKeepsBuffer(cfg, s, Write(Write(b, DST, Src(b)), SRC, Target(b)), len, NA_FLAG_SOLICITED + NA_FLAG_OVERRIDE);
  }

  lemma NsSixLoKeepsBuffer(cfg: Config, s: St, b: seq<byte>, len: nat)
    requires |b| >= MIN_BUFSIZE
    ensures |Nd6Ns.NsSixLo(cfg, s, b, len).b| == |b|
  {
  }

  lemma NaKeepsBuffer(cfg: Config, s: St, b: seq<byte>, len: nat)
    requires |b| >= MIN_BUFSIZE
    ensures |Nd6Na.NaClassic(cfg, s, b, len).b| == |b| && |Nd6Na.NaSixLo(cfg, s, b, len).b| == |b|
  {
  }

  /**
   * The engine.  The fields are the tables of uip-ds6 the handlers update
   * and the static pointers of uip-nd6.c; `events` records the calls into
   * modules outside this model.
   */
  class Stack {
    const cfg: Config
    /** uip_buf */
    const buf: array<byte>
    /** uip_len */
    var len: nat
    var nbrs: NbrTable
    var addrs: seq<AddrEntry>
    var prefixes: seq<PrefixEntry>
    var defrts: DefrtTable
    var iface: Iface
    /** nd6_opt_llao and nd6_opt_aro, as indices into uip_buf */
    var llaoAt: Option<nat>
    var aroAt: Option<nat>
    /** nbr and defrt, as the addresses of the entries they point to */
    var nbrRef: Option<Addr>
    var defrtRef: Option<Addr>
    var events: seq<Event>

    /** The engine's state as the specification functions take it. */
    function State(): St
      reads this
    {
      St(nbrs, addrs, prefixes, defrts, iface, llaoAt, aroAt, nbrRef, defrtRef, events)
    }

    constructor (cfg: Config, buf: array<byte>, s: St)
      requires buf.Length >= MIN_BUFSIZE
      ensures this.cfg == cfg && this.buf == buf && State() == s && len == 0
    {
      this.cfg := cfg;
      this.buf := buf;
      len := 0;
      nbrs := s.nbrs;
      addrs := s.addrs;
      prefixes := s.prefixes;
      defrts := s.defrts;
      iface := s.iface;
      llaoAt := s.llaoAt;
      aroAt := s.aroAt;
      nbrRef := s.nbrRef;
      defrtRef := s.defrtRef;
      events := s.events;
    }

    /** Every field of the state at once, as an option handler leaves it. */
    method SetState(s: St)
      modifies this
      ensures State() == s && len == old(len)
    {
      nbrs, addrs, prefixes, defrts, iface := s.nbrs, s.addrs, s.prefixes, s.defrts, s.iface;
      llaoAt, aroAt, nbrRef, defrtRef, events := s.llaoAt, s.aroAt, s.nbrRef, s.defrtRef, s.events;
    }

    /** Leaving a handler: the `discard` label sets uip_len to 0. */
    method Exit(o: Outcome) returns (out: Outcome)
      modifies this
      ensures out == o && State() == old(State())
      ensures len == (if o == Discard then 0 else old(len))
    {
      if o == Discard {
        len := 0;
      }
      out := o;
    }

    /** A message built into uip_buf, of `n` bytes. */
    method Store(b: seq<byte>, n: nat)
      requires |b| == buf.Length
      modifies this, buf
      ensures buf[..] == b && len == n && State() == old(State())
    {
      forall i | 0 <= i < buf.Length {
        buf[i] := b[i];
      }
      len := n;
    }

    /** Leaving a handler as a specification function says. */
    method Commit(r: Step) returns (out: Outcome)
      requires |r.b| == buf.Length
      modifies this, buf
      ensures Step(State(), buf[..], len, out) == r
    {
      SetState(r.s);
      Store(r.b, r.len);
      out := r.out;
    }

    /**
     * The option loop every handler runs over uip_buf, from `off0` bytes
     * after the ICMPv6 header: a zero length discards, each option is
     * handled by the handler's own switch, and the offset advances by the
     * option's length times 8.  `halt` is how the loop left the handler, if
     * it did.
     */
    method ProcessOptions(h: Handler, off0: nat) returns (halt: Option<Outcome>)
      requires buf.Length >= IPH_LEN
      modifies this
      ensures var f := OptLoop(h, cfg, old(State()), buf[..], len, off0);
        State() == f.s && halt == (if f.Halt? then Some(f.out) else None)
      ensures len == old(len)
    {
      ghost var b := buf[..];
      var off := off0;
      while BODY + off < len
        invariant OptLoop(h, cfg, old(State()), b, len, off0) == OptLoop(h, cfg, State(), b, len, off)
        invariant len == old(len)
        decreases len - off
      {
        if BODY + off + 1 >= buf.Length {
          halt := Some(Undefined(BeyondBuffer));
          return;
        }
        var units := buf[BODY + off + 1];
        if units == 0 {
          halt := Some(Discard);
          return;
        }
        var f := OptionStep(h, cfg, State(), buf[..], BODY + off);
        SetState(f.s);
        if f.Halt? {
          halt := Some(f.out);
          return;
        }
        off := NextOffset(off, units);
      }
      halt := None;
    }

    /** ns_input. */
    method NsInput() returns (out: Outcome)
      requires buf.Length >= MIN_BUFSIZE
      modifies this, buf
      ensures Step(State(), buf[..], len, out) == Nd6Ns.NsInput(cfg, old(State()), old(buf[..]), old(len))
    {
      var b := buf[..];
      if !Nd6Ns.NsChecks(b) {
        out := Exit(Discard);
        return;
      }
      llaoAt := None;
      if cfg.engine == SixLo {
        aroAt := None;
      }
      var halt := ProcessOptions(NsH, NS_LEN);
      if halt.Some? {
        out := Exit(halt.value);
        return;
      }
      match cfg.engine
      case Classic =>
        NsClassicKeepsBuffer(cfg, State(), b, len);
        out := Commit(Nd6Ns.NsClassic(cfg, State(), b, len));
      case SixLo =>
        NsSixLoKeepsBuffer(cfg, State(), b, len);
        out := Commit(Nd6Ns.NsSixLo(cfg, State(), b, len));
      case Rpl =>
        out := Exit(Forward);
    }

    /** na_input. */
    method NaInput() returns (out: Outcome)
      requires buf.Length >= MIN_BUFSIZE
      modifies this, buf
      ensures Step(State(), buf[..], len, out) == Nd6Na.NaInput(cfg, old(State()), old(buf[..]), old(len))
    {
      var b := buf[..];
      if !Nd6Na.NaChecks(b) {
        out := Exit(Discard);
        return;
      }
      llaoAt := None;
      var halt := ProcessOptions(NaH, NA_LEN);
      if halt.Some? {
        out := Exit(halt.value);
        return;
      }
      NaKeepsBuffer(cfg, State(), b, len);
      match cfg.engine
      case Classic =>
        out := Commit(Nd6Na.NaClassic(cfg, State(), b, len));
      case SixLo =>
        out := Commit(Nd6Na.NaSixLo(cfg, State(), b, len));
      case Rpl =>
        out := Exit(Discard);
    }

    /** uip_ds6_send_ra_sollicited, and the return that leaves the RS in uip_buf. */
    method Solicit() returns (out: Outcome)
      modifies this
      ensures out == Forward && len == old(len)
      ensures State() == old(State()).(events := if cfg.engine == Rpl then old(events) else old(events) + [SolicitedRa])
    {
      if cfg.engine != Rpl {
        events := events + [SolicitedRa];
      }
      out := Forward;
    }

    /** rs_input. */
    method RsInput() returns (out: Outcome)
      requires buf.Length >= MIN_BUFSIZE
      modifies this
      ensures buf[..] == old(buf[..])
      ensures Step(State(), buf[..], len, out) == Nd6Router.RsInput(cfg, old(State()), old(buf[..]), old(len))
    {
      var b := buf[..];
      if !Nd6Router.RsChecks(b) {
        out := Exit(Discard);
        return;
      }
      llaoAt := None;
      var halt := ProcessOptions(RsH, RS_LEN);
      if halt.Some? {
        out := Exit(halt.value);
        return;
      }
      if llaoAt.None? {
        out := Solicit();
        return;
      }
      var at := llaoAt.value;
      if IsUnspecified(Src(b)) {
        out := Exit(Discard);
        return;
      }
      if at + 2 + LLADDR_LEN > |b| {
        out := Exit(Undefined(BeyondBuffer));
        return;
      }
      out := Solicitor(b, LlData(b, at));
    }

    /** The neighbor entry of the solicitor, then the solicited RA (uip-nd6.c:830-863). */
    method Solicitor(b: seq<byte>, ll: LlAddr) returns (out: Outcome)
      requires |b| >= MIN_BUFSIZE
      modifies this
      ensures Step(State(), b, len, out) == Nd6Router.RsNeighbor(cfg, old(State()), b, old(len), ll)
    {
      var src := Src(b);
      if src !in nbrs {
        var t := NbrAdd(nbrs, cfg.caps.nbrs, src, ll, false, Stale);
        nbrRef := None;
        if t.None? && cfg.engine == SixLo {
          // the new entry's timers are cleared through NULL
          out := Exit(Undefined(NullDeref));
          return;
        }
        if t.Some? {
          nbrs := t.value;
          nbrRef := Some(src);
        }
      } else if ll != nbrs[src].ll {
        nbrs := NbrRm(nbrs, src);
        var t := NbrAdd(nbrs, cfg.caps.nbrs, src, ll, false, Stale);
        if t.None? {
          nbrRef := None;
          out := Exit(Undefined(NullDeref));
          return;
        }
        nbrs := t.value[src := t.value[src].(isRouter := false)];
        nbrRef := Some(src);
      } else {
        nbrs := nbrs[src := nbrs[src].(isRouter := false)];
        nbrRef := Some(src);
      }
      out := Solicit();
    }

    /** ra_input; `rnd` is the reachable time uip_ds6_compute_reachable_time draws. */
    method RaInput(rnd: nat) returns (out: Outcome)
      requires buf.Length >= MIN_BUFSIZE
      modifies this
      ensures buf[..] == old(buf[..])
      ensures Step(State(), buf[..], len, out) == Nd6Router.RaInput(cfg, old(State()), old(buf[..]), old(len), rnd)
    {
      var b := buf[..];
      if !Nd6Router.RaChecks(b) {
        out := Exit(Discard);
        return;
      }
      UpdateIface(b, rnd);
      var halt := ProcessOptions(RaH, RA_LEN);
      if halt.Some? {
        out := Exit(halt.value);
        return;
      }
      out := RouterLifetime(b);
    }

    /** The interface parameters an RA carries (uip-nd6.c:1053-1068). */
    method UpdateIface(b: seq<byte>, rnd: nat)
      requires |b| >= MIN_BUFSIZE
      modifies this
      ensures State() == old(State()).(iface := Nd6Router.RaIface(old(iface), b, rnd)) && len == old(len)
    {
      var base := BE32(b, RA_REACHABLE);
      var retrans := BE32(b, RA_RETRANS);
      if b[RA_CUR_TTL] != 0 {
        iface := iface.(curHopLimit := b[RA_CUR_TTL]);
      }
      if base != 0 && base != iface.baseReachable {
        iface := iface.(baseReachable := base, reachableTime := rnd);
      }
      if retrans != 0 {
        iface := iface.(retransTimer := retrans);
      }
    }

    /** The router lifetime of the RA in `b`, the tail of ra_input (uip-nd6.c:1250-1271). */
    method RouterLifetime(b: seq<byte>) returns (out: Outcome)
      requires |b| >= MIN_BUFSIZE
      modifies this
      ensures Step(State(), b, len, out) == Nd6Router.RaRouter(cfg, old(State()), b, old(len))
    {
      var lifetime := BE16(b, RA_ROUTER_LIFETIME);
      if lifetime != 0 {
        if nbrRef.Some? {
          var a := nbrRef.value;
          if a !in nbrs {
            out := Exit(Undefined(StalePointer));
            return;
          }
          nbrs := nbrs[a := nbrs[a].(isRouter := true)];
        }
        if cfg.engine == SixLo {
          var src := Src(b);
          defrtRef := Lookup(defrts, src);
          if src in defrts {
            defrts := defrts[src := lifetime];
          } else {
            defrts := DefrtAdd(defrts, cfg.caps.defrts, src, lifetime);
          }
        }
      } else if defrtRef.Some? {
        var a := defrtRef.value;
        if a !in defrts {
          out := Exit(Undefined(StalePointer));
          return;
        }
        defrts := defrts - {a};
      }
      out := Exit(Discard);
    }

    /** uip_nd6_ns_output; `src` and `dest` NULL are None. */
    method NsOutput(src: Option<Addr>, dest: Option<Addr>, tgt: Addr)
      requires buf.Length >= MIN_BUFSIZE
      modifies this, buf
      ensures var r := NdPackets.NsOutput(cfg, old(buf[..]), old(len), addrs, iface.reachableTime, src, dest, tgt, old(aroAt));
        buf[..] == r.p.b && len == r.p.len && State() == old(State()).(aroAt := r.aroAt)
    {
      var r := NdPackets.NsOutput(cfg, buf[..], len, addrs, iface.reachableTime, src, dest, tgt, aroAt);
      aroAt := r.aroAt;
      Store(r.p.b, r.p.len);
    }

    /** uip_nd6_rs_output. */
    method RsOutput()
      requires buf.Length >= MIN_BUFSIZE
      modifies this, buf
      ensures var r := NdPackets.RsOutput(cfg, old(buf[..]), addrs);
        buf[..] == r.b && len == r.len && State() == old(State())
    {
      var r := NdPackets.RsOutput(cfg, buf[..], addrs);
      Store(r.b, r.len);
    }

    /** uip_nd6_ra_output; `dest` NULL is None. */
    method RaOutput(dest: Option<Addr>)
      requires buf.Length >= MIN_BUFSIZE
      modifies this, buf
      ensures var r := NdPackets.RaOutput(cfg, old(buf[..]), addrs, iface, dest);
        buf[..] == r.b && len == r.len && State() == old(State())
    {
      var r := NdPackets.RaOutput(cfg, buf[..], addrs, iface, dest);
      Store(r.b, r.len);
    }
  }
}
