/**
 * What the ND engine keeps between calls and what one call returns: the
 * tables it updates, the static pointers of uip-nd6.c (nd6_opt_llao,
 * nd6_opt_aro, nbr, defrt) and the calls it makes into modules outside this
 * model, recorded as events.
 */
module Nd6State {
  import opened Wire
  import opened Ds6

  /** A call into a module outside this model. */
  datatype Event =
    | DadFailed(ip: Addr)   // uip_ds6_dad_failed
    | SolicitedRa           // uip_ds6_send_ra_sollicited

  /**
   * Where the source's behaviour is undefined: a write through NULL, a read
   * of an uninitialised local, a read past uip_buf, or a use of an entry
   * that was removed.
   */
  datatype Site = NullDeref | UninitPointer | UninitFlags | BeyondBuffer | StalePointer

  /**
   * How a handler leaves uip_buf and uip_len: `Discard` sets uip_len to 0,
   * `Reply` leaves a message built in place, `Forward` returns with the
   * received packet and uip_len untouched.
   */
  datatype Outcome = Discard | Reply | Forward | Undefined(site: Site)

  /**
   * The engine's state.  The pointers nd6_opt_llao and nd6_opt_aro are
   * buffer indices; nbr and defrt are the addresses of the entries they
   * point to.
   */
  datatype St = St(
    nbrs: NbrTable,
    addrs: seq<AddrEntry>,
    prefixes: seq<PrefixEntry>,
    defrts: DefrtTable,
    iface: Iface,
    llaoAt: Option<nat>,
    aroAt: Option<nat>,
    nbrRef: Option<Addr>,
    defrtRef: Option<Addr>,
    events: seq<Event>)

  /** The tables and interface parameters, without the pointers and the events. */
  predicate SameTables(s: St, t: St)
  {
    s.nbrs == t.nbrs && s.addrs == t.addrs && s.prefixes == t.prefixes && s.defrts == t.defrts && s.iface == t.iface
  }

  /** Where an option handler leaves a walk: carry on, or leave the handler. */
  datatype Flow = Go(s: St) | Halt(s: St, out: Outcome)

  /** The result of one handler call: the state, uip_buf, uip_len and the outcome. */
  datatype Step = Step(s: St, b: seq<byte>, len: nat, out: Outcome)

  /** Leaving a handler: the `discard` label sets uip_len to 0; every other exit keeps it. */
  function Leave(s: St, b: seq<byte>, len: nat, out: Outcome): (r: Step)
    ensures r.s == s && r.b == b && r.out == out
    ensures r.len == (if out == Discard then 0 else len)
  {
    Step(s, b, if out == Discard then 0 else len, out)
  }

  /** uip_ds6_is_my_addr. */
  predicate IsMyAddr(addrs: seq<AddrEntry>, ip: Addr)
  {
    AddrLookup(addrs, ip).Some?
  }

  /** The address a static pointer lookup yields: the key if present, NULL otherwise. */
  function Lookup<V>(m: map<Addr, V>, ip: Addr): (r: Option<Addr>)
    ensures r.Some? <==> ip in m
    ensures r.Some? ==> r.value == ip
  {
    if ip in m then Some(ip) else None
  }
}
