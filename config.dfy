/**
 * The build-time and platform parameters of the ND engine.  Everything the
 * engine reaches outside uip-nd6.c and that is not a table is a parameter
 * here: the link-layer address, the checksum routine and source address
 * selection.
 */
module Nd6Config {
  import opened Wire
  import opened Ds6

  /** UIP_ND6_ENGINE: classic RFC 4861, 6LoWPAN-ND (RFC 6775), or RPL. */
  datatype Engine = Classic | SixLo | Rpl

  type Bytes2 = s: seq<byte> | |s| == 2 witness [0, 0]

  datatype Config = Config(
    engine: Engine,
    /**
     * The guard at uip-nd6.c:409 compares the engine with an identifier that
     * no header defines, which the preprocessor reads as 0: it holds exactly
     * when the selected engine's numeric value is 0.  This field names the
     * engine whose value is 0, if any (the defining header is not part of
     * this model).
     */
    zeroEngine: Option<Engine>,
    /** UIP_CONF_ROUTER */
    router: bool,
    /** UIP_ND6_DEF_MAXDADNS > 0 */
    dad: bool,
    /** uip_lladdr */
    myLl: LlAddr,
    /** The 16 bytes a copy from a NULL address reads (see uip-nd6.c:424, 1379). */
    nullTarget: Addr,
    /** UIP_ND6_NS_REG_TIMER, seconds */
    nsRegTimer: nat,
    /** UIP_ND6_ROUTER_LIFETIME, seconds */
    routerLifetime: nat,
    /** UIP_ND6_M_FLAG and UIP_ND6_O_FLAG */
    mFlag: bool,
    oFlag: bool,
    caps: Caps,
    /** uip_icmp6chksum: the two bytes it returns for a buffer and uip_len. */
    checksum: (seq<byte>, nat) -> Bytes2,
    /** uip_ds6_select_src: a source for a destination, or :: when none fits. */
    selectSrc: (seq<AddrEntry>, Addr) -> Addr)

  /** The preprocessor guard of uip-nd6.c:409. */
  predicate Guard409(cfg: Config)
  {
    cfg.zeroEngine == Some(cfg.engine)
  }
}
