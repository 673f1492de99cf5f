/**
 * The Prefix Information option of an RA (RFC 4861 section 6.3.4, RFC 4862
 * section 5.5.3): what it does to the on-link prefix list and to the
 * autoconfigured addresses, and where the valid-lifetime rule departs from
 * RFC 4862.
 */
module Nd6PrefixProps {
  import opened Wire
  import opened Ds6
  import opened Nd6Config
  import opened NdPackets
  import opened Nd6State
  import opened Nd6Walk

  /** A prefix option a host or router acts on at all (uip-nd6.c:1135-1137). */
  predicate Considered(pi: PrefixInfo)
  {
    pi.valid >= pi.preferred && !IsLinkLocal(pi.prefix)
  }

  /** A preferred lifetime above the valid one, or a link-local prefix, makes the option ignored. */
  lemma PrefixIgnored(cfg: Config, s: St, pi: PrefixInfo)
    requires !Considered(pi)
    ensures RaPrefix(cfg, s, pi) == s
  {
  }

  lemma PrefixLookupAppend(ps: seq<PrefixEntry>, e: PrefixEntry, ip: Addr, len: byte)
    requires PrefixLookup(ps, ip, len).None? && e.len == len && PrefixMatches(ip, e.ip, len)
    ensures PrefixLookup(ps + [e], ip, len) == Some(|ps|)
  {
    var r := PrefixLookup(ps + [e], ip, len);
    assert (ps + [e])[|ps|] == e;
    assert forall j :: 0 <= j < |ps| ==> (ps + [e])[j] == ps[j];
  }

  /**
   * A new on-link prefix with a finite nonzero lifetime joins the list when
   * it has room, found by uip_ds6_prefix_lookup from then on, with that
   * lifetime; a router also keeps its flags and preferred lifetime to
   * advertise it.
   */
  lemma OnLinkAdds(cfg: Config, s: St, pi: PrefixInfo)
    requires PrefixLookup(s.prefixes, pi.prefix, pi.plen).None? && |s.prefixes| < cfg.caps.prefixes
    requires pi.valid != 0 && pi.valid != INFINITE_LIFETIME
    ensures var ps := OnLink(cfg, s, pi).prefixes; var n := |s.prefixes|;
      && |ps| == n + 1 && ps[..n] == s.prefixes && PrefixLookup(ps, pi.prefix, pi.plen) == Some(n)
      && ps[n].vlifetime == pi.valid && !ps[n].isInfinite && ps[n].advertise == cfg.router
      && (cfg.router ==> ps[n].flags == pi.flags && ps[n].plifetime == pi.preferred)
  {
    var ps := OnLink(cfg, s, pi).prefixes;
    PrefixLookupAppend(s.prefixes, ps[|s.prefixes|], pi.prefix, pi.plen);
  }

  /**
   * A new on-link prefix with a zero or an infinite lifetime is not added:
   * RFC 4861 section 6.3.4 asks for an infinite one to be added.
   */
  lemma OnLinkSkipsInfinite(cfg: Config, s: St, pi: PrefixInfo)
    requires PrefixLookup(s.prefixes, pi.prefix, pi.plen).None?
    requires pi.valid == 0 || pi.valid == INFINITE_LIFETIME
    ensures OnLink(cfg, s, pi) == s
  {
  }

  /**
   * A host updates a known prefix: a zero lifetime removes it, an infinite
   * one makes it infinite, any other becomes its lifetime.  Every other
   * entry is kept in order.
   */
  lemma OnLinkHostUpdates(cfg: Config, s: St, pi: PrefixInfo)
    requires !cfg.router && PrefixLookup(s.prefixes, pi.prefix, pi.plen).Some?
    ensures var i := PrefixLookup(s.prefixes, pi.prefix, pi.plen).value; var ps := OnLink(cfg, s, pi).prefixes;
      && (pi.valid == 0 ==> |ps| == |s.prefixes| - 1 && ps == s.prefixes[..i] + s.prefixes[i + 1..])
      && (pi.valid == INFINITE_LIFETIME ==> ps == s.prefixes[i := s.prefixes[i].(isInfinite := true)])
      && (pi.valid != 0 && pi.valid != INFINITE_LIFETIME ==>
            ps == s.prefixes[i := s.prefixes[i].(vlifetime := pi.valid, isInfinite := false)])
  {
  }

  /** A router leaves a known prefix as it is (uip-nd6.c:1159 is compiled out). */
  lemma OnLinkRouterKeeps(cfg: Config, s: St, pi: PrefixInfo)
    requires cfg.router && PrefixLookup(s.prefixes, pi.prefix, pi.plen).Some?
    ensures OnLink(cfg, s, pi) == s
  {
  }

  // ---- stateless address autoconfiguration ----

  /** A prefix option that forms or refreshes an address (uip-nd6.c:1183-1185). */
  predicate Forms(pi: PrefixInfo)
  {
    Considered(pi) && HasBit(pi.flags, RA_FLAG_AUTONOMOUS) && pi.valid != 0 && pi.plen == DEFAULT_PREFIX_LEN
  }

  lemma AddrLookupAppend(addrs: seq<AddrEntry>, e: AddrEntry)
    requires AddrLookup(addrs, e.ip).None?
    ensures AddrLookup(addrs + [e], e.ip) == Some(|addrs|)
  {
    assert (addrs + [e])[|addrs|] == e;
    assert forall j :: 0 <= j < |addrs| ==> (addrs + [e])[j] == addrs[j];
  }

  /** The address a prefix forms: the prefix with the interface identifier of uip_lladdr. */
  function Formed(cfg: Config, pi: PrefixInfo): Addr
  {
    WithIid(pi.prefix, cfg.myLl)
  }

  lemma OnLinkKeepsAddrs(cfg: Config, s: St, pi: PrefixInfo)
    ensures OnLink(cfg, s, pi).addrs == s.addrs
  {
  }

  /**
   * A prefix that forms a new address adds it, when the list has room, as
   * an autoconfigured address found by uip_ds6_addr_lookup: TENTATIVE when
   * duplicate address detection runs, with the advertised lifetime, or
   * infinite.
   */
  lemma AutonomousForms(cfg: Config, s: St, pi: PrefixInfo)
    requires Forms(pi) && AddrLookup(s.addrs, Formed(cfg, pi)).None? && |s.addrs| < cfg.caps.addrs
    ensures var addrs := RaPrefix(cfg, s, pi).addrs; var n := |s.addrs|;
      && |addrs| == n + 1 && addrs[..n] == s.addrs && AddrLookup(addrs, Formed(cfg, pi)) == Some(n)
      && addrs[n].kind == Autoconf && (addrs[n].state == Tentative <==> cfg.dad)
      && (addrs[n].isInfinite <==> pi.valid == INFINITE_LIFETIME)
      && (pi.valid != INFINITE_LIFETIME ==> addrs[n].vlifetime == pi.valid)
  {
    var s1 := if HasBit(pi.flags, RA_FLAG_ONLINK) then OnLink(cfg, s, pi) else s;
    OnLinkKeepsAddrs(cfg, s, pi);
    var addrs := RaPrefix(cfg, s, pi).addrs;
    AddrLookupAppend(s.addrs, addrs[|s.addrs|]);
  }

  /**
   * A prefix that refreshes an autoconfigured address of ours sets its
   * valid lifetime by AutoconfLifetime, or makes it infinite; nothing else
   * in the list changes.
   */
  lemma AutonomousRefreshes(cfg: Config, s: St, pi: PrefixInfo)
    requires Forms(pi) && AddrLookup(s.addrs, Formed(cfg, pi)).Some?
    requires s.addrs[AddrLookup(s.addrs, Formed(cfg, pi)).value].kind == Autoconf
    ensures var i := AddrLookup(s.addrs, Formed(cfg, pi)).value; var a := s.addrs[i];
      RaPrefix(cfg, s, pi).addrs == s.addrs[i := if pi.valid == INFINITE_LIFETIME then a.(isInfinite := true)
                                                 else a.(vlifetime := AutoconfLifetime(pi.valid, a.vlifetime), isInfinite := false)]
  {
    OnLinkKeepsAddrs(cfg, s, pi);
  }

  /**
   * A prefix whose address we already hold as a manual or DHCP address adds
   * a second, autoconfigured entry for the same address when the list has
   * room: uip_ds6_addr_add does not look for an existing one.
   */
  lemma AutonomousDuplicates(cfg: Config, s: St, pi: PrefixInfo)
    requires Forms(pi) && AddrLookup(s.addrs, Formed(cfg, pi)).Some? && |s.addrs| < cfg.caps.addrs
    requires s.addrs[AddrLookup(s.addrs, Formed(cfg, pi)).value].kind != Autoconf
    ensures var addrs := RaPrefix(cfg, s, pi).addrs; var i := AddrLookup(s.addrs, Formed(cfg, pi)).value;
      && |addrs| == |s.addrs| + 1 && addrs[i].ip == addrs[|s.addrs|].ip == Formed(cfg, pi)
      && addrs[i].kind != Autoconf && addrs[|s.addrs|].kind == Autoconf
  {
    OnLinkKeepsAddrs(cfg, s, pi);
  }

  // ---- the valid lifetime of RFC 4862 section 5.5.3(e) ----

  const TWO_HOURS := 2 * 60 * 60

  /**
   * The rule of RFC 4862 section 5.5.3(e) for an unauthenticated RA: the
   * advertised lifetime if it exceeds two hours or the time remaining;
   * otherwise the remaining time is kept if it is at most two hours, and
   * reset to two hours if it is more.
   */
  function Rfc4862Lifetime(valid: nat, remaining: nat): nat
  {
    if valid > TWO_HOURS || valid > remaining then valid
    else if remaining <= TWO_HOURS then remaining
    else TWO_HOURS
  }

  /**
   * What the two-hour rule guards: an advertisement never cuts the
   * remaining lifetime below two hours, nor below what remains when that is
   * less.  ra_input keeps this guarantee.
   */
  lemma AutoconfNeverShortens(valid: nat, remaining: nat)
    ensures AutoconfLifetime(valid, remaining) >= (if remaining < TWO_HOURS then remaining else TWO_HOURS)
    ensures Rfc4862Lifetime(valid, remaining) >= (if remaining < TWO_HOURS then remaining else TWO_HOURS)
  {
  }

  /**
   * ra_input agrees with RFC 4862 except when less than two hours remain and
   * the advertised lifetime is no longer than that: the RFC ignores the
   * option, ra_input extends the lifetime to two hours.
   */
  lemma AutoconfLifetimeVsRfc4862(valid: nat, remaining: nat)
    ensures AutoconfLifetime(valid, remaining) == Rfc4862Lifetime(valid, remaining)
            <==> valid > TWO_HOURS || valid > remaining || remaining >= TWO_HOURS
    ensures AutoconfLifetime(valid, remaining) >= Rfc4862Lifetime(valid, remaining)
  {
  }

  /** An address with ten minutes left, advertised for one: RFC 4862 keeps ten minutes, ra_input sets two hours. */
  lemma AutoconfLifetimeExtends()
    ensures Rfc4862Lifetime(60, 600) == 600 && AutoconfLifetime(60, 600) == TWO_HOURS
  {
  }
}
