/**
 * The data structures the ND engine reads and updates: the neighbor cache,
 * the interface address list, the on-link prefix list, the default-router
 * list and the interface parameters.  Their storage (uip-ds6.c,
 * uip-ds6-nbr.c, nbr-table.c) is not part of this model: each table is an
 * abstract bounded collection with the operations the engine calls.
 */
module Ds6 {
  import opened Wire

  datatype Option<T> = None | Some(value: T)

  datatype NbrState = Incomplete | Reachable | Stale | Delay | Probe | GarbageCollectable

  /** The registration state of a 6LoWPAN-ND neighbor (RFC 6775 section 6.5). */
  datatype RegState = RegNone | RegToBeRegistered | RegRegistered | RegToBeUnregistered

  /**
   * One neighbor cache entry.  A timer is the interval last given to
   * stimer_set; `reachable` and `sendns` are in seconds.
   */
  datatype Nbr = Nbr(ll: LlAddr, state: NbrState, isRouter: bool, nscount: nat,
                     reg: RegState, reachable: nat, sendns: nat)

  /** The neighbor cache, keyed by IPv6 address, holding at most `cap` entries. */
  type NbrTable = map<Addr, Nbr>

  /**
   * uip_ds6_nbr_add: a new entry with both timers expired and nscount 0;
   * NULL (None) when the cache is full.
   */
  function NbrAdd(t: NbrTable, cap: nat, ip: Addr, ll: LlAddr, isRouter: bool, state: NbrState): (r: Option<NbrTable>)
    ensures r.None? <==> ip !in t && |t| >= cap
    ensures r.Some? ==> ip in r.value && r.value[ip] == Nbr(ll, state, isRouter, 0, RegNone, 0, 0)
    ensures r.Some? ==> forall a :: a in t && a != ip ==> a in r.value && r.value[a] == t[a]
    ensures r.Some? ==> r.value.Keys == t.Keys + {ip} && |r.value| <= (if |t| < cap then cap else |t|)
  {
    if ip !in t && |t| >= cap then None
    else Some(t[ip := Nbr(ll, state, false, 0, RegNone, 0, 0).(isRouter := isRouter)])
  }

  /** uip_ds6_nbr_rm. */
  function NbrRm(t: NbrTable, ip: Addr): (r: NbrTable)
    ensures ip !in r && r.Keys == t.Keys - {ip}
    ensures forall a :: a in r ==> r[a] == t[a]
  {
    t - {ip}
  }

  // ---- interface addresses ----

  datatype AddrState = Tentative | Preferred | Deprecated
  datatype AddrKind = Autoconf | Manual | Dhcp

  /** `vlifetime` is the valid-lifetime timer, read as the time remaining. */
  datatype AddrEntry = AddrEntry(ip: Addr, state: AddrState, kind: AddrKind, vlifetime: nat, isInfinite: bool)

  /** uip_ds6_addr_lookup: the first used entry holding `ip`. */
  function AddrLookup(addrs: seq<AddrEntry>, ip: Addr): (r: Option<nat>)
    ensures r.Some? ==> r.value < |addrs| && addrs[r.value].ip == ip
    ensures r.Some? ==> forall j :: 0 <= j < r.value ==> addrs[j].ip != ip
    ensures r.None? ==> forall j :: 0 <= j < |addrs| ==> addrs[j].ip != ip
  {
    if |addrs| == 0 then None
    else if addrs[0].ip == ip then Some(0)
    else match AddrLookup(addrs[1..], ip)
      case None => None
      case Some(i) => Some(i + 1)
  }

  /**
   * uip_ds6_addr_add: a new entry, TENTATIVE when duplicate address
   * detection runs and PREFERRED otherwise; a lifetime of 0 means infinite.
   * A full list is left unchanged.
   */
  function AddrAdd(addrs: seq<AddrEntry>, cap: nat, ip: Addr, vlifetime: nat, kind: AddrKind, dad: bool): (r: seq<AddrEntry>)
    ensures |addrs| >= cap ==> r == addrs
    ensures |addrs| < cap ==> r == addrs + [AddrEntry(ip, if dad then Tentative else Preferred, kind, vlifetime, vlifetime == 0)]
  {
    if |addrs| >= cap then addrs
    else addrs + [AddrEntry(ip, if dad then Tentative else Preferred, kind, vlifetime, vlifetime == 0)]
  }

  /** uip_ds6_addr_rm; a NULL entry is ignored. */
  function AddrRm(addrs: seq<AddrEntry>, i: Option<nat>): (r: seq<AddrEntry>)
    requires i.Some? ==> i.value < |addrs|
    ensures i.None? ==> r == addrs
    ensures i.Some? ==> |r| == |addrs| - 1 && r == addrs[..i.value] + addrs[i.value + 1..]
  {
    if i.None? then addrs else addrs[..i.value] + addrs[i.value + 1..]
  }

  // ---- on-link prefixes ----

  /** A prefix list entry; `advertise`, `flags` and `plifetime` exist only in a router build. */
  datatype PrefixEntry = PrefixEntry(ip: Addr, len: byte, vlifetime: nat, isInfinite: bool,
                                     advertise: bool, flags: byte, plifetime: nat)

  /** uip_ds6_prefix_lookup: the first entry of the same length whose leading bytes match. */
  function PrefixLookup(ps: seq<PrefixEntry>, ip: Addr, len: byte): (r: Option<nat>)
    ensures r.Some? ==> r.value < |ps| && ps[r.value].len == len && PrefixMatches(ip, ps[r.value].ip, len)
    ensures r.Some? ==> forall j :: 0 <= j < r.value ==> !(ps[j].len == len && PrefixMatches(ip, ps[j].ip, len))
    ensures r.None? ==> forall j :: 0 <= j < |ps| ==> !(ps[j].len == len && PrefixMatches(ip, ps[j].ip, len))
  {
    if |ps| == 0 then None
    else if ps[0].len == len && PrefixMatches(ip, ps[0].ip, len) then Some(0)
    else match PrefixLookup(ps[1..], ip, len)
      case None => None
      case Some(i) => Some(i + 1)
  }

  /** uip_ds6_prefix_add; a full list is left unchanged. */
  function PrefixAdd(ps: seq<PrefixEntry>, cap: nat, e: PrefixEntry): (r: seq<PrefixEntry>)
    ensures |ps| >= cap ==> r == ps
    ensures |ps| < cap ==> r == ps + [e]
  {
    if |ps| >= cap then ps else ps + [e]
  }

  // ---- default routers ----

  /** The default-router list: router address to router lifetime in seconds. */
  type DefrtTable = map<Addr, nat>

  /** uip_ds6_defrt_add; a full list is left unchanged. */
  function DefrtAdd(t: DefrtTable, cap: nat, ip: Addr, lifetime: nat): (r: DefrtTable)
    ensures ip !in t && |t| >= cap ==> r == t
    ensures !(ip !in t && |t| >= cap) ==> r == t[ip := lifetime]
  {
    if ip !in t && |t| >= cap then t else t[ip := lifetime]
  }

  // ---- the interface ----

  /**
   * uip_ds6_if: hop limit, base and computed reachable time (ms), retransmission
   * timer (ms) and link MTU.
   */
  datatype Iface = Iface(curHopLimit: byte, baseReachable: nat, reachableTime: nat, retransTimer: nat, linkMtu: nat)

  /** Table sizes (UIP_DS6_NBR_NB, UIP_DS6_ADDR_NB, UIP_DS6_PREFIX_NB, UIP_DS6_DEFRT_NB). */
  datatype Caps = Caps(nbrs: nat, addrs: nat, prefixes: nat, defrts: nat)
}
