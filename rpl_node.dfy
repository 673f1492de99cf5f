/**
 * The state of rpl.c as one object: the static `mode`, the route list of
 * uip-ds6-route with its RPL state, instance_table, the default instance,
 * and the sourceinfo list of the RPL engine.  Each function of rpl.c that
 * changes this state is a method whose loops are proved against the
 * functions of module Rpl.
 */
module RplNode {
  import opened Wire
  import opened Ds6
  import opened Nd6Config
  import opened Rpl

  /**
   * One step of the neighbor loop over the routes: the route at `n` is
   * either removed (it goes through the neighbor) or kept, and the split of
   * the routes seen so far grows accordingly.
   */
  lemma DropStep(routes: seq<Route>, n: nat, rs: seq<Route>, j: nat, ip: Addr)
    requires n < |routes| && rs == Keep(routes[..n], NotViaNbr(ip)) + routes[n..]
    requires j == |Keep(routes[..n], NotViaNbr(ip))|
    ensures j < |rs| && rs[j] == routes[n]
    ensures routes[n].nexthop == ip ==>
      && RemoveAt(rs, j) == Keep(routes[..n + 1], NotViaNbr(ip)) + routes[n + 1..]
      && j == |Keep(routes[..n + 1], NotViaNbr(ip))|
      && Keep(routes[..n + 1], ViaNbr(ip)) == Keep(routes[..n], ViaNbr(ip)) + [routes[n]]
    ensures routes[n].nexthop != ip ==>
      && rs == Keep(routes[..n + 1], NotViaNbr(ip)) + routes[n + 1..]
      && j + 1 == |Keep(routes[..n + 1], NotViaNbr(ip))|
      && Keep(routes[..n + 1], ViaNbr(ip)) == Keep(routes[..n], ViaNbr(ip))
  {
    assert routes[..n + 1] == routes[..n] + [routes[n]];
    assert routes[n..] == [routes[n]] + routes[n + 1..];
    KeepAppend(routes[..n], routes[n], NotViaNbr(ip));
    KeepAppend(routes[..n], routes[n], ViaNbr(ip));
  }

  /** The calls for the removed routes grow by one call per removed route. */
  lemma LossEventsSnoc(gw: bool, parent: Option<Addr>, ip: Addr, g: seq<Route>, r: Route)
    ensures LossEvents(gw, parent, ip, g + [r]) == LossEvents(gw, parent, ip, g) + [LossEvent(gw, parent, ip, r)]
  {
    LossEventsAppend(gw, parent, ip, g, [r]);
  }

  /** The build options rpl.c depends on. */
  datatype RplConfig = RplConfig(
    /** UIP_ND6_ENGINE: the sourceinfo list and the route removal of rpl.c:371-393 exist for Rpl only. */
    engine: Engine,
    /** UIP_CONF_GW == 1 */
    gw: bool,
    /**
     * Whether list_remove (lib/list.c, not part of this model) clears the
     * removed item's next pointer, which the loops of rpl.c:130-133 and
     * rpl.c:377-388 read after removing the item.
     */
    clears: bool,
    /** UIP_DS6_ROUTE_NB */
    routeCap: nat)

  class Node {
    const cfg: RplConfig
    var mode: Mode
    /** The routes of uip_ds6_route_head, in list order. */
    var routes: seq<Route>
    /** default_instance; None is NULL. */
    var defaultInstance: Option<DefaultInstance>
    /** instance_table, RPL_MAX_INSTANCES entries. */
    const instances: array<Instance>
    /** The node IDs of rpl_sourceinfo_list, head first. */
    var sources: seq<NodeId>
    /** The calls made into modules outside this model, oldest first. */
    var events: seq<RplEvent>

    /** The static initial values, with rpl_init's NULL default instance and empty sourceinfo list. */
    constructor (cfg: RplConfig, maxInstances: nat)
      ensures this.cfg == cfg && mode == Mesh && routes == [] && defaultInstance == None
      ensures sources == [] && events == []
      ensures fresh(instances) && instances.Length == maxInstances
      ensures forall k :: 0 <= k < maxInstances ==> !instances[k].used
    {
      this.cfg := cfg;
      mode := Mesh;
      routes := [];
      defaultInstance := None;
      sources := [];
      events := [];
      instances := new Instance[maxInstances](_ => Instance(false, false, map[]));
    }

    /**
     * rpl_sourceinfo_list_add, as SourceAdd says: the walk from the head
     * returns on a known ID; otherwise a slot is taken and the ID appended,
     * and with no slot left the ID is written through NULL.
     */
    method SourceinfoAdd(id: NodeId) returns (r: SourceAdded)
      requires cfg.engine == Rpl
      modifies this
      ensures (r, sources) == SourceAdd(old(sources), id)
      ensures mode == old(mode) && routes == old(routes) && defaultInstance == old(defaultInstance)
      ensures events == old(events)
    {
      var ids := sources;
      var i := 0;
      while i < |ids|
        invariant 0 <= i <= |ids|
        invariant forall j :: 0 <= j < i ==> ids[j] != id
      {
        if ids[i] == id {
          return Duplicate;
        }
        i := i + 1;
      }
      if |ids| >= SOURCEINFO_SLOTS {
        return NullWrite;
      }
      sources := ids + [id];
      return AddedSource;
    }

    /**
     * rpl_sourceinfo_list_purge, as SourcePurge says: it removes the head
     * and then follows the removed item's next pointer, which list_remove
     * may have cleared.
     */
    method SourceinfoPurge()
      requires cfg.engine == Rpl
      modifies this
      ensures sources == SourcePurge(old(sources), cfg.clears)
      ensures mode == old(mode) && routes == old(routes) && defaultInstance == old(defaultInstance)
      ensures events == old(events)
    {
      var ids := sources;
      var more := ids != [];
      while more
        invariant more ==> ids != [] && (cfg.clears ==> ids == old(sources))
        invariant !more ==> ids == SourcePurge(old(sources), cfg.clears)
        decreases |ids|
      {
        ids := ids[1..];
        more := !cfg.clears && ids != [];
      }
      sources := ids;
    }

    /** rpl_get_mode. */
    function GetMode(): (m: Mode)
      reads this
      ensures m == mode
    {
      mode
    }

    /**
     * rpl_set_mode: the mode becomes `m` whatever it was, the old one is
     * returned, and a DAO is scheduled or cancelled as ModeEvents says.
     */
    method SetMode(m: Mode) returns (oldmode: Mode)
      modifies this
      ensures oldmode == old(GetMode()) && GetMode() == m
      ensures events == old(events) + ModeEvents(m, defaultInstance.Some?)
      ensures routes == old(routes) && sources == old(sources) && defaultInstance == old(defaultInstance)
    {
      oldmode := mode;
      if m == Mesh {
        mode := m;
        if defaultInstance.Some? {
          events := events + [ScheduleDao];
        }
      } else if m == Feather {
        mode := m;
        if defaultInstance.Some? {
          events := events + [CancelDao];
        }
      } else {
        mode := m;
      }
    }

    /**
     * rpl_purge_routes, as Purge says.  The default instance is
     * dereferenced once a route dies, so it must exist then.
     */
    method PurgeRoutes()
      requires defaultInstance.Some? || FirstWhere(Decremented(routes), Dead).None?
      modifies this
      ensures mode == old(mode) && sources == old(sources) && defaultInstance == old(defaultInstance)
      ensures routes == Purge(old(routes), defaultInstance).routes
      ensures events == old(events) + Purge(old(routes), defaultInstance).events
    {
      // First pass, decrement lifetime
      var rs := DecrementLifetimes(routes);
      ghost var d := rs;
      // Second pass, remove dead routes
      var i := 0;
      while i < |rs|
        invariant 0 <= i <= |rs|
        invariant forall k :: 0 <= k < i ==> !Dead(rs[k])
        invariant Keep(rs, Alive) == Keep(d, Alive)
        invariant rs != d ==> defaultInstance.Some? && IsRoot(defaultInstance.value) && FirstWhere(d, Dead).Some?
        invariant unchanged(this)
        decreases |rs|, |rs| - i
      {
        if rs[i].lifetime < 1 {
          var prefix := rs[i].prefix;
          assert FirstWhere(d, Dead).Some?;
          KeepRemove(rs, i, Alive);
          rs := RemoveAt(rs, i);
          var dag := defaultInstance.value;
          if !IsRoot(dag) {
            routes := rs;
            events := events + [NoPathDao(dag.preferredParent, prefix)];
            return;
          }
          i := 0;
        } else {
          i := i + 1;
        }
      }
      KeepAll(rs, Alive);
      routes := rs;
    }

    /**
     * The loop of rpl_remove_routes and rpl_remove_routes_by_nexthop:
     * remove the first route `keep` rejects and start again from the head.
     */
    method RemoveWhere(keep: Route -> bool)
      modifies this
      ensures routes == Keep(old(routes), keep)
      ensures events == old(events) && mode == old(mode) && sources == old(sources)
      ensures defaultInstance == old(defaultInstance)
    {
      var rs := routes;
      var i := 0;
      while i < |rs|
        invariant 0 <= i <= |rs|
        invariant forall k :: 0 <= k < i ==> keep(rs[k])
        invariant Keep(rs, keep) == Keep(routes, keep)
        invariant unchanged(this)
        decreases |rs|, |rs| - i
      {
        if !keep(rs[i]) {
          KeepRemove(rs, i, keep);
          rs := RemoveAt(rs, i);
          i := 0;
        } else {
          i := i + 1;
        }
      }
      KeepAll(rs, keep);
      routes := rs;
    }

    /** rpl_remove_routes: the routes of `dag` go, the others stay in order. */
    method RemoveRoutes(dag: nat)
      modifies this
      ensures routes == Keep(old(routes), OtherDag(dag))
      ensures events == old(events) && mode == old(mode) && sources == old(sources)
      ensures defaultInstance == old(defaultInstance)
    {
      RemoveWhere(OtherDag(dag));
    }

    /** rpl_remove_routes_by_nexthop: the routes of `dag` through `nh` go, the others stay in order. */
    method RemoveRoutesByNexthop(nh: Addr, dag: nat)
      modifies this
      ensures routes == Keep(old(routes), OtherHopOrDag(nh, dag))
      ensures events == old(events) && mode == old(mode) && sources == old(sources)
      ensures defaultInstance == old(defaultInstance)
    {
      RemoveWhere(OtherHopOrDag(nh, dag));
    }

    /**
     * rpl_add_route: None (NULL) with the list unchanged when
     * uip_ds6_route_add finds no room; otherwise the new route, at the
     * head, with the DAG, the default lifetime and RPL_ROUTE_FROM_INTERNAL.
     */
    method AddRoute(dag: Dag, prefix: Addr, plen: nat, nh: Addr) returns (rep: Option<Route>)
      modifies this
      ensures rep.None? <==> AddedRoutes(old(routes), cfg.routeCap, dag, prefix, plen, nh).None?
      ensures rep.None? ==> routes == old(routes)
      ensures rep.Some? ==> routes == AddedRoutes(old(routes), cfg.routeCap, dag, prefix, plen, nh).value
      ensures rep.Some? ==> rep.value == routes[0] == Route(prefix, plen, nh, dag.id, RplLifetime(dag), Internal)
      ensures events == old(events) && mode == old(mode) && sources == old(sources)
      ensures defaultInstance == old(defaultInstance)
    {
      var added := RouteAdd(routes, cfg.routeCap, prefix, plen, nh);
      if added.None? {
        return None;
      }
      var rs := added.value;
      rs := rs[0 := rs[0].(dag := dag.id, lifetime := RplLifetime(dag), learned := Internal)];
      routes := rs;
      rep := Some(rs[0]);
    }

    /**
     * rpl_link_neighbor_callback: in every used instance, the parent at the
     * neighbor's link-local address is flagged UPDATED and, when the
     * objective function has a link callback, that callback is made and the
     * parent's last transmission time becomes `now` (clock_time()).
     */
    method LinkNeighborCallback(addr: LlAddr, status: int, numtx: int, now: nat)
      modifies this, instances
      ensures forall k :: 0 <= k < instances.Length ==> instances[k] == LinkUpdate(old(instances[k]), NeighborIp(addr), now)
      ensures events == old(events) + LinkEvents(old(instances[..]), NeighborIp(addr), status, numtx)
      ensures routes == old(routes) && mode == old(mode) && sources == old(sources)
      ensures defaultInstance == old(defaultInstance)
    {
      var ip := NeighborIp(addr);
      ghost var insts := instances[..];
      var calls: seq<RplEvent> := [];
      var k := 0;
      while k < instances.Length
        invariant 0 <= k <= instances.Length
        invariant forall j :: 0 <= j < k ==> instances[j] == LinkUpdate(old(instances[j]), ip, now)
        invariant forall j :: k <= j < instances.Length ==> instances[j] == old(instances[j])
        invariant calls == LinkEvents(insts[..k], ip, status, numtx)
        invariant unchanged(this)
      {
        var inst := instances[k];
        assert insts[..k + 1][..k] == insts[..k];
        if inst.used && ip in inst.parents {
          var p := inst.parents[ip].(updated := true);
          if inst.linkCallback {
            calls := calls + [LinkCallback(ip, status, numtx)];
            p := p.(lastTx := now);
          }
          instances[k] := inst.(parents := inst.parents[ip := p]);
        }
        k := k + 1;
      }
      events := events + calls;
      assert insts[..k] == insts;
    }

    /**
     * rpl_ipv6_neighbor_callback: in every used instance the parent at the
     * neighbor's address gets INFINITE_RANK and the UPDATED flag, and in the
     * RPL engine the instance then runs the neighbor_route loop, as
     * DropPasses says.  A No-Path DAO dereferences the default instance, so
     * one must exist whenever a route through the neighbor is reached.
     */
    method Ipv6NeighborCallback(ip: Addr)
      requires cfg.engine != Rpl || cfg.gw || defaultInstance.Some?
               || (forall k :: 0 <= k < instances.Length ==> !instances[k].used)
               || forall r :: r in routes ==> r.nexthop != ip
      modifies this, instances
      ensures mode == old(mode) && sources == old(sources) && defaultInstance == old(defaultInstance)
      ensures forall k :: 0 <= k < instances.Length ==> instances[k] == Unreachable(old(instances[k]), ip)
      ensures var p := DropPasses(old(routes), ip, cfg.clears, if cfg.engine == Rpl then UsedCount(old(instances[..])) else 0);
        routes == p.rest && events == old(events) + LossEvents(cfg.gw, ParentOf(defaultInstance), ip, p.gone)
    {
      ghost var insts := instances[..];
      ghost var r0 := routes;
      var di := defaultInstance;
      ghost var m := 0;
      ghost var clean := cfg.engine == Rpl && !cfg.gw && di.None? && exists j :: 0 <= j < |insts| && insts[j].used;
      var rs := routes;
      var calls: seq<RplEvent> := [];
      var k := 0;
      while k < instances.Length
        invariant 0 <= k <= instances.Length
        invariant forall j :: 0 <= j < k ==> instances[j] == Unreachable(old(instances[j]), ip)
        invariant forall j :: k <= j < instances.Length ==> instances[j] == old(instances[j])
        invariant m == if cfg.engine == Rpl then UsedCount(insts[..k]) else 0
        invariant AfterPasses(r0, ip, cfg.clears, cfg.gw, di, m, rs, calls)
        invariant clean ==> forall r :: r in rs ==> r.nexthop != ip
        invariant unchanged(this)
      {
        UsedCountStep(insts, k);
        var inst := instances[k];
        // rpl_find_parent_any_dag, then the rank and flag of the parent found
        instances[k] := Unreachable(inst, ip);
        if inst.used && cfg.engine == Rpl {
          rs, calls := NeighborPass(r0, m, rs, calls, ip, cfg.clears, cfg.gw, di);
          m := m + 1;
        }
        k := k + 1;
      }
      assert insts[..k] == insts;
      routes := rs;
      events := events + calls;
    }
  }

  /**
   * The neighbor_route loop of rpl_ipv6_neighbor_callback for one
   * instance, as DropPass says: the routes it leaves and the calls it
   * makes, a No-Path DAO or gw_nbr_delete before each removal.  A No-Path
   * DAO dereferences the default instance.
   */
  method NeighborRoutes(rs: seq<Route>, ip: Addr, clears: bool, gw: bool, di: Option<DefaultInstance>)
    returns (rest: seq<Route>, calls: seq<RplEvent>)
    requires gw || di.Some? || forall r :: r in rs ==> r.nexthop != ip
    ensures rest == DropPass(rs, ip, clears).rest
    ensures calls == LossEvents(gw, ParentOf(di), ip, DropPass(rs, ip, clears).gone)
  {
    if clears {
      rest, calls := DropFirstRoute(rs, ip, gw, di);
    } else {
      rest, calls := DropEveryRoute(rs, ip, gw, di);
    }
  }

  /** The first loop of rpl_purge_routes: every nonzero lifetime goes down by one. */
  method DecrementLifetimes(routes: seq<Route>) returns (rs: seq<Route>)
    ensures rs == Decremented(routes)
  {
    rs := routes;
    var i := 0;
    while i < |rs|
      invariant 0 <= i <= |rs| == |routes|
      invariant forall k :: 0 <= k < i ==> rs[k] == Dec(routes[k])
      invariant forall k :: i <= k < |rs| ==> rs[k] == routes[k]
    {
      if rs[i].lifetime >= 1 {
        rs := rs[i := rs[i].(lifetime := rs[i].lifetime - 1)];
      }
      i := i + 1;
    }
  }

  /** The routes left and the calls made by `m` passes of the neighbor-loss loop over `r0`. */
  ghost predicate AfterPasses(r0: seq<Route>, ip: Addr, clears: bool, gw: bool, di: Option<DefaultInstance>,
                              m: nat, rs: seq<Route>, calls: seq<RplEvent>)
  {
    var p := DropPasses(r0, ip, clears, m);
    rs == p.rest && calls == LossEvents(gw, ParentOf(di), ip, p.gone)
  }

  /**
   * One more pass of the neighbor-loss loop over the routes left by m
   * passes, with the calls it makes appended to those made so far.
   */
  method NeighborPass(ghost r0: seq<Route>, ghost m: nat, rs: seq<Route>, calls: seq<RplEvent>,
                      ip: Addr, clears: bool, gw: bool, di: Option<DefaultInstance>)
    returns (rs': seq<Route>, calls': seq<RplEvent>)
    requires gw || di.Some? || forall r :: r in rs ==> r.nexthop != ip
    requires AfterPasses(r0, ip, clears, gw, di, m, rs, calls)
    ensures AfterPasses(r0, ip, clears, gw, di, m + 1, rs', calls')
    ensures forall r :: r in rs' ==> r in rs
  {
    var more;
    rs', more := NeighborRoutes(rs, ip, clears, gw, di);
    DropPassStep(r0, ip, clears, m, gw, ParentOf(di), rs, calls, rs', more);
    calls' := calls + more;
  }

  /**
   * The loop when list_remove clears the next pointer: it removes the first
   * route through the neighbor and stops.
   */
  method DropFirstRoute(rs: seq<Route>, ip: Addr, gw: bool, di: Option<DefaultInstance>)
    returns (rest: seq<Route>, calls: seq<RplEvent>)
    requires gw || di.Some? || forall r :: r in rs ==> r.nexthop != ip
    ensures rest == DropPass(rs, ip, true).rest
    ensures calls == LossEvents(gw, ParentOf(di), ip, DropPass(rs, ip, true).gone)
  {
    var j := 0;
    while j < |rs| && rs[j].nexthop != ip
      invariant 0 <= j <= |rs| && forall k :: 0 <= k < j ==> !ViaNbr(ip)(rs[k])
    {
      j := j + 1;
    }
    if j < |rs| {
      calls := [LossEvent(gw, ParentOf(di), ip, rs[j])];
      rest := RemoveAt(rs, j);
    } else {
      calls := [];
      rest := rs;
    }
  }

  /**
   * The loop when list_remove leaves the next pointer: it goes through
   * every route through the neighbor, removing each.
   */
  method DropEveryRoute(routes: seq<Route>, ip: Addr, gw: bool, di: Option<DefaultInstance>)
    returns (rest: seq<Route>, calls: seq<RplEvent>)
    requires gw || di.Some? || forall r :: r in routes ==> r.nexthop != ip
    ensures rest == Keep(routes, NotViaNbr(ip))
    ensures calls == LossEvents(gw, ParentOf(di), ip, Keep(routes, ViaNbr(ip)))
  {
    var parent := ParentOf(di);
    rest := routes;
    calls := [];
    var j := 0;
    var n := 0;
    while n < |routes|
      invariant 0 <= n <= |routes| && j <= |rest|
      invariant rest == Keep(routes[..n], NotViaNbr(ip)) + routes[n..]
      invariant j == |Keep(routes[..n], NotViaNbr(ip))|
      invariant calls == LossEvents(gw, parent, ip, Keep(routes[..n], ViaNbr(ip)))
    {
      DropStep(routes, n, rest, j, ip);
      LossEventsSnoc(gw, parent, ip, Keep(routes[..n], ViaNbr(ip)), routes[n]);
      if rest[j].nexthop == ip {
        calls := calls + [LossEvent(gw, parent, ip, rest[j])];
        rest := RemoveAt(rest, j);
      } else {
        j := j + 1;
      }
      n := n + 1;
    }
    assert routes[..n] == routes;
  }
}
