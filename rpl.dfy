/**
 * The routing state rpl.c maintains (RFC 6550): the route list with the
 * lifetimes, DAGs and next hops RPL attaches to each route, the parents
 * each RPL instance keeps, and the calls it makes into other modules.
 * The functions here specify the loops of rpl.c; their properties are the
 * lemmas below.
 */
module Rpl {
  import opened Wire
  import opened Ds6

  /** How a route was learned (RPL_ROUTE_FROM_*). */
  datatype Learned = Internal | UnicastDao | MulticastDao | Dio

  /**
   * One uip_ds6_route_t with its RPL state; `dag` names the rpl_dag_t the
   * route belongs to.
   */
  datatype Route = Route(prefix: Addr, plen: nat, nexthop: Addr, dag: nat, lifetime: nat, learned: Learned)

  /** rpl_mode: mesh, feather, and the other modes, which rpl.c treats alike. */
  datatype Mode = Mesh | Feather | Leaf

  /** A call into a module outside this model. */
  datatype RplEvent =
    | NoPathDao(parent: Option<Addr>, target: Addr)          // dao_output_target(..., RPL_ZERO_LIFETIME)
    | ScheduleDao                                            // rpl_schedule_dao_immediately
    | CancelDao                                              // rpl_cancel_dao
    | GwNbrDelete(ip: Addr)                                  // gw_nbr_delete
    | LinkCallback(neighbor: Addr, status: int, numtx: int)  // of->neighbor_link_callback

  /** A parent as rpl_find_parent_any_dag finds it: its rank, RPL_PARENT_FLAG_UPDATED and last_tx_time. */
  datatype Parent = Parent(rank: nat, updated: bool, lastTx: nat)

  /** An entry of instance_table; `parents` stands for the DAGs' parent sets, keyed by address. */
  datatype Instance = Instance(used: bool, linkCallback: bool, parents: map<Addr, Parent>)

  /** The default instance's current DAG: its rank, the instance's root rank and its preferred parent. */
  datatype DefaultInstance = DefaultInstance(dagRank: nat, rootRank: nat, preferredParent: Option<Addr>)

  const INFINITE_RANK := 0xffff

  /** fe80:: */
  const LinkLocalPrefix: Addr := [0xfe, 0x80] + Zeros(14)

  /** The link-local address rpl_link_neighbor_callback forms from a link-layer address (rpl.c:328-329). */
  function NeighborIp(ll: LlAddr): (r: Addr)
    ensures IsLinkLocal(r) && r[2..8] == Zeros(6)
  {
    WithIid(LinkLocalPrefix, ll)
  }

  // ---- the route list ----

  /** The first pass of rpl_purge_routes on one route: a positive lifetime goes down by one. */
  function Dec(r: Route): (d: Route)
    ensures d == r.(lifetime := d.lifetime)
    ensures r.lifetime >= 1 ==> d.lifetime + 1 == r.lifetime
    ensures r.lifetime == 0 ==> d.lifetime == 0
  {
    if r.lifetime >= 1 then r.(lifetime := r.lifetime - 1) else r
  }

  /** Every route after the first pass. */
  function Decremented(rs: seq<Route>): (d: seq<Route>)
    ensures |d| == |rs| && forall k :: 0 <= k < |rs| ==> d[k] == Dec(rs[k])
  {
    seq(|rs|, k requires 0 <= k < |rs| => Dec(rs[k]))
  }

  /** A route the second pass removes. */
  predicate Dead(r: Route)
  {
    r.lifetime < 1
  }

  /** The routes satisfying `keep`, in their order. */
  function Keep(rs: seq<Route>, keep: Route -> bool): (r: seq<Route>)
    ensures |r| <= |rs|
    decreases |rs|
  {
    if rs == [] then []
    else if keep(rs[0]) then [rs[0]] + Keep(rs[1..], keep)
    else Keep(rs[1..], keep)
  }

  /** The index of the first route satisfying `p`. */
  function FirstWhere(rs: seq<Route>, p: Route -> bool): (r: Option<nat>)
    ensures r.Some? ==> r.value < |rs| && p(rs[r.value]) && forall k :: 0 <= k < r.value ==> !p(rs[k])
    ensures r.None? ==> forall k :: 0 <= k < |rs| ==> !p(rs[k])
    decreases |rs|
  {
    if rs == [] then None
    else if p(rs[0]) then Some(0)
    else match FirstWhere(rs[1..], p)
      case None => None
      case Some(i) => Some(i + 1)
  }

  /** uip_ds6_route_rm on the route at index `i`. */
  function RemoveAt(rs: seq<Route>, i: nat): (r: seq<Route>)
    requires i < |rs|
    ensures |r| == |rs| - 1
    ensures forall k :: 0 <= k < i ==> r[k] == rs[k]
    ensures forall k :: i <= k < |r| ==> r[k] == rs[k + 1]
  {
    rs[..i] + rs[i + 1..]
  }

  /** Exactly the routes satisfying `keep` are kept, and their order is that of `rs`. */
  lemma {:induction false} KeepMembers(rs: seq<Route>, keep: Route -> bool)
    ensures forall x :: x in Keep(rs, keep) <==> x in rs && keep(x)
    decreases |rs|
  {
    if rs != [] {
      KeepMembers(rs[1..], keep);
      assert rs == [rs[0]] + rs[1..];
    }
  }

  /** A list whose routes all satisfy `keep` is its own Keep. */
  lemma {:induction false} KeepAll(rs: seq<Route>, keep: Route -> bool)
    requires forall k :: 0 <= k < |rs| ==> keep(rs[k])
    ensures Keep(rs, keep) == rs
    decreases |rs|
  {
    if rs != [] {
      KeepAll(rs[1..], keep);
    }
  }

  /** Removing a route that `keep` rejects does not change Keep. */
  lemma {:induction false} KeepRemove(rs: seq<Route>, i: nat, keep: Route -> bool)
    requires i < |rs| && !keep(rs[i])
    ensures Keep(RemoveAt(rs, i), keep) == Keep(rs, keep)
    decreases i
  {
    if i > 0 {
      KeepRemove(rs[1..], i - 1, keep);
      assert RemoveAt(rs, i)[1..] == RemoveAt(rs[1..], i - 1);
    } else {
      assert RemoveAt(rs, 0) == rs[1..];
    }
  }

  /** The second pass, in a root: every dead route is removed. */
  predicate Alive(r: Route)
  {
    !Dead(r)
  }

  /**
   * What a purge in a root leaves: exactly the routes whose lifetime was at
   * least two, each one lower, in their order.
   */
  lemma PurgedRoutes(rs: seq<Route>)
    ensures forall x :: x in Keep(Decremented(rs), Alive) <==>
      exists k :: 0 <= k < |rs| && rs[k].lifetime >= 2 && x == rs[k].(lifetime := rs[k].lifetime - 1)
  {
    var d := Decremented(rs);
    KeepMembers(d, Alive);
    forall x | x in Keep(d, Alive)
      ensures exists k :: 0 <= k < |rs| && rs[k].lifetime >= 2 && x == rs[k].(lifetime := rs[k].lifetime - 1)
    {
      var k :| 0 <= k < |d| && d[k] == x;
      assert rs[k].lifetime >= 2 && x == rs[k].(lifetime := rs[k].lifetime - 1);
    }
    forall x | exists k :: 0 <= k < |rs| && rs[k].lifetime >= 2 && x == rs[k].(lifetime := rs[k].lifetime - 1)
      ensures x in Keep(d, Alive)
    {
      var k :| 0 <= k < |rs| && rs[k].lifetime >= 2 && x == rs[k].(lifetime := rs[k].lifetime - 1);
      assert d[k] == x && x in d;
    }
  }

  /** Keep(s + [x]) extends Keep(s) by x exactly when x is kept. */
  lemma {:induction false} KeepAppend(rs: seq<Route>, x: Route, keep: Route -> bool)
    ensures Keep(rs + [x], keep) == Keep(rs, keep) + (if keep(x) then [x] else [])
    decreases |rs|
  {
    if rs == [] {
      assert [x][1..] == [];
    } else {
      KeepAppend(rs[1..], x, keep);
      assert (rs + [x])[1..] == rs[1..] + [x];
    }
  }

  /** Filtering twice by the same predicate filters once. */
  lemma KeepIdempotent(rs: seq<Route>, keep: Route -> bool)
    ensures Keep(Keep(rs, keep), keep) == Keep(rs, keep)
  {
    KeepMembers(rs, keep);
    var k := Keep(rs, keep);
    forall j | 0 <= j < |k| ensures keep(k[j]) {
      assert k[j] in k;
    }
    KeepAll(k, keep);
  }

  // ---- rpl_purge_routes ----

  /** The node is the root of the default instance's current DAG. */
  predicate IsRoot(x: DefaultInstance)
  {
    x.dagRank == x.rootRank
  }

  datatype Purged = Purged(routes: seq<Route>, events: seq<RplEvent>)

  /**
   * rpl_purge_routes (rpl.c:178-242): the first pass lowers every positive
   * lifetime by one; the second removes the routes at zero.  Outside a
   * root, the first removal sends a No-Path DAO for its prefix to the
   * preferred parent and ends the call.  The default instance is
   * dereferenced after a removal, so one must exist when a route dies.
   */
  function Purge(rs: seq<Route>, di: Option<DefaultInstance>): Purged
    requires di.Some? || FirstWhere(Decremented(rs), Dead).None?
  {
    var d := Decremented(rs);
    match FirstWhere(d, Dead)
    case None => Purged(d, [])
    case Some(i) =>
      if IsRoot(di.value) then Purged(Keep(d, Alive), [])
      else Purged(RemoveAt(d, i), [NoPathDao(di.value.preferredParent, d[i].prefix)])
  }

  /** A route whose lifetime was at least two survives every purge, one lower. */
  lemma PurgeKeepsLiving(rs: seq<Route>, di: Option<DefaultInstance>, k: nat)
    requires di.Some? || FirstWhere(Decremented(rs), Dead).None?
    requires k < |rs| && rs[k].lifetime >= 2
    ensures rs[k].(lifetime := rs[k].lifetime - 1) in Purge(rs, di).routes
  {
    var d := Decremented(rs);
    assert d[k] == rs[k].(lifetime := rs[k].lifetime - 1);
    match FirstWhere(d, Dead)
    case None =>
    case Some(i) =>
      if IsRoot(di.value) {
        KeepMembers(d, Alive);
      } else if k < i {
        assert RemoveAt(d, i)[k] == d[k];
      } else {
        assert RemoveAt(d, i)[k - 1] == d[k];
      }
  }

  /**
   * In a root a purge removes every route whose lifetime reaches zero,
   * keeps the others in order, and sends nothing.
   */
  lemma PurgeInRoot(rs: seq<Route>, x: DefaultInstance)
    requires IsRoot(x)
    ensures var p := Purge(rs, Some(x));
      && p.events == [] && p.routes == Keep(Decremented(rs), Alive)
      && forall r :: r in p.routes ==> r.lifetime >= 1
  {
    var d := Decremented(rs);
    KeepMembers(d, Alive);
    if FirstWhere(d, Dead).None? {
      KeepAll(d, Alive);
    }
  }

  /**
   * Outside a root a purge removes at most one route, the first whose
   * lifetime reaches zero, and sends one No-Path DAO for its prefix; the
   * other dead routes stay, at lifetime zero, for the next call.
   */
  lemma PurgeOutsideRoot(rs: seq<Route>, x: DefaultInstance)
    requires !IsRoot(x)
    ensures var p := Purge(rs, Some(x)); var d := Decremented(rs);
      && |p.routes| >= |rs| - 1 && |p.events| <= 1
      && (p.events == [] <==> forall k :: 0 <= k < |rs| ==> rs[k].lifetime >= 2)
      && (forall i :: 0 <= i < |d| && Dead(d[i]) && (forall k :: 0 <= k < i ==> !Dead(d[k])) ==>
            p == Purged(RemoveAt(d, i), [NoPathDao(x.preferredParent, rs[i].prefix)]))
      && (forall j :: 0 <= j < |d| && Dead(d[j]) && (exists k :: 0 <= k < j && Dead(d[k])) ==>
            d[j] in p.routes && d[j].lifetime == 0)
  {
    var d := Decremented(rs);
    match FirstWhere(d, Dead)
    case None =>
    case Some(i) =>
      assert Dead(d[i]) && !(rs[i].lifetime >= 2);
      forall j | 0 <= j < |d| && Dead(d[j]) && (exists k :: 0 <= k < j && Dead(d[k]))
        ensures d[j] in RemoveAt(d, i) && d[j].lifetime == 0
      {
        assert j > i;
        assert RemoveAt(d, i)[j - 1] == d[j];
      }
  }

  // ---- rpl_remove_routes, rpl_remove_routes_by_nexthop ----

  /** Keeps the routes that do not belong to `dag`. */
  function OtherDag(dag: nat): Route -> bool
  {
    (r: Route) => r.dag != dag
  }

  /** Keeps the routes that do not both go through `nh` and belong to `dag`. */
  function OtherHopOrDag(nh: Addr, dag: nat): Route -> bool
  {
    (r: Route) => r.nexthop != nh || r.dag != dag
  }

  /**
   * After rpl_remove_routes(dag) no route belongs to `dag`, and every
   * route of another DAG is still there, in its order.
   */
  lemma RemoveRoutesSpec(rs: seq<Route>, dag: nat)
    ensures forall r :: r in Keep(rs, OtherDag(dag)) <==> r in rs && r.dag != dag
  {
    KeepMembers(rs, OtherDag(dag));
  }

  /**
   * After rpl_remove_routes_by_nexthop(nh, dag) no route of `dag` goes
   * through `nh`; the routes through `nh` in other DAGs, and every other
   * route, are still there.
   */
  lemma RemoveByNexthopSpec(rs: seq<Route>, nh: Addr, dag: nat)
    ensures forall r :: r in Keep(rs, OtherHopOrDag(nh, dag)) <==> r in rs && (r.nexthop != nh || r.dag != dag)
  {
    KeepMembers(rs, OtherHopOrDag(nh, dag));
  }

  // ---- rpl_add_route ----

  /** The rpl_dag_t a route is added for, with its instance's lifetime parameters. */
  datatype Dag = Dag(id: nat, defaultLifetime: nat, lifetimeUnit: nat)

  /**
   * RPL_LIFETIME: the default lifetime counts in lifetime units (RFC 6550
   * section 6.7.6).
   */
  function RplLifetime(dag: Dag): nat
  {
    dag.lifetimeUnit * dag.defaultLifetime
  }

  /** Keeps the routes to another destination than `prefix`/`plen`. */
  function OtherPrefix(prefix: Addr, plen: nat): Route -> bool
  {
    (r: Route) => r.prefix != prefix || r.plen != plen
  }

  /**
   * uip_ds6_route_add, which is not part of this model, as a bounded list:
   * a route to the same destination is dropped, and the new route goes to
   * the head; NULL (None) when there is no room.  Its RPL state is set by
   * the caller.
   */
  function RouteAdd(rs: seq<Route>, cap: nat, prefix: Addr, plen: nat, nh: Addr): (r: Option<seq<Route>>)
  {
    var rest := Keep(rs, OtherPrefix(prefix, plen));
    if |rest| >= cap then None
    else Some([Route(prefix, plen, nh, 0, 0, Internal)] + rest)
  }

  /** rpl_add_route (rpl.c:296-318): the route list after the call, None when the table is full. */
  function AddedRoutes(rs: seq<Route>, cap: nat, dag: Dag, prefix: Addr, plen: nat, nh: Addr): Option<seq<Route>>
  {
    match RouteAdd(rs, cap, prefix, plen, nh)
    case None => None
    case Some(t) => Some(t[0 := t[0].(dag := dag.id, lifetime := RplLifetime(dag), learned := Internal)])
  }

  /**
   * An added route is the only route to its destination, heads the list,
   * belongs to `dag` with the instance's default lifetime and is learned
   * internally; the other routes are kept in order.  A full table adds
   * nothing.
   */
  lemma AddRouteSpec(rs: seq<Route>, cap: nat, dag: Dag, prefix: Addr, plen: nat, nh: Addr)
    ensures var a := AddedRoutes(rs, cap, dag, prefix, plen, nh);
      && (a.None? <==> |Keep(rs, OtherPrefix(prefix, plen))| >= cap)
      && (a.Some? ==>
            && a.value[0] == Route(prefix, plen, nh, dag.id, RplLifetime(dag), Internal)
            && a.value[1..] == Keep(rs, OtherPrefix(prefix, plen))
            && forall r :: r in a.value[1..] <==> r in rs && (r.prefix != prefix || r.plen != plen))
  {
    KeepMembers(rs, OtherPrefix(prefix, plen));
  }

  /** A route added for `dag` is gone again after rpl_remove_routes(dag), and the rest is as before the add. */
  lemma AddThenRemove(rs: seq<Route>, cap: nat, dag: Dag, prefix: Addr, plen: nat, nh: Addr)
    requires AddedRoutes(rs, cap, dag, prefix, plen, nh).Some?
    ensures Keep(AddedRoutes(rs, cap, dag, prefix, plen, nh).value, OtherDag(dag.id))
            == Keep(Keep(rs, OtherPrefix(prefix, plen)), OtherDag(dag.id))
  {
    var a := AddedRoutes(rs, cap, dag, prefix, plen, nh).value;
    assert a == [a[0]] + a[1..];
  }

  /** A route added with a lifetime of at least two survives the next purge. */
  lemma AddedRouteSurvivesPurge(rs: seq<Route>, cap: nat, dag: Dag, prefix: Addr, plen: nat, nh: Addr, di: Option<DefaultInstance>)
    requires AddedRoutes(rs, cap, dag, prefix, plen, nh).Some? && RplLifetime(dag) >= 2
    requires di.Some? || FirstWhere(Decremented(AddedRoutes(rs, cap, dag, prefix, plen, nh).value), Dead).None?
    ensures Route(prefix, plen, nh, dag.id, RplLifetime(dag) - 1, Internal)
            in Purge(AddedRoutes(rs, cap, dag, prefix, plen, nh).value, di).routes
  {
    PurgeKeepsLiving(AddedRoutes(rs, cap, dag, prefix, plen, nh).value, di, 0);
  }

  // ---- rpl_set_mode ----

  /**
   * The call rpl_set_mode makes when switching to `m` (rpl.c:151-173): an
   * immediate DAO for mesh, a cancelled DAO for feather, each only with a
   * default instance.
   */
  function ModeEvents(m: Mode, hasDefault: bool): (e: seq<RplEvent>)
    ensures |e| <= 1 && (hasDefault ==> (ScheduleDao in e <==> m == Mesh) && (CancelDao in e <==> m == Feather))
    ensures !hasDefault ==> e == []
  {
    if !hasDefault then []
    else if m == Mesh then [ScheduleDao]
    else if m == Feather then [CancelDao]
    else []
  }

  // ---- the parents of the instances ----

  /**
   * rpl_ipv6_neighbor_callback on one instance (rpl.c:363-370): the parent
   * at `ip`, if a used instance has one, gets INFINITE_RANK and the
   * UPDATED flag.
   */
  function Unreachable(inst: Instance, ip: Addr): Instance
  {
    if inst.used && ip in inst.parents then
      inst.(parents := inst.parents[ip := inst.parents[ip].(rank := INFINITE_RANK, updated := true)])
    else inst
  }

  /**
   * Only the parent at `ip` of a used instance changes: it gets the
   * infinite rank and the UPDATED flag, and keeps its last transmission
   * time.
   */
  lemma UnreachableSpec(inst: Instance, ip: Addr)
    ensures var r := Unreachable(inst, ip);
      && r.used == inst.used && r.linkCallback == inst.linkCallback && r.parents.Keys == inst.parents.Keys
      && (forall a :: a in inst.parents && a != ip ==> r.parents[a] == inst.parents[a])
      && (inst.used && ip in inst.parents ==>
            r.parents[ip] == Parent(INFINITE_RANK, true, inst.parents[ip].lastTx))
      && (!inst.used ==> r == inst)
  {
  }

  /**
   * rpl_link_neighbor_callback on one instance (rpl.c:332-343): the parent
   * at `ip` gets the UPDATED flag, and its last transmission time is `now`
   * when the objective function has a link callback.  Its rank is not
   * touched.
   */
  function LinkUpdate(inst: Instance, ip: Addr, now: nat): Instance
  {
    if inst.used && ip in inst.parents then
      var p := inst.parents[ip];
      inst.(parents := inst.parents[ip := p.(updated := true, lastTx := if inst.linkCallback then now else p.lastTx)])
    else inst
  }

  /**
   * Only the parent at `ip` of a used instance changes: it gets the
   * UPDATED flag and, with a link callback, `now` as its last transmission
   * time.  No rank changes.
   */
  lemma LinkUpdateSpec(inst: Instance, ip: Addr, now: nat)
    ensures var r := LinkUpdate(inst, ip, now);
      && r.used == inst.used && r.linkCallback == inst.linkCallback && r.parents.Keys == inst.parents.Keys
      && (forall a :: a in inst.parents && a != ip ==> r.parents[a] == inst.parents[a])
      && (forall a :: a in inst.parents ==> r.parents[a].rank == inst.parents[a].rank)
      && (inst.used && ip in inst.parents ==>
            r.parents[ip].updated && r.parents[ip].lastTx == (if inst.linkCallback then now else inst.parents[ip].lastTx))
      && (!inst.used ==> r == inst)
  {
  }

  /** The objective-function callbacks rpl_link_neighbor_callback makes, in instance order. */
  function LinkEvents(insts: seq<Instance>, ip: Addr, status: int, numtx: int): seq<RplEvent>
    decreases |insts|
  {
    if insts == [] then []
    else
      var inst := insts[|insts| - 1];
      LinkEvents(insts[..|insts| - 1], ip, status, numtx)
        + (if inst.used && ip in inst.parents && inst.linkCallback then [LinkCallback(ip, status, numtx)] else [])
  }

  /** An instance whose parent at `ip` has lost it keeps the infinite rank through a later link callback. */
  lemma LinkKeepsInfiniteRank(inst: Instance, ip: Addr, now: nat)
    requires inst.used && ip in inst.parents
    ensures LinkUpdate(Unreachable(inst, ip), ip, now).parents[ip].rank == INFINITE_RANK
  {
  }

  /** The number of used instances. */
  function UsedCount(insts: seq<Instance>): (n: nat)
    ensures n <= |insts|
    decreases |insts|
  {
    if insts == [] then 0
    else UsedCount(insts[..|insts| - 1]) + (if insts[|insts| - 1].used then 1 else 0)
  }

  // ---- the routes through a lost neighbor ----

  function ViaNbr(ip: Addr): Route -> bool
  {
    (r: Route) => r.nexthop == ip
  }

  function NotViaNbr(ip: Addr): Route -> bool
  {
    (r: Route) => r.nexthop != ip
  }

  datatype Drop = Drop(rest: seq<Route>, gone: seq<Route>)

  /**
   * One run of the neighbor_route loop (rpl.c:375-388), with the
   * neighbor's routes taken in routing-table order.  Each step list_removes
   * the current item and then reads its successor: when list_remove clears
   * the removed item's next pointer (`clears`) the loop ends after the
   * first route, otherwise it goes through them all.
   */
  function DropPass(rs: seq<Route>, ip: Addr, clears: bool): Drop
  {
    if clears then
      match FirstWhere(rs, ViaNbr(ip))
      case None => Drop(rs, [])
      case Some(i) => Drop(RemoveAt(rs, i), [rs[i]])
    else Drop(Keep(rs, NotViaNbr(ip)), Keep(rs, ViaNbr(ip)))
  }

  lemma DropPassFrom(rs: seq<Route>, ip: Addr, clears: bool)
    ensures forall x :: x in DropPass(rs, ip, clears).rest ==> x in rs
    ensures forall x :: x in DropPass(rs, ip, clears).gone ==> x in rs && x.nexthop == ip
  {
    KeepMembers(rs, NotViaNbr(ip));
    KeepMembers(rs, ViaNbr(ip));
  }

  /** The loop run once per used instance. */
  function DropPasses(rs: seq<Route>, ip: Addr, clears: bool, n: nat): Drop
    decreases n
  {
    if n == 0 then Drop(rs, [])
    else
      var a := DropPass(rs, ip, clears);
      var b := DropPasses(a.rest, ip, clears, n - 1);
      Drop(b.rest, a.gone + b.gone)
  }

  /** The passes remove only routes through the neighbor and add none. */
  lemma {:induction false} DropPassesFrom(rs: seq<Route>, ip: Addr, clears: bool, n: nat)
    ensures forall x :: x in DropPasses(rs, ip, clears, n).rest ==> x in rs
    ensures forall x :: x in DropPasses(rs, ip, clears, n).gone ==> x in rs && x.nexthop == ip
    decreases n
  {
    if n > 0 {
      DropPassFrom(rs, ip, clears);
      DropPassesFrom(DropPass(rs, ip, clears).rest, ip, clears, n - 1);
    }
  }

  /** The same passes, the last one taken apart. */
  lemma {:induction false} DropPassesLast(rs: seq<Route>, ip: Addr, clears: bool, n: nat)
    ensures var b := DropPasses(rs, ip, clears, n); var a := DropPass(b.rest, ip, clears);
      DropPasses(rs, ip, clears, n + 1) == Drop(a.rest, b.gone + a.gone)
    decreases n
  {
    if n > 0 {
      DropPassesLast(DropPass(rs, ip, clears).rest, ip, clears, n - 1);
    }
  }

  /**
   * One more used instance: from the routes and calls after `m` passes,
   * one pass over the remaining routes gives the routes and calls after
   * `m + 1` passes, and adds no route.
   */
  lemma DropPassStep(r0: seq<Route>, ip: Addr, clears: bool, m: nat, gw: bool, parent: Option<Addr>,
                     rs: seq<Route>, calls: seq<RplEvent>, rest: seq<Route>, more: seq<RplEvent>)
    requires rs == DropPasses(r0, ip, clears, m).rest
    requires calls == LossEvents(gw, parent, ip, DropPasses(r0, ip, clears, m).gone)
    requires rest == DropPass(rs, ip, clears).rest && more == LossEvents(gw, parent, ip, DropPass(rs, ip, clears).gone)
    ensures rest == DropPasses(r0, ip, clears, m + 1).rest
    ensures calls + more == LossEvents(gw, parent, ip, DropPasses(r0, ip, clears, m + 1).gone)
    ensures forall x :: x in rest ==> x in rs
  {
    DropPassesLast(r0, ip, clears, m);
    DropPassFrom(rs, ip, clears);
    LossEventsAppend(gw, parent, ip, DropPasses(r0, ip, clears, m).gone, DropPass(rs, ip, clears).gone);
  }

  lemma UsedCountStep(insts: seq<Instance>, k: nat)
    requires k < |insts|
    ensures UsedCount(insts[..k + 1]) == UsedCount(insts[..k]) + if insts[k].used then 1 else 0
  {
    assert insts[..k + 1][..k] == insts[..k];
  }

  /**
   * The preferred parent of the default instance's current DAG; it is read
   * only when a default instance exists.
   */
  function ParentOf(di: Option<DefaultInstance>): Option<Addr>
  {
    if di.Some? then di.value.preferredParent else None
  }

  /**
   * The call made for a removed route (rpl.c:380-386): gw_nbr_delete of
   * the neighbor in a gateway build, otherwise a No-Path DAO for the
   * route's prefix to `parent`.
   */
  function LossEvent(gw: bool, parent: Option<Addr>, ip: Addr, r: Route): RplEvent
  {
    if gw then GwNbrDelete(ip) else NoPathDao(parent, r.prefix)
  }

  /** The calls made for the removed routes, in order. */
  function LossEvents(gw: bool, parent: Option<Addr>, ip: Addr, gone: seq<Route>): (e: seq<RplEvent>)
    ensures |e| == |gone|
  {
    seq(|gone|, k requires 0 <= k < |gone| => LossEvent(gw, parent, ip, gone[k]))
  }

  /** The calls for two runs are those of the first followed by those of the second. */
  lemma LossEventsAppend(gw: bool, parent: Option<Addr>, ip: Addr, g1: seq<Route>, g2: seq<Route>)
    ensures LossEvents(gw, parent, ip, g1 + g2) == LossEvents(gw, parent, ip, g1) + LossEvents(gw, parent, ip, g2)
  {
  }

  lemma {:induction false} KeepNone(rs: seq<Route>, keep: Route -> bool)
    requires forall k :: 0 <= k < |rs| ==> !keep(rs[k])
    ensures Keep(rs, keep) == []
    decreases |rs|
  {
    if rs != [] {
      KeepNone(rs[1..], keep);
    }
  }

  /** The first route `keep` accepts heads Keep, followed by Keep of the rest. */
  lemma {:induction false} KeepFirst(rs: seq<Route>, i: nat, keep: Route -> bool)
    requires i < |rs| && keep(rs[i]) && forall k :: 0 <= k < i ==> !keep(rs[k])
    ensures Keep(rs, keep) == [rs[i]] + Keep(RemoveAt(rs, i), keep)
    decreases i
  {
    if i > 0 {
      KeepFirst(rs[1..], i - 1, keep);
      assert RemoveAt(rs, i) == [rs[0]] + RemoveAt(rs[1..], i - 1);
    } else {
      assert RemoveAt(rs, 0) == rs[1..];
    }
  }

  /** A route either goes through the neighbor or not: nothing passes both filters. */
  lemma ViaSplit(rs: seq<Route>, ip: Addr)
    ensures Keep(Keep(rs, NotViaNbr(ip)), ViaNbr(ip)) == []
    ensures Keep(Keep(rs, NotViaNbr(ip)), NotViaNbr(ip)) == Keep(rs, NotViaNbr(ip))
  {
    var k := Keep(rs, NotViaNbr(ip));
    KeepMembers(rs, NotViaNbr(ip));
    forall j | 0 <= j < |k| ensures !ViaNbr(ip)(k[j]) {
      assert k[j] in k;
    }
    KeepNone(k, ViaNbr(ip));
    KeepIdempotent(rs, NotViaNbr(ip));
  }

  /**
   * When list_remove leaves the removed item's next pointer, the first used
   * instance removes every route through the neighbor, and later instances
   * find none left.
   */
  lemma {:induction false} DropAllRoutes(rs: seq<Route>, ip: Addr, n: nat)
    requires n >= 1
    ensures DropPasses(rs, ip, false, n) == Drop(Keep(rs, NotViaNbr(ip)), Keep(rs, ViaNbr(ip)))
    decreases n
  {
    var k := Keep(rs, NotViaNbr(ip));
    ViaSplit(rs, ip);
    if n > 1 {
      DropAllRoutes(k, ip, n - 1);
    }
  }

  function Min(a: nat, b: nat): nat
  {
    if a < b then a else b
  }

  /**
   * What `n` passes do when list_remove clears the removed item's next
   * pointer: with `v` the routes through the neighbor, the first `n` of
   * them are removed, in order, the others stay, and so does every route
   * through another next hop.
   */
  predicate OnePerPass(rs: seq<Route>, ip: Addr, n: nat)
  {
    var p := DropPasses(rs, ip, true, n); var v := Keep(rs, ViaNbr(ip)); var m := Min(n, |v|);
    && p.gone == v[..m] && Keep(p.rest, ViaNbr(ip)) == v[m..]
    && Keep(p.rest, NotViaNbr(ip)) == Keep(rs, NotViaNbr(ip))
  }

  /**
   * When list_remove clears the removed item's next pointer, each used
   * instance removes only the first route left through the neighbor.
   */
  lemma {:induction false} DropOnePerInstance(rs: seq<Route>, ip: Addr, n: nat)
    ensures OnePerPass(rs, ip, n)
    decreases n
  {
    if n > 0 {
      DropOnePerInstance(DropPass(rs, ip, true).rest, ip, n - 1);
      OnePerPassStep(rs, ip, n);
    }
  }

  /** With no route through the neighbor, every pass leaves the routes as they are. */
  lemma OnePerPassNone(rs: seq<Route>, ip: Addr, n: nat)
    requires n > 0 && FirstWhere(rs, ViaNbr(ip)).None?
    requires OnePerPass(rs, ip, n - 1)
    ensures OnePerPass(rs, ip, n)
  {
    KeepNone(rs, ViaNbr(ip));
  }

  /** The first pass removes the first route through the neighbor; the others remove the next ones. */
  lemma OnePerPassSome(rs: seq<Route>, ip: Addr, n: nat, i: nat)
    requires n > 0 && FirstWhere(rs, ViaNbr(ip)) == Some(i)
    requires OnePerPass(RemoveAt(rs, i), ip, n - 1)
    ensures OnePerPass(rs, ip, n)
  {
    var r1 := RemoveAt(rs, i);
    DropFirst(rs, ip, i);
    var p1 := DropPasses(r1, ip, true, n - 1);
    assert DropPasses(rs, ip, true, n) == Drop(p1.rest, [rs[i]] + p1.gone);
    var v := Keep(rs, ViaNbr(ip));
    var v1 := Keep(r1, ViaNbr(ip));
    var m1 := Min(n - 1, |v1|);
    assert v == [rs[i]] + v1;
    assert Min(n, |v|) == m1 + 1;
    assert v[..m1 + 1] == [rs[i]] + v1[..m1];
    assert v[m1 + 1..] == v1[m1..];
  }

  /** What the first of `n` passes leaves, the other `n - 1` passes treat one route at a time. */
  lemma OnePerPassStep(rs: seq<Route>, ip: Addr, n: nat)
    requires n > 0 && OnePerPass(DropPass(rs, ip, true).rest, ip, n - 1)
    ensures OnePerPass(rs, ip, n)
  {
    match FirstWhere(rs, ViaNbr(ip))
    case None => OnePerPassNone(rs, ip, n);
    case Some(i) => OnePerPassSome(rs, ip, n, i);
  }

  /** One pass removes the first route through the neighbor. */
  lemma DropFirst(rs: seq<Route>, ip: Addr, i: nat)
    requires FirstWhere(rs, ViaNbr(ip)) == Some(i)
    ensures DropPass(rs, ip, true) == Drop(RemoveAt(rs, i), [rs[i]])
    ensures Keep(rs, ViaNbr(ip)) == [rs[i]] + Keep(RemoveAt(rs, i), ViaNbr(ip))
    ensures Keep(RemoveAt(rs, i), NotViaNbr(ip)) == Keep(rs, NotViaNbr(ip))
  {
    KeepFirst(rs, i, ViaNbr(ip));
    KeepRemove(rs, i, NotViaNbr(ip));
  }

  // ---- the sourceinfo list ----

  /** The slots of rpl_sourceinfo_mem (rpl.c:81-83). */
  const SOURCEINFO_SLOTS := 5

  /** A node ID, an unsigned short. */
  type NodeId = x: nat | x < 0x1_0000

  /** What rpl_sourceinfo_list_add does; its return value, when it adds, is undefined. */
  datatype SourceAdded = Duplicate | AddedSource | NullWrite

  /** No node ID appears twice. */
  predicate Distinct(ids: seq<NodeId>)
  {
    forall i, j :: 0 <= i < j < |ids| ==> ids[i] != ids[j]
  }

  /**
   * rpl_sourceinfo_list_add (rpl.c:112-123): a known ID returns NULL; with
   * all slots taken memb_alloc returns NULL and the ID is written through
   * it; otherwise the ID is appended.
   */
  function SourceAdd(ids: seq<NodeId>, id: NodeId): (SourceAdded, seq<NodeId>)
  {
    if id in ids then (Duplicate, ids)
    else if |ids| >= SOURCEINFO_SLOTS then (NullWrite, ids)
    else (AddedSource, ids + [id])
  }

  /** rpl_sourceinfo_list_purge (rpl.c:127-134): it removes the head, and the rest too unless `clears`. */
  function SourcePurge(ids: seq<NodeId>, clears: bool): seq<NodeId>
  {
    if ids == [] || !clears then [] else ids[1..]
  }

  /** The list never holds an ID twice nor more IDs than slots. */
  predicate SourcesValid(ids: seq<NodeId>)
  {
    Distinct(ids) && |ids| <= SOURCEINFO_SLOTS
  }

  /**
   * Adding keeps the list valid, and after an add that does not write
   * through NULL the ID is in the list; the sixth distinct ID writes
   * through NULL.
   */
  lemma SourceAddSpec(ids: seq<NodeId>, id: NodeId)
    requires SourcesValid(ids)
    ensures var (r, t) := SourceAdd(ids, id);
      && SourcesValid(t) && (r != NullWrite ==> id in t) && (r == NullWrite <==> id !in ids && |ids| == SOURCEINFO_SLOTS)
      && forall x :: x in ids ==> x in t
  {
  }

  /** Purging keeps the list valid and, unless `clears`, empties it. */
  lemma SourcePurgeSpec(ids: seq<NodeId>, clears: bool)
    requires SourcesValid(ids)
    ensures SourcesValid(SourcePurge(ids, clears))
    ensures !clears ==> SourcePurge(ids, clears) == []
    ensures clears && ids != [] ==> |SourcePurge(ids, clears)| == |ids| - 1 && ids[0] !in SourcePurge(ids, clears)
  {
  }
}
