/** The route map registry as the navigator sees it, and the rewrite loop
    that normalises a request through the maps' `Init` hooks
    (Navigator.InitialiseRequest). */
module RouteMaps {
  import opened Wrappers
  import opened Routes

  /** One route map entry: the path it binds, an optional request-rewriting
      hook, its nested entries and whether it is the default among its
      siblings. */
  datatype RouteMap = RouteMap(
    path: seq<string>,
    init: Option<Request -> Request>,
    nested: seq<RouteMap>,
    isDefault: bool)

  /** The registry: the entries found by path, and the entry that a lookup
      without a route (`Find(null)`) answers with. */
  datatype Resolver = Resolver(byPath: map<string, RouteMap>, defaultMap: Option<RouteMap>)

  function FindByPath(res: Resolver, path: string): Option<RouteMap> {
    if path in res.byPath then Some(res.byPath[path]) else None
  }

  predicate HasInit(res: Resolver, path: string) {
    path in res.byPath && res.byPath[path].init.Some?
  }

  /** Every rewrite hook of the registry leaves the internal flag of the
      route it rewrites as it was. */
  ghost predicate InitsKeepInternal(res: Resolver) {
    forall path, req :: path in res.byPath && res.byPath[path].init.Some? ==>
      res.byPath[path].init.value(req).route.isInternal == req.route.isInternal
  }

  /** Index of the first entry flagged as default (`FirstOrDefault`). */
  function FirstDefault(maps: seq<RouteMap>): (r: Option<nat>)
    ensures r.None? <==> forall k :: 0 <= k < |maps| ==> !maps[k].isDefault
    ensures r.Some? ==> r.value < |maps| && maps[r.value].isDefault &&
                        forall k :: 0 <= k < r.value ==> !maps[k].isDefault
  {
    if maps == [] then None
    else if maps[0].isDefault then Some(0)
    else match FirstDefault(maps[1..])
         case None => None
         case Some(k) => Some(k + 1)
  }

  /** The path of the default nested entry of the map found for the
      navigator's current route, if there is one. */
  function DefaultChildPath(res: Resolver, current: Option<Route>): (r: Option<seq<string>>)
    ensures r.None? <==> (current.None? || !HasMap(res, current.value.Base()) ||
                          FirstDefault(res.byPath[current.value.Base()].nested).None?)
    ensures r.Some? ==> current.Some? && HasMap(res, current.value.Base())
    ensures r.Some? ==>
      var maps := res.byPath[current.value.Base()].nested;
      exists k :: 0 <= k < |maps| && maps[k].isDefault && maps[k].path == r.value &&
                  forall j :: 0 <= j < k ==> !maps[j].isDefault
  {
    if current.None? then None
    else match FindByPath(res, current.value.Base())
         case None => None
         case Some(m) =>
           match FirstDefault(m.nested)
           case None => None
           case Some(k) => Some(m.nested[k].path)
  }

  predicate HasMap(res: Resolver, path: string) {
    path in res.byPath
  }

  /** One application of the hook of the map found for the request's base;
      the request itself when that map has no hook. */
  function Step(res: Resolver, req: Request): Request {
    var base := req.route.Base();
    if HasInit(res, base) then res.byPath[base].init.value(req) else req
  }

  /** The loop of InitialiseRequest from the pair (request, newRequest):
      it stops, answering the newest rewrite, as soon as the two have the
      same route base, and otherwise rewrites again. Each further rewrite
      costs one unit of `fuel`; `None` means the loop would run on. */
  function Settle(res: Resolver, prev: Request, next: Request, fuel: nat): (r: Option<Request>)
    ensures InitsKeepInternal(res) && r.Some? ==> r.value.route.isInternal == next.route.isInternal
    decreases fuel
  {
    if prev.SameRouteBase(next) then Some(next)
    else if fuel == 0 then None
    else Settle(res, next, Step(res, next), fuel - 1)
  }

  /** InitialiseRequest: a request whose base has no hook is returned
      unchanged; otherwise the hooks are applied until the route base stops
      changing, within `fuel` iterations of the loop. */
  function Initialise(res: Resolver, req: Request, fuel: nat): (r: Option<Request>)
    ensures !HasInit(res, req.route.Base()) ==> r == Some(req)
    ensures InitsKeepInternal(res) && r.Some? ==> r.value.route.isInternal == req.route.isInternal
  {
    if HasInit(res, req.route.Base()) then Settle(res, req, Step(res, req), fuel) else Some(req)
  }

  /** The n-th rewrite of `req`. */
  ghost function Iterate(res: Resolver, req: Request, n: nat): Request {
    if n == 0 then req else Step(res, Iterate(res, req, n - 1))
  }

  /** The n-th and the (n+1)-th rewrite have the same route base. */
  ghost predicate StableAt(res: Resolver, req: Request, n: nat) {
    Iterate(res, req, n).SameRouteBase(Iterate(res, req, n + 1))
  }

  lemma {:induction false} SettleFromIterate(res: Resolver, req: Request, m: nat, fuel: nat, n: nat)
    requires m <= n && StableAt(res, req, n)
    requires forall k :: m <= k < n ==> !StableAt(res, req, k)
    ensures Settle(res, Iterate(res, req, m), Iterate(res, req, m + 1), fuel) ==
            if n - m <= fuel then Some(Iterate(res, req, n + 1)) else None
    decreases n - m
  {
    if m < n {
      assert !StableAt(res, req, m);
      if fuel > 0 {
        assert Iterate(res, req, m + 2) == Step(res, Iterate(res, req, m + 1));
        SettleFromIterate(res, req, m + 1, fuel - 1, n);
      }
    }
  }

  lemma {:induction false} SettleWithoutStable(res: Resolver, req: Request, m: nat, fuel: nat)
    requires forall k :: m <= k <= m + fuel ==> !StableAt(res, req, k)
    ensures Settle(res, Iterate(res, req, m), Iterate(res, req, m + 1), fuel) == None
    decreases fuel
  {
    assert !StableAt(res, req, m);
    if fuel > 0 {
      assert Iterate(res, req, m + 2) == Step(res, Iterate(res, req, m + 1));
      SettleWithoutStable(res, req, m + 1, fuel - 1);
    }
  }

  /** The rewrite loop stops exactly at the first rewrite whose route base
      equals that of the request before it, and answers that rewrite; when
      this takes more than `fuel` iterations, it reports divergence. */
  lemma InitialiseStopsAtFirstStable(res: Resolver, req: Request, fuel: nat, n: nat)
    requires HasInit(res, req.route.Base())
    requires StableAt(res, req, n) && forall k :: 0 <= k < n ==> !StableAt(res, req, k)
    ensures Initialise(res, req, fuel) == if n <= fuel then Some(Iterate(res, req, n + 1)) else None
  {
    assert Iterate(res, req, 1) == Step(res, req);
    SettleFromIterate(res, req, 0, fuel, n);
  }

  /** When no rewrite within the first `fuel` iterations repeats its
      predecessor's route base, the loop does not settle. */
  lemma InitialiseDiverges(res: Resolver, req: Request, fuel: nat)
    requires HasInit(res, req.route.Base())
    requires forall k :: 0 <= k <= fuel ==> !StableAt(res, req, k)
    ensures Initialise(res, req, fuel) == None
  {
    assert Iterate(res, req, 1) == Step(res, req);
    SettleWithoutStable(res, req, 0, fuel);
  }

  lemma {:induction false} SettleFuelMonotone(res: Resolver, prev: Request, next: Request, f1: nat, f2: nat)
    requires f1 <= f2 && Settle(res, prev, next, f1).Some?
    ensures Settle(res, prev, next, f2) == Settle(res, prev, next, f1)
    decreases f1
  {
    if !prev.SameRouteBase(next) {
      SettleFuelMonotone(res, next, Step(res, next), f1 - 1, f2 - 1);
    }
  }

  /** More fuel never changes a settled result: the bound only cuts off
      rewrite loops that would not have terminated within it. */
  lemma InitialiseFuelMonotone(res: Resolver, req: Request, f1: nat, f2: nat)
    requires f1 <= f2 && Initialise(res, req, f1).Some?
    ensures Initialise(res, req, f2) == Initialise(res, req, f1)
  {
    if HasInit(res, req.route.Base()) {
      SettleFuelMonotone(res, req, Step(res, req), f1, f2);
    }
  }
}
