/** The navigators of one region tree as objects: each navigator's `Route`
    property and scope registration are fields that its methods update in
    place. Every method is proved to do exactly what the corresponding
    function of module Navigation describes. */
module Navigators {
  import opened Wrappers
  import opened Routes
  import opened RouteMaps
  import opened Regions
  import opened Navigation

  class NavigatorTree {
    /** The regions, with the navigator attached to each. */
    const regions: seq<Region>
    /** The route map registry and the other collaborators. */
    const env: Env
    /** The state of the navigator of each region. */
    var navigators: seq<NavigatorState>

    ghost predicate Valid()
      reads this
    {
      Wf(regions, env, navigators)
    }

    constructor (regions: seq<Region>, env: Env, navigators: seq<NavigatorState>)
      requires Wf(regions, env, navigators)
      ensures Valid()
      ensures this.regions == regions && this.env == env && this.navigators == navigators
    {
      this.regions := regions;
      this.env := env;
      this.navigators := navigators;
    }

    /** Normalises a request through the rewrite hooks of the route maps;
        `None` when the loop has not settled after `env.fuel` rounds. */
    method InitialiseRequest(request: Request) returns (r: Option<Request>)
      ensures r == Initialise(env.resolver, request, env.fuel)
    {
      var req := request;
      var requestMap := FindByPath(env.resolver, req.route.Base());
      if requestMap.Some? && requestMap.value.init.Some? {
        var newRequest := requestMap.value.init.value(req);
        var budget := env.fuel;
        while !req.SameRouteBase(newRequest)
          invariant Settle(env.resolver, req, newRequest, budget) == Initialise(env.resolver, request, env.fuel)
          decreases budget
        {
          if budget == 0 {
            return None;
          }
          budget := budget - 1;
          req := newRequest;
          requestMap := FindByPath(env.resolver, req.route.Base());
          if requestMap.Some? && requestMap.value.init.Some? {
            newRequest := requestMap.value.init.value(req);
          }
        }
        req := newRequest;
      }
      return Some(req);
    }

    method NavigateAsync(at: RegionId, request: Request) returns (outcome: Outcome)
      requires Valid() && at < |regions|
      modifies this
      ensures Valid()
      ensures (navigators, outcome) == Navigate(regions, env, old(navigators), at, request)
      decreases Rank(request), Height(regions, at, request), 3, 0
    {
      var initialised := InitialiseRequest(request);
      if initialised.None? {
        return RewriteDiverged;
      }
      var req := initialised.value;
      var parent := regions[at].parent;
      if !req.route.isInternal {
        if !Supports(regions, env, navigators, at, req.route) {
          // Trim one "../" before sending the request to the parent
          if req.route.IsParent() {
            req := req.(route := req.route.TrimQualifier(PARENT));
          }
          if req.route.IsEmpty() {
            return Completed(None);
          }
          if parent.Some? {
            outcome := NavigateAsync(parent.value, req);
            return;
          }
          return Completed(None);
        }
        if req.route.IsRoot() {
          if parent.None? {
            req := req.(route := req.route.TrimQualifier(Root));
            if req.route.IsEmpty() {
              navigators := navigators[at := navigators[at].(current := Some(EMPTY_ROUTE))];
              var firstMap := env.resolver.defaultMap;
              if firstMap.Some? {
                req := req.(route := req.route.Append(firstMap.value.path));
              }
            }
          } else {
            return Completed(None);
          }
        }
        // An unnamed region passes content changes on to its parent
        if req.route.IsChangeContent() && !IsNamed(regions[at]) && parent.Some? {
          outcome := NavigateAsync(parent.value, req);
          return;
        }
      }
      if !req.route.isInternal {
        req := req.(route := req.route.(isInternal := true));
        if req.route.IsDialog() {
          return Completed(DialogNavigate(regions, env, at, req));
        }
      }
      outcome := ResponseNavigateAsync(at, req);
    }

    method ResponseNavigateAsync(at: RegionId, request: Request) returns (outcome: Outcome)
      requires Valid() && at < |regions| && request.route.isInternal
      modifies this
      ensures Valid()
      ensures (navigators, outcome) == Respond(regions, env, old(navigators), at, request)
      decreases Rank(request), Height(regions, at, request), 2, 0
    {
      if !regions[at].hasServices {
        return Completed(None);
      }
      var req := request;
      var resultRequested := req.result.Some?;
      if !resultRequested {
        // This navigator becomes the scope's current navigator
        navigators := navigators[at := navigators[at].(isScopeNavigator := true)];
      }
      if IsNamed(regions[at]) && regions[at].name == req.route.Base() &&
         CanNavigate(regions, env, navigators, at, req.route.Next())
      {
        req := req.(route := req.route.Next());
      }
      var executed := CoreNavigateAsync(at, req);
      if resultRequested && executed.Completed? {
        return Completed(Some(WithResult(executed.response)));
      }
      return executed;
    }

    method CoreNavigateAsync(at: RegionId, request: Request) returns (outcome: Outcome)
      requires Valid() && at < |regions| && request.route.isInternal
      modifies this
      ensures Valid()
      ensures (navigators, outcome) == Core(regions, env, old(navigators), at, request)
      decreases Rank(request), Height(regions, at, request), 1, 0
    {
      if regions[at].kind.Specialised? {
        return Completed(env.ownCore(at, request));
      }
      var req := request;
      if req.route.IsEmpty() {
        var path := DefaultChildPath(env.resolver, navigators[at].current);
        if path.Some? {
          req := req.(route := req.route.Append(path.value));
        }
        if req.route.IsEmpty() {
          return Completed(None);
        }
      }
      // The expected result does not travel past a named region
      if IsNamed(regions[at]) && req.result.Some? {
        req := req.(result := None);
      }
      req := req.(route := req.route.TrimQualifier(Nested));
      var children := Selected(regions, navigators, at, req.route.Base());
      var tasks := NavigateChildren(at, children, req);
      outcome := Join(tasks);
    }

    /** The loop of CoreNavigateAsync: the request goes to each selected
        child in turn. A child whose navigation never returns stops it. */
    method NavigateChildren(at: RegionId, children: seq<RegionId>, req: Request) returns (tasks: seq<Outcome>)
      requires Valid() && at < |regions| && req.route.isInternal
      requires forall k :: 0 <= k < |children| ==> at < children[k] < |regions|
      modifies this
      ensures Valid()
      ensures (navigators, tasks) == Sweep(regions, env, old(navigators), at, children, req)
      decreases Rank(req), Height(regions, at, req), 0, |children|
    {
      ghost var before := navigators;
      tasks := [];
      var k := 0;
      assert children[k..] == children;
      while k < |children|
        invariant 0 <= k <= |children|
        invariant Valid()
        invariant Sweep(regions, env, before, at, children, req).0 == Sweep(regions, env, navigators, at, children[k..], req).0
        invariant Sweep(regions, env, before, at, children, req).1 == tasks + Sweep(regions, env, navigators, at, children[k..], req).1
      {
        ghost var previous := navigators;
        var child := NavigateAsync(children[k], req);
        SweepStep(regions, env, before, at, children, req, k, previous, tasks, navigators, child);
        tasks := tasks + [child];
        k := k + 1;
        if child.RewriteDiverged? {
          // The child never returns, and neither does this navigation
          return;
        }
      }
      assert children[k..] == [];
      assert Sweep(regions, env, navigators, at, children[k..], req) == (navigators, []);
      assert tasks + [] == tasks;
    }
  }
}
