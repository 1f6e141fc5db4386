/** What the navigator's routing promises, proved about the functions of
    module Navigation: how qualifiers send a request up the tree, what an
    internal request skips, how the root consumes "/", and how a fan-out
    answers the first response of its children. */
module NavigationLemmas {
  import opened Wrappers
  import opened Routes
  import opened RouteMaps
  import opened Regions
  import opened Navigation

  /** Every navigator of the tree is a base navigator. */
  predicate AllComposite(tree: seq<Region>) {
    forall a :: 0 <= a < |tree| ==> tree[a].kind == Composite
  }

  /** The request with its route stamped internal. */
  function MarkInternal(req: Request): (r: Request)
    ensures r.route.isInternal && r.route.qualifier == req.route.qualifier
    ensures r.route.segments == req.route.segments && r.result == req.result
  {
    req.(route := req.route.(isInternal := true))
  }

  // ---------------------------------------------------------------------
  // Internal requests

  /** A request whose route is already internal skips every qualifier step:
      after the rewrite loop it goes straight to ResponseNavigateAsync at the
      same navigator, and no navigator of an ancestor region is touched. */
  lemma InternalSkipsQualifiers(tree: seq<Region>, env: Env, st: seq<NavigatorState>, i: RegionId, req: Request)
    requires Wf(tree, env, st) && i < |tree| && req.route.isInternal
    ensures Navigate(tree, env, st, i, req) ==
              match Initialise(env.resolver, req, env.fuel)
              case None => (st, RewriteDiverged)
              case Some(request) => Respond(tree, env, st, i, request)
    ensures forall a :: 0 <= a < |tree| && IsAncestor(tree, a, i) ==> Navigate(tree, env, st, i, req).0[a] == st[a]
    ensures RoutesKept(st, Navigate(tree, env, st, i, req).0)
  {
    var after := Navigate(tree, env, st, i, req).0;
    forall a | 0 <= a < |tree| && IsAncestor(tree, a, i) ensures after[a] == st[a] {
      AncestorPrecedes(tree, a, i);
    }
  }

  // ---------------------------------------------------------------------
  // Forwarding to the parent

  /** A route with a qualifier this navigator does not support loses one
      "../" level and goes to the parent, whose response is returned as it
      is; it is dropped when nothing is left of it or there is no parent. */
  lemma UnsupportedGoesToParent(tree: seq<Region>, env: Env, st: seq<NavigatorState>, i: RegionId, req: Request)
    requires Wf(tree, env, st) && i < |tree| && !req.route.isInternal
    requires !HasInit(env.resolver, req.route.Base())
    requires !Supports(tree, env, st, i, req.route)
    ensures var up := if req.route.IsParent() then req.(route := req.route.TrimQualifier(PARENT)) else req;
            Navigate(tree, env, st, i, req) ==
              if up.route.IsEmpty() || tree[i].parent.None? then (st, Completed(None))
              else Navigate(tree, env, st, tree[i].parent.value, up)
  {
  }

  /** A base navigator with a parent does not support "../": the route goes
      one level up, with one "../" fewer. */
  lemma ParentRouteGoesUpOneLevel(tree: seq<Region>, env: Env, st: seq<NavigatorState>, i: RegionId, req: Request)
    requires Wf(tree, env, st) && i < |tree| && tree[i].kind == Composite && tree[i].parent.Some?
    requires !req.route.isInternal && req.route.IsParent() && !req.route.IsEmpty()
    requires !HasInit(env.resolver, req.route.Base())
    ensures var n := req.route.qualifier.levels;
            var q := if n <= 1 then NoQualifier else Parent(n - 1);
            Navigate(tree, env, st, i, req) ==
              Navigate(tree, env, st, tree[i].parent.value, req.(route := req.route.(qualifier := q)))
  {
    assert !QualifierIsSupported(tree, st, i, req.route);
  }

  /** A content change reaching an unnamed region that has a parent goes to
      the parent unchanged, whether or not the navigator supports it. */
  lemma ChangeContentPassesUp(tree: seq<Region>, env: Env, st: seq<NavigatorState>, i: RegionId, req: Request)
    requires Wf(tree, env, st) && i < |tree| && !IsNamed(tree[i]) && tree[i].parent.Some?
    requires !req.route.isInternal && req.route.IsChangeContent() && !req.route.IsEmpty()
    requires !HasInit(env.resolver, req.route.Base())
    ensures Navigate(tree, env, st, i, req) == Navigate(tree, env, st, tree[i].parent.value, req)
  {
    assert req.route.TrimQualifier(PARENT) == req.route;
  }

  /** In a tree of base navigators, a root or dialog route that is not empty
      climbs unchanged from any region to the root: no navigator below the
      root supports it. */
  lemma {:induction false} RootRouteClimbsToRoot(tree: seq<Region>, env: Env, st: seq<NavigatorState>, i: RegionId, req: Request)
    requires Wf(tree, env, st) && i < |tree| && AllComposite(tree)
    requires !req.route.isInternal && (req.route.IsRoot() || req.route.IsDialog()) && !req.route.IsEmpty()
    requires !HasInit(env.resolver, req.route.Base())
    ensures Navigate(tree, env, st, i, req) == Navigate(tree, env, st, 0, req)
    decreases i
  {
    if i != 0 {
      var p := tree[i].parent.value;
      assert !Supports(tree, env, st, i, req.route);
      UnsupportedGoesToParent(tree, env, st, i, req);
      RootRouteClimbsToRoot(tree, env, st, p, req);
    }
  }

  /** A bare "/" sent to a base navigator below the root is dropped on the
      way up: once found unsupported, the empty route answers null before it
      is forwarded. */
  lemma EmptyRootRouteStopsBelowRoot(tree: seq<Region>, env: Env, st: seq<NavigatorState>, i: RegionId, req: Request)
    requires Wf(tree, env, st) && 0 < i < |tree| && tree[i].kind == Composite
    requires !req.route.isInternal && req.route.IsRoot() && req.route.IsEmpty()
    requires !HasInit(env.resolver, req.route.Base())
    ensures Navigate(tree, env, st, i, req) == (st, Completed(None))
  {
    assert !QualifierIsSupported(tree, st, i, req.route);
  }

  /** A navigator below the root that supports "/" (only a derived one
      can) answers null: a root route cannot be handled there. */
  lemma RootRouteBelowRootAnswersNull(tree: seq<Region>, env: Env, st: seq<NavigatorState>, i: RegionId, req: Request)
    requires Wf(tree, env, st) && i < |tree| && tree[i].parent.Some?
    requires !req.route.isInternal && req.route.IsRoot() && Supports(tree, env, st, i, req.route)
    requires !HasInit(env.resolver, req.route.Base())
    ensures tree[i].kind == Specialised
    ensures Navigate(tree, env, st, i, req) == (st, Completed(None))
  {
  }

  // ---------------------------------------------------------------------
  // Root and dialog routes

  /** The path of the registry's default map, empty when there is none. */
  function DefaultPath(res: Resolver): seq<string> {
    if res.defaultMap.Some? then res.defaultMap.value.path else []
  }

  /** The root navigator consumes "/": a route left empty resets its Route
      to the empty route and continues with the path of the registry's
      default map; either way the request reaches ResponseNavigateAsync of
      the root, change-content qualified and internal. */
  lemma RootRouteAtRoot(tree: seq<Region>, env: Env, st: seq<NavigatorState>, req: Request)
    requires Wf(tree, env, st) && tree[0].kind == Composite
    requires !req.route.isInternal && req.route.IsRoot()
    requires !HasInit(env.resolver, req.route.Base())
    ensures req.route.IsEmpty() ==>
              Navigate(tree, env, st, 0, req) ==
                Respond(tree, env, st[0 := st[0].(current := Some(EMPTY_ROUTE))], 0,
                        Request(Route(NoQualifier, DefaultPath(env.resolver), true), req.result))
    ensures !req.route.IsEmpty() ==>
              Navigate(tree, env, st, 0, req) ==
                Respond(tree, env, st, 0, Request(Route(NoQualifier, req.route.segments, true), req.result))
    ensures Navigate(tree, env, st, 0, req).0[0].current ==
              if req.route.IsEmpty() then Some(EMPTY_ROUTE) else st[0].current
  {
    assert QualifierIsSupported(tree, st, 0, req.route);
    var (st1, request1) := TrimRoot(env.resolver, st, 0, req);
    if req.route.IsEmpty() {
      assert request1 == Request(Route(NoQualifier, DefaultPath(env.resolver), false), req.result);
    } else {
      assert request1 == Request(Route(NoQualifier, req.route.segments, false), req.result);
    }
  }

  /** A dialog route that is not empty reaches the root from any region of a
      tree of base navigators, and the answer is the dialog navigator's
      response, unmodified; no navigator's state changes. */
  lemma DialogRouteAnswersRootDialog(tree: seq<Region>, env: Env, st: seq<NavigatorState>, i: RegionId, req: Request)
    requires Wf(tree, env, st) && i < |tree| && AllComposite(tree)
    requires !req.route.isInternal && req.route.IsDialog() && !req.route.IsEmpty()
    requires !HasInit(env.resolver, req.route.Base())
    ensures Navigate(tree, env, st, i, req) == (st, Completed(DialogNavigate(tree, env, 0, MarkInternal(req))))
  {
    RootRouteClimbsToRoot(tree, env, st, i, req);
    assert QualifierIsSupported(tree, st, 0, req.route);
  }

  // ---------------------------------------------------------------------
  // The outcome does not depend on scope registrations

  lemma {:induction false} NavigateIgnoresRegistration(tree: seq<Region>, env: Env, s1: seq<NavigatorState>, s2: seq<NavigatorState>,
                                                       i: RegionId, req: Request)
    requires Wf(tree, env, s1) && Wf(tree, env, s2) && i < |tree| && RoutesKept(s1, s2)
    ensures Navigate(tree, env, s1, i, req).1 == Navigate(tree, env, s2, i, req).1
    ensures RoutesKept(Navigate(tree, env, s1, i, req).0, Navigate(tree, env, s2, i, req).0)
    decreases Rank(req), Height(tree, i, req), 3, 0
  {
    match Initialise(env.resolver, req, env.fuel)
    case None =>
    case Some(request) =>
      var parent := tree[i].parent;
      assert CurrentBase(s1, i) == CurrentBase(s2, i);
      if request.route.isInternal {
        RespondIgnoresRegistration(tree, env, s1, s2, i, request);
      } else if !Supports(tree, env, s1, i, request.route) {
        assert !Supports(tree, env, s2, i, request.route);
        var up := if request.route.IsParent() then request.(route := request.route.TrimQualifier(PARENT)) else request;
        if !up.route.IsEmpty() && parent.Some? {
          NavigateIgnoresRegistration(tree, env, s1, s2, parent.value, up);
        }
      } else if request.route.IsRoot() && parent.Some? {
      } else {
        assert Supports(tree, env, s2, i, request.route);
        var (t1, request1) := if request.route.IsRoot() then TrimRoot(env.resolver, s1, i, request) else (s1, request);
        var (t2, request2) := if request.route.IsRoot() then TrimRoot(env.resolver, s2, i, request) else (s2, request);
        assert request1 == request2 && RoutesKept(t1, t2);
        if request1.route.IsChangeContent() && !IsNamed(tree[i]) && parent.Some? {
          NavigateIgnoresRegistration(tree, env, t1, t2, parent.value, request1);
        } else if !request1.route.IsDialog() {
          RespondIgnoresRegistration(tree, env, t1, t2, i, MarkInternal(request1));
        }
      }
  }

  lemma {:induction false} RespondIgnoresRegistration(tree: seq<Region>, env: Env, s1: seq<NavigatorState>, s2: seq<NavigatorState>,
                                                      i: RegionId, req: Request)
    requires Wf(tree, env, s1) && Wf(tree, env, s2) && i < |tree| && req.route.isInternal && RoutesKept(s1, s2)
    ensures Respond(tree, env, s1, i, req).1 == Respond(tree, env, s2, i, req).1
    ensures RoutesKept(Respond(tree, env, s1, i, req).0, Respond(tree, env, s2, i, req).0)
    decreases Rank(req), Height(tree, i, req), 2, 0
  {
    if tree[i].hasServices {
      var t1 := if req.result.Some? then s1 else s1[i := s1[i].(isScopeNavigator := true)];
      var t2 := if req.result.Some? then s2 else s2[i := s2[i].(isScopeNavigator := true)];
      assert RoutesKept(t1, t2);
      assert CurrentBase(t1, i) == CurrentBase(t2, i);
      assert AdvanceSegment(tree, env, t1, i, req) == AdvanceSegment(tree, env, t2, i, req);
      CoreIgnoresRegistration(tree, env, t1, t2, i, AdvanceSegment(tree, env, t1, i, req));
    }
  }

  lemma {:induction false} CoreIgnoresRegistration(tree: seq<Region>, env: Env, s1: seq<NavigatorState>, s2: seq<NavigatorState>,
                                                   i: RegionId, req: Request)
    requires Wf(tree, env, s1) && Wf(tree, env, s2) && i < |tree| && req.route.isInternal && RoutesKept(s1, s2)
    ensures Core(tree, env, s1, i, req).1 == Core(tree, env, s2, i, req).1
    ensures RoutesKept(Core(tree, env, s1, i, req).0, Core(tree, env, s2, i, req).0)
    decreases Rank(req), Height(tree, i, req), 1, 0
  {
    if tree[i].kind == Composite {
      assert FanOutRequest(tree, env.resolver, s1, i, req) == FanOutRequest(tree, env.resolver, s2, i, req);
      match FanOutRequest(tree, env.resolver, s1, i, req)
      case None =>
      case Some(q) =>
        assert CurrentBase(s1, i) == CurrentBase(s2, i);
        var cs := Selected(tree, s1, i, q.route.Base());
        assert cs == Selected(tree, s2, i, q.route.Base());
        SweepIgnoresRegistration(tree, env, s1, s2, i, cs, q);
    }
  }

  lemma {:induction false} SweepIgnoresRegistration(tree: seq<Region>, env: Env, s1: seq<NavigatorState>, s2: seq<NavigatorState>,
                                                    parent: RegionId, cs: seq<RegionId>, req: Request)
    requires Wf(tree, env, s1) && Wf(tree, env, s2) && parent < |tree| && req.route.isInternal && RoutesKept(s1, s2)
    requires forall k :: 0 <= k < |cs| ==> parent < cs[k] < |tree|
    ensures Sweep(tree, env, s1, parent, cs, req).1 == Sweep(tree, env, s2, parent, cs, req).1
    ensures RoutesKept(Sweep(tree, env, s1, parent, cs, req).0, Sweep(tree, env, s2, parent, cs, req).0)
    decreases Rank(req), Height(tree, parent, req), 0, |cs|
  {
    if cs != [] {
      NavigateIgnoresRegistration(tree, env, s1, s2, cs[0], req);
      var (a1, first) := Navigate(tree, env, s1, cs[0], req);
      var (a2, _) := Navigate(tree, env, s2, cs[0], req);
      if !first.RewriteDiverged? {
        SweepIgnoresRegistration(tree, env, a1, a2, parent, cs[1..], req);
      }
    }
  }

  // ---------------------------------------------------------------------
  // ResponseNavigateAsync

  /** With services, ResponseNavigateAsync answers what the fan-out gives
      for the request advanced by at most one segment, from the state before
      the call; a result request wraps a completed answer for the response
      navigator. */
  lemma RespondAnswersCore(tree: seq<Region>, env: Env, st: seq<NavigatorState>, i: RegionId, req: Request)
    requires Wf(tree, env, st) && i < |tree| && req.route.isInternal && tree[i].hasServices
    ensures var executed := Core(tree, env, st, i, AdvanceSegment(tree, env, st, i, req)).1;
            Respond(tree, env, st, i, req).1 ==
              if req.result.Some? && executed.Completed? then Completed(Some(WithResult(executed.response)))
              else executed
  {
    var st1 := if req.result.Some? then st else st[i := st[i].(isScopeNavigator := true)];
    assert RoutesKept(st1, st);
    assert CurrentBase(st1, i) == CurrentBase(st, i);
    assert AdvanceSegment(tree, env, st1, i, req) == AdvanceSegment(tree, env, st, i, req);
    CoreIgnoresRegistration(tree, env, st1, st, i, AdvanceSegment(tree, env, st, i, req));
  }

  // ---------------------------------------------------------------------
  // Fan-out

  /** What each child answers when it alone is sent the request from state
      `st`. */
  ghost function SoloOutcomes(tree: seq<Region>, env: Env, st: seq<NavigatorState>, cs: seq<RegionId>, req: Request): (r: seq<Outcome>)
    requires Wf(tree, env, st)
    requires forall k :: 0 <= k < |cs| ==> cs[k] < |tree|
    ensures |r| == |cs|
    ensures forall k :: 0 <= k < |cs| ==> r[k] == Navigate(tree, env, st, cs[k], req).1
  {
    seq(|cs|, k requires 0 <= k < |cs| => Navigate(tree, env, st, cs[k], req).1)
  }

  /** Each child of a fan-out answers as if it alone had been sent the
      request: the children before it change no Route, and scope
      registrations do not matter. */
  lemma {:induction false} SweepFollowsSolo(tree: seq<Region>, env: Env, st: seq<NavigatorState>, parent: RegionId,
                                            cs: seq<RegionId>, req: Request)
    requires Wf(tree, env, st) && parent < |tree| && req.route.isInternal
    requires forall k :: 0 <= k < |cs| ==> parent < cs[k] < |tree|
    ensures var done := Sweep(tree, env, st, parent, cs, req).1;
            done == SoloOutcomes(tree, env, st, cs, req)[..|done|]
    decreases |cs|
  {
    if cs != [] {
      var (st1, first) := Navigate(tree, env, st, cs[0], req);
      if !first.RewriteDiverged? {
        SweepFollowsSolo(tree, env, st1, parent, cs[1..], req);
        SoloIgnoresRegistration(tree, env, st1, st, cs[1..], req);
        SoloCons(tree, env, st, cs, req);
        var rest := Sweep(tree, env, st1, parent, cs[1..], req).1;
        assert Sweep(tree, env, st, parent, cs, req).1 == [first] + rest;
        PrefixCons(first, SoloOutcomes(tree, env, st, cs[1..], req), rest);
      } else {
        SoloCons(tree, env, st, cs, req);
      }
    }
  }

  lemma SoloCons(tree: seq<Region>, env: Env, st: seq<NavigatorState>, cs: seq<RegionId>, req: Request)
    requires Wf(tree, env, st) && cs != []
    requires forall k :: 0 <= k < |cs| ==> cs[k] < |tree|
    ensures SoloOutcomes(tree, env, st, cs, req) ==
              [Navigate(tree, env, st, cs[0], req).1] + SoloOutcomes(tree, env, st, cs[1..], req)
  {
    assert forall k :: 0 < k < |cs| ==> cs[1..][k - 1] == cs[k];
  }

  lemma PrefixCons<T>(x: T, s: seq<T>, p: seq<T>)
    requires |p| <= |s| && p == s[..|p|]
    ensures [x] + p == ([x] + s)[..|p| + 1]
  {
  }

  lemma SoloIgnoresRegistration(tree: seq<Region>, env: Env, s1: seq<NavigatorState>, s2: seq<NavigatorState>,
                                cs: seq<RegionId>, req: Request)
    requires Wf(tree, env, s1) && Wf(tree, env, s2) && RoutesKept(s1, s2)
    requires forall k :: 0 <= k < |cs| ==> cs[k] < |tree|
    ensures SoloOutcomes(tree, env, s1, cs, req) == SoloOutcomes(tree, env, s2, cs, req)
  {
    forall k | 0 <= k < |cs| ensures Navigate(tree, env, s1, cs[k], req).1 == Navigate(tree, env, s2, cs[k], req).1 {
      NavigateIgnoresRegistration(tree, env, s1, s2, cs[k], req);
    }
  }

  /** A base navigator's fan-out answers what joining the solo answers of
      the selected children, in child order, gives: the children are each
      sent the same request once, and a child that never returns makes the
      whole fan-out never return. */
  lemma CoreFansOut(tree: seq<Region>, env: Env, st: seq<NavigatorState>, i: RegionId, req: Request)
    requires Wf(tree, env, st) && i < |tree| && req.route.isInternal && tree[i].kind == Composite
    ensures Core(tree, env, st, i, req).1 ==
              match FanOutRequest(tree, env.resolver, st, i, req)
              case None => Completed(None)
              case Some(q) => Join(SoloOutcomes(tree, env, st, Selected(tree, st, i, q.route.Base()), q))
  {
    match FanOutRequest(tree, env.resolver, st, i, req)
    case None =>
    case Some(q) =>
      var cs := Selected(tree, st, i, q.route.Base());
      var done := Sweep(tree, env, st, i, cs, q).1;
      var solo := SoloOutcomes(tree, env, st, cs, q);
      SweepFollowsSolo(tree, env, st, i, cs, q);
      JoinOfStoppedPrefix(done, solo);
  }

  /** Cutting the outcomes off after one that never returns does not change
      what they join to. */
  lemma JoinOfStoppedPrefix(done: seq<Outcome>, all: seq<Outcome>)
    requires |done| <= |all| && done == all[..|done|]
    requires |done| < |all| ==> |done| > 0 && done[|done| - 1].RewriteDiverged?
    ensures Join(done) == Join(all)
  {
    if |done| == |all| {
      assert done == all;
    } else {
      assert all[|done| - 1].RewriteDiverged?;
    }
  }

  /** When every child completes, the fan-out answers the first non-null
      response in child order. */
  lemma {:induction false} JoinAnswersFirstResponse(tasks: seq<Outcome>, k: nat)
    requires forall j :: 0 <= j < |tasks| ==> tasks[j].Completed?
    requires k < |tasks| && tasks[k].response.Some?
    requires forall j :: 0 <= j < k ==> tasks[j].response.None?
    ensures Join(tasks) == tasks[k]
    decreases k
  {
    if k > 0 {
      assert tasks[1..][k - 1] == tasks[k];
      JoinAnswersFirstResponse(tasks[1..], k - 1);
    } else {
      assert forall j :: 0 <= j < |tasks[1..]| ==> tasks[1..][j] == tasks[j + 1];
    }
  }

  /** Putting the two together: when every selected child completes, the
      base navigator answers the response of the first selected child whose
      response is not null, or null when there is none. */
  lemma CoreAnswersFirstChildResponse(tree: seq<Region>, env: Env, st: seq<NavigatorState>, i: RegionId, req: Request,
                                      q: Request, k: nat)
    requires Wf(tree, env, st) && i < |tree| && req.route.isInternal && tree[i].kind == Composite
    requires FanOutRequest(tree, env.resolver, st, i, req) == Some(q)
    requires var cs := Selected(tree, st, i, q.route.Base());
             && (forall j :: 0 <= j < |cs| ==> Navigate(tree, env, st, cs[j], q).1.Completed?)
             && k < |cs| && Navigate(tree, env, st, cs[k], q).1.response.Some?
             && (forall j :: 0 <= j < k ==> Navigate(tree, env, st, cs[j], q).1.response.None?)
    ensures Core(tree, env, st, i, req).1 == Navigate(tree, env, st, Selected(tree, st, i, q.route.Base())[k], q).1
  {
    var cs := Selected(tree, st, i, q.route.Base());
    CoreFansOut(tree, env, st, i, req);
    JoinAnswersFirstResponse(SoloOutcomes(tree, env, st, cs, q), k);
  }

  /** The same in the order of the region's children: when every matching
      child completes, a base navigator answers the response of the first
      matching child, in child order, whose response is not null. */
  lemma CoreAnswersFirstMatchingChild(tree: seq<Region>, env: Env, st: seq<NavigatorState>, i: RegionId, req: Request,
                                      q: Request, k: nat)
    requires Wf(tree, env, st) && i < |tree| && req.route.isInternal && tree[i].kind == Composite
    requires FanOutRequest(tree, env.resolver, st, i, req) == Some(q)
    requires var cs := tree[i].children;
             var current := CurrentBase(st, i);
             && (forall j :: 0 <= j < |cs| && ChildMatches(tree[cs[j]], q.route.Base(), current) ==>
                               Navigate(tree, env, st, cs[j], q).1.Completed?)
             && k < |cs| && ChildMatches(tree[cs[k]], q.route.Base(), current)
             && Navigate(tree, env, st, cs[k], q).1.response.Some?
             && (forall j :: 0 <= j < k && ChildMatches(tree[cs[j]], q.route.Base(), current) ==>
                               Navigate(tree, env, st, cs[j], q).1.response.None?)
    ensures Core(tree, env, st, i, req).1 == Navigate(tree, env, st, tree[i].children[k], q).1
  {
    var cs := tree[i].children;
    var sel := Selected(tree, st, i, q.route.Base());
    assert cs[k] in sel;
    var p :| 0 <= p < |sel| && sel[p] == cs[k];
    forall j | 0 <= j < |sel| ensures Navigate(tree, env, st, sel[j], q).1.Completed? {
      assert sel[j] in cs;
      var x :| 0 <= x < |cs| && cs[x] == sel[j];
    }
    forall j | 0 <= j < p ensures Navigate(tree, env, st, sel[j], q).1.response.None? {
      assert Precedes(cs, sel[j], sel[p]);
      var x, y :| 0 <= x < y < |cs| && cs[x] == sel[j] && cs[y] == sel[p];
      assert NoDuplicates(cs);
      assert y == k;
    }
    CoreAnswersFirstChildResponse(tree, env, st, i, req, q, p);
  }
}
