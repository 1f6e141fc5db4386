/** The navigator's routing decisions, as functions over the region arena
    and the navigators' state.

    `Navigate` is what NavigateAsync does for one request at one region,
    `Respond` is ResponseNavigateAsync, `Core` is CoreNavigateAsync and
    `Sweep` is its loop over the selected children. Each answers the new
    state of all navigators together with the outcome of the call. */
module Navigation {
  import opened Wrappers
  import opened Routes
  import opened RouteMaps
  import opened Regions

  /** What one navigator keeps between navigations: its `Route` property, and
      whether it is the navigator registered as `INavigator` in its region's
      scope. */
  datatype NavigatorState = NavigatorState(current: Option<Route>, isScopeNavigator: bool)

  /** What the dialog navigator factory of a region does with a request: it
      creates no navigator, or creates one that answers this response. */
  datatype DialogOutcome = NoDialogNavigator | DialogNavigated(response: Option<Response>)

  /** The collaborators the navigator calls but whose code is not modelled:
      the route map registry, the bound on the rewrite loop, the dialog
      navigators, and the overrides of the derived navigators. */
  datatype Env = Env(
    resolver: Resolver,
    fuel: nat,
    dialog: (RegionId, Request) -> DialogOutcome,
    supports: (RegionId, Route) -> bool,
    canNavigate: (RegionId, Route) -> bool,
    ownCore: (RegionId, Request) -> Option<Response>)

  /** How a NavigateAsync call ends: with a response (`None` is the null
      response), or never, because a rewrite loop did not settle. */
  datatype Outcome = Completed(response: Option<Response>) | RewriteDiverged

  ghost predicate Wf(tree: seq<Region>, env: Env, st: seq<NavigatorState>) {
    TreeValid(tree) && |st| == |tree| && InitsKeepInternal(env.resolver)
  }

  /** `this.Route?.Base`. */
  function CurrentBase(st: seq<NavigatorState>, i: RegionId): Option<string>
    requires i < |st|
  {
    if st[i].current.Some? then Some(st[i].current.value.Base()) else None
  }

  /** The children of region `i` that a fan-out for `base` takes. */
  function Selected(tree: seq<Region>, st: seq<NavigatorState>, i: RegionId, base: string): (r: seq<RegionId>)
    requires TreeValid(tree) && |st| == |tree| && i < |tree|
    ensures forall c :: c in r ==> c in tree[i].children
    ensures forall k :: 0 <= k < |tree[i].children| ==>
              (tree[i].children[k] in r <==> ChildMatches(tree[tree[i].children[k]], base, CurrentBase(st, i)))
    ensures forall k :: 0 <= k < |r| ==> i < r[k] < |tree|
    ensures NoDuplicates(r)
    ensures InOrder(r, tree[i].children)
  {
    var cs := tree[i].children;
    var r := SelectChildren(tree, cs, base, CurrentBase(st, i));
    assert forall k :: 0 <= k < |r| ==> i < r[k] < |tree| by {
      forall k | 0 <= k < |r| ensures i < r[k] < |tree| {
        assert r[k] in cs;
        var j :| 0 <= j < |cs| && cs[j] == r[k];
      }
    }
    r
  }

  /** The base class's QualifierIsSupported: a nested route is supported when
      some child is unnamed or named after the route's own base or the base
      of the current Route; the root navigator also supports root and dialog
      routes. */
  function QualifierIsSupported(tree: seq<Region>, st: seq<NavigatorState>, i: RegionId, route: Route): (b: bool)
    requires TreeValid(tree) && |st| == |tree| && i < |tree|
    ensures route.IsNested() ==> (b <==> Selected(tree, st, i, route.Base()) != [])
    ensures route.IsNested() ==>
              (b <==> exists k :: 0 <= k < |tree[i].children| &&
                                  ChildMatches(tree[tree[i].children[k]], route.Base(), CurrentBase(st, i)))
    ensures !route.IsNested() ==> (b <==> tree[i].parent.None? && (route.IsRoot() || route.IsDialog()))
  {
    var cs := tree[i].children;
    assert forall k :: 0 <= k < |cs| ==> cs[k] in cs;
    var sel := Selected(tree, st, i, route.Base());
    assert sel != [] ==> sel[0] in sel;
    (route.IsNested() && exists c :: c in cs && ChildMatches(tree[c], route.Base(), CurrentBase(st, i)))
    || (tree[i].parent.None? && (route.IsRoot() || route.IsDialog()))
  }

  /** The base class's CanNavigateToRoute. As no route is both nested and
      root- or dialog-qualified, it holds only at the root navigator, for
      root and dialog routes. */
  function CanNavigateToRoute(tree: seq<Region>, st: seq<NavigatorState>, i: RegionId, route: Route): (b: bool)
    requires TreeValid(tree) && |st| == |tree| && i < |tree|
    ensures b <==> tree[i].parent.None? && (route.IsRoot() || route.IsDialog())
  {
    QualifierIsSupported(tree, st, i, route) && !route.IsNested()
  }

  /** QualifierIsSupported as dispatched to the region's navigator. */
  predicate Supports(tree: seq<Region>, env: Env, st: seq<NavigatorState>, i: RegionId, route: Route)
    requires TreeValid(tree) && |st| == |tree| && i < |tree|
  {
    match tree[i].kind
    case Composite => QualifierIsSupported(tree, st, i, route)
    case Specialised => env.supports(i, route)
  }

  /** CanNavigateToRoute as dispatched to the region's navigator. */
  predicate CanNavigate(tree: seq<Region>, env: Env, st: seq<NavigatorState>, i: RegionId, route: Route)
    requires TreeValid(tree) && |st| == |tree| && i < |tree|
  {
    match tree[i].kind
    case Composite => CanNavigateToRoute(tree, st, i, route)
    case Specialised => env.canNavigate(i, route)
  }

  /** DialogNavigateAsync: the response of the navigator that the region's
      dialog factory creates, untouched; null without services, without a
      factory, or when the factory creates no navigator. */
  function DialogNavigate(tree: seq<Region>, env: Env, i: RegionId, req: Request): (r: Option<Response>)
    requires i < |tree|
    ensures r.Some? ==> tree[i].hasServices && tree[i].hasDialogFactory && env.dialog(i, req) == DialogNavigated(r)
    ensures tree[i].hasServices && tree[i].hasDialogFactory && env.dialog(i, req).DialogNavigated? ==>
              r == env.dialog(i, req).response
  {
    if tree[i].hasServices && tree[i].hasDialogFactory then
      match env.dialog(i, req)
      case NoDialogNavigator => None
      case DialogNavigated(response) => response
    else None
  }

  /** The segment step of ResponseNavigateAsync: a named region whose name is
      the route's base, and whose navigator can navigate to the rest of the
      route, consumes exactly that one segment; otherwise nothing changes. */
  function AdvanceSegment(tree: seq<Region>, env: Env, st: seq<NavigatorState>, i: RegionId, req: Request): (r: Request)
    requires TreeValid(tree) && |st| == |tree| && i < |tree|
    ensures r.result == req.result && r.route.qualifier == req.route.qualifier
    ensures r.route.isInternal == req.route.isInternal
    ensures var advance := IsNamed(tree[i]) && tree[i].name == req.route.Base() &&
                           CanNavigate(tree, env, st, i, req.route.Next());
            (advance ==> |req.route.segments| > 0 && r.route.segments == req.route.segments[1..]) &&
            (!advance ==> r == req)
    ensures r != req ==> req.route.segments == [tree[i].name] + r.route.segments
  {
    if IsNamed(tree[i]) && tree[i].name == req.route.Base() && CanNavigate(tree, env, st, i, req.route.Next())
    then req.(route := req.route.Next())
    else req
  }

  /** The request a base navigator hands to its children (lines 243-269):
      an empty route takes the path of the default nested map of the
      navigator's current route; if it is still empty there is nothing to
      do. A named region drops the expected-result marker, and the nested
      qualifier is trimmed; any other qualifier reaches the children as it
      is. */
  function FanOutRequest(tree: seq<Region>, res: Resolver, st: seq<NavigatorState>, i: RegionId, req: Request): (r: Option<Request>)
    requires |st| == |tree| && i < |tree|
    ensures r.None? <==> req.route.IsEmpty() &&
                         (DefaultChildPath(res, st[i].current).None? || DefaultChildPath(res, st[i].current).value == [])
    ensures r.Some? ==> && r.value.route.isInternal == req.route.isInternal
                        && !r.value.route.IsEmpty() && !r.value.route.IsNested()
                        && r.value.result == (if IsNamed(tree[i]) then None else req.result)
    ensures r.Some? && !req.route.IsEmpty() ==> r.value.route.segments == req.route.segments
    ensures r.Some? && req.route.IsEmpty() ==> r.value.route.segments == DefaultChildPath(res, st[i].current).value
    ensures r.Some? ==> r.value.route.qualifier == (if req.route.IsNested() then NoQualifier else req.route.qualifier)
  {
    var withDefault :=
      if req.route.IsEmpty() then
        match DefaultChildPath(res, st[i].current)
        case Some(path) => req.(route := req.route.Append(path))
        case None => req
      else req;
    if withDefault.route.IsEmpty() then None
    else
      var forChildren := if IsNamed(tree[i]) && withDefault.result.Some? then withDefault.(result := None) else withDefault;
      Some(forChildren.(route := forChildren.route.TrimQualifier(Nested)))
  }

  /** The outcome of a fan-out (lines 287-289): it completes only when every
      child call completes, and then answers the first non-null response in
      child order. */
  function Join(tasks: seq<Outcome>): (r: Outcome)
    ensures r.RewriteDiverged? <==> exists k :: 0 <= k < |tasks| && tasks[k].RewriteDiverged?
    ensures r == Completed(None) <==> forall k :: 0 <= k < |tasks| ==> tasks[k] == Completed(None)
  {
    if tasks == [] then Completed(None)
    else
      var rest := Join(tasks[1..]);
      assert forall k :: 1 <= k < |tasks| ==> tasks[k] == tasks[1..][k - 1];
      match tasks[0]
      case RewriteDiverged => RewriteDiverged
      case Completed(None) => rest
      case Completed(Some(_)) => if rest.RewriteDiverged? then RewriteDiverged else tasks[0]
  }

  /** Lines 77-89: the root navigator trims "/"; a route left empty resets
      the navigator's Route to the empty route and takes the path of the
      registry's default map when there is one. */
  function TrimRoot(res: Resolver, st: seq<NavigatorState>, i: RegionId, req: Request): (seq<NavigatorState>, Request)
    requires i < |st|
  {
    var trimmed := req.(route := req.route.TrimQualifier(Root));
    if trimmed.route.IsEmpty() then
      (st[i := st[i].(current := Some(EMPTY_ROUTE))],
       match res.defaultMap
       case Some(m) => trimmed.(route := trimmed.route.Append(m.path))
       case None => trimmed)
    else (st, trimmed)
  }

  /** The first two components of the termination measure: a call that may
      still forward upwards (a route not yet internal) ranks above every
      internal one and goes up the tree, an internal one goes down. */
  function Rank(req: Request): nat {
    if req.route.isInternal then 0 else 1
  }

  function Height(tree: seq<Region>, i: RegionId, req: Request): nat
    requires i < |tree|
  {
    if req.route.isInternal then |tree| - i else i
  }

  /** No navigator's Route changes. */
  ghost predicate RoutesKept(st: seq<NavigatorState>, st': seq<NavigatorState>) {
    |st'| == |st| && forall k :: 0 <= k < |st| ==> st'[k].current == st[k].current
  }

  /** Only the root navigator's Route may change, and only to the empty
      route. */
  ghost predicate OnlyRootReset(st: seq<NavigatorState>, st': seq<NavigatorState>) {
    && |st'| == |st| && |st| > 0
    && (forall k :: 0 < k < |st| ==> st'[k].current == st[k].current)
    && (st'[0].current == st[0].current || st'[0].current == Some(EMPTY_ROUTE))
  }

  /** A navigator registered in its scope stays registered. */
  ghost predicate RegistrationsKept(st: seq<NavigatorState>, st': seq<NavigatorState>) {
    |st'| == |st| && forall k :: 0 <= k < |st| && st[k].isScopeNavigator ==> st'[k].isScopeNavigator
  }

  /** The navigators of the regions before `n` in the arena, among them every
      ancestor of `n`, are untouched. */
  ghost predicate KeptBefore(st: seq<NavigatorState>, st': seq<NavigatorState>, n: nat) {
    |st'| == |st| && forall k :: 0 <= k < n && k < |st| ==> st'[k] == st[k]
  }

  /** NavigateAsync at region `i`. */
  function Navigate(tree: seq<Region>, env: Env, st: seq<NavigatorState>, i: RegionId, req: Request)
    : (r: (seq<NavigatorState>, Outcome))
    requires Wf(tree, env, st) && i < |tree|
    ensures OnlyRootReset(st, r.0) && RegistrationsKept(st, r.0)
    ensures req.route.isInternal ==> RoutesKept(st, r.0) && KeptBefore(st, r.0, i)
    decreases Rank(req), Height(tree, i, req), 3, 0
  {
    match Initialise(env.resolver, req, env.fuel)
    case None => (st, RewriteDiverged)
    case Some(request) =>
      var parent := tree[i].parent;
      if request.route.isInternal then Respond(tree, env, st, i, request)
      else if !Supports(tree, env, st, i, request.route) then
        var up := if request.route.IsParent() then request.(route := request.route.TrimQualifier(PARENT)) else request;
        if up.route.IsEmpty() || parent.None? then (st, Completed(None))
        else Navigate(tree, env, st, parent.value, up)
      else if request.route.IsRoot() && parent.Some? then (st, Completed(None))
      else
        var (st1, request1) := if request.route.IsRoot() then TrimRoot(env.resolver, st, i, request) else (st, request);
        if request1.route.IsChangeContent() && !IsNamed(tree[i]) && parent.Some? then
          Navigate(tree, env, st1, parent.value, request1)
        else
          var request2 := request1.(route := request1.route.(isInternal := true));
          if request2.route.IsDialog() then (st1, Completed(DialogNavigate(tree, env, i, request2)))
          else Respond(tree, env, st1, i, request2)
  }

  /** ResponseNavigateAsync at region `i`. */
  function Respond(tree: seq<Region>, env: Env, st: seq<NavigatorState>, i: RegionId, req: Request)
    : (r: (seq<NavigatorState>, Outcome))
    requires Wf(tree, env, st) && i < |tree| && req.route.isInternal
    ensures RoutesKept(st, r.0) && RegistrationsKept(st, r.0) && KeptBefore(st, r.0, i)
    ensures r.0[i] == if tree[i].hasServices && req.result.None? then st[i].(isScopeNavigator := true) else st[i]
    ensures !tree[i].hasServices ==> r == (st, Completed(None))
    ensures tree[i].hasServices && req.result.Some? ==>
              r.1.RewriteDiverged? || (r.1.response.Some? && r.1.response.value.WithResult?)
    decreases Rank(req), Height(tree, i, req), 2, 0
  {
    if !tree[i].hasServices then (st, Completed(None))
    else
      var st1 := if req.result.Some? then st else st[i := st[i].(isScopeNavigator := true)];
      var (st2, executed) := Core(tree, env, st1, i, AdvanceSegment(tree, env, st1, i, req));
      if req.result.Some? && executed.Completed? then (st2, Completed(Some(WithResult(executed.response))))
      else (st2, executed)
  }

  /** CoreNavigateAsync at region `i`: a derived navigator answers with its
      own override; the base navigator fans the request out to the selected
      children. */
  function Core(tree: seq<Region>, env: Env, st: seq<NavigatorState>, i: RegionId, req: Request)
    : (r: (seq<NavigatorState>, Outcome))
    requires Wf(tree, env, st) && i < |tree| && req.route.isInternal
    ensures RoutesKept(st, r.0) && RegistrationsKept(st, r.0) && KeptBefore(st, r.0, i + 1)
    decreases Rank(req), Height(tree, i, req), 1, 0
  {
    if tree[i].kind.Specialised? then (st, Completed(env.ownCore(i, req)))
    else
      match FanOutRequest(tree, env.resolver, st, i, req)
      case None => (st, Completed(None))
      case Some(q) =>
        var (st1, tasks) := Sweep(tree, env, st, i, Selected(tree, st, i, q.route.Base()), q);
        (st1, Join(tasks))
  }

  /** The loop of CoreNavigateAsync over the selected children `cs` of
      `parent`: each child is sent the same request once, in order. A child
      whose rewrite loop does not settle never returns, so the children
      after it are not reached. */
  function Sweep(tree: seq<Region>, env: Env, st: seq<NavigatorState>, parent: RegionId, cs: seq<RegionId>, req: Request)
    : (r: (seq<NavigatorState>, seq<Outcome>))
    requires Wf(tree, env, st) && parent < |tree| && req.route.isInternal
    requires forall k :: 0 <= k < |cs| ==> parent < cs[k] < |tree|
    ensures RoutesKept(st, r.0) && RegistrationsKept(st, r.0) && KeptBefore(st, r.0, parent + 1)
    ensures |r.1| <= |cs|
    ensures forall k :: 0 <= k < |r.1| - 1 ==> r.1[k].Completed?
    ensures |r.1| < |cs| ==> |r.1| > 0 && r.1[|r.1| - 1].RewriteDiverged?
    decreases Rank(req), Height(tree, parent, req), 0, |cs|
  {
    if cs == [] then (st, [])
    else
      var (st1, first) := Navigate(tree, env, st, cs[0], req);
      if first.RewriteDiverged? then (st1, [first])
      else
        var (st2, rest) := Sweep(tree, env, st1, parent, cs[1..], req);
        (st2, [first] + rest)
  }

  /** One turn of the loop over the children: when the children before `k`
      have left the state `st` and the outcomes `done`, sending the request
      to child `k` extends that prefix by one. */
  lemma SweepStep(tree: seq<Region>, env: Env, start: seq<NavigatorState>, parent: RegionId, cs: seq<RegionId>,
                  req: Request, k: nat, st: seq<NavigatorState>, done: seq<Outcome>, st': seq<NavigatorState>, child: Outcome)
    requires Wf(tree, env, start) && Wf(tree, env, st) && parent < |tree| && req.route.isInternal
    requires forall j :: 0 <= j < |cs| ==> parent < cs[j] < |tree|
    requires k < |cs|
    requires Sweep(tree, env, start, parent, cs, req).0 == Sweep(tree, env, st, parent, cs[k..], req).0
    requires Sweep(tree, env, start, parent, cs, req).1 == done + Sweep(tree, env, st, parent, cs[k..], req).1
    requires (st', child) == Navigate(tree, env, st, cs[k], req)
    ensures Wf(tree, env, st')
    ensures child.RewriteDiverged? ==> Sweep(tree, env, start, parent, cs, req) == (st', done + [child])
    ensures child.Completed? ==>
              && Sweep(tree, env, start, parent, cs, req).0 == Sweep(tree, env, st', parent, cs[k + 1..], req).0
              && Sweep(tree, env, start, parent, cs, req).1 == (done + [child]) + Sweep(tree, env, st', parent, cs[k + 1..], req).1
  {
    assert cs[k..][0] == cs[k] && cs[k..][1..] == cs[k + 1..];
    if child.Completed? {
      var rest := Sweep(tree, env, st', parent, cs[k + 1..], req);
      assert Sweep(tree, env, st, parent, cs[k..], req) == (rest.0, [child] + rest.1);
      assert done + ([child] + rest.1) == (done + [child]) + rest.1;
    }
  }
}
