# Navigator routing engine, modelled in Dafny

This project models the routing core of the Uno Platform navigation
extension: the `Navigator` class of `src/Uno.Extensions.Navigation.UI/Navigator.cs`.
A navigator sits on one region of a tree of regions. It takes a navigation
request and decides, step by step, what happens to it:

- **Normalise.** The `Init` hooks of the route maps rewrite the request until its route base stops changing (`InitialiseRequest`).
- **Dispatch on the qualifier.**
  - A route whose qualifier the navigator does not support goes to the parent, with one `../` level trimmed.
  - The root navigator consumes `/`. When the route is then empty, the navigator's `Route` is reset and the default route map's path is appended.
  - An unnamed region passes a plain content change up to its parent.
  - `!` goes to a dialog navigator.
- **Mark internal.** The route is stamped internal, so it is never forwarded upward again.
- **Respond.** Without services the answer is null. A request that expects no result registers the navigator as the scope's current navigator. A named region whose name is the route's base consumes that one segment, but only when the navigator can navigate to the rest of the route (`CanNavigateToRoute` at line 222). For the base class that holds only at the root, and only for a `/` or `!` route (`ResponseNavigateAsync`).
- **Fan out.** The request goes to every child whose name is blank, equals the route's base or equals the base of the navigator's current route. The answer is the first non-null child response, in child order (`CoreNavigateAsync`).

Modules:

- `Routes` (routes.dfy) holds routes, requests and responses. A route is a qualifier, the segments still to be routed and the internal flag. The route helpers the navigator calls (`Base`, `Next`, `Append`, `TrimQualifier`, `IsEmpty`, the qualifier tests) are not part of the modelled source. They are given the simplest meaning their use allows.
- `RouteMaps` (route_maps.dfy) holds the route map registry and the rewrite loop `Initialise`. The loop gets a fuel bound, because the source loop has no iteration cap. A loop that does not settle within the bound is reported as divergence, not assumed to converge.
- `Regions` (regions.dfy) holds the region tree as an arena. The root is at index 0 and every parent comes before its children. It also holds the child selection predicate.
- `Navigation` (navigation.dfy) holds the routing decisions as mutually recursive functions over the arena and every navigator's state. The state is each navigator's `Route` property and whether it is registered in its scope:
  - `Navigate` is `NavigateAsync`;
  - `Respond` is `ResponseNavigateAsync`;
  - `Core` is `CoreNavigateAsync`;
  - `Sweep` is its loop over the children.

  Recursion terminates because a route that is not internal only moves up the tree, and an internal route only moves down.
- `Navigators` (navigators.dfy) is the navigator tree as an object. The navigators' state is a field that the methods update in place. Each method (`NavigateAsync`, `InitialiseRequest`, `ResponseNavigateAsync`, `CoreNavigateAsync` and the fan-out loop) follows the source statement by statement. Each is proved to leave exactly the state, and return exactly the outcome, that the matching function describes.
- `NavigationLemmas` (navigation_lemmas.dfy) holds the routing promises, proved about those functions.

The navigators derived from `Navigator` (frame, content control, panel, …) override `QualifierIsSupported`, `CanNavigateToRoute` and `CoreNavigateAsync`. Their code is not part of this model. A region whose navigator is such a derived one is marked `Specialised`, and its overrides are parameters of the model (`Env.supports`, `Env.canNavigate`, `Env.ownCore`). A `Composite` region uses the base class's code, which is modelled in full.

## Notes on the code's behaviour

- **Root route below the root.** The base `QualifierIsSupported` never supports `/` below the root. A root-qualified route there takes the unsupported-qualifier branch (lines 43-64) and is forwarded to the parent. In a tree of base navigators it climbs to the root (`RootRouteClimbsToRoot`). The logged-error branch at lines 91-95 can be reached only by a derived navigator that supports `/` below the root (`RootRouteBelowRootAnswersNull`).
- **Empty routes are answered before forwarding.** At line 51 an empty route gets null before any forwarding. The model reads `IsEmpty` as "no segments are left, whatever the qualifier". Under that reading, a bare `/` sent below the root never reaches the root (`EmptyRootRouteStopsBelowRoot`). Likewise a bare `../` or `../../` gets null at the navigator that trims it, and the parent is never called.

## Model

| member | source | states |
|---|---|---|
| RouteMaps.Initialise | src/Uno.Extensions.Navigation.UI/Navigator.cs:138-156 | a request whose base has no map with an `Init` hook comes back unchanged; a rewritten request keeps the internal flag when the hooks do |
| RouteMaps.Settle | src/Uno.Extensions.Navigation.UI/Navigator.cs:144-153 | the loop's answer, when it settles, keeps the internal flag of the newest rewrite |
| RouteMaps.InitialiseStopsAtFirstStable | src/Uno.Extensions.Navigation.UI/Navigator.cs:138-156 | the loop exits exactly at the first rewrite whose route base equals that of the request before it, and answers that rewrite; past the fuel bound it reports divergence |
| RouteMaps.InitialiseDiverges | src/Uno.Extensions.Navigation.UI/Navigator.cs:144-152 | when no rewrite within the bound repeats its predecessor's base, the loop does not settle |
| RouteMaps.InitialiseFuelMonotone | src/Uno.Extensions.Navigation.UI/Navigator.cs:144-152 | more fuel never changes a settled answer, so the bound only cuts off loops that run on |
| RouteMaps.FirstDefault | src/Uno.Extensions.Navigation.UI/Navigator.cs:247 | the index of the first nested map flagged default, and none exactly when no map is flagged |
| RouteMaps.DefaultChildPath | src/Uno.Extensions.Navigation.UI/Navigator.cs:244-253 | a path is found exactly when there is a current route, its base has a map and that map has a default nested map; the path is that of the first default nested map |
| Navigators.NavigatorTree.InitialiseRequest | src/Uno.Extensions.Navigation.UI/Navigator.cs:138-156 | the while loop answers what the rewrite function `Initialise` describes |
| Regions.SelectChildren | src/Uno.Extensions.Navigation.UI/Navigator.cs:271-279 | a child is selected exactly when it is blank-named, named like the route base or named like the current route's base; only children are selected, none twice, and in the children's order |
| Navigation.Selected | src/Uno.Extensions.Navigation.UI/Navigator.cs:271-279 | exactly the matching children of the region, in child order and without repetition, all of them later in the arena |
| Navigation.QualifierIsSupported | src/Uno.Extensions.Navigation.UI/Navigator.cs:158-176 | a nested route is supported exactly when some child matches the route's own base (an unnamed child, or one named after that base or after the base of the current Route); any other route is supported exactly at the root, and only when root- or dialog-qualified |
| Navigation.CanNavigateToRoute | src/Uno.Extensions.Navigation.UI/Navigator.cs:178 | holds exactly at the root for root and dialog routes |
| Navigation.DialogNavigate | src/Uno.Extensions.Navigation.UI/Navigator.cs:180-187 | the dialog navigator's response unmodified; null without services, without a factory, or when the factory creates no navigator |
| Navigation.AdvanceSegment | src/Uno.Extensions.Navigation.UI/Navigator.cs:219-225 | exactly one segment is consumed, and only when the region is named, its name is the route base and the navigator can navigate to the rest; otherwise the request is unchanged |
| Navigation.FanOutRequest | src/Uno.Extensions.Navigation.UI/Navigator.cs:243-269 | null exactly for an empty route with no non-empty default nested path; otherwise a non-empty route with the original or default segments, the nested qualifier trimmed and any other qualifier kept, and no result marker past a named region |
| Navigation.Join | src/Uno.Extensions.Navigation.UI/Navigator.cs:281-289 | the fan-out never returns exactly when some child never returns, and answers null exactly when every child answers null |
| Navigation.Navigate | src/Uno.Extensions.Navigation.UI/Navigator.cs:31-136 | only the root navigator's Route may change, and only to the empty route; an internal request changes no Route and no navigator before the region |
| Navigation.Respond | src/Uno.Extensions.Navigation.UI/Navigator.cs:189-239 | null, with nothing changed, without services; a result request is answered by a wrapped response or never returns; the navigator registers itself exactly when it has services and no result is requested; no Route changes and nothing above the region changes |
| Navigation.Core | src/Uno.Extensions.Navigation.UI/Navigator.cs:241-291 | a fan-out changes no Route and touches only navigators after the region |
| Navigation.Sweep | src/Uno.Extensions.Navigation.UI/Navigator.cs:281-287 | at most one outcome per selected child; every outcome but the last completes, and the loop stops short of the last child only at a child that never returns; no Route changes and nothing up to the parent changes |
| Navigators.NavigatorTree.NavigateAsync | src/Uno.Extensions.Navigation.UI/Navigator.cs:31-136 | the method leaves the state and returns the outcome that `Navigate` describes |
| Navigators.NavigatorTree.ResponseNavigateAsync | src/Uno.Extensions.Navigation.UI/Navigator.cs:189-239 | the method leaves the state and returns the outcome that `Respond` describes |
| Navigators.NavigatorTree.CoreNavigateAsync | src/Uno.Extensions.Navigation.UI/Navigator.cs:241-291 | the method leaves the state and returns the outcome that `Core` describes |
| Navigators.NavigatorTree.NavigateChildren | src/Uno.Extensions.Navigation.UI/Navigator.cs:281-286 | the foreach loop leaves the state and collects the outcomes that `Sweep` describes |
| NavigationLemmas.InternalSkipsQualifiers | src/Uno.Extensions.Navigation.UI/Navigator.cs:38-128 | an internal request goes from the rewrite loop straight to ResponseNavigateAsync at the same navigator, with no forwarding, trimming or dialog dispatch; no ancestor's navigator and no Route changes |
| NavigationLemmas.UnsupportedGoesToParent | src/Uno.Extensions.Navigation.UI/Navigator.cs:43-64 | an unsupported route loses one `../` level and the parent's response is returned unchanged; null when the route is left empty or there is no parent |
| NavigationLemmas.ParentRouteGoesUpOneLevel | src/Uno.Extensions.Navigation.UI/Navigator.cs:43-58 | a base navigator with a parent sends `../` up with one level fewer |
| NavigationLemmas.ChangeContentPassesUp | src/Uno.Extensions.Navigation.UI/Navigator.cs:43-106 | a content change at an unnamed region with a parent goes to the parent unchanged |
| NavigationLemmas.RootRouteClimbsToRoot | src/Uno.Extensions.Navigation.UI/Navigator.cs:43-60 | in a tree of base navigators a non-empty root or dialog route from any region is handled exactly as at the root |
| NavigationLemmas.EmptyRootRouteStopsBelowRoot | src/Uno.Extensions.Navigation.UI/Navigator.cs:43-54 | reading `IsEmpty` as "no segments left, whatever the qualifier": a bare `/` at a base navigator below the root answers null and changes nothing |
| NavigationLemmas.RootRouteBelowRootAnswersNull | src/Uno.Extensions.Navigation.UI/Navigator.cs:68-95 | a navigator with a parent that supports `/` answers null and changes nothing; such a navigator is necessarily a derived one |
| NavigationLemmas.RootRouteAtRoot | src/Uno.Extensions.Navigation.UI/Navigator.cs:68-95 | the root trims `/`; a route left empty resets the root's Route to the empty route and takes the default map's path; the request goes on internal to ResponseNavigateAsync |
| NavigationLemmas.DialogRouteAnswersRootDialog | src/Uno.Extensions.Navigation.UI/Navigator.cs:109-118 | in a tree of base navigators a dialog route from any region answers the root's dialog navigator's response, internal and unmodified, and changes no state |
| NavigationLemmas.NavigateIgnoresRegistration | src/Uno.Extensions.Navigation.UI/Navigator.cs:209-218 | in the model no routing decision reads the registration flag: two states with the same Routes give the same outcome and the same Routes afterwards, which is what lets the children be called one after another |
| NavigationLemmas.RespondIgnoresRegistration | src/Uno.Extensions.Navigation.UI/Navigator.cs:189-239 | the same fact of the model for ResponseNavigateAsync |
| NavigationLemmas.CoreIgnoresRegistration | src/Uno.Extensions.Navigation.UI/Navigator.cs:241-291 | the same fact of the model for CoreNavigateAsync |
| NavigationLemmas.SweepIgnoresRegistration | src/Uno.Extensions.Navigation.UI/Navigator.cs:281-287 | the same fact of the model for the loop over the children |
| NavigationLemmas.RespondAnswersCore | src/Uno.Extensions.Navigation.UI/Navigator.cs:209-237 | with services, the answer is the fan-out's answer to the request advanced by at most one segment, wrapped for the response navigator when a result is requested and the fan-out completes |
| NavigationLemmas.SweepFollowsSolo | src/Uno.Extensions.Navigation.UI/Navigator.cs:281-287 | the outcomes of a fan-out are a prefix of the answers each child gives when sent the request alone, so the order of the calls does not change any child's answer |
| NavigationLemmas.CoreFansOut | src/Uno.Extensions.Navigation.UI/Navigator.cs:241-291 | a base navigator's answer is the join of the solo answers of the selected children, each sent the same request once, in child order |
| NavigationLemmas.JoinAnswersFirstResponse | src/Uno.Extensions.Navigation.UI/Navigator.cs:287-289 | when every child completes, the join is the first non-null response in child order |
| NavigationLemmas.CoreAnswersFirstChildResponse | src/Uno.Extensions.Navigation.UI/Navigator.cs:271-289 | a base navigator answers the response of the first selected child whose response is not null |
| NavigationLemmas.CoreAnswersFirstMatchingChild | src/Uno.Extensions.Navigation.UI/Navigator.cs:271-289 | when every matching child completes, a base navigator answers the response of the first matching child in the order of the region's children whose response is not null |

## Left out

- Logging (lines 33, 62, 93, 124, 126, 132-133) has no effect on routing and is not modelled.
- The route updater's start and end tokens (lines 34 and 134) are not modelled.
- The wait for the region's view to load (line 125) is a UI readiness wait. It is not modelled, and neither are its failures.
- The children are called one after another, in child order, instead of as concurrent tasks. When a child's own rewrite loop does not settle, the fan-out stops at that child. This matches the source: `InitialiseRequest` runs synchronously at the start of the child's call, so the `foreach` never gets past it.
- A navigation that never returns further down stops the fan-out too. This happens when a grandchild or a later descendant has a rewrite loop that does not settle, because `RewriteDiverged` propagates through `Join` and `Sweep`. In the source, the child may first be suspended at an await, such as the view-load wait at line 125. The `foreach` then goes on to the later siblings, so their calls, and the state they change, happen. The model does not capture those later siblings' calls. Both agree that the whole navigation never returns.
- Services are reduced to two flags per region: whether a service provider exists, and whether it has a dialog navigator factory. Registering the navigator as `INavigator` is a flag in its state. Every `GetRequiredService` lookup (lines 11, 204 and 207) is assumed to succeed; the exception it throws when the service is missing is not modelled.
- The response navigator that a result request creates (line 209) can become the scope's registered `INavigator`, and `AddInstance(this)` at line 217 replaces it. The model does not record the response navigator's registration. `isScopeNavigator` only records that the navigator registered itself at line 217, and it stays set afterwards.
- The navigation data written to `NavigationDataProvider.Parameters` and the `AsParameters` conversion (lines 197-205) are not modelled. Routes carry no data.
- Respond: a result request is assumed always to create a response navigator. Its `AsResponseWithResult` wrapping is the opaque `WithResult` response.
- The dialog navigator is a parameter of the model (`Env.dialog`), because it is created by a factory whose code is not part of this model.
- Derived navigators' overrides are parameters of the model. Any state those overrides change is not modelled.
- Route parsing and the route helpers are not part of the modelled source. They are given simple meanings:
  - the base is the first segment;
  - `IsEmpty` holds when no segments are left, whatever the qualifier;
  - `Next` drops it;
  - `TrimQualifier` removes one qualifier occurrence, or one `../` level.
- `Region.Parent.NavigateAsync` and `region.NavigateAsync` (lines 58, 105 and 284) are modelled as calls of that region's own navigator. The scope's registered `INavigator` is never consulted.
- `Resolver.Routes.Find(null)` is the registry's default map. `FindByPath` for a navigator without a current Route finds nothing. The lookup `Resolver.Routes.Find(request.Route)` (line 197) only feeds the left-out navigation data.
- `ToString` (lines 293-304) is not modelled.
- Navigate: every rewrite hook is required to keep the route's internal flag (`InitsKeepInternal`). The source does not demand this. A hook that cleared the flag could send an internal request up the tree again, and termination would no longer follow.
- RootRouteClimbsToRoot: proved for trees of base navigators and routes whose base has no rewrite hook. A derived navigator may support `/` below the root, and a hook may change the route.
- DialogRouteAnswersRootDialog: proved only under the same two conditions.
- ParentRouteGoesUpOneLevel: proved only for a base navigator and a route whose base has no rewrite hook.
- ChangeContentPassesUp: proved only for a route whose base has no rewrite hook.
- UnsupportedGoesToParent: proved only for a route whose base has no rewrite hook.
- EmptyRootRouteStopsBelowRoot: proved only for a base navigator and a route whose base has no rewrite hook. It rests on the model's reading of `IsEmpty`.
- RootRouteAtRoot: proved only for a base navigator and a route whose base has no rewrite hook.
- RootRouteBelowRootAnswersNull: proved only for a route whose base has no rewrite hook.
- The region tree is a snapshot for the whole navigation. Children added or removed during a traversal are not modelled.
