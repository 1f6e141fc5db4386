/** Routes, navigation requests and navigation responses.

    A route is the parsed form of a navigation target: a qualifier, the
    ordered segments still to be routed (the first one is the route's base)
    and the flag saying that the route is already past qualifier forwarding.
    The helpers below are the few route operations the navigator uses; they
    are kept as simple as their use allows and say nothing about how text is
    parsed into a route. */
module Routes {
  import opened Wrappers

  /** The routing directive in front of a route: none (change the content of
      the current region), "./" (nested), "../" repeated `levels` times
      (parent), "/" (root) or "!" (dialog). */
  datatype Qualifier = NoQualifier | Nested | Parent(levels: nat) | Root | Dialog

  /** The parent qualifier "../" of a single level. */
  const PARENT := Parent(1)

  datatype Route = Route(qualifier: Qualifier, segments: seq<string>, isInternal: bool)
  {
    /** The segment routed next, or "" when nothing is left. */
    function Base(): string {
      if segments == [] then "" else segments[0]
    }

    /** No segments are left, whatever the qualifier: a bare "/" or "../"
        is empty. */
    predicate IsEmpty() {
      segments == []
    }

    predicate IsParent() {
      qualifier.Parent?
    }

    predicate IsRoot() {
      qualifier.Root?
    }

    predicate IsNested() {
      qualifier.Nested?
    }

    predicate IsDialog() {
      qualifier.Dialog?
    }

    predicate IsChangeContent() {
      qualifier.NoQualifier?
    }

    /** The route with its base consumed. */
    function Next(): (r: Route)
      ensures r.qualifier == qualifier && r.isInternal == isInternal
      ensures IsEmpty() ==> r == this
      ensures !IsEmpty() ==> segments == [Base()] + r.segments
    {
      this.(segments := if segments == [] then [] else segments[1..])
    }

    /** The route with `path` added after its segments. */
    function Append(path: seq<string>): (r: Route)
      ensures r.qualifier == qualifier && r.isInternal == isInternal
      ensures |r.segments| == |segments| + |path|
      ensures r.segments[..|segments|] == segments && r.segments[|segments|..] == path
    {
      this.(segments := segments + path)
    }

    /** The route with one leading occurrence of `q` removed from its
        qualifier; one "../" level when `q` is a parent qualifier. A route
        that does not carry `q` is returned as it is. */
    function TrimQualifier(q: Qualifier): (r: Route)
      ensures r.segments == segments && r.isInternal == isInternal
      ensures !q.Parent? && qualifier == q ==> r.qualifier == NoQualifier
      ensures q.Parent? && qualifier.Parent? ==>
                r.qualifier == (if qualifier.levels <= 1 then NoQualifier else Parent(qualifier.levels - 1))
      ensures qualifier != q && !(q.Parent? && qualifier.Parent?) ==> r == this
    {
      match (qualifier, q)
      case (Parent(n), Parent(_)) =>
        this.(qualifier := if n <= 1 then NoQualifier else Parent(n - 1))
      case _ =>
        if qualifier == q then this.(qualifier := NoQualifier) else this
    }
  }

  /** The route the root navigator falls back to when it is sent "/". */
  const EMPTY_ROUTE := Route(NoQualifier, [], false)

  /** A navigation request: the route and, for request/response navigations,
      the name of the type of the expected result. */
  datatype Request = Request(route: Route, result: Option<string>)
  {
    predicate SameRouteBase(other: Request) {
      route.Base() == other.route.Base()
    }
  }

  /** A navigation response: the route a navigator executed, or the wrapper
      a response navigator puts around the executed response when a result
      was requested. Only the derived navigators' overrides and the dialog
      navigator, both parameters of the model, produce `Executed`; the
      base navigator's own code answers null or wraps what it got. */
  datatype Response = Executed(route: Route) | WithResult(executed: Option<Response>)
}
