/** Resolving the `?from=` query parameter to a return route (src/hooks/useReturnNavigation.ts). */
module ReturnNavigation {
  import opened Wrappers

  /** The route table's own entries. */
  const RouteMap: map<string, string> := map[
    "dashboard" := "/",
    "manuscripts" := "/manuscripts",
    "characters" := "/characters",
    "notes" := "/notes"]

  /** Names every plain object literal inherits from `Object.prototype`; all of them are truthy. */
  const PrototypeMembers: set<string> := {
    "constructor", "__proto__", "hasOwnProperty", "isPrototypeOf", "propertyIsEnumerable",
    "toString", "toLocaleString", "valueOf",
    "__defineGetter__", "__defineSetter__", "__lookupGetter__", "__lookupSetter__"}

  /** What `routeMap[from]` can evaluate to: one of the routes, or an inherited member that is no route. */
  datatype Lookup = Route(path: string) | Inherited(member: string)

  /**
   * The lookup as written: `from && routeMap[from] ? routeMap[from] : defaultReturn`
   * on a plain object, so an inherited member name passes the truthiness test.
   */
  function ReturnToAsWritten(from: Option<string>, defaultReturn: string): (r: Lookup)
    ensures from.Some? && from.value in RouteMap ==> r == Route(RouteMap[from.value])
    ensures from.Some? && from.value in PrototypeMembers ==> r == Inherited(from.value)
    ensures (from.None? || from.value == "" || (from.value !in RouteMap && from.value !in PrototypeMembers))
      ==> r == Route(defaultReturn)
  {
    match from
    case None => Route(defaultReturn)
    case Some(name) =>
      if name == "" then Route(defaultReturn)
      else if name in RouteMap then Route(RouteMap[name])
      else if name in PrototypeMembers then Inherited(name)
      else Route(defaultReturn)
  }

  /** `?from=constructor` passes the guard and resolves to the `Object` constructor instead of a route. */
  lemma PrototypeKeyEscapesDefault(defaultReturn: string)
    ensures ReturnToAsWritten(Some("constructor"), defaultReturn) == Inherited("constructor")
    ensures !ReturnToAsWritten(Some("constructor"), defaultReturn).Route?
  {
  }

  /**
   * The intended lookup: only the table's own keys count, so the result is
   * always the default or one of the four routes.
   */
  function ReturnTo(from: Option<string>, defaultReturn: string): (r: string)
    ensures from.Some? && from.value in RouteMap ==> r == RouteMap[from.value]
    ensures from.None? || from.value !in RouteMap ==> r == defaultReturn
    ensures r == defaultReturn || r in RouteMap.Values
  {
    if from.Some? && from.value != "" && from.value in RouteMap then RouteMap[from.value]
    else defaultReturn
  }

  /** The default return route when the caller gives none. */
  const DefaultReturn := "/"

  /** The four mapped sources, and some screens that have no entry and fall back to the default. */
  lemma RouteTable(defaultReturn: string)
    ensures ReturnTo(Some("dashboard"), defaultReturn) == "/"
    ensures ReturnTo(Some("manuscripts"), defaultReturn) == "/manuscripts"
    ensures ReturnTo(Some("characters"), defaultReturn) == "/characters"
    ensures ReturnTo(Some("notes"), defaultReturn) == "/notes"
    ensures ReturnTo(Some("chapters"), defaultReturn) == defaultReturn
    ensures ReturnTo(Some("detail"), defaultReturn) == defaultReturn
    ensures ReturnTo(Some("manuscript-detail"), defaultReturn) == defaultReturn
    ensures ReturnTo(None, DefaultReturn) == "/"
  {
  }

  /** Wherever the written lookup yields a route, the corrected one yields the same route. */
  lemma CorrectedAgreesOnRoutes(from: Option<string>, defaultReturn: string)
    requires ReturnToAsWritten(from, defaultReturn).Route?
    ensures ReturnTo(from, defaultReturn) == ReturnToAsWritten(from, defaultReturn).path
  {
  }
}
