/** Which database a bucket's name leads to: `resolve_bucket_url`. */
module Routing {
  import opened Outcomes

  /** A connection URL: the database in its path, if it has one, and everything else. */
  datatype Url = Url(rest: string, database: Option<string>)

  /** The configured URLs. An empty log URL counts as absent. */
  datatype DatabaseConfig = DatabaseConfig(app: Url, crudLog: Option<Url>, eventLog: Option<Url>)

  const GLOBAL_DATABASE := "main"
  const CRUD_LOG := "crud_log"
  const EVENT_LOG := "event_log"

  /** `derive_per_database_url`: put the name into the path of the application's URL. */
  function Derive(app: Url, name: string): Option<Url> {
    if app.database.None? then None else Some(app.(database := Some(name)))
  }

  /** The application's own URL verbatim for `main`, the explicit URL of a log database, or a derived one. */
  function Route(config: DatabaseConfig, name: string): Option<Url> {
    if name == GLOBAL_DATABASE then Some(config.app)
    else if name == CRUD_LOG && config.crudLog.Some? then config.crudLog
    else if name == EVENT_LOG && config.eventLog.Some? then config.eventLog
    else Derive(config.app, name)
  }

  /** The URL that a name has by itself, without being put into the path of the application's. */
  function OwnUrl(config: DatabaseConfig, name: string): Option<Url> {
    if name == "main" then Some(config.app)
    else if name == "crud_log" then config.crudLog
    else if name == "event_log" then config.eventLog
    else None
  }

  /** u is the application's URL with the name in its path. */
  predicate IsDerived(config: DatabaseConfig, name: string, u: Url) {
    config.app.database.Some? && u.rest == config.app.rest && u.database == Some(name)
  }

  /** A name leads to its own URL, or to the one derived for it; it leads nowhere exactly when it has no URL of its own
      and the application's has no database to put the name in place of. */
  lemma RouteIs(config: DatabaseConfig, name: string)
    ensures Route(config, name).None? <==> OwnUrl(config, name).None? && config.app.database.None?
    ensures OwnUrl(config, name).Some? ==> Route(config, name) == OwnUrl(config, name)
    ensures Route(config, name).Some? && OwnUrl(config, name).None? ==>
      IsDerived(config, name, Route(config, name).value)
  {
  }

  /** Two names meet in one URL: both have that URL by themselves, or one does and it carries the other's name. */
  predicate Meet(config: DatabaseConfig, a: string, b: string) {
    match (OwnUrl(config, a), OwnUrl(config, b))
    case (Some(u), Some(v)) => u == v
    case (Some(u), None) => IsDerived(config, b, u)
    case (None, Some(v)) => IsDerived(config, a, v)
    case (None, None) => false
  }

  /** Different names have one URL exactly when they meet. */
  lemma RoutesMeetIff(config: DatabaseConfig, a: string, b: string)
    requires a != b
    ensures Route(config, a).Some? && Route(config, a) == Route(config, b) <==> Meet(config, a, b)
  {
  }
}
