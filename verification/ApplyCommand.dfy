/** The command `djogi migrations apply`: discover, connect, lock, discover again, run. */
module ApplyCommand {
  import opened Outcomes
  import opened PendingPlans
  import opened PendingOrder
  import opened PendingListing
  import opened PendingDiscovery
  import opened Ledger
  import opened Routing
  import opened ApplyStep
  import opened ApplyRun
  import opened ApplySafety
  import opened SharedLedgers

  datatype ApplyExit =
    | DiscoveryRefused(error: DiscoveryError) | NothingPending | Unroutable | Unreachable | SetChanged
    | Ran(stopped: Option<Stop>)

  /** Which database each answering URL leads to. Different URLs may lead to one database. */
  type Servers = map<Url, string>

  predicate Routable(config: DatabaseConfig, p: DiscoveredPlan) {
    Route(config, p.bucket.database).Some?
  }

  predicate Reachable(config: DatabaseConfig, servers: Servers, p: DiscoveredPlan) {
    Routable(config, p) && Route(config, p.bucket.database).value in servers
  }

  /** The connections of a list, one for each bucket database it names. */
  function ContextsFor(config: DatabaseConfig, servers: Servers, plans: seq<DiscoveredPlan>): (contexts: Contexts)
    requires forall k :: 0 <= k < |plans| ==> Reachable(config, servers, plans[k])
    ensures AllHaveContexts(contexts, plans)
    ensures forall db :: db in contexts ==>
      Route(config, db).Some? && Route(config, db).value in servers && contexts[db] == servers[Route(config, db).value]
  {
    if plans == [] then map[]
    else
      var last := plans[|plans| - 1];
      assert Reachable(config, servers, last);
      ContextsFor(config, servers, plans[..|plans| - 1])[
        last.bucket.database := servers[Route(config, last.bucket.database).value]]
  }

  ghost function Databases(plans: seq<DiscoveredPlan>): set<string> {
    set k | 0 <= k < |plans| :: plans[k].bucket.database
  }

  lemma {:induction false} OneContextPerDatabase(
    config: DatabaseConfig, servers: Servers, plans: seq<DiscoveredPlan>)
    requires forall k :: 0 <= k < |plans| ==> Reachable(config, servers, plans[k])
    ensures ContextsFor(config, servers, plans).Keys == Databases(plans)
  {
    if plans != [] {
      var older, last := plans[..|plans| - 1], plans[|plans| - 1].bucket.database;
      OneContextPerDatabase(config, servers, older);
      assert ContextsFor(config, servers, plans).Keys == Databases(older) + {last};
      forall db ensures db in Databases(plans) <==> db in Databases(older) || db == last {
        if db in Databases(older) {
          var k :| 0 <= k < |older| && older[k].bucket.database == db;
          assert plans[k].bucket.database == db;
        }
        if db == last { assert plans[|plans| - 1].bucket.database == db; }
      }
    }
  }

  lemma OneMoreContext(config: DatabaseConfig, servers: Servers, plans: seq<DiscoveredPlan>, k: nat)
    requires k < |plans| && forall i :: 0 <= i <= k ==> Reachable(config, servers, plans[i])
    ensures var database := plans[k].bucket.database;
      ContextsFor(config, servers, plans[..k + 1])
      == ContextsFor(config, servers, plans[..k])[database := servers[Route(config, database).value]]
  {
    assert plans[..k + 1][..k] == plans[..k];
  }

  // ---------------------------------------------------------------------------------------------
  // How the command ends. `before` and `locked` are the pending directory as listed before and after the workspace
  // lock was taken.
  // ---------------------------------------------------------------------------------------------

  ghost predicate AllReachable(config: DatabaseConfig, servers: Servers, plans: seq<DiscoveredPlan>) {
    forall k :: 0 <= k < |plans| ==> Reachable(config, servers, plans[k])
  }

  ghost predicate AllRoutable(config: DatabaseConfig, plans: seq<DiscoveredPlan>) {
    forall k :: 0 <= k < |plans| ==> Routable(config, plans[k])
  }

  /** Something is pending and every database it names answers. */
  ghost predicate ReachesLock(config: DatabaseConfig, servers: Servers, before: seq<Candidate>) {
    var found := Discover(before);
    found.Ok? && found.value != [] && AllReachable(config, servers, found.value)
  }

  /** The loop runs: the same pending list is found again under the lock. */
  ghost predicate ReachesLoop(
    config: DatabaseConfig, servers: Servers, before: seq<Candidate>, locked: seq<Candidate>)
  {
    ReachesLock(config, servers, before) && Discover(locked) == Discover(before)
  }

  /** What each exit without a loop means. */
  ghost predicate Stands(
    config: DatabaseConfig, servers: Servers, before: seq<Candidate>, locked: seq<Candidate>, exit: ApplyExit)
  {
    var found, again := Discover(before), Discover(locked);
    match exit
    case NothingPending => found == Ok([])
    case DiscoveryRefused(e) => found == Err(e) || (ReachesLock(config, servers, before) && again == Err(e))
    case Unroutable => found.Ok? && !AllRoutable(config, found.value)
    case Unreachable => found.Ok? && AllRoutable(config, found.value) && !AllReachable(config, servers, found.value)
    case SetChanged => ReachesLock(config, servers, before) && again.Ok? && again.value != found.value
    case Ran(_) => false
  }

  /** The exits exclude each other, and one of them stands exactly when the loop does not run. */
  lemma OneExitStands(config: DatabaseConfig, servers: Servers, before: seq<Candidate>, locked: seq<Candidate>)
    returns (exit: ApplyExit)
    ensures !ReachesLoop(config, servers, before, locked) <==> Stands(config, servers, before, locked, exit)
    ensures forall e :: Stands(config, servers, before, locked, e) ==> e == exit
  {
    hide Discover;
    var found, again := Discover(before), Discover(locked);
    exit := if found.Err? then DiscoveryRefused(found.error)
            else if found.value == [] then NothingPending
            else if !AllRoutable(config, found.value) then Unroutable
            else if !AllReachable(config, servers, found.value) then Unreachable
            else if again.Err? then DiscoveryRefused(again.error)
            else if again.value != found.value then SetChanged else Ran(None);
  }

  /** Listing the same directory in another order is not mistaken for a change: the loop runs as soon as the list found
      before the lock allows it. */
  lemma SameFilesAreNoChange(
    config: DatabaseConfig, servers: Servers, before: seq<DatabaseEntry>, locked: seq<DatabaseEntry>)
    requires SameListing(before, locked)
    ensures !Stands(config, servers, Candidates(before), Candidates(locked), SetChanged)
    ensures ReachesLoop(config, servers, Candidates(before), Candidates(locked)) <==>
      ReachesLock(config, servers, Candidates(before))
  {
    ListingOrderIsIrrelevant(before, locked);
    assert Discover(Candidates(before)).Ok? ==> Scan(Candidates(before)).Ok?;
  }

  /** Two different names of the list meet in one URL. */
  ghost predicate NamesMeet(config: DatabaseConfig, plans: seq<DiscoveredPlan>) {
    exists i, j :: 0 <= i < |plans| && 0 <= j < |plans| && plans[i].bucket.database != plans[j].bucket.database
                   && Meet(config, plans[i].bucket.database, plans[j].bucket.database)
  }

  /** On servers that keep different URLs apart, the bucket databases of a list lead apart exactly when no two of its
      names meet. */
  lemma LeadApartIff(config: DatabaseConfig, servers: Servers, plans: seq<DiscoveredPlan>)
    requires forall k :: 0 <= k < |plans| ==> Reachable(config, servers, plans[k])
    requires forall u, v :: u in servers && v in servers && servers[u] == servers[v] ==> u == v
    ensures LeadApart(ContextsFor(config, servers, plans), plans) <==> !NamesMeet(config, plans)
  {
    var contexts := ContextsFor(config, servers, plans);
    forall i, j | 0 <= i < |plans| && 0 <= j < |plans| && plans[i].bucket.database != plans[j].bucket.database
      ensures SameTarget(contexts, plans[i], plans[j]) <==>
        Meet(config, plans[i].bucket.database, plans[j].bucket.database)
    {
      var a, b := plans[i].bucket.database, plans[j].bucket.database;
      assert a in contexts && b in contexts && Reachable(config, servers, plans[i]);
      RoutesMeetIff(config, a, b);
    }
  }

  /** An application URL that carries the name `shop` leads to such a list's connections. */
  lemma SharedContexts(rest: string)
    ensures var app := Url(rest, Some("shop"));
      var config, servers := DatabaseConfig(app, None, None), map[app := "shop"];
      var plans := [MAIN_A, SHOP_B, SHOP_A];
      && AllReachable(config, servers, plans)
      && ContextsFor(config, servers, plans) == map["main" := "shop", "shop" := "shop"]
  {
    var app := Url(rest, Some("shop"));
    var config, servers := DatabaseConfig(app, None, None), map[app := "shop"];
    var plans := [MAIN_A, SHOP_B, SHOP_A];
    assert Route(config, "main") == Some(app) && Route(config, "shop") == Some(app);
    assert forall k :: 0 <= k < |plans| ==> Reachable(config, servers, plans[k]);
    OneMoreContext(config, servers, plans, 0);
    OneMoreContext(config, servers, plans, 1);
    OneMoreContext(config, servers, plans, 2);
    assert plans[..3] == plans && plans[..0] == [];
  }

  /** What every run over a discovered list guarantees, however it ends. */
  lemma DiscoveredRun(cs: seq<Candidate>, ls: Ledgers, job: Job)
    requires Discover(cs) == Ok(job.plans) && AllKeysUnique(ls)
    requires AllHaveContexts(job.contexts, job.plans) && job.contexts.Values <= ls.Keys
    ensures var run := Run(ls, job, |job.plans|);
      && AllKeysUnique(run.ledgers)
      && AppliedInOrder(ls, run.ledgers, job)
      && (LeadApart(job.contexts, job.plans) ==> CountedInOrder(ls, run.ledgers, job.contexts, job.plans))
      && (run.Stopped? ==> !run.reason.MissingContext?)
  {
    RunKeepsKeysUnique(ls, job, |job.plans|);
    NoMissingContext(ls, job, |job.plans|);
    DiscoveredRunsAreDependencySafe(cs, ls, job, |job.plans|);
    if LeadApart(job.contexts, job.plans) {
      DiscoveredList(cs);
      ApartMeansPlaced(job.contexts, job.plans);
      PlacedRunCountsInOrder(ls, job, |job.plans|);
    }
  }

  /** `resolve_apply_target_urls` and the connections made from its result. */
  method ResolveTargets(config: DatabaseConfig, plans: seq<DiscoveredPlan>) returns (r: Option<map<string, Url>>)
    ensures r.None? <==> exists i :: 0 <= i < |plans| && !Routable(config, plans[i])
    ensures r.Some? ==> forall i :: 0 <= i < |plans| ==> plans[i].bucket.database in r.value
    ensures r.Some? ==> forall db :: db in r.value ==> Route(config, db) == Some(r.value[db])
  {
    var urls: map<string, Url> := map[];
    for k := 0 to |plans|
      invariant forall i :: 0 <= i < k ==> Routable(config, plans[i]) && plans[i].bucket.database in urls
      invariant forall db :: db in urls ==> Route(config, db) == Some(urls[db])
    {
      var database := plans[k].bucket.database;
      if database in urls {
        continue;
      }
      var url := Route(config, database);
      if url.None? {
        assert !Routable(config, plans[k]);
        return None;
      }
      urls := urls[database := url.value];
    }
    r := Some(urls);
  }

  method Connect(config: DatabaseConfig, servers: Servers, plans: seq<DiscoveredPlan>)
    returns (r: Result<Contexts, ApplyExit>)
    ensures r == Err(Unroutable) <==> !AllRoutable(config, plans)
    ensures r == Err(Unreachable) <==> AllRoutable(config, plans) && !AllReachable(config, servers, plans)
    ensures AllReachable(config, servers, plans) ==>
      r == Ok(ContextsFor(config, servers, plans)) && r.value.Keys == Databases(plans)
  {
    var resolved := ResolveTargets(config, plans);
    if resolved.None? {
      return Err(Unroutable);
    }
    var urls := resolved.value;
    var contexts: Contexts := map[];
    for k := 0 to |plans|
      invariant forall i :: 0 <= i < k ==> Reachable(config, servers, plans[i])
      invariant contexts == ContextsFor(config, servers, plans[..k])
    {
      var database := plans[k].bucket.database;
      if urls[database] !in servers {
        assert !Reachable(config, servers, plans[k]);
        return Err(Unreachable);
      }
      OneMoreContext(config, servers, plans, k);
      contexts := contexts[database := servers[urls[database]]];
    }
    assert plans[..|plans|] == plans;
    OneContextPerDatabase(config, servers, plans);
    r := Ok(contexts);
  }

  /** Everything before the loop: the list to run over and its connections, or why there is nothing to run. */
  method Plan(config: DatabaseConfig, servers: Servers, before: seq<DatabaseEntry>, locked: seq<DatabaseEntry>)
    returns (r: Result<(seq<DiscoveredPlan>, Contexts), ApplyExit>)
    ensures r.Ok? <==> ReachesLoop(config, servers, Candidates(before), Candidates(locked))
    ensures r.Ok? ==>
      Discover(Candidates(locked)) == Ok(r.value.0) && r.value.1 == ContextsFor(config, servers, r.value.0)
    ensures r.Err? ==> Stands(config, servers, Candidates(before), Candidates(locked), r.error)
  {
    var first := DiscoverPendingPlans(before);
    if first.Err? {
      return Err(DiscoveryRefused(first.error));
    }
    var plans := first.value;
    if plans == [] {
      return Err(NothingPending);
    }
    var connected := Connect(config, servers, plans);
    if connected.Err? {
      return Err(connected.error);
    }
    var again := DiscoverPendingPlans(locked);
    if again.Err? {
      return Err(DiscoveryRefused(again.error));
    }
    if again.value != plans {
      return Err(SetChanged);
    }
    r := Ok((plans, connected.value));
  }

  /** The whole command. The loop runs exactly when something is pending, all of it reachable, and the same list is
      found under the lock; then it runs over exactly that list, and however it ends, keys are unique, no context was
      missing, and every migration applied has its dependencies settled. In every other case the ledgers stay and the
      exit says why. */
  method ApplyCommand(tables: map<string, LedgerTable>, config: DatabaseConfig, servers: Servers,
                      before: seq<DatabaseEntry>, locked: seq<DatabaseEntry>, mode: FakeMode, script: Script)
    returns (exit: ApplyExit)
    requires SeparateTables(tables) && servers.Values <= tables.Keys && AllKeysUnique(Snapshot(tables))
    modifies tables.Values
    ensures exit.Ran? <==> ReachesLoop(config, servers, Candidates(before), Candidates(locked))
    ensures !exit.Ran? ==>
      Stands(config, servers, Candidates(before), Candidates(locked), exit) && Snapshot(tables) == old(Snapshot(tables))
    ensures exit.Ran? ==>
      var ls, now := old(Snapshot(tables)), Snapshot(tables);
      var plans := Discover(Candidates(before)).value;
      var job := Job(ContextsFor(config, servers, plans), plans, mode, script);
      && AreFilesOf(plans, before) && AreFilesOf(plans, locked)
      && HasRun(ls, job, |plans|, now, exit.stopped)
      && AllKeysUnique(now) && AppliedInOrder(ls, now, job)
      && (LeadApart(job.contexts, plans) ==> CountedInOrder(ls, now, job.contexts, plans))
      && (exit.stopped.Some? ==> !exit.stopped.value.reason.MissingContext?)
  {
    var planned := Plan(config, servers, before, locked);
    if planned.Err? {
      return planned.error;
    }
    var (plans, contexts) := planned.value;
    DiscoveryOfFiles(before);
    DiscoveryOfFiles(locked);
    var job := Job(contexts, plans, mode, script);
    ContextsStayInServers(config, servers, plans);
    DiscoveredRun(Candidates(locked), Snapshot(tables), job);
    var stopped := RunApply(tables, job);
    exit := Ran(stopped);
  }

  lemma ContextsStayInServers(config: DatabaseConfig, servers: Servers, plans: seq<DiscoveredPlan>)
    requires forall k :: 0 <= k < |plans| ==> Reachable(config, servers, plans[k])
    ensures ContextsFor(config, servers, plans).Values <= servers.Values
  {
    var contexts := ContextsFor(config, servers, plans);
    forall v | v in contexts.Values ensures v in servers.Values {
      var db :| db in contexts && contexts[db] == v;
    }
  }
}
