/** When several bucket names lead to one database, a plan can count as applied through the row of another plan with
    its version and app. Exactly which lists, over which connections, keep the count of plans in dependency order. */
module SharedLedgers {
  import opened Outcomes
  import opened Sorting
  import opened Lexicographic
  import opened DependencyOrder
  import opened PendingPlans
  import opened PendingOrder
  import opened PendingListing
  import opened PendingDiscovery
  import opened Ledger
  import opened ApplyStep
  import opened ApplyRun
  import opened ApplySafety

  predicate SameTarget(contexts: Contexts, p: DiscoveredPlan, q: DiscoveredPlan) {
    && p.bucket.database in contexts && q.bucket.database in contexts
    && contexts[p.bucket.database] == contexts[q.bucket.database]
  }

  /** Both plans are recorded under one key of one ledger. */
  predicate SamePlace(contexts: Contexts, p: DiscoveredPlan, q: DiscoveredPlan) {
    SameTarget(contexts, p, q) && p.plan.version == q.plan.version && p.bucket.app == q.bucket.app
  }

  /** If p has come to count as settled since the start, then q counts as settled. */
  ghost predicate CountedAfter(start: Ledgers, now: Ledgers, contexts: Contexts, p: DiscoveredPlan, q: DiscoveredPlan) {
    Settled(now, contexts, p) && !Settled(start, contexts, p) ==> Settled(now, contexts, q)
  }

  ghost predicate PlacedBefore(contexts: Contexts, plans: seq<DiscoveredPlan>, k: nat, q: DiscoveredPlan)
    requires k <= |plans|
  {
    exists j :: 0 <= j < k && SamePlace(contexts, plans[j], q)
  }

  /** Whatever plan of the list is recorded where p is, some plan before it is recorded where q is. */
  ghost predicate PlacedAfter(contexts: Contexts, plans: seq<DiscoveredPlan>, p: DiscoveredPlan, q: DiscoveredPlan) {
    forall k :: 0 <= k < |plans| && SamePlace(contexts, plans[k], p) ==> PlacedBefore(contexts, plans, k, q)
  }

  lemma StepSettlesOnlyItsOwn(ls: Ledgers, job: Job, k: nat, q: DiscoveredPlan)
    requires k < |job.plans|
    requires Settled(TakeStep(ls, job, k).ledgers, job.contexts, q) && !Settled(ls, job.contexts, q)
    ensures SamePlace(job.contexts, job.plans[k], q)
  {
    var p := job.plans[k];
    if Connected(ls, job.contexts, p) && job.contexts[p.bucket.database] == job.contexts[q.bucket.database] {
      ApplyOneSettlesOnlyItsOwn(
        ls[job.contexts[p.bucket.database]], p, job.mode, job.script(k), q.plan.version, q.bucket.app);
    }
  }

  lemma PlacedBeforeIsSettled(ls: Ledgers, job: Job, k: nat, q: DiscoveredPlan)
    requires k <= |job.plans| && Walked(ls, job, k) && PlacedBefore(job.contexts, job.plans, k, q)
    ensures Settled(ls, job.contexts, q)
  {
    var j :| 0 <= j < k && SamePlace(job.contexts, job.plans[j], q);
    assert Settled(ls, job.contexts, job.plans[j]);
  }

  lemma DependencyStep(start: Ledgers, ls: Ledgers, job: Job, k: nat, p: DiscoveredPlan, q: DiscoveredPlan)
    requires k < |job.plans| && AllKeysUnique(ls) && Walked(ls, job, k)
    requires PlacedAfter(job.contexts, job.plans, p, q) && CountedAfter(start, ls, job.contexts, p, q)
    ensures CountedAfter(start, TakeStep(ls, job, k).ledgers, job.contexts, p, q)
  {
    if Settled(TakeStep(ls, job, k).ledgers, job.contexts, p) && !Settled(start, job.contexts, p) {
      if !Settled(ls, job.contexts, p) {
        StepSettlesOnlyItsOwn(ls, job, k, p);
        PlacedBeforeIsSettled(ls, job, k, q);
      }
      StepKeepsSettled(ls, job, k, q);
    }
  }

  /** At every point n of every run, finished or stopped anywhere: if this run has settled p then q is settled too,
      whenever the list places p after q. */
  lemma {:induction false} PlacedIsCountedAfter(ls: Ledgers, job: Job, n: nat, p: DiscoveredPlan, q: DiscoveredPlan)
    requires n <= |job.plans| && AllKeysUnique(ls) && PlacedAfter(job.contexts, job.plans, p, q)
    ensures CountedAfter(ls, Run(ls, job, n).ledgers, job.contexts, p, q)
  {
    hide TakeStep;
    if n > 0 {
      PlacedIsCountedAfter(ls, job, n - 1, p, q);
      RunUnfolds(ls, job, n - 1);
      if Run(ls, job, n - 1).Running? {
        RunKeepsKeysUnique(ls, job, n - 1);
        RunningMeansSettled(ls, job, n - 1);
        DependencyStep(ls, Run(ls, job, n - 1).ledgers, job, n - 1, p, q);
      }
    }
  }

  // ---------------------------------------------------------------------------------------------
  // Exactly which lists
  // ---------------------------------------------------------------------------------------------

  /** No plan has come to count as settled between two ledger states without its dependencies. */
  ghost predicate CountedInOrder(start: Ledgers, now: Ledgers, contexts: Contexts, plans: seq<DiscoveredPlan>) {
    forall i: nat, d: nat :: IsDependency(plans, i, d) ==> CountedAfter(start, now, contexts, plans[i], plans[d])
  }

  /** So it is for every run over the list, from any ledgers, in either mode, with any script, up to any point. */
  ghost predicate AlwaysCountedInOrder(contexts: Contexts, plans: seq<DiscoveredPlan>) {
    forall ls, mode, script, n: nat :: n <= |plans| && AllKeysUnique(ls) ==>
      CountedInOrder(ls, Run(ls, Job(contexts, plans, mode, script), n).ledgers, contexts, plans)
  }

  /** The condition on list and connections: every plan is placed after each of its dependencies. */
  ghost predicate AllPlacedAfter(contexts: Contexts, plans: seq<DiscoveredPlan>) {
    forall i: nat, d: nat :: IsDependency(plans, i, d) ==> PlacedAfter(contexts, plans, plans[i], plans[d])
  }

  lemma PlacedRunCountsInOrder(ls: Ledgers, job: Job, n: nat)
    requires n <= |job.plans| && AllKeysUnique(ls) && AllPlacedAfter(job.contexts, job.plans)
    ensures CountedInOrder(ls, Run(ls, job, n).ledgers, job.contexts, job.plans)
  {
    forall i: nat, d: nat | IsDependency(job.plans, i, d)
      ensures CountedAfter(ls, Run(ls, job, n).ledgers, job.contexts, job.plans[i], job.plans[d])
    {
      PlacedIsCountedAfter(ls, job, n, job.plans[i], job.plans[d]);
    }
  }

  ghost function EmptyLedgers(contexts: Contexts): (ls: Ledgers)
    ensures ls.Keys == contexts.Values && forall db :: db in ls ==> ls[db] == []
  {
    map db | db in contexts.Values :: []
  }

  function SmoothStep(k: nat): Step {
    Step(true, true, true, true, Succeeded, k)
  }

  /** The list run with every outcome favourable. */
  function SmoothJob(contexts: Contexts, plans: seq<DiscoveredPlan>): Job {
    Job(contexts, plans, Real, SmoothStep)
  }

  /** Every row is settled, records one of the first n plans, and has an id below n. */
  ghost predicate OnlyFrom(ls: Ledgers, job: Job, n: nat)
    requires n <= |job.plans|
  {
    forall db, r :: db in ls && r in ls[db] ==> r.id < n && IsSettled(r.status) && FromFirst(job, n, db, r)
  }

  lemma SmoothApply(rows: seq<Row>, p: DiscoveredPlan, k: nat)
    requires forall r :: r in rows ==> r.id < k && IsSettled(r.status)
    ensures var (rows', result) := ApplyOne(rows, p, Real, SmoothStep(k));
      && (result.Applied? || result.Skipped?)
      && (forall r :: r in rows' ==>
           r in rows || (r.id == k && IsSettled(r.status) && IsFor(r, p.plan.version, p.bucket.app)))
  {
    var version, app := p.plan.version, p.bucket.app;
    FindFinds(rows, version, app);
    if Find(rows, version, app).None? {
      forall i | 0 <= i < |rows| ensures rows[i].id != k && !IsFor(rows[i], version, app) {
        assert rows[i] in rows;
      }
      assert !Collides(rows, version, app, k);
    }
  }

  lemma SmoothTakeStep(ls: Ledgers, job: Job, k: nat)
    requires k < |job.plans| && job == SmoothJob(job.contexts, job.plans)
    requires OnlyFrom(ls, job, k) && Connected(ls, job.contexts, job.plans[k])
    ensures TakeStep(ls, job, k).Running? && OnlyFrom(TakeStep(ls, job, k).ledgers, job, k + 1)
  {
    var home := job.contexts[job.plans[k].bucket.database];
    SmoothApply(ls[home], job.plans[k], k);
    var next := TakeStep(ls, job, k).ledgers;
    forall db: string, r: Row | db in next && r in next[db]
      ensures r.id < k + 1 && IsSettled(r.status) && FromFirst(job, k + 1, db, r)
    {
      if db in ls && r in ls[db] {
        assert FromFirst(job, k, db, r);
      } else {
        assert IsRecordOf(job, k, db, r);
      }
    }
  }

  /** From empty ledgers, with every outcome favourable, the loop runs on, and all rows are its own. */
  lemma {:induction false} SmoothRun(contexts: Contexts, plans: seq<DiscoveredPlan>, n: nat)
    requires n <= |plans| && AllHaveContexts(contexts, plans)
    ensures var job := SmoothJob(contexts, plans);
      var run := Run(EmptyLedgers(contexts), job, n);
      run.Running? && OnlyFrom(run.ledgers, job, n)
  {
    hide TakeStep;
    if n > 0 {
      var ls, job := EmptyLedgers(contexts), SmoothJob(contexts, plans);
      SmoothRun(contexts, plans, n - 1);
      RunUnfolds(ls, job, n - 1);
      RunKeepsDatabases(ls, job, n - 1);
      assert plans[n - 1].bucket.database in contexts;
      SmoothTakeStep(Run(ls, job, n - 1).ledgers, job, n - 1);
    }
  }

  lemma RecordedPlansOnly(ls: Ledgers, job: Job, n: nat, q: DiscoveredPlan)
    requires n <= |job.plans| && OnlyFrom(ls, job, n) && Settled(ls, job.contexts, q)
    ensures PlacedBefore(job.contexts, job.plans, n, q)
  {
    var db := job.contexts[q.bucket.database];
    var m :| 0 <= m < |ls[db]| && IsFor(ls[db][m], q.plan.version, q.bucket.app);
    var r := ls[db][m];
    assert r in ls[db] && FromFirst(job, n, db, r);
    var j :| 0 <= j < n && IsRecordOf(job, j, db, r);
    assert SamePlace(job.contexts, job.plans[j], q);
  }

  /** When a plan k is recorded where p is, and none before it where q is, the favourable run up to and including k
      has settled p and not q. */
  lemma MisplacedRunMiscounts(
    contexts: Contexts, plans: seq<DiscoveredPlan>, p: DiscoveredPlan, q: DiscoveredPlan, k: nat)
    requires AllHaveContexts(contexts, plans) && k < |plans| && p.bucket.app != q.bucket.app
    requires SamePlace(contexts, plans[k], p) && !PlacedBefore(contexts, plans, k, q)
    ensures var ls := EmptyLedgers(contexts);
      !CountedAfter(ls, Run(ls, SmoothJob(contexts, plans), k + 1).ledgers, contexts, p, q)
  {
    hide Run;
    var ls, job := EmptyLedgers(contexts), SmoothJob(contexts, plans);
    var now := Run(ls, job, k + 1).ledgers;
    SmoothRun(contexts, plans, k + 1);
    RunningMeansSettled(ls, job, k + 1);
    assert Settled(now, contexts, plans[k]) && Settled(now, contexts, p);
    assert !PlacedBefore(contexts, plans, k + 1, q);
    if Settled(now, contexts, q) {
      RecordedPlansOnly(now, job, k + 1, q);
      assert false;
    }
  }

  lemma CountedMeansPlaced(contexts: Contexts, plans: seq<DiscoveredPlan>, i: nat, d: nat)
    requires UniqueIdentities(plans) && AllHaveContexts(contexts, plans)
    requires AlwaysCountedInOrder(contexts, plans) && IsDependency(plans, i, d)
    ensures PlacedAfter(contexts, plans, plans[i], plans[d])
  {
    var ls, job := EmptyLedgers(contexts), SmoothJob(contexts, plans);
    assert IdentityOf(plans[i]) != IdentityOf(plans[d]);
    forall k | 0 <= k < |plans| && SamePlace(contexts, plans[k], plans[i])
      ensures PlacedBefore(contexts, plans, k, plans[d])
    {
      var m: nat := k + 1;
      assert CountedInOrder(ls, Run(ls, Job(contexts, plans, Real, SmoothStep), m).ledgers, contexts, plans);
      if !PlacedBefore(contexts, plans, k, plans[d]) {
        MisplacedRunMiscounts(contexts, plans, plans[i], plans[d], k);
      }
    }
  }

  /** Plans always come to count as settled after their dependencies if and only if the list, with the databases its
      names lead to, places every plan after each of its dependencies. */
  lemma AlwaysCountedInOrderIff(contexts: Contexts, plans: seq<DiscoveredPlan>)
    requires UniqueIdentities(plans) && AllHaveContexts(contexts, plans)
    ensures AlwaysCountedInOrder(contexts, plans) <==> AllPlacedAfter(contexts, plans)
  {
    if AllPlacedAfter(contexts, plans) {
      forall ls, mode, script, n: nat | n <= |plans| && AllKeysUnique(ls)
        ensures CountedInOrder(ls, Run(ls, Job(contexts, plans, mode, script), n).ledgers, contexts, plans)
      {
        PlacedRunCountsInOrder(ls, Job(contexts, plans, mode, script), n);
      }
    }
    if AlwaysCountedInOrder(contexts, plans) {
      forall i: nat, d: nat | IsDependency(plans, i, d) ensures PlacedAfter(contexts, plans, plans[i], plans[d]) {
        CountedMeansPlaced(contexts, plans, i, d);
      }
    }
  }

  // ---------------------------------------------------------------------------------------------
  // Discovered lists
  // ---------------------------------------------------------------------------------------------

  /** Different bucket databases of the list lead to different databases. */
  ghost predicate LeadApart(contexts: Contexts, plans: seq<DiscoveredPlan>) {
    forall i, j :: 0 <= i < |plans| && 0 <= j < |plans| && SameTarget(contexts, plans[i], plans[j]) ==>
      plans[i].bucket.database == plans[j].bucket.database
  }

  /** When they do, the order that discovery establishes is enough. */
  lemma ApartMeansPlaced(contexts: Contexts, plans: seq<DiscoveredPlan>)
    requires UniqueIdentities(plans) && PlansAfterDependencies(plans) && LeadApart(contexts, plans)
    ensures AllPlacedAfter(contexts, plans)
  {
    forall i: nat, d: nat, k: nat | IsDependency(plans, i, d) && k < |plans| && SamePlace(contexts, plans[k], plans[i])
      ensures PlacedBefore(contexts, plans, k, plans[d])
    {
      assert IdentityOf(plans[k]) == IdentityOf(plans[i]) && k == i;
      assert SamePlace(contexts, plans[d], plans[d]) && d < k;
    }
  }

  // ---------------------------------------------------------------------------------------------
  // A discovered list on which the count goes wrong
  // ---------------------------------------------------------------------------------------------

  function SharedPlan(database: string, app: string, dependsOn: seq<string>): DiscoveredPlan {
    DiscoveredPlan([database, app + JSON_SUFFIX], BucketKey(database, app), false,
                   PendingPlan(database, app, "V1", dependsOn, ""))
  }

  const MAIN_A := SharedPlan("main", "a", [])
  const SHOP_A := SharedPlan("shop", "a", ["b"])
  const SHOP_B := SharedPlan("shop", "b", [])

  function FileOf(p: DiscoveredPlan): Candidate {
    Candidate(p.bucket.database, p.bucket.app + JSON_SUFFIX, false, Some(p.plan))
  }

  lemma SharedPlanIsAccepted(database: string, app: string, dependsOn: seq<string>)
    requires |app| == 1 && IsAsciiAlphabetic(app[0])
    ensures Validate(FileOf(SharedPlan(database, app, dependsOn))) == Ok(SharedPlan(database, app, dependsOn))
  {
    var p := SharedPlan(database, app, dependsOn);
    assert |PHASE_ZERO_VERSION| != |"V1"| && |GLOBAL_BUCKET_DIRNAME| != |app|;
    AcceptedIffWellPlaced(FileOf(p));
  }

  lemma ScanAdmits(cs: seq<Candidate>, out: seq<DiscoveredPlan>, c: Candidate, p: DiscoveredPlan)
    requires Scan(cs) == Ok(out) && Validate(c) == Ok(p)
    requires forall i :: 0 <= i < |out| ==> IdentityOf(out[i]) != IdentityOf(p)
    ensures Scan(cs + [c]) == Ok(out + [p])
  {
    hide Validate;
    ScanAppend(cs, c);
  }

  lemma SharedScan()
    ensures Scan([FileOf(MAIN_A), FileOf(SHOP_A), FileOf(SHOP_B)]) == Ok([MAIN_A, SHOP_A, SHOP_B])
  {
    SharedPlanIsAccepted("main", "a", []);
    SharedPlanIsAccepted("shop", "a", ["b"]);
    SharedPlanIsAccepted("shop", "b", []);
    assert Scan([]) == Ok([]);
    hide Validate, Scan, FileOf;
    ScanAdmits([], [], FileOf(MAIN_A), MAIN_A);
    assert [] + [FileOf(MAIN_A)] == [FileOf(MAIN_A)] && [] + [MAIN_A] == [MAIN_A];
    ScanAdmits([FileOf(MAIN_A)], [MAIN_A], FileOf(SHOP_A), SHOP_A);
    assert [FileOf(MAIN_A)] + [FileOf(SHOP_A)] == [FileOf(MAIN_A), FileOf(SHOP_A)];
    assert [MAIN_A] + [SHOP_A] == [MAIN_A, SHOP_A];
    ScanAdmits([FileOf(MAIN_A), FileOf(SHOP_A)], [MAIN_A, SHOP_A], FileOf(SHOP_B), SHOP_B);
    assert [FileOf(MAIN_A), FileOf(SHOP_A)] + [FileOf(SHOP_B)] == [FileOf(MAIN_A), FileOf(SHOP_A), FileOf(SHOP_B)];
    assert [MAIN_A, SHOP_A] + [SHOP_B] == [MAIN_A, SHOP_A, SHOP_B];
  }

  lemma SharedPaths()
    ensures StageOneLeq(MAIN_A, SHOP_A) && !StageOneLeq(SHOP_A, MAIN_A)
    ensures StageOneLeq(MAIN_A, SHOP_B) && !StageOneLeq(SHOP_B, MAIN_A)
    ensures StageOneLeq(SHOP_A, SHOP_B) && !StageOneLeq(SHOP_B, SHOP_A)
  {
    var a, b := "a" + JSON_SUFFIX, "b" + JSON_SUFFIX;
    assert StringLeq("main", "shop") && !StringLeq("shop", "main");
    assert StringLeq(a, b) && !StringLeq(b, a) && a != b;
    assert ["shop", a][1..] == [a] && ["shop", b][1..] == [b];
    assert PathLeq([a], [b]) && !PathLeq([b], [a]);
  }

  lemma SharedSort()
    ensures Sort([MAIN_A, SHOP_A, SHOP_B], StageOneLeq) == [MAIN_A, SHOP_A, SHOP_B]
  {
    hide Sort, StageOneLeq;
    var s := [MAIN_A, SHOP_A, SHOP_B];
    StageOneIsTotalPreorder();
    SortIsSortedPermutation(s, StageOneLeq);
    SharedPaths();
    SortedIsUnique(s, Sort(s, StageOneLeq), StageOneLeq);
  }

  lemma SharedOrder()
    ensures OrderGroups([MAIN_A, SHOP_A, SHOP_B]) == Ok([MAIN_A, SHOP_B, SHOP_A])
  {
    var s, shop := [MAIN_A, SHOP_A, SHOP_B], [SHOP_A, SHOP_B];
    SharedGroup();
    assert LabelError([MAIN_A]).None?;
    assert OrderGroup([MAIN_A]) == Ok([MAIN_A]);
    assert OrderGroups([]) == Ok([]);
    RunEndIs(s, 1, 1);
    RunEndIs(shop, 1, 2);
    hide OrderGroup, OrderGroups, RunEnd;
    OrderGroupsUnfold(shop);
    assert shop[..2] == shop && shop[2..] == [];
    assert [SHOP_B, SHOP_A] + [] == [SHOP_B, SHOP_A];
    OrderGroupsUnfold(s);
    assert s[..1] == [MAIN_A] && s[1..] == shop;
    assert [MAIN_A] + [SHOP_B, SHOP_A] == [MAIN_A, SHOP_B, SHOP_A];
  }

  lemma SharedGraph()
    ensures var deps := DependencyGraph([SHOP_A, SHOP_B]);
      && |deps| == 2 && 1 in deps[0] && (forall d :: d in deps[0] ==> d == 1) && (forall d :: d !in deps[1])
    ensures LabelsAcceptable([SHOP_A, SHOP_B])
  {
    var g := [SHOP_A, SHOP_B];
    var deps := DependencyGraph(g);
    assert g[0].plan.dependsOn[0] == "b" && IsAcceptableLabel("b");
    assert DistinctApps(g);
    forall k: nat, d: nat | k < 2 && d < 2
      ensures d in deps[k] <==> d != k && g[d].bucket.app in g[k].plan.dependsOn
    {
      EdgeMeaning(g, k, d);
    }
    assert IsGraph(deps);
  }

  /** The only topological order of a graph in which 0 waits for 1 and 1 for nothing. */
  lemma OnlyOrder(deps: seq<seq<nat>>, t: seq<nat>)
    requires |deps| == 2 && 1 in deps[0] && (forall d :: d in deps[0] ==> d == 1) && (forall d :: d !in deps[1])
    ensures TopologicalOrder(deps, [1, 0])
    ensures TopologicalOrder(deps, t) && |t| == 2 ==> t == [1, 0]
  {
    assert [1, 0][..1] == [1];
    assert forall k: nat :: k < 2 ==> k in [1, 0];
    if TopologicalOrder(deps, t) && |t| == 2 {
      assert t[..0] == [];
      assert t[0] == 1;
      assert t[1] != t[0];
    }
  }

  lemma SharedGroup()
    ensures OrderGroup([SHOP_A, SHOP_B]) == Ok([SHOP_B, SHOP_A])
  {
    var g := [SHOP_A, SHOP_B];
    var deps := DependencyGraph(g);
    SharedGraph();
    hide DependencyGraph, LabelsAcceptable, Greedy, OrderGroup;
    OnlyOrder(deps, Greedy(deps, []));
    GroupAcceptedIffOrderable(g);
    GroupOrderIsLeast(g);
    FullLengthIffAllEmitted(deps);
    assert Greedy(deps, []) == [1, 0];
    assert Pick(g, [1, 0]) == [SHOP_B, SHOP_A];
  }

  /** Discovery really hands out this list. */
  lemma SharedListIsDiscovered()
    ensures Discover([FileOf(MAIN_A), FileOf(SHOP_A), FileOf(SHOP_B)]) == Ok([MAIN_A, SHOP_B, SHOP_A])
  {
    hide Scan, Sort, OrderGroups;
    SharedScan();
    SharedSort();
    SharedOrder();
  }

  /** When two names lead to one database, the order that discovery establishes does not keep the count of plans in
      order: main/a, then shop/b, then shop/a, which depends on b. Once main/a is applied, shop/a counts as applied,
      and is skipped. */
  lemma SharedDatabaseMiscounts()
    ensures !AlwaysCountedInOrder(map["main" := "shop", "shop" := "shop"], [MAIN_A, SHOP_B, SHOP_A])
  {
    var plans := [MAIN_A, SHOP_B, SHOP_A];
    var contexts := map["main" := "shop", "shop" := "shop"];
    hide AlwaysCountedInOrder;
    assert plans[2].plan.dependsOn[0] == "b" && IsDependency(plans, 2, 1);
    assert SamePlace(contexts, plans[0], plans[2]) && !PlacedBefore(contexts, plans, 0, plans[1]);
    assert !PlacedAfter(contexts, plans, plans[2], plans[1]);
    AlwaysCountedInOrderIff(contexts, plans);
  }
}
