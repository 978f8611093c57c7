/** The loop of `djogi migrations apply` over the discovered plans. */
module ApplyRun {
  import opened Outcomes
  import opened PendingPlans
  import opened Ledger
  import opened ApplyStep

  /** One ledger per database, whatever names lead there. */
  type Ledgers = map<string, seq<Row>>

  /** The connection made for each bucket database: which database it leads to. Two names may lead to one. */
  type Contexts = map<string, string>

  /** Everything outside the command's control, plan by plan. */
  type Script = nat -> Step

  datatype Job = Job(contexts: Contexts, plans: seq<DiscoveredPlan>, mode: FakeMode, script: Script)

  ghost predicate AllKeysUnique(ls: Ledgers) {
    forall db :: db in ls ==> KeysUnique(ls[db])
  }

  /** Still going, or stopped by the result of one migration. */
  datatype Progress = Running(ledgers: Ledgers) | Stopped(ledgers: Ledgers, at: nat, reason: ApplyResult)

  predicate Connected(ls: Ledgers, contexts: Contexts, p: DiscoveredPlan) {
    p.bucket.database in contexts && contexts[p.bucket.database] in ls
  }

  function TakeStep(ls: Ledgers, job: Job, k: nat): Progress
    requires k < |job.plans|
  {
    var p := job.plans[k];
    if !Connected(ls, job.contexts, p) then Stopped(ls, k, MissingContext)
    else
      var db := job.contexts[p.bucket.database];
      var (rows', result) := ApplyOne(ls[db], p, job.mode, job.script(k));
      var ls' := ls[db := rows'];
      if result.Applied? || result.Skipped? then Running(ls') else Stopped(ls', k, result)
  }

  /** The loop over the first n plans. */
  function Run(ls: Ledgers, job: Job, n: nat): Progress
    requires n <= |job.plans|
  {
    if n == 0 then Running(ls)
    else match Run(ls, job, n - 1)
      case Stopped(ls', at, reason) => Stopped(ls', at, reason)
      case Running(ls') => TakeStep(ls', job, n - 1)
  }

  ghost predicate Settled(ls: Ledgers, contexts: Contexts, p: DiscoveredPlan) {
    Connected(ls, contexts, p) && SettledRow(ls[contexts[p.bucket.database]], p.plan.version, p.bucket.app)
  }

  /** r is the record of one of the first n plans in the database db. */
  ghost predicate FromFirst(job: Job, n: nat, db: string, r: Row)
    requires n <= |job.plans|
  {
    exists k :: 0 <= k < n && IsRecordOf(job, k, db, r)
  }

  predicate IsRecordOf(job: Job, k: nat, db: string, r: Row)
    requires k < |job.plans|
  {
    var p := job.plans[k];
    p.bucket.database in job.contexts && job.contexts[p.bucket.database] == db && IsFor(r, p.plan.version, p.bucket.app)
  }

  /** r has the id that was handed out for plan k, and the status that the runner's call left. */
  predicate IsHandedOut(job: Job, k: nat, r: Row) {
    r.id == job.script(k).freshId && r.status == LeftStatus(job.mode, job.script(k).runner)
  }

  // ---------------------------------------------------------------------------------------------
  // One round
  // ---------------------------------------------------------------------------------------------

  lemma StepKeepsKeysUnique(ls: Ledgers, job: Job, k: nat)
    requires k < |job.plans| && AllKeysUnique(ls)
    ensures AllKeysUnique(TakeStep(ls, job, k).ledgers)
  {
    var p := job.plans[k];
    if Connected(ls, job.contexts, p) {
      ApplyOneKeepsKeysUnique(ls[job.contexts[p.bucket.database]], p, job.mode, job.script(k));
    }
  }

  lemma StepKeepsDatabases(ls: Ledgers, job: Job, k: nat)
    requires k < |job.plans|
    ensures TakeStep(ls, job, k).ledgers.Keys == ls.Keys
  {
  }

  lemma StepKeepsSettled(ls: Ledgers, job: Job, k: nat, q: DiscoveredPlan)
    requires k < |job.plans| && AllKeysUnique(ls) && Settled(ls, job.contexts, q)
    ensures Settled(TakeStep(ls, job, k).ledgers, job.contexts, q)
  {
    var p := job.plans[k];
    if Connected(ls, job.contexts, p) && job.contexts[p.bucket.database] == job.contexts[q.bucket.database] {
      ApplyOneKeepsSettled(
        ls[job.contexts[p.bucket.database]], p, job.mode, job.script(k), q.plan.version, q.bucket.app);
    }
  }

  lemma StepSettles(ls: Ledgers, job: Job, k: nat)
    requires k < |job.plans| && TakeStep(ls, job, k).Running?
    ensures Settled(TakeStep(ls, job, k).ledgers, job.contexts, job.plans[k])
  {
    var p := job.plans[k];
    ApplyOneSettles(ls[job.contexts[p.bucket.database]], p, job.mode, job.script(k));
  }

  /** The first n plans are settled. */
  ghost predicate Walked(ls: Ledgers, job: Job, n: nat)
    requires n <= |job.plans|
  {
    forall j :: 0 <= j < n ==> Settled(ls, job.contexts, job.plans[j])
  }

  lemma StepWalks(ls: Ledgers, job: Job, k: nat)
    requires k < |job.plans| && AllKeysUnique(ls) && Walked(ls, job, k) && TakeStep(ls, job, k).Running?
    ensures Walked(TakeStep(ls, job, k).ledgers, job, k + 1)
  {
    StepSettles(ls, job, k);
    forall j | 0 <= j < k ensures Settled(TakeStep(ls, job, k).ledgers, job.contexts, job.plans[j]) {
      StepKeepsSettled(ls, job, k, job.plans[j]);
    }
  }

  lemma StepRemoves(ls: Ledgers, job: Job, k: nat, db: string, r: Row)
    requires k < |job.plans| && AllKeysUnique(ls) && db in ls && r in ls[db]
    ensures db in TakeStep(ls, job, k).ledgers
    ensures r !in TakeStep(ls, job, k).ledgers[db] ==> BlocksReapply(r.status) && IsRecordOf(job, k, db, r)
  {
    ApplyOneTouchesOneRow(ls[db], job.plans[k], job.mode, job.script(k));
  }

  lemma StepAdds(ls: Ledgers, job: Job, k: nat, db: string, r: Row)
    requires k < |job.plans| && db in ls && r !in ls[db]
    ensures db in TakeStep(ls, job, k).ledgers
    ensures r in TakeStep(ls, job, k).ledgers[db] ==> IsRecordOf(job, k, db, r) && IsHandedOut(job, k, r)
  {
    ApplyOneTouchesOneRow(ls[db], job.plans[k], job.mode, job.script(k));
  }

  lemma StepReasons(ls: Ledgers, job: Job, k: nat)
    requires k < |job.plans| && AllKeysUnique(ls) && TakeStep(ls, job, k).Stopped?
    ensures var stop := TakeStep(ls, job, k);
      stop.at == k && !stop.reason.Applied? && !stop.reason.Skipped? && Accounts(ls, job, k, stop.reason)
  {
    if Connected(ls, job.contexts, job.plans[k]) {
      var rows := ls[job.contexts[job.plans[k].bucket.database]];
      ReportedIffExplained(rows, job.plans[k], job.mode, job.script(k), TakeStep(ls, job, k).reason);
    }
  }

  /** The state that plan k meets gives this result. */
  ghost predicate Accounts(ls: Ledgers, job: Job, k: nat, result: ApplyResult)
    requires k < |job.plans|
  {
    var p := job.plans[k];
    if !Connected(ls, job.contexts, p) then result == MissingContext
    else Explains(ls[job.contexts[p.bucket.database]], p, job.script(k), result)
  }

  /** The loop goes on exactly over a plan that can be applied now, or needs to be no more. */
  lemma StepRunsIff(ls: Ledgers, job: Job, k: nat)
    requires k < |job.plans| && AllKeysUnique(ls)
    ensures TakeStep(ls, job, k).Running? <==>
      Accounts(ls, job, k, ApplyResult.Applied) || Accounts(ls, job, k, Skipped)
  {
    if Connected(ls, job.contexts, job.plans[k]) {
      var rows := ls[job.contexts[job.plans[k].bucket.database]];
      ReportedIffExplained(rows, job.plans[k], job.mode, job.script(k), ApplyResult.Applied);
      ReportedIffExplained(rows, job.plans[k], job.mode, job.script(k), Skipped);
    }
  }

  lemma SettledIsSkippedOrRefused(rows: seq<Row>, p: DiscoveredPlan, mode: FakeMode, step: Step)
    requires KeysUnique(rows) && SettledRow(rows, p.plan.version, p.bucket.app)
    ensures ApplyOne(rows, p, mode, step) == (rows, if step.sameFile then Skipped else Refused(ChangedAfterDiscovery))
  {
    var version, app := p.plan.version, p.bucket.app;
    var i :| 0 <= i < |rows| && IsFor(rows[i], version, app) && IsSettled(rows[i].status);
    FindFinds(rows, version, app);
    OnlyRowOfKey(rows, version, app);
    assert rows[i] in rows;
  }

  lemma SettledStep(ls: Ledgers, job: Job, k: nat)
    requires k < |job.plans| && AllKeysUnique(ls) && Settled(ls, job.contexts, job.plans[k])
    ensures TakeStep(ls, job, k).ledgers == ls
    ensures job.script(k).sameFile ==> TakeStep(ls, job, k).Running?
  {
    var p := job.plans[k];
    SettledIsSkippedOrRefused(ls[job.contexts[p.bucket.database]], p, job.mode, job.script(k));
  }

  // ---------------------------------------------------------------------------------------------
  // Whole runs
  // ---------------------------------------------------------------------------------------------

  /** One unfolding, stated apart so that the proofs below need no other. */
  lemma RunUnfolds(ls: Ledgers, job: Job, k: nat)
    requires k < |job.plans|
    ensures var before := Run(ls, job, k);
      Run(ls, job, k + 1) == if before.Stopped? then before else TakeStep(before.ledgers, job, k)
  {
  }

  lemma RunStarts(ls: Ledgers, job: Job)
    ensures Run(ls, job, 0) == Running(ls)
  {
  }

  /** The table constraints hold in every ledger at every point of every run. */
  lemma {:induction false} RunKeepsKeysUnique(ls: Ledgers, job: Job, n: nat)
    requires n <= |job.plans| && AllKeysUnique(ls)
    ensures AllKeysUnique(Run(ls, job, n).ledgers)
  {
    hide TakeStep;
    if n > 0 {
      RunUnfolds(ls, job, n - 1);
      RunKeepsKeysUnique(ls, job, n - 1);
      StepKeepsKeysUnique(Run(ls, job, n - 1).ledgers, job, n - 1);
    }
  }

  lemma {:induction false} RunKeepsDatabases(ls: Ledgers, job: Job, n: nat)
    requires n <= |job.plans|
    ensures Run(ls, job, n).ledgers.Keys == ls.Keys
  {
    hide TakeStep;
    if n > 0 {
      RunUnfolds(ls, job, n - 1);
      RunKeepsDatabases(ls, job, n - 1);
      StepKeepsDatabases(Run(ls, job, n - 1).ledgers, job, n - 1);
    }
  }

  /** While the loop is running, everything it has walked over is settled. */
  lemma {:induction false} RunningMeansSettled(ls: Ledgers, job: Job, n: nat)
    requires n <= |job.plans| && AllKeysUnique(ls) && Run(ls, job, n).Running?
    ensures Walked(Run(ls, job, n).ledgers, job, n)
  {
    hide TakeStep;
    if n > 0 {
      RunUnfolds(ls, job, n - 1);
      RunningMeansSettled(ls, job, n - 1);
      RunKeepsKeysUnique(ls, job, n - 1);
      StepWalks(Run(ls, job, n - 1).ledgers, job, n - 1);
    }
  }

  /** A row that a run removes was failed or rolled back, and is the record of a plan the run has reached. */
  lemma {:induction false} RemovedRowsBlockedReapply(ls: Ledgers, job: Job, n: nat, db: string, r: Row)
    requires n <= |job.plans| && AllKeysUnique(ls) && db in ls && r in ls[db]
    ensures db in Run(ls, job, n).ledgers
    ensures r !in Run(ls, job, n).ledgers[db] ==> BlocksReapply(r.status) && FromFirst(job, n, db, r)
  {
    hide TakeStep;
    if n > 0 {
      RunUnfolds(ls, job, n - 1);
      RunKeepsKeysUnique(ls, job, n - 1);
      RemovedRowsBlockedReapply(ls, job, n - 1, db, r);
      var before := Run(ls, job, n - 1).ledgers;
      StepKeepsDatabases(before, job, n - 1);
      if r in before[db] {
        StepRemoves(before, job, n - 1, db, r);
      }
    }
  }

  /** A row that a run adds is the record of a plan the run has reached, with the id handed out for it and the status
      that its call left. */
  lemma {:induction false} AddedRowsArePlanned(ls: Ledgers, job: Job, n: nat, db: string, r: Row) returns (k: nat)
    requires n <= |job.plans| && db in ls && r !in ls[db]
    ensures db in Run(ls, job, n).ledgers
    ensures r in Run(ls, job, n).ledgers[db] ==> k < n && IsRecordOf(job, k, db, r) && IsHandedOut(job, k, r)
  {
    hide TakeStep;
    k := 0;
    if n > 0 {
      RunUnfolds(ls, job, n - 1);
      k := AddedRowsArePlanned(ls, job, n - 1, db, r);
      var before := Run(ls, job, n - 1).ledgers;
      StepKeepsDatabases(before, job, n - 1);
      if r !in before[db] {
        StepAdds(before, job, n - 1, db, r);
        k := n - 1;
      }
    }
  }

  /** A run goes through exactly when each plan, met in the state that the plans before it left, can be applied then or
      needs to be no more. */
  lemma {:induction false} RunsThroughIff(ls: Ledgers, job: Job, n: nat)
    requires n <= |job.plans| && AllKeysUnique(ls)
    ensures Run(ls, job, n).Running? <==>
      forall k :: 0 <= k < n ==>
        var before := Run(ls, job, k);
        && before.Running?
        && (Accounts(before.ledgers, job, k, ApplyResult.Applied) || Accounts(before.ledgers, job, k, Skipped))
  {
    hide TakeStep, Accounts;
    if n > 0 {
      RunsThroughIff(ls, job, n - 1);
      RunUnfolds(ls, job, n - 1);
      RunKeepsKeysUnique(ls, job, n - 1);
      if Run(ls, job, n - 1).Running? { StepRunsIff(Run(ls, job, n - 1).ledgers, job, n - 1); }
    }
  }

  /** A stopped run took exactly one step that neither succeeded nor was skipped, at a plan up to which it had been
      running, for the reason that the state there gives, and no step after that. */
  lemma {:induction false} StopsAtFirstFailure(ls: Ledgers, job: Job, n: nat)
    requires n <= |job.plans| && AllKeysUnique(ls) && Run(ls, job, n).Stopped?
    ensures var run := Run(ls, job, n);
      && run.at < n && Run(ls, job, run.at).Running?
      && run == TakeStep(Run(ls, job, run.at).ledgers, job, run.at)
      && !run.reason.Applied? && !run.reason.Skipped? && Accounts(Run(ls, job, run.at).ledgers, job, run.at, run.reason)
  {
    hide *;
    RunStarts(ls, job);
    RunUnfolds(ls, job, n - 1);
    if Run(ls, job, n - 1).Stopped? {
      StopsAtFirstFailure(ls, job, n - 1);
    } else {
      RunKeepsKeysUnique(ls, job, n - 1);
      StepReasons(Run(ls, job, n - 1).ledgers, job, n - 1);
    }
  }

  lemma {:induction false} StoppedForGood(ls: Ledgers, job: Job, k: nat, n: nat)
    requires k <= n <= |job.plans| && Run(ls, job, k).Stopped?
    ensures Run(ls, job, n) == Run(ls, job, k)
  {
    if k < n {
      StoppedForGood(ls, job, k, n - 1);
      RunUnfolds(ls, job, n - 1);
    }
  }

  lemma {:induction false} SettledPlansRun(ls: Ledgers, job: Job, n: nat)
    requires n <= |job.plans| && AllKeysUnique(ls) && Walked(ls, job, |job.plans|)
    ensures Run(ls, job, n).ledgers == ls
  {
    hide TakeStep;
    if n > 0 {
      SettledPlansRun(ls, job, n - 1);
      RunUnfolds(ls, job, n - 1);
      SettledStep(ls, job, n - 1);
    }
  }

  lemma SettledPlansRunThrough(ls: Ledgers, job: Job, n: nat)
    requires n <= |job.plans| && AllKeysUnique(ls) && Walked(ls, job, |job.plans|)
    requires forall k :: 0 <= k < n ==> job.script(k).sameFile
    ensures Run(ls, job, n).Running?
  {
    if Run(ls, job, n).Stopped? {
      StopsAtFirstFailure(ls, job, n);
      var at := Run(ls, job, n).at;
      SettledPlansRun(ls, job, at);
      SettledStep(ls, job, at);
    }
  }

  /** After a run that went through, another run over the same plans, in either mode and with any script,
      changes nothing; it goes through again when no file has changed. */
  lemma SecondRunChangesNothing(ls: Ledgers, job: Job, mode: FakeMode, script: Script, n: nat)
    requires n <= |job.plans| && AllKeysUnique(ls) && Run(ls, job, |job.plans|).Running?
    ensures var after := Run(ls, job, |job.plans|).ledgers;
      var again := Run(after, job.(mode := mode, script := script), n);
      && again.ledgers == after
      && ((forall k :: 0 <= k < n ==> script(k).sameFile) ==> again.Running?)
  {
    RunningMeansSettled(ls, job, |job.plans|);
    RunKeepsKeysUnique(ls, job, |job.plans|);
    var after, again := Run(ls, job, |job.plans|).ledgers, job.(mode := mode, script := script);
    SettledPlansRun(after, again, n);
    if forall k :: 0 <= k < n ==> script(k).sameFile {
      SettledPlansRunThrough(after, again, n);
    }
  }

  /** The loop's "missing context" error cannot occur once every database of the list has a context. */
  lemma {:induction false} NoMissingContext(ls: Ledgers, job: Job, n: nat)
    requires n <= |job.plans| && AllHaveContexts(job.contexts, job.plans) && job.contexts.Values <= ls.Keys
    ensures var run := Run(ls, job, n);
      run.Stopped? ==> !run.reason.MissingContext?
  {
    hide TakeStep;
    if n > 0 {
      NoMissingContext(ls, job, n - 1);
      RunUnfolds(ls, job, n - 1);
      var before := Run(ls, job, n - 1);
      RunKeepsDatabases(ls, job, n - 1);
      var p := job.plans[n - 1];
      assert p.bucket.database in job.contexts && job.contexts[p.bucket.database] in job.contexts.Values;
      if before.Running? { ConnectedStep(before.ledgers, job, n - 1); }
    }
  }

  lemma ConnectedStep(ls: Ledgers, job: Job, k: nat)
    requires k < |job.plans| && Connected(ls, job.contexts, job.plans[k])
    ensures var next := TakeStep(ls, job, k);
      next.Stopped? ==> !next.reason.MissingContext?
  {
  }

  /** Every plan's database has a connection. */
  ghost predicate AllHaveContexts(contexts: Contexts, plans: seq<DiscoveredPlan>) {
    forall k :: 0 <= k < |plans| ==> plans[k].bucket.database in contexts
  }

  // ---------------------------------------------------------------------------------------------
  // The code: one ledger table per database, updated in place
  // ---------------------------------------------------------------------------------------------

  /** The tables by database: each database has its own. */
  ghost predicate SeparateTables(tables: map<string, LedgerTable>) {
    forall a, b :: a in tables && b in tables && a != b ==> tables[a] != tables[b]
  }

  ghost function Snapshot(tables: map<string, LedgerTable>): (ls: Ledgers)
    reads tables.Values
    ensures ls.Keys == tables.Keys
  {
    map db | db in tables :: tables[db].rows
  }

  datatype Stop = Stop(at: nat, reason: ApplyResult)

  /** The loop has walked over the first n plans with this result. */
  ghost predicate HasRun(ls: Ledgers, job: Job, n: nat, now: Ledgers, stopped: Option<Stop>)
    requires n <= |job.plans|
  {
    Run(ls, job, n) ==
      match stopped
      case None => Running(now)
      case Some(stop) => Stopped(now, stop.at, stop.reason)
  }

  lemma OneMoreStep(ls: Ledgers, job: Job, k: nat, now: Ledgers, r: ApplyResult, after: Ledgers)
    requires k < |job.plans| && HasRun(ls, job, k, now, None)
    requires TakeStep(now, job, k) == if r.Applied? || r.Skipped? then Running(after) else Stopped(after, k, r)
    ensures if r.Applied? || r.Skipped? then HasRun(ls, job, k + 1, after, None)
            else HasRun(ls, job, |job.plans|, after, Some(Stop(k, r)))
  {
    RunUnfolds(ls, job, k);
    if !(r.Applied? || r.Skipped?) {
      StoppedForGood(ls, job, k + 1, |job.plans|);
    }
  }

  /** One round of the loop. */
  method ApplyNext(tables: map<string, LedgerTable>, job: Job, k: nat, ghost ls: Ledgers) returns (r: ApplyResult)
    requires SeparateTables(tables) && job.contexts.Values <= tables.Keys && k < |job.plans|
    requires HasRun(ls, job, k, Snapshot(tables), None)
    modifies tables.Values
    ensures if r.Applied? || r.Skipped? then HasRun(ls, job, k + 1, Snapshot(tables), None)
            else HasRun(ls, job, |job.plans|, Snapshot(tables), Some(Stop(k, r)))
  {
    ghost var before := Snapshot(tables);
    var p := job.plans[k];
    if p.bucket.database !in job.contexts {
      r := MissingContext;
    } else {
      var db := job.contexts[p.bucket.database];
      assert db in job.contexts.Values;
      var ledger := tables[db];
      assert before[db] == ledger.rows;
      r := ApplyOnePending(ledger, p, job.mode, job.script(k));
      assert Snapshot(tables) == before[db := ledger.rows];
    }
    OneMoreStep(ls, job, k, before, r, Snapshot(tables));
  }

  /** The loop: None when it went through, otherwise where it stopped and why. */
  method RunApply(tables: map<string, LedgerTable>, job: Job) returns (stopped: Option<Stop>)
    requires SeparateTables(tables) && job.contexts.Values <= tables.Keys
    modifies tables.Values
    ensures HasRun(old(Snapshot(tables)), job, |job.plans|, Snapshot(tables), stopped)
  {
    ghost var ls := Snapshot(tables);
    for k := 0 to |job.plans|
      invariant HasRun(ls, job, k, Snapshot(tables), None)
    {
      var result := ApplyNext(tables, job, k, ls);
      if !result.Applied? && !result.Skipped? {
        return Some(Stop(k, result));
      }
    }
    stopped := None;
  }
}
