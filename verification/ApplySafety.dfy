/** Dependency safety of apply runs: a migration is applied only after its dependencies are settled. */
module ApplySafety {
  import opened Outcomes
  import opened PendingPlans
  import opened PendingOrder
  import opened PendingListing
  import opened PendingDiscovery
  import opened Ledger
  import opened ApplyStep
  import opened ApplyRun

  /** Plan d is another plan of plan i's group, and i depends on it. */
  predicate IsDependency(plans: seq<DiscoveredPlan>, i: nat, d: nat) {
    i < |plans| && d < |plans| && i != d && DependsOn(plans[i], plans[d])
  }

  ghost predicate DependenciesSettled(ls: Ledgers, job: Job, k: nat) {
    forall d: nat :: IsDependency(job.plans, k, d) ==> Settled(ls, job.contexts, job.plans[d])
  }

  lemma WalkedDependencies(ls: Ledgers, job: Job, k: nat)
    requires k <= |job.plans| && PlansAfterDependencies(job.plans) && Walked(ls, job, k)
    ensures DependenciesSettled(ls, job, k)
  {
    forall d: nat | IsDependency(job.plans, k, d) ensures Settled(ls, job.contexts, job.plans[d]) {
      assert d < k;
    }
  }

  lemma StepKeepsDependenciesSettled(ls: Ledgers, job: Job, n: nat, k: nat)
    requires n < |job.plans| && AllKeysUnique(ls) && DependenciesSettled(ls, job, k)
    ensures DependenciesSettled(TakeStep(ls, job, n).ledgers, job, k)
  {
    hide TakeStep;
    forall d: nat | IsDependency(job.plans, k, d)
      ensures Settled(TakeStep(ls, job, n).ledgers, job.contexts, job.plans[d])
    {
      StepKeepsSettled(ls, job, n, job.plans[d]);
    }
  }

  /** At every point n of every run, finished or stopped anywhere, over any connections: a row that the run has put
      into a ledger is the record of a plan k, all of whose dependencies in its group were settled when the loop came
      to k, and still are. */
  lemma {:induction false} AppliedAfterDependencies(ls: Ledgers, job: Job, n: nat, db: string, r: Row) returns (k: nat)
    requires PlansAfterDependencies(job.plans) && n <= |job.plans| && AllKeysUnique(ls) && db in ls && r !in ls[db]
    ensures db in Run(ls, job, n).ledgers
    ensures r in Run(ls, job, n).ledgers[db] ==>
      && k < n && IsRecordOf(job, k, db, r) && IsHandedOut(job, k, r)
      && Run(ls, job, k).Running? && DependenciesSettled(Run(ls, job, k).ledgers, job, k)
      && DependenciesSettled(Run(ls, job, n).ledgers, job, k)
  {
    hide *;
    k := 0;
    RunStarts(ls, job);
    if n > 0 {
      RunUnfolds(ls, job, n - 1);
      RunKeepsKeysUnique(ls, job, n - 1);
      k := AppliedAfterDependencies(ls, job, n - 1, db, r);
      var before := Run(ls, job, n - 1);
      StepKeepsDatabases(before.ledgers, job, n - 1);
      if before.Running? {
        if r in before.ledgers[db] {
          StepKeepsDependenciesSettled(before.ledgers, job, n - 1, k);
        } else {
          k := n - 1;
          StepAdds(before.ledgers, job, k, db, r);
          RunningMeansSettled(ls, job, k);
          WalkedDependencies(before.ledgers, job, k);
          StepKeepsDependenciesSettled(before.ledgers, job, k, k);
        }
      }
    }
  }

  ghost predicate IsNew(start: Ledgers, now: Ledgers, db: string, r: Row) {
    db in start && db in now && r in now[db] && r !in start[db]
  }

  /** Every row that is new since the start records a plan whose dependencies in its group are settled. */
  ghost predicate AppliedInOrder(start: Ledgers, now: Ledgers, job: Job) {
    forall db, r :: IsNew(start, now, db, r) ==>
      exists k: nat :: k < |job.plans| && IsRecordOf(job, k, db, r) && IsHandedOut(job, k, r)
                       && DependenciesSettled(now, job, k)
  }

  /** Every run over a discovered list is safe, at every point, whatever the connections are. */
  lemma DiscoveredRunsAreDependencySafe(cs: seq<Candidate>, ls: Ledgers, job: Job, n: nat)
    requires Discover(cs) == Ok(job.plans) && n <= |job.plans| && AllKeysUnique(ls)
    ensures AppliedInOrder(ls, Run(ls, job, n).ledgers, job)
  {
    hide Run, Discover, DependenciesSettled;
    DiscoveredList(cs);
    forall db, r | IsNew(ls, Run(ls, job, n).ledgers, db, r)
      ensures exists k: nat :: k < |job.plans| && IsRecordOf(job, k, db, r) && IsHandedOut(job, k, r)
                               && DependenciesSettled(Run(ls, job, n).ledgers, job, k)
    {
      var k := AppliedAfterDependencies(ls, job, n, db, r);
    }
  }
}
