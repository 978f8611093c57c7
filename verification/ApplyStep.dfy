/** `djogi migrations apply` on one migration: the status machine. */
module ApplyStep {
  import opened Outcomes
  import opened PendingPlans
  import opened Ledger

  datatype LedgerState = NotPresent | AlreadyApplied | PendingOrPartial(status: Status)

  datatype Refusal =
    | ChangedAfterDiscovery | PhaseZeroCleanupRefused | CleanupFailed | InState(status: Status) | NoReplayPlan

  datatype ApplyResult = Applied | Skipped | Refused(why: Refusal) | RunnerError | MissingContext

  /** Everything about one migration that this command does not decide: whether its file still matches, whether
      the Phase 0 classifier lets the old row go, whether the delete and the plan loader succeed, how far the
      runner gets, and the id the database hands out. */
  datatype Step = Step(
    sameFile: bool, cleanupAllowed: bool, deleteSucceeds: bool, replayLoads: bool, runner: RunnerOutcome, freshId: int)

  function CheckLedgerState(rows: seq<Row>, version: string, app: string): LedgerState {
    match Find(rows, version, app)
    case None => NotPresent
    case Some(r) =>
      match r.status
      case Applied | Baseline | Faked => AlreadyApplied
      case Pending | Failed | RolledBack => PendingOrPartial(r.status)
  }

  function Launch(rows: seq<Row>, p: DiscoveredPlan, mode: FakeMode, step: Step): (seq<Row>, ApplyResult) {
    if !step.replayLoads then (rows, Refused(NoReplayPlan))
    else
      var (rows', ok) := RunnerApply(rows, mode, p.plan.version, p.bucket.app, step.runner, step.freshId);
      (rows', if ok then ApplyResult.Applied else RunnerError)
  }

  /** What `apply_one_pending` does to the ledger of its database, and reports. */
  function ApplyOne(rows: seq<Row>, p: DiscoveredPlan, mode: FakeMode, step: Step): (seq<Row>, ApplyResult) {
    var version, app := p.plan.version, p.bucket.app;
    if !step.sameFile then (rows, Refused(ChangedAfterDiscovery))
    else match CheckLedgerState(rows, version, app)
      case NotPresent => Launch(rows, p, mode, step)
      case AlreadyApplied => (rows, Skipped)
      case PendingOrPartial(status) =>
        if !(status.Failed? || status.RolledBack?) then (rows, Refused(InState(status)))
        else if version == PHASE_ZERO_VERSION && !step.cleanupAllowed then (rows, Refused(PhaseZeroCleanupRefused))
        else if !step.deleteSucceeds then (rows, Refused(CleanupFailed))
        else Launch(Delete(rows, version, app), p, mode, step)
  }

  // ---------------------------------------------------------------------------------------------
  // One migration
  // ---------------------------------------------------------------------------------------------

  ghost predicate SettledRow(rows: seq<Row>, version: string, app: string) {
    exists i :: 0 <= i < |rows| && IsFor(rows[i], version, app) && IsSettled(rows[i].status)
  }

  /** The status that a call which has inserted its row leaves behind: `pending`, `failed` or `applied` as far as the
      runner got, and `faked` under `--fake`. */
  function LeftStatus(mode: FakeMode, outcome: RunnerOutcome): Status {
    if mode == Fake then Faked
    else if outcome == LeftPending then Status.Pending
    else if outcome == MarkedFailed then Status.Failed
    else Status.Applied
  }

  /** The rows of every other migration stay, this one's row stays unless it was failed or rolled back, and a new
      row is this one's. */
  lemma ApplyOneTouchesOneRow(rows: seq<Row>, p: DiscoveredPlan, mode: FakeMode, step: Step)
    ensures var (rows', result) := ApplyOne(rows, p, mode, step);
      && (forall r :: r in rows && r !in rows' ==> IsFor(r, p.plan.version, p.bucket.app))
      && (KeysUnique(rows) ==> forall r :: r in rows && r !in rows' ==> BlocksReapply(r.status))
      && (forall r :: r in rows' && r !in rows ==>
           IsFor(r, p.plan.version, p.bucket.app) && r.id == step.freshId && r.status == LeftStatus(mode, step.runner))
  {
    var version, app := p.plan.version, p.bucket.app;
    FindFinds(rows, version, app);
    if KeysUnique(rows) && Find(rows, version, app).Some? {
      OnlyRowOfKey(rows, version, app);
    }
  }

  lemma OnlyRowOfKey(rows: seq<Row>, version: string, app: string)
    requires KeysUnique(rows) && Find(rows, version, app).Some?
    ensures forall r :: r in rows && IsFor(r, version, app) ==> r == Find(rows, version, app).value
  {
  }

  /** The table constraints hold after every call, whatever the runner does. */
  lemma ApplyOneKeepsKeysUnique(rows: seq<Row>, p: DiscoveredPlan, mode: FakeMode, step: Step)
    requires KeysUnique(rows)
    ensures KeysUnique(ApplyOne(rows, p, mode, step).0)
  {
    DeleteKeepsKeysUnique(rows, p.plan.version, p.bucket.app);
  }

  /** Nothing in the ledger stands in the way: no row for the migration, or one that may be cleaned up and was. */
  ghost predicate Cleared(rows: seq<Row>, p: DiscoveredPlan, step: Step) {
    forall r :: r in rows && IsFor(r, p.plan.version, p.bucket.app) ==>
      BlocksReapply(r.status) && (p.plan.version == PHASE_ZERO_VERSION ==> step.cleanupAllowed) && step.deleteSucceeds
  }

  /** A migration is applied exactly when its file is unchanged and loads, nothing in the ledger stands in the way,
      the runner succeeds and the id is free; then its old row is gone and its new one is settled. */
  lemma AppliedIff(rows: seq<Row>, p: DiscoveredPlan, mode: FakeMode, step: Step)
    requires KeysUnique(rows)
    ensures var (rows', result) := ApplyOne(rows, p, mode, step);
      var version, app := p.plan.version, p.bucket.app;
      && (result.Applied? <==>
          && step.sameFile && step.replayLoads && step.runner.Succeeded? && Cleared(rows, p, step)
          && (forall r :: r in rows && !IsFor(r, version, app) ==> r.id != step.freshId))
      && (result.Applied? ==>
          rows' == Delete(rows, version, app)
                   + [Row(step.freshId, version, app, if mode.Fake? then Faked else Status.Applied)])
  {
    var version, app := p.plan.version, p.bucket.app;
    hide Launch, Find, Collides, Delete;
    FindFinds(rows, version, app);
    NoCollisionAfterDelete(rows, version, app, step.freshId);
    LaunchIs(Delete(rows, version, app), p, mode, step);
    if Find(rows, version, app).Some? {
      OnlyRowOfKey(rows, version, app);
    } else {
      DeleteAbsent(rows, version, app);
    }
  }

  lemma LaunchIs(rows: seq<Row>, p: DiscoveredPlan, mode: FakeMode, step: Step)
    ensures var (rows', result) := Launch(rows, p, mode, step);
      var version, app := p.plan.version, p.bucket.app;
      && (result.Applied? <==>
          step.replayLoads && step.runner.Succeeded? && !Collides(rows, version, app, step.freshId))
      && (result.Applied? ==>
          rows' == rows + [Row(step.freshId, version, app, if mode.Fake? then Faked else Status.Applied)])
  {
  }

  lemma NoCollisionAfterDelete(rows: seq<Row>, version: string, app: string, freshId: int)
    ensures Collides(Delete(rows, version, app), version, app, freshId) <==>
      exists r :: r in rows && !IsFor(r, version, app) && r.id == freshId
  {
  }

  lemma {:induction false} DeleteAbsent(rows: seq<Row>, version: string, app: string)
    requires forall i :: 0 <= i < |rows| ==> !IsFor(rows[i], version, app)
    ensures Delete(rows, version, app) == rows
  {
    if rows != [] { DeleteAbsent(rows[1..], version, app); }
  }

  /** The ledger has a row of the migration with that status. */
  ghost predicate Stands(rows: seq<Row>, p: DiscoveredPlan, status: Status) {
    exists r :: r in rows && r.version == p.plan.version && r.app == p.bucket.app && r.status == status
  }

  ghost predicate Blocked(rows: seq<Row>, p: DiscoveredPlan) {
    Stands(rows, p, Failed) || Stands(rows, p, RolledBack)
  }

  /** No other migration's row has the id that the database hands out. */
  ghost predicate IdIsFree(rows: seq<Row>, p: DiscoveredPlan, freshId: int) {
    forall r :: r in rows && r.id == freshId ==> r.version == p.plan.version && r.app == p.bucket.app
  }

  /** When each result is reported. */
  ghost predicate Explains(rows: seq<Row>, p: DiscoveredPlan, step: Step, result: ApplyResult) {
    match result
    case Refused(ChangedAfterDiscovery) => !step.sameFile
    case Skipped =>
      step.sameFile && (Stands(rows, p, Status.Applied) || Stands(rows, p, Faked) || Stands(rows, p, Baseline))
    case Refused(InState(s)) => step.sameFile && s.Pending? && Stands(rows, p, s)
    case Refused(PhaseZeroCleanupRefused) =>
      step.sameFile && Blocked(rows, p) && p.plan.version == PHASE_ZERO_VERSION && !step.cleanupAllowed
    case Refused(CleanupFailed) =>
      && step.sameFile && Blocked(rows, p) && (p.plan.version == PHASE_ZERO_VERSION ==> step.cleanupAllowed)
      && !step.deleteSucceeds
    case Refused(NoReplayPlan) => step.sameFile && Cleared(rows, p, step) && !step.replayLoads
    case RunnerError =>
      && step.sameFile && Cleared(rows, p, step) && step.replayLoads
      && (!step.runner.Succeeded? || !IdIsFree(rows, p, step.freshId))
    case Applied =>
      && step.sameFile && Cleared(rows, p, step) && step.replayLoads
      && step.runner.Succeeded? && IdIsFree(rows, p, step.freshId)
    case MissingContext => false
  }

  lemma StandsIff(rows: seq<Row>, p: DiscoveredPlan, status: Status)
    requires KeysUnique(rows)
    ensures var found := Find(rows, p.plan.version, p.bucket.app);
      Stands(rows, p, status) <==> found.Some? && found.value.status == status
  {
    FindFinds(rows, p.plan.version, p.bucket.app);
    if Find(rows, p.plan.version, p.bucket.app).Some? { OnlyRowOfKey(rows, p.plan.version, p.bucket.app); }
  }

  lemma ClearedIff(rows: seq<Row>, p: DiscoveredPlan, step: Step)
    requires KeysUnique(rows)
    ensures var found := Find(rows, p.plan.version, p.bucket.app);
      Cleared(rows, p, step) <==>
        found.None? || (BlocksReapply(found.value.status)
                        && (p.plan.version == PHASE_ZERO_VERSION ==> step.cleanupAllowed) && step.deleteSucceeds)
  {
    FindFinds(rows, p.plan.version, p.bucket.app);
    if Find(rows, p.plan.version, p.bucket.app).Some? { OnlyRowOfKey(rows, p.plan.version, p.bucket.app); }
  }

  lemma LaunchReports(rows: seq<Row>, p: DiscoveredPlan, mode: FakeMode, step: Step)
    ensures var result := Launch(Delete(rows, p.plan.version, p.bucket.app), p, mode, step).1;
      result == if !step.replayLoads then Refused(NoReplayPlan)
                else if step.runner.Succeeded? && IdIsFree(rows, p, step.freshId) then ApplyResult.Applied
                else RunnerError
  {
    NoCollisionAfterDelete(rows, p.plan.version, p.bucket.app, step.freshId);
  }

  /** Every call reports the one result that its inputs explain. */
  lemma ReportedIffExplained(rows: seq<Row>, p: DiscoveredPlan, mode: FakeMode, step: Step, result: ApplyResult)
    requires KeysUnique(rows)
    ensures ApplyOne(rows, p, mode, step).1 == result <==> Explains(rows, p, step, result)
  {
    hide Launch, Find, Delete, Stands, Cleared, IdIsFree, KeysUnique;
    var version, app := p.plan.version, p.bucket.app;
    forall s ensures Stands(rows, p, s) <==>
      Find(rows, version, app).Some? && Find(rows, version, app).value.status == s
    {
      StandsIff(rows, p, s);
    }
    ClearedIff(rows, p, step);
    LaunchReports(rows, p, mode, step);
    if Find(rows, version, app).None? {
      NothingToDelete(rows, version, app);
    }
  }

  lemma NothingToDelete(rows: seq<Row>, version: string, app: string)
    requires Find(rows, version, app).None?
    ensures Delete(rows, version, app) == rows
  {
    FindFinds(rows, version, app);
    DeleteAbsent(rows, version, app);
  }

  /** The ledger after a call: as before, except that a call which came to the runner has let the old row go, and has
      left its new row, if the runner got as far as its insert and the id was free. */
  lemma LedgerAfter(rows: seq<Row>, p: DiscoveredPlan, mode: FakeMode, step: Step)
    requires KeysUnique(rows)
    ensures var (rows', result) := ApplyOne(rows, p, mode, step);
      var rest := Delete(rows, p.plan.version, p.bucket.app);
      rows' ==
        if result == Refused(NoReplayPlan) then rest
        else if result.Skipped? || result.Refused? then rows
        else if step.runner == FailedBeforeInsert || !IdIsFree(rows, p, step.freshId) then rest
        else rest + [Row(step.freshId, p.plan.version, p.bucket.app, LeftStatus(mode, step.runner))]
  {
    var version, app := p.plan.version, p.bucket.app;
    hide Find, Delete;
    NoCollisionAfterDelete(rows, version, app, step.freshId);
    if Find(rows, version, app).None? {
      NothingToDelete(rows, version, app);
    }
  }

  /** The one case in which a refusal is not without effect: the old row may go, goes, and then the replay plan does
      not load. */
  ghost predicate CleansUpInVain(rows: seq<Row>, p: DiscoveredPlan, step: Step) {
    && step.sameFile && !step.replayLoads && step.deleteSucceeds
    && (p.plan.version == PHASE_ZERO_VERSION ==> step.cleanupAllowed)
    && exists r :: r in rows && IsFor(r, p.plan.version, p.bucket.app) && BlocksReapply(r.status)
  }

  /** A refusal changes the ledger exactly then, and what it changes is that the old row is gone. */
  lemma RefusalChangesLedgerIff(rows: seq<Row>, p: DiscoveredPlan, mode: FakeMode, step: Step)
    requires KeysUnique(rows)
    ensures var (rows', result) := ApplyOne(rows, p, mode, step);
      && (result.Refused? && rows' != rows <==> CleansUpInVain(rows, p, step))
      && (result.Refused? && rows' != rows ==> rows' == Delete(rows, p.plan.version, p.bucket.app))
  {
    var version, app := p.plan.version, p.bucket.app;
    FindFinds(rows, version, app);
    if Find(rows, version, app).Some? {
      OnlyRowOfKey(rows, version, app);
      var r := Find(rows, version, app).value;
      assert r in rows && r !in Delete(rows, version, app);
    }
  }

  /** An input on which that happens: one failed row, and a replay plan that does not load. */
  lemma RefusalCanChangeLedger()
    ensures var plan := PendingPlan("main", "a", "V1", [], "");
      var p := DiscoveredPlan(["main", "a.json"], BucketKey("main", "a"), false, plan);
      var rows := [Row(1, "V1", "a", Failed)];
      var step := Step(true, true, true, false, Succeeded, 2);
      KeysUnique(rows) && ApplyOne(rows, p, Real, step) == ([], Refused(NoReplayPlan))
  {
    assert |"V1"| != |PHASE_ZERO_VERSION|;
    assert [Row(1, "V1", "a", Failed)][1..] == [];
  }

  /** Success and skip leave the migration settled; a settled migration is never unsettled, by any call. */
  lemma ApplyOneSettles(rows: seq<Row>, p: DiscoveredPlan, mode: FakeMode, step: Step)
    ensures var (rows', result) := ApplyOne(rows, p, mode, step);
      result.Applied? || result.Skipped? ==> SettledRow(rows', p.plan.version, p.bucket.app)
  {
    var version, app := p.plan.version, p.bucket.app;
    var (rows', result) := ApplyOne(rows, p, mode, step);
    if result.Applied? {
      var last := rows'[|rows'| - 1];
      assert IsFor(last, version, app) && IsSettled(last.status);
    }
    if result.Skipped? {
      FindFinds(rows, version, app);
      var r := Find(rows, version, app).value;
      var i :| 0 <= i < |rows| && rows[i] == r;
    }
  }

  lemma ApplyOneKeepsSettled(
    rows: seq<Row>, p: DiscoveredPlan, mode: FakeMode, step: Step, version: string, app: string)
    requires KeysUnique(rows) && SettledRow(rows, version, app)
    ensures SettledRow(ApplyOne(rows, p, mode, step).0, version, app)
  {
    var rows' := ApplyOne(rows, p, mode, step).0;
    var i :| 0 <= i < |rows| && IsFor(rows[i], version, app) && IsSettled(rows[i].status);
    ApplyOneTouchesOneRow(rows, p, mode, step);
    assert rows[i] in rows';
    var j :| 0 <= j < |rows'| && rows'[j] == rows[i];
  }

  /** Only the plan's own migration can become settled. */
  lemma ApplyOneSettlesOnlyItsOwn(
    rows: seq<Row>, p: DiscoveredPlan, mode: FakeMode, step: Step, version: string, app: string)
    requires SettledRow(ApplyOne(rows, p, mode, step).0, version, app) && !SettledRow(rows, version, app)
    ensures version == p.plan.version && app == p.bucket.app
  {
    var rows' := ApplyOne(rows, p, mode, step).0;
    var i :| 0 <= i < |rows'| && IsFor(rows'[i], version, app) && IsSettled(rows'[i].status);
    assert forall j :: 0 <= j < |rows| ==> rows[j] != rows'[i];
    ApplyOneTouchesOneRow(rows, p, mode, step);
  }

  // ---------------------------------------------------------------------------------------------
  // The code
  // ---------------------------------------------------------------------------------------------

  method ApplyOnePending(ledger: LedgerTable, p: DiscoveredPlan, mode: FakeMode, step: Step) returns (r: ApplyResult)
    modifies ledger
    ensures (ledger.rows, r) == ApplyOne(old(ledger.rows), p, mode, step)
  {
    var version, app := p.plan.version, p.bucket.app;
    if !step.sameFile {
      return Refused(ChangedAfterDiscovery);
    }
    match CheckLedgerState(ledger.rows, version, app) {
      case NotPresent =>
      case AlreadyApplied =>
        return Skipped;
      case PendingOrPartial(status) =>
        if status.Failed? || status.RolledBack? {
          if version == PHASE_ZERO_VERSION && !step.cleanupAllowed {
            return Refused(PhaseZeroCleanupRefused);
          }
          if !step.deleteSucceeds {
            return Refused(CleanupFailed);
          }
          ledger.DeleteRow(version, app);
        } else {
          return Refused(InState(status));
        }
    }
    if !step.replayLoads {
      return Refused(NoReplayPlan);
    }
    var ok := ledger.ApplyPlan(mode, version, app, step.runner, step.freshId);
    r := if ok then ApplyResult.Applied else RunnerError;
  }
}
