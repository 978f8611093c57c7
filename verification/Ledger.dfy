/** The migration ledger of one database, and the moves the library runner makes on it. */
module Ledger {
  import opened Outcomes
  import opened Concatenation

  datatype Status = Pending | Applied | Baseline | Faked | RolledBack | Failed

  /** The columns of a ledger row that the commands look at. */
  datatype Row = Row(id: int, version: string, app: string, status: Status)

  /** A migration with such a row needs no further apply. */
  predicate IsSettled(s: Status) {
    s.Applied? || s.Faked? || s.Baseline?
  }

  /** Such a row has to go before its migration can be applied. */
  predicate BlocksReapply(s: Status) {
    s.Failed? || s.RolledBack?
  }

  predicate IsFor(r: Row, version: string, app: string) {
    r.version == version && r.app == app
  }

  /** The table's constraints: PRIMARY KEY (id) and UNIQUE (version, app_label). */
  ghost predicate KeysUnique(rows: seq<Row>) {
    forall i, j :: 0 <= i < j < |rows| ==>
      rows[i].id != rows[j].id && (rows[i].version != rows[j].version || rows[i].app != rows[j].app)
  }

  /** The first row of a version and app. */
  function Find(rows: seq<Row>, version: string, app: string): Option<Row> {
    if rows == [] then None
    else if IsFor(rows[0], version, app) then Some(rows[0])
    else Find(rows[1..], version, app)
  }

  lemma {:induction false} FindFinds(rows: seq<Row>, version: string, app: string)
    ensures match Find(rows, version, app)
      case Some(r) => r in rows && IsFor(r, version, app)
      case None => forall i :: 0 <= i < |rows| ==> !IsFor(rows[i], version, app)
  {
    if rows != [] { FindFinds(rows[1..], version, app); }
  }

  /** `DELETE ... WHERE version = $1 AND app_label = $2`. */
  function Delete(rows: seq<Row>, version: string, app: string): (r: seq<Row>)
    ensures forall x :: x in r <==> x in rows && !IsFor(x, version, app)
  {
    if rows == [] then []
    else
      var rest := Delete(rows[1..], version, app);
      if IsFor(rows[0], version, app) then rest else [rows[0]] + rest
  }

  lemma {:induction false} DeleteJoins(a: seq<Row>, b: seq<Row>, version: string, app: string)
    ensures Delete(a + b, version, app) == Delete(a, version, app) + Delete(b, version, app)
  {
    if a == [] {
      NothingAdded(b);
      NothingAdded(Delete(b, version, app));
    } else {
      DeleteJoins(a[1..], b, version, app);
      HeadAndTail(a);
      Join([a[0]], a[1..], b);
      DropHead(a[0], a[1..] + b);
      Join([a[0]], Delete(a[1..], version, app), Delete(b, version, app));
    }
  }

  /** `after` is exactly the rows of other keys, in their order: `kept` are their positions. */
  ghost predicate IsRest(rows: seq<Row>, version: string, app: string, after: seq<Row>, kept: seq<nat>) {
    && |after| == |kept| && (forall i, j :: 0 <= i < j < |kept| ==> kept[i] < kept[j])
    && (forall i :: 0 <= i < |kept| ==> kept[i] < |rows| && after[i] == rows[kept[i]])
    && (forall k: nat :: k in kept <==> k < |rows| && !IsFor(rows[k], version, app))
  }

  lemma RestOfOneMore(rows: seq<Row>, r: Row, version: string, app: string, after: seq<Row>, kept: seq<nat>)
    requires IsRest(rows, version, app, after, kept)
    ensures if IsFor(r, version, app) then IsRest(rows + [r], version, app, after, kept)
            else IsRest(rows + [r], version, app, after + [r], kept + [|rows|])
  {
    if !IsFor(r, version, app) {
      var positions := kept + [|rows|];
      forall k: nat ensures k in positions <==> k < |rows + [r]| && !IsFor((rows + [r])[k], version, app) {
        assert k in positions <==> k in kept || k == |rows|;
      }
    }
  }

  /** What stays after a deletion is the rest. */
  lemma {:induction false} DeleteKeepsTheRest(rows: seq<Row>, version: string, app: string) returns (kept: seq<nat>)
    ensures IsRest(rows, version, app, Delete(rows, version, app), kept)
  {
    if rows == [] {
      kept := [];
    } else {
      var older, r := rows[..|rows| - 1], rows[|rows| - 1];
      kept := DeleteKeepsTheRest(older, version, app);
      DeleteJoins(older, [r], version, app);
      assert Delete([r], version, app) == if IsFor(r, version, app) then [] else [r];
      hide Delete, IsRest;
      assert rows == older + [r];
      NothingAdded(Delete(older, version, app));
      RestOfOneMore(older, r, version, app, Delete(older, version, app), kept);
      kept := if IsFor(r, version, app) then kept else kept + [|older|];
    }
  }

  /** For a caller: the deleted key is gone, every other key looks up as before. */
  lemma {:induction false} DeleteForgetsOneKey(rows: seq<Row>, version: string, app: string, v: string, a: string)
    ensures Find(Delete(rows, version, app), v, a) == if v == version && a == app then None else Find(rows, v, a)
  {
    if rows != [] {
      DeleteForgetsOneKey(rows[1..], version, app, v, a);
      DropHead(rows[0], Delete(rows[1..], version, app));
    }
  }

  lemma {:induction false} DeleteKeepsKeysUnique(rows: seq<Row>, version: string, app: string)
    requires KeysUnique(rows)
    ensures KeysUnique(Delete(rows, version, app))
  {
    if rows != [] {
      DeleteKeepsKeysUnique(rows[1..], version, app);
      var rest := Delete(rows[1..], version, app);
      forall j | 0 <= j < |rest|
        ensures rows[0].id != rest[j].id && !IsFor(rows[0], rest[j].version, rest[j].app)
      {
        assert rest[j] in rows[1..];
      }
    }
  }

  // ---------------------------------------------------------------------------------------------
  // Applying: what one call of the runner can do to the ledger
  // ---------------------------------------------------------------------------------------------

  datatype FakeMode = Real | Fake

  /** How far a runner call gets. `SettledThenFailed` is a row marked settled before a later step failed. */
  datatype RunnerOutcome = FailedBeforeInsert | LeftPending | MarkedFailed | SettledThenFailed | Succeeded

  /** The status of the row the runner has inserted. A real apply inserts `pending` and updates it; a fake
      apply inserts `faked` at once. */
  function InsertedStatus(mode: FakeMode, outcome: RunnerOutcome): Status {
    match mode
    case Fake => Faked
    case Real =>
      match outcome
      case LeftPending => Pending
      case MarkedFailed => Failed
      case _ => Applied
  }

  predicate Collides(rows: seq<Row>, version: string, app: string, freshId: int) {
    exists i :: 0 <= i < |rows| && (rows[i].id == freshId || IsFor(rows[i], version, app))
  }

  /** One runner call for a version and app: the new rows, and whether the call reports success. An insert that
      collides with an existing id or (version, app) fails and leaves the table as it was. */
  function RunnerApply(rows: seq<Row>, mode: FakeMode, version: string, app: string,
                       outcome: RunnerOutcome, freshId: int): (r: (seq<Row>, bool))
  {
    if outcome.FailedBeforeInsert? || Collides(rows, version, app, freshId) then (rows, false)
    else (rows + [Row(freshId, version, app, InsertedStatus(mode, outcome))], outcome.Succeeded?)
  }

  // ---------------------------------------------------------------------------------------------
  // Rolling back: what one call of the runner can do to the ledger
  // ---------------------------------------------------------------------------------------------

  /** `FailedAfterUpdate` is a rollback whose row was already marked when a later step failed. */
  datatype RollbackOutcome = FailedBeforeUpdate | FailedAfterUpdate | RollbackSucceeded

  /** `UPDATE ... SET status = 'rolled_back' WHERE version = $1 AND app_label = $3`. */
  function MarkRolledBack(rows: seq<Row>, version: string, app: string): (r: seq<Row>)
    ensures |r| == |rows|
    ensures forall i :: 0 <= i < |rows| ==>
      r[i] == if IsFor(rows[i], version, app) then rows[i].(status := RolledBack) else rows[i]
  {
    if rows == [] then []
    else
      [if IsFor(rows[0], version, app) then rows[0].(status := RolledBack) else rows[0]]
      + MarkRolledBack(rows[1..], version, app)
  }

  /** The row the runner finds for the version and app is applied or faked. */
  predicate CanRollBack(rows: seq<Row>, version: string, app: string) {
    var found := Find(rows, version, app);
    found.Some? && (found.value.status.Applied? || found.value.status.Faked?)
  }

  /** The runner looks the row up again and refuses it unless it is applied or faked. */
  function RunnerRollback(rows: seq<Row>, version: string, app: string, outcome: RollbackOutcome): (seq<Row>, bool) {
    match Find(rows, version, app)
    case None => (rows, false)
    case Some(r) =>
      if !(r.status.Applied? || r.status.Faked?) || outcome.FailedBeforeUpdate? then (rows, false)
      else (MarkRolledBack(rows, version, app), outcome.RollbackSucceeded?)
  }

  // ---------------------------------------------------------------------------------------------
  // The table itself
  // ---------------------------------------------------------------------------------------------

  class LedgerTable {
    var rows: seq<Row>

    constructor (initial: seq<Row>)
      ensures rows == initial
    {
      rows := initial;
    }

    method DeleteRow(version: string, app: string)
      modifies this
      ensures rows == Delete(old(rows), version, app)
      ensures Find(rows, version, app).None?
      ensures forall v, a :: v != version || a != app ==> Find(rows, v, a) == Find(old(rows), v, a)
    {
      forall v, a
        ensures Find(Delete(rows, version, app), v, a) == if v == version && a == app then None else Find(rows, v, a)
      {
        DeleteForgetsOneKey(rows, version, app, v, a);
      }
      rows := Delete(rows, version, app);
    }

    /** Insert the row, then update its status, unless the runner gives up or the insert collides first. */
    method ApplyPlan(mode: FakeMode, version: string, app: string, outcome: RunnerOutcome, freshId: int)
      returns (ok: bool)
      modifies this
      ensures (rows, ok) == RunnerApply(old(rows), mode, version, app, outcome, freshId)
    {
      if outcome.FailedBeforeInsert? || Collides(rows, version, app, freshId) {
        return false;
      }
      var inserted := Row(freshId, version, app, if mode.Fake? then Faked else Pending);
      rows := rows + [inserted];
      if mode.Real? && !outcome.LeftPending? {
        var last := |rows| - 1;
        rows := rows[last := rows[last].(status := if outcome.MarkedFailed? then Failed else Applied)];
        assert rows == old(rows) + [Row(freshId, version, app, InsertedStatus(mode, outcome))];
      }
      ok := outcome.Succeeded?;
    }

    method RollbackPlan(version: string, app: string, outcome: RollbackOutcome) returns (ok: bool)
      modifies this
      ensures (rows, ok) == RunnerRollback(old(rows), version, app, outcome)
      ensures ok <==> outcome.RollbackSucceeded? && CanRollBack(old(rows), version, app)
      ensures var marks := CanRollBack(old(rows), version, app) && !outcome.FailedBeforeUpdate?;
        && |rows| == |old(rows)|
        && (forall i :: 0 <= i < |rows| ==>
             rows[i] == if marks && IsFor(old(rows)[i], version, app)
                        then old(rows)[i].(status := RolledBack) else old(rows)[i])
    {
      var found := Find(rows, version, app);
      if found.None? || !(found.value.status.Applied? || found.value.status.Faked?) || outcome.FailedBeforeUpdate? {
        return false;
      }
      rows := MarkRolledBack(rows, version, app);
      ok := outcome.RollbackSucceeded?;
    }
  }
}
