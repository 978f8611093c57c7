/** `djogi migrations rollback`: which rows are selected, and the loop that rolls them back, newest first. */
module RollbackRun {
  import opened Outcomes
  import opened Sorting
  import opened Ledger

  datatype SelectError =
    | TargetMissing(version: string)
    | TargetNotSettled(version: string, status: Status)
    | UnresolvedRow(version: string, status: Status)
    | PastBaseline(version: string)

  /** A row that can be rolled back. */
  predicate IsRollbackable(s: Status) {
    s.Applied? || s.Faked?
  }

  /** A row that nothing is rolled back past. */
  predicate IsObstacle(s: Status) {
    s.Pending? || s.Failed? || s.Baseline?
  }

  predicate NewerFirst(a: Row, b: Row) {
    a.id >= b.id
  }

  function OfApp(rows: seq<Row>, app: string): (r: seq<Row>)
    ensures forall x :: x in r <==> x in rows && x.app == app
  {
    if rows == [] then []
    else (if rows[0].app == app then [rows[0]] else []) + OfApp(rows[1..], app)
  }

  /** The rows of one app, newest id first. */
  function Bucket(rows: seq<Row>, app: string): seq<Row> {
    Sort(OfApp(rows, app), NewerFirst)
  }

  function FirstOfVersion(bucket: seq<Row>, version: string): (r: Option<Row>)
    ensures r.Some? ==> r.value in bucket && r.value.version == version
    ensures r.None? ==> forall x :: x in bucket ==> x.version != version
  {
    if bucket == [] then None
    else if bucket[0].version == version then Some(bucket[0])
    else FirstOfVersion(bucket[1..], version)
  }

  /** Walk down from the newest row. With a floor: collect until the floor, refuse at an obstacle. Without:
      take the first live row, or nothing when a baseline comes first. */
  function Walk(bucket: seq<Row>, floor: Option<int>): Result<seq<Row>, SelectError>
    decreases |bucket|, 0
  {
    if bucket == [] then Ok([])
    else
      var r := bucket[0];
      if floor.Some? && r.id <= floor.value then Ok([])
      else match r.status
        case RolledBack => Walk(bucket[1..], floor)
        case Applied => Take(r, bucket[1..], floor)
        case Faked => Take(r, bucket[1..], floor)
        case Baseline => if floor.None? then Ok([]) else Err(PastBaseline(r.version))
        case Pending | Failed => Err(UnresolvedRow(r.version, r.status))
  }

  function Take(r: Row, older: seq<Row>, floor: Option<int>): Result<seq<Row>, SelectError>
    decreases |older|, 1
  {
    if floor.None? then Ok([r])
    else match Walk(older, floor)
      case Err(e) => Err(e)
      case Ok(targets) => Ok([r] + targets)
  }

  /** `select_rollback_targets`. */
  function Select(rows: seq<Row>, app: string, to: Option<string>): Result<seq<Row>, SelectError> {
    var bucket := Bucket(rows, app);
    match to
    case None => Walk(bucket, None)
    case Some(version) =>
      match FirstOfVersion(bucket, version)
      case None => Err(TargetMissing(version))
      case Some(target) =>
        if !(target.status.Applied? || target.status.Faked? || target.status.Baseline?)
        then Err(TargetNotSettled(version, target.status))
        else Walk(bucket, Some(target.id))
  }

  // ---------------------------------------------------------------------------------------------
  // Selection, declaratively
  // ---------------------------------------------------------------------------------------------

  ghost predicate Descending(s: seq<Row>) {
    forall i, j :: 0 <= i < j < |s| ==> s[i].id > s[j].id
  }

  lemma BucketIs(rows: seq<Row>, app: string)
    ensures forall x :: x in Bucket(rows, app) <==> x in rows && x.app == app
    ensures Sorted(Bucket(rows, app), NewerFirst)
  {
    var own := OfApp(rows, app);
    SortIsSortedPermutation(own, NewerFirst);
    forall x ensures x in Bucket(rows, app) <==> x in own {
      assert x in Bucket(rows, app) <==> x in multiset(own);
    }
  }

  lemma {:induction false} OfAppKeepsIdsDistinct(rows: seq<Row>, app: string)
    requires KeysUnique(rows)
    ensures KeysUnique(OfApp(rows, app))
  {
    if rows != [] {
      OfAppKeepsIdsDistinct(rows[1..], app);
      var rest := OfApp(rows[1..], app);
      forall j | 0 <= j < |rest| ensures rows[0].id != rest[j].id && !IsFor(rows[0], rest[j].version, rest[j].app) {
        assert rest[j] in rows[1..];
      }
    }
  }

  lemma {:induction false} InsertKeepsKeysUnique(x: Row, s: seq<Row>)
    requires KeysUnique(s) && forall y :: y in s ==> x.id != y.id && !IsFor(x, y.version, y.app)
    ensures KeysUnique(Insert(x, s, NewerFirst))
  {
    if s != [] && !NewerFirst(x, s[0]) {
      InsertKeepsKeysUnique(x, s[1..]);
      InsertKeepsElements(x, s[1..], NewerFirst);
      var t := Insert(x, s[1..], NewerFirst);
      forall y | y in t ensures s[0].id != y.id && !IsFor(s[0], y.version, y.app) {
        assert y in multiset(t);
        assert y == x || y in s[1..];
      }
    }
  }

  lemma {:induction false} SortKeepsKeysUnique(s: seq<Row>)
    requires KeysUnique(s)
    ensures KeysUnique(Sort(s, NewerFirst))
  {
    if s != [] {
      SortKeepsKeysUnique(s[1..]);
      SortIsSortedPermutation(s[1..], NewerFirst);
      forall y | y in Sort(s[1..], NewerFirst) ensures s[0].id != y.id && !IsFor(s[0], y.version, y.app) {
        assert y in multiset(s[1..]);
      }
      InsertKeepsKeysUnique(s[0], Sort(s[1..], NewerFirst));
    }
  }

  lemma BucketDescends(rows: seq<Row>, app: string)
    requires KeysUnique(rows)
    ensures Descending(Bucket(rows, app)) && KeysUnique(Bucket(rows, app))
  {
    BucketIs(rows, app);
    OfAppKeepsIdsDistinct(rows, app);
    SortKeepsKeysUnique(OfApp(rows, app));
  }

  /** The refusal that names such a row. */
  function ErrorAt(r: Row): SelectError
    requires IsObstacle(r.status)
  {
    if r.status.Baseline? then PastBaseline(r.version) else UnresolvedRow(r.version, r.status)
  }

  ghost predicate Obstructs(rows: seq<Row>, floor: int, r: Row) {
    r in rows && r.id > floor && IsObstacle(r.status)
  }

  ghost predicate Live(rows: seq<Row>, floor: int, r: Row) {
    r in rows && r.id > floor && IsRollbackable(r.status)
  }

  lemma SplitDescending(bucket: seq<Row>)
    requires Descending(bucket) && bucket != []
    ensures Descending(bucket[1..]) && forall x :: x in bucket[1..] ==> x.id < bucket[0].id
    ensures forall x :: x in bucket <==> x == bucket[0] || x in bucket[1..]
  {
  }

  lemma PrependDescending(r: Row, s: seq<Row>)
    requires Descending(s) && forall x :: x in s ==> x.id < r.id
    ensures Descending([r] + s) && forall x :: x in [r] + s <==> x == r || x in s
  {
  }

  /** The walk above a floor fails exactly at an obstacle above it, naming the newest one; otherwise it yields
      exactly the live rows above it, newest first. */
  lemma {:induction false} WalkAboveFloor(bucket: seq<Row>, floor: int) returns (obstacle: Option<Row>)
    requires Descending(bucket)
    ensures match Walk(bucket, Some(floor))
      case Err(e) =>
        && obstacle.Some? && Obstructs(bucket, floor, obstacle.value) && e == ErrorAt(obstacle.value)
        && (forall x :: Obstructs(bucket, floor, x) ==> x.id <= obstacle.value.id)
      case Ok(ts) =>
        && (forall x :: !Obstructs(bucket, floor, x))
        && Descending(ts) && (forall x :: x in ts <==> Live(bucket, floor, x))
  {
    obstacle := None;
    if bucket != [] {
      var head, older := bucket[0], bucket[1..];
      SplitDescending(bucket);
      if head.id <= floor {
        assert Walk(bucket, Some(floor)) == Ok([]);
      } else if IsObstacle(head.status) {
        obstacle := Some(head);
      } else {
        obstacle := WalkAboveFloor(older, floor);
        assert forall x :: Obstructs(bucket, floor, x) <==> Obstructs(older, floor, x);
        if IsRollbackable(head.status) {
          assert Walk(bucket, Some(floor)) == Take(head, older, Some(floor));
          if Walk(older, Some(floor)).Ok? {
            PrependDescending(head, Walk(older, Some(floor)).value);
          }
        } else {
          assert Walk(bucket, Some(floor)) == Walk(older, Some(floor));
        }
      }
    }
  }

  /** r is the newest row that is not rolled back. */
  ghost predicate IsNewestStanding(rows: seq<Row>, r: Row) {
    r in rows && !r.status.RolledBack? && forall x :: x in rows && x.id > r.id ==> x.status.RolledBack?
  }

  /** What plain rollback makes of the newest row still standing: take it when it is live, do nothing at a
      baseline, refuse otherwise. */
  function PlainChoice(r: Row): Result<seq<Row>, SelectError>
    requires !r.status.RolledBack?
  {
    if IsRollbackable(r.status) then Ok([r])
    else if r.status.Baseline? then Ok([])
    else Err(UnresolvedRow(r.version, r.status))
  }

  lemma {:induction false} WalkOne(bucket: seq<Row>)
    requires Descending(bucket)
    ensures (forall r :: r in bucket ==> r.status.RolledBack?) ==> Walk(bucket, None) == Ok([])
    ensures forall r :: IsNewestStanding(bucket, r) ==> Walk(bucket, None) == PlainChoice(r)
  {
    if bucket != [] {
      var head, older := bucket[0], bucket[1..];
      SplitDescending(bucket);
      WalkOne(older);
      forall r | IsNewestStanding(bucket, r) ensures Walk(bucket, None) == PlainChoice(r) {
        if head.status.RolledBack? {
          assert IsNewestStanding(older, r);
        } else {
          assert r == head;
        }
      }
    }
  }

  ghost predicate TargetIs(rows: seq<Row>, app: string, version: string, target: Row) {
    target in rows && IsFor(target, version, app)
  }

  lemma BucketTarget(rows: seq<Row>, app: string, version: string)
    requires KeysUnique(rows)
    ensures var found := FirstOfVersion(Bucket(rows, app), version);
      && (found.Some? ==> TargetIs(rows, app, version, found.value))
      && (forall t :: TargetIs(rows, app, version, t) ==> found == Some(t))
  {
    var bucket := Bucket(rows, app);
    BucketIs(rows, app);
    BucketDescends(rows, app);
    var found := FirstOfVersion(bucket, version);
    forall t | TargetIs(rows, app, version, t) ensures found == Some(t) {
      assert t in bucket;
      OneRowPerVersion(bucket, t, found.value);
    }
  }

  lemma OneRowPerVersion(bucket: seq<Row>, a: Row, b: Row)
    requires KeysUnique(bucket) && a in bucket && b in bucket && a.version == b.version && a.app == b.app
    ensures a == b
  {
  }

  /** `--to` with a version the app's ledger does not hold, or holds unsettled, is refused as such. */
  lemma SelectionNeedsSettledTarget(rows: seq<Row>, app: string, version: string)
    requires KeysUnique(rows)
    ensures (forall t :: !TargetIs(rows, app, version, t)) <==>
      Select(rows, app, Some(version)) == Err(TargetMissing(version))
    ensures forall t :: TargetIs(rows, app, version, t) && !IsSettled(t.status) ==>
      Select(rows, app, Some(version)) == Err(TargetNotSettled(version, t.status))
  {
    BucketTarget(rows, app, version);
    SelectErrors(rows, app, version);
  }

  lemma SelectErrors(rows: seq<Row>, app: string, version: string)
    requires KeysUnique(rows)
    ensures FirstOfVersion(Bucket(rows, app), version).Some? ==>
      Select(rows, app, Some(version)) != Err(TargetMissing(version))
  {
    BucketDescends(rows, app);
    var found := FirstOfVersion(Bucket(rows, app), version);
    if found.Some? {
      var obstacle := WalkAboveFloor(Bucket(rows, app), found.value.id);
    }
  }

  /** `--to` with a settled target: refused exactly when a pending, failed or baseline row of the app lies above
      the target, naming the newest one; otherwise exactly the app's applied and faked rows above the target,
      strictly descending. */
  lemma SelectionAboveTarget(rows: seq<Row>, app: string, version: string, t: Row) returns (obstacle: Option<Row>)
    requires KeysUnique(rows) && TargetIs(rows, app, version, t) && IsSettled(t.status)
    ensures match Select(rows, app, Some(version))
      case Err(e) =>
        && obstacle.Some? && obstacle.value.app == app && Obstructs(rows, t.id, obstacle.value)
        && e == ErrorAt(obstacle.value)
        && (forall x: Row :: x.app == app && Obstructs(rows, t.id, x) ==> x.id <= obstacle.value.id)
      case Ok(ts) =>
        && (forall x: Row :: x.app == app ==> !Obstructs(rows, t.id, x))
        && Descending(ts) && (forall x :: x in ts <==> x.app == app && Live(rows, t.id, x))
  {
    var bucket := Bucket(rows, app);
    BucketIs(rows, app);
    BucketDescends(rows, app);
    BucketTarget(rows, app, version);
    obstacle := WalkAboveFloor(bucket, t.id);
    assert forall x :: Obstructs(bucket, t.id, x) <==> x.app == app && Obstructs(rows, t.id, x);
    assert forall x :: Live(bucket, t.id, x) <==> x.app == app && Live(rows, t.id, x);
  }

  /** Without `--to` the newest standing row of the app decides alone; at most one row is selected. */
  lemma PlainSelection(rows: seq<Row>, app: string)
    requires KeysUnique(rows)
    ensures (forall r :: r in rows && r.app == app ==> r.status.RolledBack?) ==> Select(rows, app, None) == Ok([])
    ensures forall r :: IsNewestStanding(OfApp(rows, app), r) ==> Select(rows, app, None) == PlainChoice(r)
  {
    var bucket := Bucket(rows, app);
    BucketIs(rows, app);
    BucketDescends(rows, app);
    WalkOne(bucket);
    assert forall r :: IsNewestStanding(OfApp(rows, app), r) ==> IsNewestStanding(bucket, r);
  }

  // ---------------------------------------------------------------------------------------------
  // One rollback and the next selection
  // ---------------------------------------------------------------------------------------------

  lemma MarkKeepsKeysUnique(rows: seq<Row>, version: string, app: string)
    requires KeysUnique(rows)
    ensures KeysUnique(MarkRolledBack(rows, version, app))
  {
  }

  lemma {:induction false} MarkAbsent(rows: seq<Row>, version: string, app: string)
    requires forall r :: r in rows ==> !IsFor(r, version, app)
    ensures MarkRolledBack(rows, version, app) == rows
  {
  }

  lemma {:induction false} MarkOfApp(rows: seq<Row>, version: string, app: string, own: string)
    ensures OfApp(MarkRolledBack(rows, version, app), own) == MarkRolledBack(OfApp(rows, own), version, app)
  {
    if rows != [] {
      MarkOfApp(rows[1..], version, app, own);
      MarkCons(rows, version, app);
      if rows[0].app == own {
        var rest := OfApp(rows[1..], own);
        assert OfApp(rows, own) == [rows[0]] + rest;
        MarkCons([rows[0]] + rest, version, app);
      } else {
        assert OfApp(rows, own) == OfApp(rows[1..], own);
      }
    }
  }

  function MarkedRow(r: Row, version: string, app: string): Row {
    if IsFor(r, version, app) then r.(status := RolledBack) else r
  }

  lemma MarkCons(rows: seq<Row>, version: string, app: string)
    requires rows != []
    ensures MarkRolledBack(rows, version, app)
            == [MarkedRow(rows[0], version, app)] + MarkRolledBack(rows[1..], version, app)
    ensures MarkRolledBack(rows, version, app)[1..] == MarkRolledBack(rows[1..], version, app)
  {
  }

  lemma {:induction false} MarkInsert(x: Row, s: seq<Row>, version: string, app: string)
    ensures MarkRolledBack(Insert(x, s, NewerFirst), version, app)
            == Insert(MarkedRow(x, version, app), MarkRolledBack(s, version, app), NewerFirst)
  {
    if s == [] {
      MarkCons([x], version, app);
    } else if NewerFirst(x, s[0]) {
      MarkCons([x] + s, version, app);
      assert ([x] + s)[1..] == s;
      MarkCons(s, version, app);
    } else {
      MarkInsert(x, s[1..], version, app);
      MarkCons(s, version, app);
      var t := Insert(x, s[1..], NewerFirst);
      MarkCons([s[0]] + t, version, app);
      assert ([s[0]] + t)[1..] == t;
    }
  }

  lemma {:induction false} MarkSort(s: seq<Row>, version: string, app: string)
    ensures Sort(MarkRolledBack(s, version, app), NewerFirst) == MarkRolledBack(Sort(s, NewerFirst), version, app)
  {
    if s != [] {
      MarkCons(s, version, app);
      MarkSort(s[1..], version, app);
      MarkInsert(s[0], Sort(s[1..], NewerFirst), version, app);
    }
  }

  /** Marking a row does not reorder the bucket. */
  lemma MarkBucket(rows: seq<Row>, version: string, app: string, own: string)
    ensures Bucket(MarkRolledBack(rows, version, app), own) == MarkRolledBack(Bucket(rows, own), version, app)
  {
    MarkOfApp(rows, version, app, own);
    MarkSort(OfApp(rows, own), version, app);
  }

  lemma {:induction false} MarkKeepsOtherVersion(bucket: seq<Row>, version: string, app: string, other: string)
    requires other != version
    ensures FirstOfVersion(MarkRolledBack(bucket, version, app), other) == FirstOfVersion(bucket, other)
  {
    if bucket != [] {
      MarkCons(bucket, version, app);
      MarkKeepsOtherVersion(bucket[1..], version, app, other);
    }
  }

  lemma UniqueTail(bucket: seq<Row>)
    requires KeysUnique(bucket) && bucket != []
    ensures KeysUnique(bucket[1..])
    ensures forall r :: r in bucket[1..] ==> !IsFor(r, bucket[0].version, bucket[0].app)
  {
  }

  /** When the walk above a floor selects ts, the walk without a floor selects its first row, and once that row is
      rolled back the walk above the floor selects the others. */
  lemma {:induction false} WalkAfterRollback(bucket: seq<Row>, floor: int, ts: seq<Row>)
    requires KeysUnique(bucket) && Walk(bucket, Some(floor)) == Ok(ts) && ts != []
    ensures Walk(bucket, None) == Ok([ts[0]])
    ensures ts[0] in bucket && IsRollbackable(ts[0].status) && ts[0].id > floor
    ensures Walk(MarkRolledBack(bucket, ts[0].version, ts[0].app), Some(floor)) == Ok(ts[1..])
  {
    var head, older := bucket[0], bucket[1..];
    var r := ts[0];
    UniqueTail(bucket);
    MarkCons(bucket, r.version, r.app);
    if head.status.RolledBack? {
      WalkAfterRollback(older, floor, ts);
      assert !IsFor(head, r.version, r.app);
    } else {
      assert Walk(bucket, Some(floor)) == Take(head, older, Some(floor));
      assert ts == [head] + Walk(older, Some(floor)).value;
      MarkAbsent(older, head.version, head.app);
    }
  }

  /** What one successful plain rollback makes of the ledger. */
  function PlainOnce(rows: seq<Row>, app: string): seq<Row> {
    match Select(rows, app, None)
    case Ok(ts) => if ts == [] then rows else RunnerRollback(rows, ts[0].version, app, RollbackSucceeded).0
    case Err(_) => rows
  }

  function PlainRuns(rows: seq<Row>, app: string, k: nat): seq<Row> {
    if k == 0 then rows else PlainOnce(PlainRuns(rows, app, k - 1), app)
  }

  lemma FindUnique(rows: seq<Row>, r: Row)
    requires KeysUnique(rows) && r in rows
    ensures Find(rows, r.version, r.app) == Some(r)
  {
  }

  lemma SelectedAbove(rows: seq<Row>, app: string, version: string) returns (target: Row)
    requires Select(rows, app, Some(version)).Ok?
    ensures FirstOfVersion(Bucket(rows, app), version) == Some(target) && IsSettled(target.status)
    ensures Select(rows, app, Some(version)) == Walk(Bucket(rows, app), Some(target.id))
  {
    target := FirstOfVersion(Bucket(rows, app), version).value;
  }

  lemma FirstSelected(rows: seq<Row>, app: string, version: string, ts: seq<Row>)
    requires KeysUnique(rows) && Select(rows, app, Some(version)) == Ok(ts) && ts != []
    ensures Select(rows, app, None) == Ok([ts[0]])
    ensures ts[0] in rows && ts[0].app == app && IsRollbackable(ts[0].status) && ts[0].version != version
  {
    var target := SelectedAbove(rows, app, version);
    BucketDescends(rows, app);
    BucketIs(rows, app);
    WalkAfterRollback(Bucket(rows, app), target.id, ts);
    if ts[0].version == version {
      OneRowPerVersion(Bucket(rows, app), ts[0], target);
      assert false;
    }
  }

  lemma NextSelection(rows: seq<Row>, app: string, version: string, ts: seq<Row>)
    requires KeysUnique(rows) && Select(rows, app, Some(version)) == Ok(ts) && ts != []
    ensures Select(MarkRolledBack(rows, ts[0].version, app), app, Some(version)) == Ok(ts[1..])
  {
    FirstSelected(rows, app, version, ts);
    var bucket := Bucket(rows, app);
    var target := SelectedAbove(rows, app, version);
    BucketDescends(rows, app);
    WalkAfterRollback(bucket, target.id, ts);
    MarkBucket(rows, ts[0].version, app, app);
    MarkKeepsOtherVersion(bucket, ts[0].version, app, version);
  }

  lemma RollbackOf(rows: seq<Row>, r: Row, outcome: RollbackOutcome)
    requires KeysUnique(rows) && r in rows && IsRollbackable(r.status)
    ensures RunnerRollback(rows, r.version, r.app, outcome) ==
      if outcome.FailedBeforeUpdate? then (rows, false)
      else (MarkRolledBack(rows, r.version, r.app), outcome.RollbackSucceeded?)
  {
    FindUnique(rows, r);
  }

  /** One plain rollback is one step of `rollback --to`. */
  lemma PlainIsOneStep(rows: seq<Row>, app: string, version: string, ts: seq<Row>)
    requires KeysUnique(rows) && Select(rows, app, Some(version)) == Ok(ts) && ts != []
    ensures Select(rows, app, None) == Ok([ts[0]])
    ensures ts[0] in rows && ts[0].app == app && IsRollbackable(ts[0].status)
    ensures PlainOnce(rows, app) == MarkRolledBack(rows, ts[0].version, app)
    ensures KeysUnique(PlainOnce(rows, app))
    ensures Select(PlainOnce(rows, app), app, Some(version)) == Ok(ts[1..])
  {
    FirstSelected(rows, app, version, ts);
    NextSelection(rows, app, version, ts);
    RollbackOf(rows, ts[0], RollbackSucceeded);
    MarkKeepsKeysUnique(rows, ts[0].version, app);
  }

  ghost predicate Selects(rows: seq<Row>, app: string, version: string, ts: seq<Row>) {
    KeysUnique(rows) && Select(rows, app, Some(version)) == Ok(ts)
  }

  lemma {:induction false} AfterPlainRuns(rows: seq<Row>, app: string, version: string, ts: seq<Row>, k: nat)
    requires Selects(rows, app, version, ts) && k <= |ts|
    ensures Selects(PlainRuns(rows, app, k), app, version, ts[k..])
  {
    if k > 0 {
      AfterPlainRuns(rows, app, version, ts, k - 1);
      PlainIsOneStep(PlainRuns(rows, app, k - 1), app, version, ts[k - 1..]);
      assert ts[k - 1..][1..] == ts[k..];
    }
  }

  /** `rollback --to V` refines repeated plain rollback: when it selects ts, successful plain rollbacks pick the
      same rows in the same order, and afterwards `--to V` selects nothing. */
  lemma RepeatedPlainRollback(rows: seq<Row>, app: string, version: string, ts: seq<Row>, k: nat)
    requires KeysUnique(rows) && Select(rows, app, Some(version)) == Ok(ts) && k <= |ts|
    ensures k < |ts| ==> Select(PlainRuns(rows, app, k), app, None) == Ok([ts[k]])
    ensures Select(PlainRuns(rows, app, |ts|), app, Some(version)) == Ok([])
  {
    AfterPlainRuns(rows, app, version, ts, k);
    AfterPlainRuns(rows, app, version, ts, |ts|);
    if k < |ts| {
      FirstSelected(PlainRuns(rows, app, k), app, version, ts[k..]);
    }
  }

  // ---------------------------------------------------------------------------------------------
  // The loop over the selected rows
  // ---------------------------------------------------------------------------------------------

  /** How the runner fares on the first, second, ... selected row. */
  type Script = nat -> RollbackOutcome

  /** Still going, or halted at the first runner error. */
  datatype Progress = Rolling(rows: seq<Row>) | Halted(rows: seq<Row>, at: nat)

  function RollbackLoop(rows: seq<Row>, app: string, ts: seq<Row>, outcomes: Script, n: nat): Progress
    requires n <= |ts|
  {
    if n == 0 then Rolling(rows)
    else match RollbackLoop(rows, app, ts, outcomes, n - 1)
      case Halted(rows', at) => Halted(rows', at)
      case Rolling(rows') =>
        RollStep(rows', app, ts[n - 1], outcomes(n - 1), n - 1)
  }

  function RollStep(rows: seq<Row>, app: string, target: Row, outcome: RollbackOutcome, at: nat): Progress {
    var (rows', ok) := RunnerRollback(rows, target.version, app, outcome);
    if ok then Rolling(rows') else Halted(rows', at)
  }

  /** r is one of the first k selected rows. */
  ghost predicate AmongFirst(ts: seq<Row>, k: nat, r: Row)
    requires k <= |ts|
  {
    k > 0 && (ts[k - 1] == r || AmongFirst(ts, k - 1, r))
  }

  /** The ledger with the first k selected rows rolled back and nothing else changed. */
  ghost predicate FirstRolledBack(before: seq<Row>, after: seq<Row>, ts: seq<Row>, k: nat)
    requires k <= |ts|
  {
    && |after| == |before|
    && (forall i :: 0 <= i < |before| ==>
         after[i] == if AmongFirst(ts, k, before[i]) then before[i].(status := RolledBack) else before[i])
  }

  /** What a selection guarantees to the loop. */
  ghost predicate Selected(rows: seq<Row>, app: string, ts: seq<Row>) {
    && KeysUnique(rows) && Descending(ts)
    && (forall j :: 0 <= j < |ts| ==> ts[j] in rows && ts[j].app == app && IsRollbackable(ts[j].status))
  }

  lemma SelectionIsSelected(rows: seq<Row>, app: string, to: Option<string>)
    requires KeysUnique(rows) && Select(rows, app, to).Ok?
    ensures Selected(rows, app, Select(rows, app, to).value)
  {
    BucketIs(rows, app);
    BucketDescends(rows, app);
    if to.Some? {
      var target := SelectedAbove(rows, app, to.value);
      var obstacle := WalkAboveFloor(Bucket(rows, app), target.id);
      var ts := Select(rows, app, to).value;
      forall j | 0 <= j < |ts| ensures ts[j] in rows && ts[j].app == app && IsRollbackable(ts[j].status) {
        assert ts[j] in ts && Live(Bucket(rows, app), target.id, ts[j]);
      }
    } else {
      PlainIsSelected(Bucket(rows, app));
    }
  }

  lemma {:induction false} PlainIsSelected(bucket: seq<Row>)
    requires Walk(bucket, None).Ok?
    ensures var ts := Walk(bucket, None).value;
      |ts| <= 1 && forall j :: 0 <= j < |ts| ==> ts[j] in bucket && IsRollbackable(ts[j].status)
  {
    if bucket != [] && bucket[0].status.RolledBack? {
      PlainIsSelected(bucket[1..]);
    } else if bucket != [] && IsRollbackable(bucket[0].status) {
      assert Walk(bucket, None) == Take(bucket[0], bucket[1..], None);
    }
  }

  lemma {:induction false} LaterNotAmongFirst(ts: seq<Row>, k: nat, i: nat)
    requires Descending(ts) && k <= i < |ts|
    ensures !AmongFirst(ts, k, ts[i])
  {
    if k > 0 {
      LaterNotAmongFirst(ts, k - 1, i);
      assert ts[k - 1].id > ts[i].id;
    }
  }

  lemma {:induction false} EarlierAmongFirst(ts: seq<Row>, k: nat, i: nat)
    requires i < k <= |ts|
    ensures AmongFirst(ts, k, ts[i])
  {
    if i < k - 1 { EarlierAmongFirst(ts, k - 1, i); }
  }

  lemma UniqueKeyRows(rows: seq<Row>, i: nat, j: nat)
    requires KeysUnique(rows) && i < |rows| && j < |rows|
    ensures IsFor(rows[i], rows[j].version, rows[j].app) <==> i == j
    ensures rows[i] == rows[j] <==> i == j
  {
  }

  lemma FindAt(rows: seq<Row>, m: nat)
    requires KeysUnique(rows) && m < |rows|
    ensures Find(rows, rows[m].version, rows[m].app) == Some(rows[m])
  {
    FindUnique(rows, rows[m]);
  }

  lemma FirstRolledBackKeepsKeys(rows: seq<Row>, now: seq<Row>, ts: seq<Row>, k: nat)
    requires KeysUnique(rows) && k <= |ts| && FirstRolledBack(rows, now, ts, k)
    ensures KeysUnique(now)
  {
  }

  lemma OneMoreRolledBack(rows: seq<Row>, now: seq<Row>, app: string, ts: seq<Row>, k: nat)
    requires Selected(rows, app, ts) && k < |ts| && FirstRolledBack(rows, now, ts, k)
    ensures FirstRolledBack(rows, MarkRolledBack(now, ts[k].version, app), ts, k + 1)
    ensures Find(now, ts[k].version, app) == Some(ts[k])
  {
    var r := ts[k];
    var m :| 0 <= m < |rows| && rows[m] == r;
    LaterNotAmongFirst(ts, k, k);
    assert now[m] == r;
    FirstRolledBackKeepsKeys(rows, now, ts, k);
    FindAt(now, m);
    var next := MarkRolledBack(now, r.version, app);
    forall i | 0 <= i < |rows|
      ensures next[i] == if AmongFirst(ts, k + 1, rows[i]) then rows[i].(status := RolledBack) else rows[i]
    {
      UniqueKeyRows(rows, i, m);
      UniqueKeyRows(now, i, m);
    }
  }

  /** The ledger after marking the first k selected rows, one after the other. */
  function MarkFirst(rows: seq<Row>, app: string, ts: seq<Row>, k: nat): seq<Row>
    requires k <= |ts|
  {
    if k == 0 then rows else MarkRolledBack(MarkFirst(rows, app, ts, k - 1), ts[k - 1].version, app)
  }

  lemma {:induction false} MarkFirstIs(rows: seq<Row>, app: string, ts: seq<Row>, k: nat)
    requires Selected(rows, app, ts) && k <= |ts|
    ensures FirstRolledBack(rows, MarkFirst(rows, app, ts, k), ts, k)
  {
    hide *;
    if k == 0 {
      NothingMarked(rows, app, ts);
    } else {
      MarkFirstIs(rows, app, ts, k - 1);
      OneMoreMarked(rows, app, ts, k - 1);
      OneMoreRolledBack(rows, MarkFirst(rows, app, ts, k - 1), app, ts, k - 1);
    }
  }

  lemma NothingMarked(rows: seq<Row>, app: string, ts: seq<Row>)
    ensures MarkFirst(rows, app, ts, 0) == rows && FirstRolledBack(rows, rows, ts, 0)
  {
  }

  lemma OneMoreMarked(rows: seq<Row>, app: string, ts: seq<Row>, k: nat)
    requires k < |ts|
    ensures MarkFirst(rows, app, ts, k + 1) == MarkRolledBack(MarkFirst(rows, app, ts, k), ts[k].version, app)
  {
  }

  /** How many rows a run that fails at the given position has marked: the failing call may have updated its row. */
  function MarkedAtFailure(outcomes: Script, at: nat): (k: nat)
    ensures at <= k <= at + 1 && (k == at + 1 <==> outcomes(at).FailedAfterUpdate?)
  {
    if outcomes(at).FailedAfterUpdate? then at + 1 else at
  }

  lemma LoopUnfolds(rows: seq<Row>, app: string, ts: seq<Row>, outcomes: Script, k: nat)
    requires k < |ts| && RollbackLoop(rows, app, ts, outcomes, k).Rolling?
    ensures RollbackLoop(rows, app, ts, outcomes, k + 1)
            == RollStep(RollbackLoop(rows, app, ts, outcomes, k).rows, app, ts[k], outcomes(k), k)
  {
  }

  lemma RollStepOf(now: seq<Row>, app: string, r: Row, outcome: RollbackOutcome, at: nat)
    requires Find(now, r.version, app) == Some(r) && IsRollbackable(r.status)
    ensures RollStep(now, app, r, outcome, at) ==
      match outcome
      case FailedBeforeUpdate => Halted(now, at)
      case FailedAfterUpdate => Halted(MarkRolledBack(now, r.version, app), at)
      case RollbackSucceeded => Rolling(MarkRolledBack(now, r.version, app))
  {
  }

  lemma SelectedIsLive(rows: seq<Row>, app: string, ts: seq<Row>, k: nat)
    requires Selected(rows, app, ts) && k < |ts|
    ensures IsRollbackable(ts[k].status)
  {
  }

  /** One more runner call, on the next selected row. */
  lemma StepOnMarked(rows: seq<Row>, app: string, ts: seq<Row>, outcomes: Script, k: nat)
    requires Selected(rows, app, ts) && k < |ts|
    requires RollbackLoop(rows, app, ts, outcomes, k) == Rolling(MarkFirst(rows, app, ts, k))
    ensures RollbackLoop(rows, app, ts, outcomes, k + 1) ==
      if outcomes(k).RollbackSucceeded? then Rolling(MarkFirst(rows, app, ts, k + 1))
      else Halted(MarkFirst(rows, app, ts, MarkedAtFailure(outcomes, k)), k)
  {
    hide *;
    var now := MarkFirst(rows, app, ts, k);
    MarkFirstIs(rows, app, ts, k);
    OneMoreRolledBack(rows, now, app, ts, k);
    OneMoreMarked(rows, app, ts, k);
    SelectedIsLive(rows, app, ts, k);
    LoopUnfolds(rows, app, ts, outcomes, k);
    RollStepOf(now, app, ts[k], outcomes(k), k);
  }

  ghost predicate AllSucceed(outcomes: Script, n: nat) {
    forall j :: 0 <= j < n ==> outcomes(j).RollbackSucceeded?
  }

  lemma {:induction false} LoopMarksPrefix(rows: seq<Row>, app: string, ts: seq<Row>, outcomes: Script, n: nat)
    requires n <= |ts| && Selected(rows, app, ts)
    ensures match RollbackLoop(rows, app, ts, outcomes, n)
      case Rolling(now) => AllSucceed(outcomes, n) && now == MarkFirst(rows, app, ts, n)
      case Halted(now, at) =>
        && at < n && !outcomes(at).RollbackSucceeded? && AllSucceed(outcomes, at)
        && now == MarkFirst(rows, app, ts, MarkedAtFailure(outcomes, at))
  {
    hide *;
    if n == 0 {
      NothingRolledBack(rows, app, ts, outcomes);
    } else {
      LoopMarksPrefix(rows, app, ts, outcomes, n - 1);
      if RollbackLoop(rows, app, ts, outcomes, n - 1).Rolling? {
        StepOnMarked(rows, app, ts, outcomes, n - 1);
        OneMoreSuccess(outcomes, n - 1);
      } else {
        HaltedForGood(rows, app, ts, outcomes, n - 1, n);
      }
    }
  }

  lemma NothingRolledBack(rows: seq<Row>, app: string, ts: seq<Row>, outcomes: Script)
    ensures RollbackLoop(rows, app, ts, outcomes, 0) == Rolling(MarkFirst(rows, app, ts, 0)) && AllSucceed(outcomes, 0)
  {
  }

  lemma OneMoreSuccess(outcomes: Script, n: nat)
    ensures AllSucceed(outcomes, n + 1) <==> AllSucceed(outcomes, n) && outcomes(n).RollbackSucceeded?
  {
  }

  /** Over any run, finished or halted anywhere, exactly a newest-first prefix of the selection is rolled back and
      every other row is untouched. A run that goes through rolls back all of it; a halted one stops at the first
      call that failed, whose row is marked if the call got as far as its update. */
  lemma LoopRollsBackPrefix(
    rows: seq<Row>, app: string, ts: seq<Row>, outcomes: Script) returns (k: nat)
    requires Selected(rows, app, ts)
    ensures k <= |ts| && FirstRolledBack(rows, RollbackLoop(rows, app, ts, outcomes, |ts|).rows, ts, k)
    ensures match RollbackLoop(rows, app, ts, outcomes, |ts|)
      case Rolling(_) => k == |ts| && AllSucceed(outcomes, |ts|)
      case Halted(_, at) =>
        at < |ts| && !outcomes(at).RollbackSucceeded? && AllSucceed(outcomes, at) && k == MarkedAtFailure(outcomes, at)
  {
    LoopMarksPrefix(rows, app, ts, outcomes, |ts|);
    k := match RollbackLoop(rows, app, ts, outcomes, |ts|)
         case Rolling(_) => |ts|
         case Halted(_, at) => MarkedAtFailure(outcomes, at);
    MarkFirstIs(rows, app, ts, k);
  }

  /** So no selected row that is still live is newer than one this run has rolled back. */
  lemma NoNewerRowStaysLive(rows: seq<Row>, app: string, ts: seq<Row>, outcomes: Script, i: nat, j: nat)
    requires Selected(rows, app, ts) && i < |ts| && j < |ts| && ts[i].id > ts[j].id
    requires ts[j] !in RollbackLoop(rows, app, ts, outcomes, |ts|).rows
    ensures ts[i] !in RollbackLoop(rows, app, ts, outcomes, |ts|).rows
  {
    var k := LoopRollsBackPrefix(rows, app, ts, outcomes);
    PrefixIsNewestFirst(rows, RollbackLoop(rows, app, ts, outcomes, |ts|).rows, app, ts, k, i, j);
  }

  lemma PrefixIsNewestFirst(rows: seq<Row>, after: seq<Row>, app: string, ts: seq<Row>, k: nat, i: nat, j: nat)
    requires Selected(rows, app, ts) && k <= |ts| && FirstRolledBack(rows, after, ts, k)
    requires i < |ts| && j < |ts| && ts[i].id > ts[j].id && ts[j] !in after
    ensures ts[i] !in after
  {
    RolledBackIffInPrefix(rows, after, app, ts, k, i);
    RolledBackIffInPrefix(rows, after, app, ts, k, j);
  }

  lemma RolledBackIffInPrefix(rows: seq<Row>, after: seq<Row>, app: string, ts: seq<Row>, k: nat, i: nat)
    requires Selected(rows, app, ts) && k <= |ts| && i < |ts| && FirstRolledBack(rows, after, ts, k)
    ensures ts[i] !in after <==> i < k
  {
    var m :| 0 <= m < |rows| && rows[m] == ts[i];
    if i < k {
      EarlierAmongFirst(ts, k, i);
      forall x | 0 <= x < |after| ensures after[x] != ts[i] {
        UniqueKeyRows(rows, x, m);
      }
    } else {
      LaterNotAmongFirst(ts, k, i);
      assert after[m] == ts[i];
    }
  }

  lemma PlainRunMarks(rows: seq<Row>, app: string, version: string, ts: seq<Row>, k: nat)
    requires Selects(rows, app, version, ts) && k < |ts|
    requires PlainRuns(rows, app, k) == MarkFirst(rows, app, ts, k)
    ensures PlainRuns(rows, app, k + 1) == MarkFirst(rows, app, ts, k + 1)
  {
    AfterPlainRuns(rows, app, version, ts, k);
    PlainIsOneStep(PlainRuns(rows, app, k), app, version, ts[k..]);
  }

  lemma {:induction false} PlainRunsMarkFirst(rows: seq<Row>, app: string, version: string, ts: seq<Row>, k: nat)
    requires Selects(rows, app, version, ts) && k <= |ts|
    ensures PlainRuns(rows, app, k) == MarkFirst(rows, app, ts, k)
  {
    hide PlainOnce, MarkRolledBack;
    if k > 0 {
      PlainRunsMarkFirst(rows, app, version, ts, k - 1);
      PlainRunMarks(rows, app, version, ts, k - 1);
    }
  }

  /** `--to V`, all successful, reaches the ledger that as many plain rollbacks reach. */
  lemma ToRunMatchesPlainRuns(rows: seq<Row>, app: string, version: string, ts: seq<Row>, outcomes: Script, n: nat)
    requires Selects(rows, app, version, ts) && n <= |ts|
    requires AllSucceed(outcomes, n)
    ensures RollbackLoop(rows, app, ts, outcomes, n) == Rolling(PlainRuns(rows, app, n))
  {
    SelectionIsSelected(rows, app, Some(version));
    LoopMarksPrefix(rows, app, ts, outcomes, n);
    PlainRunsMarkFirst(rows, app, version, ts, n);
  }

  // ---------------------------------------------------------------------------------------------
  // The selection loop
  // ---------------------------------------------------------------------------------------------

  ghost function Prepended(targets: seq<Row>, r: Result<seq<Row>, SelectError>): Result<seq<Row>, SelectError> {
    match r
    case Err(e) => Err(e)
    case Ok(more) => Ok(targets + more)
  }

  method SelectRollbackTargets(rows: seq<Row>, app: string, to: Option<string>)
    returns (r: Result<seq<Row>, SelectError>)
    ensures r == Select(rows, app, to)
  {
    var bucketRows := Sort(OfApp(rows, app), NewerFirst);
    var floor: Option<int> := None;
    if to.Some? {
      var target := FirstOfVersion(bucketRows, to.value);
      if target.None? {
        return Err(TargetMissing(to.value));
      }
      var status := target.value.status;
      if !(status.Applied? || status.Faked? || status.Baseline?) {
        return Err(TargetNotSettled(to.value, target.value.status));
      }
      floor := Some(target.value.id);
    }
    r := WalkDown(bucketRows, floor);
  }

  method WalkDown(bucketRows: seq<Row>, floor: Option<int>) returns (r: Result<seq<Row>, SelectError>)
    ensures r == Walk(bucketRows, floor)
  {
    var targets: seq<Row> := [];
    assert bucketRows[0..] == bucketRows;
    assert Walk(bucketRows, floor).Ok? ==> [] + Walk(bucketRows, floor).value == Walk(bucketRows, floor).value;
    for i := 0 to |bucketRows|
      invariant Walk(bucketRows, floor) == Prepended(targets, Walk(bucketRows[i..], floor))
      invariant floor.None? ==> targets == []
    {
      ghost var older := bucketRows[i + 1..];
      assert bucketRows[i..][0] == bucketRows[i] && bucketRows[i..][1..] == older;
      var row := bucketRows[i];
      if floor.Some? && row.id <= floor.value {
        assert targets + [] == targets;
        return Ok(targets);
      }
      match row.status {
        case RolledBack =>
        case Applied | Faked =>
          assert Walk(bucketRows[i..], floor) == Take(row, older, floor);
          assert Walk(older, floor).Ok? ==>
            targets + ([row] + Walk(older, floor).value) == targets + [row] + Walk(older, floor).value;
          targets := targets + [row];
          if floor.None? {
            return Ok(targets);
          }
        case Pending | Failed =>
          return Err(UnresolvedRow(row.version, row.status));
        case Baseline =>
          if floor.None? {
            return Ok(targets);
          }
          return Err(PastBaseline(row.version));
      }
    }
    assert bucketRows[|bucketRows|..] == [] && targets + [] == targets;
    r := Ok(targets);
  }

  // ---------------------------------------------------------------------------------------------
  // The command
  // ---------------------------------------------------------------------------------------------

  /** `ensure_no_target_drift` compares (id, version, status). */
  predicate SameTargets(pre: seq<Row>, locked: seq<Row>) {
    |pre| == |locked| &&
    forall i :: 0 <= i < |pre| ==>
      pre[i].id == locked[i].id && pre[i].version == locked[i].version && pre[i].status == locked[i].status
  }

  /** Both lists were selected for one app, so the drift check passes exactly when they are the same rows. */
  lemma NoDriftMeansSameRows(before: seq<Row>, locked: seq<Row>, app: string, to: Option<string>)
    requires KeysUnique(before) && KeysUnique(locked) && Select(before, app, to).Ok? && Select(locked, app, to).Ok?
    ensures SameTargets(Select(before, app, to).value, Select(locked, app, to).value) <==>
      Select(before, app, to).value == Select(locked, app, to).value
  {
    SelectionIsSelected(before, app, to);
    SelectionIsSelected(locked, app, to);
  }

  /** What the file checks say about one version: fit to run, fit but marked lossy, or refused. */
  datatype Gate = Open | Lossy | Shut

  datatype Exit =
    | SelectionRefused(error: SelectError) | NothingToRollBack | Drifted | GateRefused | LossyRefused | DryRun
    | RolledBackAll(count: nat) | RunnerFailed(at: nat)

  datatype Request = Request(app: string, to: Option<string>, dryRun: bool, allowDataLoss: bool)

  /** The rows whose files are looked at: what was selected before the lock, and for a real run was selected again
      under it. `before` is the ledger as read before the lock was taken, `locked` as read under it. */
  ghost predicate Gated(before: seq<Row>, locked: seq<Row>, q: Request) {
    var pre, now := Select(before, q.app, q.to), Select(locked, q.app, q.to);
    pre.Ok? && pre.value != [] && (q.dryRun || (now.Ok? && SameTargets(pre.value, now.value)))
  }

  ghost predicate SomeShut(gate: string -> Gate, ts: seq<Row>) {
    exists r :: r in ts && gate(r.version).Shut?
  }

  ghost predicate SomeLossy(gate: string -> Gate, ts: seq<Row>) {
    exists r :: r in ts && gate(r.version).Lossy?
  }

  /** The loop is reached: a real run, the same nonempty selection twice, every file fit to run, and none lossy
      unless that was allowed. */
  ghost predicate ReachesLoop(before: seq<Row>, locked: seq<Row>, q: Request, gate: string -> Gate) {
    && !q.dryRun && Gated(before, locked, q)
    && var ts := Select(locked, q.app, q.to).value;
       !SomeShut(gate, ts) && (q.allowDataLoss || !SomeLossy(gate, ts))
  }

  /** What each exit without a loop means. */
  ghost predicate Stands(before: seq<Row>, locked: seq<Row>, q: Request, gate: string -> Gate, exit: Exit) {
    var pre, now := Select(before, q.app, q.to), Select(locked, q.app, q.to);
    match exit
    case NothingToRollBack => pre == Ok([])
    case SelectionRefused(e) => pre == Err(e) || (pre.Ok? && pre.value != [] && !q.dryRun && now == Err(e))
    case Drifted => pre.Ok? && pre.value != [] && !q.dryRun && now.Ok? && !SameTargets(pre.value, now.value)
    case GateRefused => Gated(before, locked, q) && SomeShut(gate, pre.value)
    case LossyRefused =>
      Gated(before, locked, q) && !SomeShut(gate, pre.value) && !q.allowDataLoss && SomeLossy(gate, pre.value)
    case DryRun =>
      && q.dryRun && Gated(before, locked, q)
      && !SomeShut(gate, pre.value) && (q.allowDataLoss || !SomeLossy(gate, pre.value))
    case RolledBackAll(_) => false
    case RunnerFailed(_) => false
  }

  lemma SameTargetsSameGates(gate: string -> Gate, pre: seq<Row>, now: seq<Row>)
    requires SameTargets(pre, now)
    ensures SomeShut(gate, pre) <==> SomeShut(gate, now)
    ensures SomeLossy(gate, pre) <==> SomeLossy(gate, now)
  {
    forall r | r in pre ensures exists r' :: r' in now && r'.version == r.version {
      var i :| 0 <= i < |pre| && pre[i] == r;
      assert now[i] in now;
    }
    forall r | r in now ensures exists r' :: r' in pre && r'.version == r.version {
      var i :| 0 <= i < |now| && now[i] == r;
      assert pre[i] in pre;
    }
  }

  /** The exits exclude each other, and one of them stands exactly when the loop is not reached. */
  lemma OneExitStands(before: seq<Row>, locked: seq<Row>, q: Request, gate: string -> Gate) returns (exit: Exit)
    ensures !ReachesLoop(before, locked, q, gate) <==> Stands(before, locked, q, gate, exit)
    ensures forall e :: Stands(before, locked, q, gate, e) ==> e == exit
  {
    var pre, now := Select(before, q.app, q.to), Select(locked, q.app, q.to);
    hide Select, SomeShut, SomeLossy;
    if pre.Ok? && now.Ok? && SameTargets(pre.value, now.value) {
      SameTargetsSameGates(gate, pre.value, now.value);
    }
    exit := if pre.Err? then SelectionRefused(pre.error)
            else if pre.value == [] then NothingToRollBack
            else if !q.dryRun && now.Err? then SelectionRefused(now.error)
            else if !q.dryRun && !SameTargets(pre.value, now.value) then Drifted
            else if SomeShut(gate, pre.value) then GateRefused
            else if !q.allowDataLoss && SomeLossy(gate, pre.value) then LossyRefused
            else if q.dryRun then DryRun else RolledBackAll(0);
  }

  /** `rollback_plan` target after target, stopping at the first error. */
  method RollBackTargets(table: LedgerTable, app: string, ts: seq<Row>, outcomes: Script) returns (exit: Exit)
    modifies table
    ensures RollbackLoop(old(table.rows), app, ts, outcomes, |ts|) ==
      match exit
      case RunnerFailed(at) => Halted(table.rows, at)
      case _ => Rolling(table.rows)
    ensures exit.RunnerFailed? || exit == RolledBackAll(|ts|)
  {
    ghost var rows := table.rows;
    for n := 0 to |ts|
      invariant RollbackLoop(rows, app, ts, outcomes, n) == Rolling(table.rows)
    {
      var ok := table.RollbackPlan(ts[n].version, app, outcomes(n));
      if !ok {
        HaltedForGood(rows, app, ts, outcomes, n + 1, |ts|);
        return RunnerFailed(n);
      }
    }
    exit := RolledBackAll(|ts|);
  }

  lemma {:induction false} HaltedForGood(rows: seq<Row>, app: string, ts: seq<Row>, outcomes: Script, k: nat, n: nat)
    requires k <= n <= |ts| && RollbackLoop(rows, app, ts, outcomes, k).Halted?
    ensures RollbackLoop(rows, app, ts, outcomes, n) == RollbackLoop(rows, app, ts, outcomes, k)
  {
    if k < n { HaltedForGood(rows, app, ts, outcomes, k, n - 1); }
  }

  /** The checks on the files of the selected rows, in selection order: first every one has to be fit, then none may
      be lossy unless that was allowed. */
  method GateRollbackTargets(gate: string -> Gate, allowDataLoss: bool, ts: seq<Row>) returns (r: Option<Exit>)
    ensures r.None? <==> !SomeShut(gate, ts) && (allowDataLoss || !SomeLossy(gate, ts))
    ensures r.Some? ==>
      r.value == if SomeShut(gate, ts) then GateRefused else LossyRefused
  {
    for i := 0 to |ts|
      invariant forall j :: 0 <= j < i ==> !gate(ts[j].version).Shut?
    {
      if gate(ts[i].version).Shut? {
        return Some(GateRefused);
      }
    }
    if !allowDataLoss {
      for i := 0 to |ts|
        invariant forall j :: 0 <= j < i ==> !gate(ts[j].version).Lossy?
      {
        if gate(ts[i].version).Lossy? {
          return Some(LossyRefused);
        }
      }
    }
    r := None;
  }

  /** Everything before the loop: the rows to roll back, or why there is nothing to do. */
  method ChooseTargets(before: seq<Row>, locked: seq<Row>, q: Request, gate: string -> Gate)
    returns (r: Result<seq<Row>, Exit>)
    ensures r.Ok? <==> ReachesLoop(before, locked, q, gate)
    ensures r.Ok? ==> Select(locked, q.app, q.to) == Ok(r.value)
    ensures r.Err? ==> Stands(before, locked, q, gate, r.error)
  {
    hide Select, SomeShut, SomeLossy;
    var pre := SelectRollbackTargets(before, q.app, q.to);
    if pre.Err? {
      return Err(SelectionRefused(pre.error));
    }
    if pre.value == [] {
      return Err(NothingToRollBack);
    }
    if q.dryRun {
      var gated := GateRollbackTargets(gate, q.allowDataLoss, pre.value);
      return Err(if gated.Some? then gated.value else DryRun);
    }
    var targets := SelectRollbackTargets(locked, q.app, q.to);
    if targets.Err? {
      return Err(SelectionRefused(targets.error));
    }
    if !SameTargets(pre.value, targets.value) {
      return Err(Drifted);
    }
    SameTargetsSameGates(gate, pre.value, targets.value);
    var gated := GateRollbackTargets(gate, q.allowDataLoss, targets.value);
    if gated.Some? {
      return Err(gated.value);
    }
    r := Ok(targets.value);
  }

  /** The whole command. The loop runs exactly for a real run with the same nonempty selection before and under the
      lock whose files pass; then exactly a newest-first prefix of that selection is rolled back and nothing else
      changes, and when the command fails, it does so at the first call that failed, all calls before it having
      succeeded. In every other case, a dry run among them, the ledger stays and the exit says why. */
  method RunRollback(table: LedgerTable, before: seq<Row>, q: Request, gate: string -> Gate, outcomes: Script)
    returns (exit: Exit, ghost k: nat)
    requires KeysUnique(before) && KeysUnique(table.rows)
    modifies table
    ensures exit.RolledBackAll? || exit.RunnerFailed? <==> ReachesLoop(before, old(table.rows), q, gate)
    ensures !ReachesLoop(before, old(table.rows), q, gate) ==>
      Stands(before, old(table.rows), q, gate, exit) && table.rows == old(table.rows)
    ensures q.dryRun ==> table.rows == old(table.rows) && !exit.RolledBackAll? && !exit.RunnerFailed?
    ensures ReachesLoop(before, old(table.rows), q, gate) ==>
      var ts := Select(old(table.rows), q.app, q.to);
      && ts == Select(before, q.app, q.to)
      && k <= |ts.value| && FirstRolledBack(old(table.rows), table.rows, ts.value, k)
      && (if exit.RunnerFailed?
          then
            && exit.at < |ts.value| && !outcomes(exit.at).RollbackSucceeded? && AllSucceed(outcomes, exit.at)
            && k == MarkedAtFailure(outcomes, exit.at)
          else exit == RolledBackAll(k) && k == |ts.value| && AllSucceed(outcomes, |ts.value|))
  {
    k := 0;
    ghost var rows := table.rows;
    var chosen := ChooseTargets(before, table.rows, q, gate);
    if chosen.Err? {
      return chosen.error, 0;
    }
    NoDriftMeansSameRows(before, rows, q.app, q.to);
    SelectionIsSelected(rows, q.app, q.to);
    k := LoopRollsBackPrefix(rows, q.app, chosen.value, outcomes);
    exit := RollBackTargets(table, q.app, chosen.value, outcomes);
  }
}
