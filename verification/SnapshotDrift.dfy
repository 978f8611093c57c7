/** The build script's three-way comparison of models, pending plan and snapshot. */
module SnapshotDrift {
  import opened Outcomes
  import opened Json

  const IGNORED_KEYS := {"generated_at", "composed_at"}

  // ---------------------------------------------------------------------------------------------
  // Comparison without timestamps
  // ---------------------------------------------------------------------------------------------

  /** `json_equiv_inner`. */
  predicate EquivInner(a: JsonValue, b: JsonValue)
    decreases a
  {
    match (a, b)
    case (Null, Null) => true
    case (Bool(x), Bool(y)) => x == y
    case (Number(x), Number(y)) => x == y
    case (String(x), String(y)) => x == y
    case (Array(xs), Array(ys)) => |xs| == |ys| && forall i :: 0 <= i < |xs| ==> EquivInner(xs[i], ys[i])
    case (Object(xs), Object(ys)) =>
      forall key :: key in xs.Keys + ys.Keys && key !in IGNORED_KEYS ==>
        key in xs && key in ys && EquivInner(xs[key], ys[key])
    case _ => false
  }

  /** `json_equiv`: also over missing values. */
  predicate Equiv(a: Option<JsonValue>, b: Option<JsonValue>) {
    match (a, b)
    case (Some(x), Some(y)) => EquivInner(x, y)
    case (None, None) => true
    case _ => false
  }

  /** The value with the two timestamp keys removed at every depth. */
  function Strip(v: JsonValue): JsonValue {
    match v
    case Array(items) => Array(seq(|items|, i requires 0 <= i < |items| => Strip(items[i])))
    case Object(members) =>
      Object(map k | k in members && k != "generated_at" && k != "composed_at" :: Strip(members[k]))
    case _ => v
  }

  function StripOption(v: Option<JsonValue>): Option<JsonValue> {
    match v
    case None => None
    case Some(x) => Some(Strip(x))
  }

  /** The comparison is equality of what is left without timestamps. */
  lemma {:induction false} EquivInnerIsStrippedEquality(a: JsonValue, b: JsonValue)
    ensures EquivInner(a, b) <==> Strip(a) == Strip(b)
    decreases a
  {
    match (a, b)
    case (Array(xs), Array(ys)) =>
      forall i | 0 <= i < |xs| && i < |ys| ensures EquivInner(xs[i], ys[i]) <==> Strip(xs[i]) == Strip(ys[i]) {
        EquivInnerIsStrippedEquality(xs[i], ys[i]);
      }
      ArrayStripped(xs, ys);
    case (Object(xs), Object(ys)) =>
      forall k | k in xs && k in ys ensures EquivInner(xs[k], ys[k]) <==> Strip(xs[k]) == Strip(ys[k]) {
        EquivInnerIsStrippedEquality(xs[k], ys[k]);
      }
      ObjectStripped(xs, ys);
    case _ =>
  }

  lemma ArrayStripped(xs: seq<JsonValue>, ys: seq<JsonValue>)
    ensures Strip(Array(xs)) == Strip(Array(ys)) <==>
      |xs| == |ys| && forall i :: 0 <= i < |xs| ==> Strip(xs[i]) == Strip(ys[i])
  {
    var sx, sy := Strip(Array(xs)).items, Strip(Array(ys)).items;
    assert |sx| == |xs| && |sy| == |ys|;
    assert forall i :: 0 <= i < |xs| ==> sx[i] == Strip(xs[i]);
    assert forall i :: 0 <= i < |ys| ==> sy[i] == Strip(ys[i]);
    if sx == sy {
      forall i | 0 <= i < |xs| ensures Strip(xs[i]) == Strip(ys[i]) { assert sx[i] == sy[i]; }
    }
  }

  lemma ObjectStripped(xs: map<string, JsonValue>, ys: map<string, JsonValue>)
    ensures Strip(Object(xs)) == Strip(Object(ys)) <==>
      forall k :: k in xs.Keys + ys.Keys && k !in IGNORED_KEYS ==> k in xs && k in ys && Strip(xs[k]) == Strip(ys[k])
  {
    var sx, sy := Strip(Object(xs)).members, Strip(Object(ys)).members;
    if sx == sy {
      forall k | k in xs.Keys + ys.Keys && k !in IGNORED_KEYS
        ensures k in xs && k in ys && Strip(xs[k]) == Strip(ys[k])
      {
        assert k in sx <==> k in sy;
        assert sx[k] == sy[k];
      }
    }
    if forall k :: k in xs.Keys + ys.Keys && k !in IGNORED_KEYS ==> k in xs && k in ys && Strip(xs[k]) == Strip(ys[k]) {
      assert sx.Keys == sy.Keys;
      assert forall k :: k in sx ==> sx[k] == sy[k];
    }
  }

  lemma EquivIsStrippedEquality(a: Option<JsonValue>, b: Option<JsonValue>)
    ensures Equiv(a, b) <==> StripOption(a) == StripOption(b)
  {
    if a.Some? && b.Some? {
      EquivInnerIsStrippedEquality(a.value, b.value);
    }
  }

  /** Hence the comparison is an equivalence relation, also over missing values. */
  lemma EquivIsEquivalence(a: Option<JsonValue>, b: Option<JsonValue>, c: Option<JsonValue>)
    ensures Equiv(a, a)
    ensures Equiv(a, b) <==> Equiv(b, a)
    ensures Equiv(a, b) && Equiv(b, c) ==> Equiv(a, c)
  {
    EquivIsStrippedEquality(a, a);
    EquivIsStrippedEquality(a, b);
    EquivIsStrippedEquality(b, a);
    EquivIsStrippedEquality(b, c);
    EquivIsStrippedEquality(a, c);
  }

  // ---------------------------------------------------------------------------------------------
  // Selection and classification
  // ---------------------------------------------------------------------------------------------

  datatype PendingArtifacts = PendingArtifacts(hiddenPhaseZero: Option<JsonValue>, normal: Option<JsonValue>)

  datatype InventoryMatch = Present(models: Option<JsonValue>) | Absent

  /** The warning, with the version text that Outcome 2 names when the pending plan carries one. */
  datatype Diagnostic = Outcome2(version: Option<string>) | Outcome3 | Outcome4

  function MemberOf(v: JsonValue, key: string): Option<JsonValue> {
    if v.Object? && key in v.members then Some(v.members[key]) else None
  }

  /** `pending_model_snapshot`. */
  function ModelSnapshot(pending: JsonValue): Option<JsonValue> {
    MemberOf(pending, "model_snapshot")
  }

  function SelectedSnapshot(selected: Option<JsonValue>): Option<JsonValue> {
    match selected
    case None => None
    case Some(p) => ModelSnapshot(p)
  }

  function Outcome2For(selected: Option<JsonValue>): Diagnostic {
    match selected
    case None => Outcome2(None)
    case Some(p) =>
      match MemberOf(p, "version")
      case Some(String(s)) => Outcome2(Some(s))
      case _ => Outcome2(None)
  }

  function SelectForBucket(artifacts: PendingArtifacts, models: Option<JsonValue>): Option<JsonValue> {
    if artifacts.hiddenPhaseZero.Some? && Equiv(models, ModelSnapshot(artifacts.hiddenPhaseZero.value))
    then artifacts.hiddenPhaseZero
    else if artifacts.normal.Some? && Equiv(models, ModelSnapshot(artifacts.normal.value))
    then artifacts.normal
    else if artifacts.hiddenPhaseZero.Some? then artifacts.hiddenPhaseZero
    else artifacts.normal
  }

  function ClassifyPresent(models: Option<JsonValue>, selected: Option<JsonValue>, snapshot: Option<JsonValue>)
    : Option<Diagnostic>
  {
    var pendingSnap := SelectedSnapshot(selected);
    var mEqP, mEqS, pEqS := Equiv(models, pendingSnap), Equiv(models, snapshot), Equiv(pendingSnap, snapshot);
    if selected.None? && mEqS then None
    else if selected.Some? && mEqP && mEqS then None
    else if selected.Some? && mEqP && !mEqS then Some(Outcome2For(selected))
    else if selected.Some? && !mEqP && !pEqS then Some(Outcome4)
    else if !mEqS && (selected.None? || pEqS) then Some(Outcome3)
    else Some(Outcome3)
  }

  function ClassifyAbsent(selected: Option<JsonValue>, snapshot: Option<JsonValue>): Option<Diagnostic> {
    if selected.None? || Equiv(SelectedSnapshot(selected), snapshot) then None else Some(Outcome2For(selected))
  }

  /** One bucket of the build script's outcome loop; `artifacts` is None when the bucket has no pending file. */
  function Diagnose(inventory: InventoryMatch, artifacts: Option<PendingArtifacts>, snapshot: Option<JsonValue>)
    : Option<Diagnostic>
  {
    var models := if inventory.Present? then inventory.models else None;
    var selected := if artifacts.None? then None else SelectForBucket(artifacts.value, models);
    match inventory
    case Present(m) => ClassifyPresent(m, selected, snapshot)
    case Absent => ClassifyAbsent(selected, snapshot)
  }

  // ---------------------------------------------------------------------------------------------
  // The partition
  // ---------------------------------------------------------------------------------------------

  ghost predicate IsArtifact(artifacts: Option<PendingArtifacts>, p: JsonValue) {
    artifacts.Some? && (artifacts.value.hiddenPhaseZero == Some(p) || artifacts.value.normal == Some(p))
  }

  ghost predicate AnyArtifact(artifacts: Option<PendingArtifacts>) {
    exists p :: IsArtifact(artifacts, p)
  }

  /** What the plan says the models are to be. */
  ghost function PlannedModels(p: JsonValue): Option<JsonValue> {
    if p.Object? && "model_snapshot" in p.members then Some(p.members["model_snapshot"]) else None
  }

  /** The version the plan names. */
  ghost function PlannedVersion(p: JsonValue): Option<string> {
    if p.Object? && "version" in p.members && p.members["version"].String? then Some(p.members["version"].s) else None
  }

  ghost predicate Matches(artifact: Option<JsonValue>, models: Option<JsonValue>) {
    artifact.Some? && Equiv(models, PlannedModels(artifact.value))
  }

  ghost predicate SomeArtifactMatches(artifacts: Option<PendingArtifacts>, models: Option<JsonValue>) {
    exists p :: IsArtifact(artifacts, p) && Matches(Some(p), models)
  }

  /** A matching artifact goes before one that does not match, and then the hidden one before the other. */
  ghost predicate IsChosen(artifacts: Option<PendingArtifacts>, models: Option<JsonValue>, p: JsonValue) {
    && artifacts.Some?
    && var hidden, normal := artifacts.value.hiddenPhaseZero, artifacts.value.normal;
       || (hidden == Some(p) && (Matches(hidden, models) || !Matches(normal, models)))
       || (normal == Some(p) && !Matches(hidden, models) && (Matches(normal, models) || hidden.None?))
  }

  /** The artifact the selector falls back on: the hidden one if there is one. */
  ghost predicate IsPreferred(artifacts: Option<PendingArtifacts>, p: JsonValue) {
    && artifacts.Some?
    && (if artifacts.value.hiddenPhaseZero.Some? then artifacts.value.hiddenPhaseZero == Some(p)
        else artifacts.value.normal == Some(p))
  }

  lemma SelectorFindsMatch(artifacts: Option<PendingArtifacts>, models: Option<JsonValue>)
    ensures var selected := if artifacts.None? then None else SelectForBucket(artifacts.value, models);
      && (selected.Some? <==> AnyArtifact(artifacts))
      && (selected.Some? ==> IsArtifact(artifacts, selected.value))
      && (selected.Some? && Matches(selected, models) <==> SomeArtifactMatches(artifacts, models))
      && (selected.Some? && !SomeArtifactMatches(artifacts, models) ==> IsPreferred(artifacts, selected.value))
      && (forall p :: selected == Some(p) <==> IsChosen(artifacts, models, p))
  {
    if artifacts.Some? {
      var a := artifacts.value;
      if a.hiddenPhaseZero.Some? { assert IsArtifact(artifacts, a.hiddenPhaseZero.value); }
      if a.normal.Some? { assert IsArtifact(artifacts, a.normal.value); }
    }
  }

  /** With the inventory present, selector and classifier together sort every case into silence, Outcome 2,
      Outcome 3 or Outcome 4, by conditions that speak only of the inputs. */
  lemma OutcomesPartition(models: Option<JsonValue>, artifacts: Option<PendingArtifacts>, snapshot: Option<JsonValue>)
    ensures var d := Diagnose(Present(models), artifacts, snapshot);
      && (d.None? <==> Equiv(models, snapshot) && (!AnyArtifact(artifacts) || SomeArtifactMatches(artifacts, models)))
      && (d.Some? && d.value.Outcome2? <==> SomeArtifactMatches(artifacts, models) && !Equiv(models, snapshot))
      && (forall p :: d.Some? && d.value.Outcome2? && IsChosen(artifacts, models, p) ==>
           d == Some(Outcome2(PlannedVersion(p))))
      && (d == Some(Outcome4) <==>
          !SomeArtifactMatches(artifacts, models)
          && exists p :: IsPreferred(artifacts, p) && !Equiv(PlannedModels(p), snapshot))
      && (d == Some(Outcome3) <==>
          !Equiv(models, snapshot)
          && (!AnyArtifact(artifacts)
              || (!SomeArtifactMatches(artifacts, models)
                  && exists p :: IsPreferred(artifacts, p) && Equiv(PlannedModels(p), snapshot))))
  {
    SelectorFindsMatch(artifacts, models);
    var selected := if artifacts.None? then None else SelectForBucket(artifacts.value, models);
    EquivIsEquivalence(models, SelectedSnapshot(selected), snapshot);
    EquivIsEquivalence(models, snapshot, SelectedSnapshot(selected));
    EquivIsEquivalence(SelectedSnapshot(selected), snapshot, models);
    if selected.Some? && !SomeArtifactMatches(artifacts, models) {
      assert IsPreferred(artifacts, selected.value);
    }
  }

  /** The artifact that counts when the inventory is absent: one that says nothing about the models before one that
      does, and then the hidden one before the other. */
  ghost predicate CountsWithoutInventory(artifacts: Option<PendingArtifacts>, p: JsonValue) {
    && IsArtifact(artifacts, p)
    && (PlannedModels(p).Some? ==> forall q :: IsArtifact(artifacts, q) ==> PlannedModels(q).Some?)
    && (artifacts.value.hiddenPhaseZero != Some(p) ==>
          forall q :: artifacts.value.hiddenPhaseZero == Some(q) ==> PlannedModels(p).None? && PlannedModels(q).Some?)
  }

  lemma CountsIffChosen(artifacts: Option<PendingArtifacts>, p: JsonValue)
    ensures CountsWithoutInventory(artifacts, p) <==> IsChosen(artifacts, None, p)
  {
    if artifacts.Some? {
      var hidden, normal := artifacts.value.hiddenPhaseZero, artifacts.value.normal;
      assert hidden.Some? ==> IsArtifact(artifacts, hidden.value);
      assert normal.Some? ==> IsArtifact(artifacts, normal.value);
    }
  }

  /** Without an inventory: silence when there is no artifact, or the one that counts plans what the snapshot has;
      otherwise Outcome 2, with the version that artifact names. */
  lemma OutcomesWithoutInventory(artifacts: Option<PendingArtifacts>, snapshot: Option<JsonValue>)
    ensures var d := Diagnose(Absent, artifacts, snapshot);
      && (d.None? <==>
          !AnyArtifact(artifacts)
          || exists p :: CountsWithoutInventory(artifacts, p) && Equiv(PlannedModels(p), snapshot))
      && (forall p :: CountsWithoutInventory(artifacts, p) && !Equiv(PlannedModels(p), snapshot) ==>
           d == Some(Outcome2(PlannedVersion(p))))
      && (d.Some? ==> exists p :: CountsWithoutInventory(artifacts, p))
  {
    hide IsChosen, Equiv, CountsWithoutInventory;
    SelectorFindsMatch(artifacts, None);
    forall p ensures CountsWithoutInventory(artifacts, p) <==> IsChosen(artifacts, None, p) {
      CountsIffChosen(artifacts, p);
    }
    var selected := if artifacts.None? then None else SelectForBucket(artifacts.value, None);
    assert selected.Some? ==> IsChosen(artifacts, None, selected.value);
  }

  /** The classifier's last branch is dead: one of the five guards before it always holds. */
  lemma FallThroughIsUnreachable(models: Option<JsonValue>, selected: Option<JsonValue>, snapshot: Option<JsonValue>)
    ensures var pendingSnap := SelectedSnapshot(selected);
      var mEqP, mEqS, pEqS := Equiv(models, pendingSnap), Equiv(models, snapshot), Equiv(pendingSnap, snapshot);
      || (selected.None? && mEqS)
      || (selected.Some? && mEqP && mEqS)
      || (selected.Some? && mEqP && !mEqS)
      || (selected.Some? && !mEqP && !pEqS)
      || (!mEqS && (selected.None? || pEqS))
  {
    var pendingSnap := SelectedSnapshot(selected);
    EquivIsEquivalence(models, snapshot, pendingSnap);
    EquivIsEquivalence(snapshot, pendingSnap, models);
  }

  // ---------------------------------------------------------------------------------------------
  // Timestamps never matter
  // ---------------------------------------------------------------------------------------------

  /** Same artifacts up to timestamps. */
  ghost predicate EquivArtifacts(a: Option<PendingArtifacts>, b: Option<PendingArtifacts>) {
    if a.None? then b.None?
    else b.Some? && Equiv(a.value.hiddenPhaseZero, b.value.hiddenPhaseZero) && Equiv(a.value.normal, b.value.normal)
  }

  ghost predicate EquivInventory(a: InventoryMatch, b: InventoryMatch) {
    if a.Absent? then b.Absent? else b.Present? && Equiv(a.models, b.models)
  }

  lemma EquivMembers(p: JsonValue, q: JsonValue, key: string)
    requires EquivInner(p, q) && key !in IGNORED_KEYS
    ensures Equiv(MemberOf(p, key), MemberOf(q, key))
  {
  }

  lemma SameOutcome2(p: Option<JsonValue>, q: Option<JsonValue>)
    requires Equiv(p, q)
    ensures Outcome2For(p) == Outcome2For(q)
    ensures Equiv(SelectedSnapshot(p), SelectedSnapshot(q))
  {
    if p.Some? {
      KeysAreNotIgnored();
      EquivMembers(p.value, q.value, "version");
      EquivMembers(p.value, q.value, "model_snapshot");
    }
  }

  lemma KeysAreNotIgnored()
    ensures "version" !in IGNORED_KEYS && "model_snapshot" !in IGNORED_KEYS
  {
  }

  /** Replacing both sides of a comparison by equivalent values does not change its result. */
  lemma EquivCongruence(a: Option<JsonValue>, b: Option<JsonValue>, a': Option<JsonValue>, b': Option<JsonValue>)
    requires Equiv(a, a') && Equiv(b, b')
    ensures Equiv(a, b) <==> Equiv(a', b')
  {
    EquivIsStrippedEquality(a, a');
    EquivIsStrippedEquality(b, b');
    EquivIsStrippedEquality(a, b);
    EquivIsStrippedEquality(a', b');
  }

  lemma SameSelection(a: PendingArtifacts, b: PendingArtifacts, m: Option<JsonValue>, m': Option<JsonValue>)
    requires EquivArtifacts(Some(a), Some(b)) && Equiv(m, m')
    ensures Equiv(SelectForBucket(a, m), SelectForBucket(b, m'))
  {
    SameOutcome2(a.hiddenPhaseZero, b.hiddenPhaseZero);
    SameOutcome2(a.normal, b.normal);
    EquivCongruence(m, SelectedSnapshot(a.hiddenPhaseZero), m', SelectedSnapshot(b.hiddenPhaseZero));
    EquivCongruence(m, SelectedSnapshot(a.normal), m', SelectedSnapshot(b.normal));
  }

  /** Editing timestamps anywhere, in any of the inputs, never changes the diagnosis. */
  lemma TimestampsNeverMatter(
    inv: InventoryMatch, a: Option<PendingArtifacts>, s: Option<JsonValue>,
    inv': InventoryMatch, a': Option<PendingArtifacts>, s': Option<JsonValue>)
    requires EquivInventory(inv, inv') && EquivArtifacts(a, a') && Equiv(s, s')
    ensures Diagnose(inv, a, s) == Diagnose(inv', a', s')
  {
    var m := if inv.Present? then inv.models else None;
    var m' := if inv'.Present? then inv'.models else None;
    var p := if a.None? then None else SelectForBucket(a.value, m);
    var p' := if a'.None? then None else SelectForBucket(a'.value, m');
    if a.Some? {
      SameSelection(a.value, a'.value, m, m');
    }
    SameOutcome2(p, p');
    EquivCongruence(m, SelectedSnapshot(p), m', SelectedSnapshot(p'));
    EquivCongruence(m, s, m', s');
    EquivCongruence(SelectedSnapshot(p), s, SelectedSnapshot(p'), s');
  }
}
