/** `discover_pending_plans`: from directory listings, in whatever order they are read, to one ordered list. */
module PendingDiscovery {
  import opened Outcomes
  import opened Concatenation
  import opened Sorting
  import opened Lexicographic
  import opened DependencyOrder
  import opened PendingPlans
  import opened PendingListing
  import opened PendingOrder

  datatype DiscoveryError =
    | NonCanonicalPhaseZeroFilename(database: string, filename: string)
    | MissingJsonSuffix(database: string, filename: string)
    | NonCanonicalAppFilename(database: string, filename: string)
    | Unparsable(database: string, filename: string)
    | WrongDatabase(expected: string, found: string)
    | WrongApp(expected: string, found: string)
    | PhaseZeroMustBeGlobal(database: string)
    | WrongPhaseZeroVersion(found: string)
    | PhaseZeroMustBeHidden(database: string, filename: string)
    | DuplicateIdentity(identity: Identity)
    | Unorderable(error: OrderError)

  // ---------------------------------------------------------------------------------------------
  // Validation of one file
  // ---------------------------------------------------------------------------------------------

  function ValidateHidden(c: Candidate): Result<DiscoveredPlan, DiscoveryError> {
    if c.filename != PHASE_ZERO_VERSION + JSON_SUFFIX then Err(NonCanonicalPhaseZeroFilename(c.database, c.filename))
    else if c.payload.None? then Err(Unparsable(c.database, c.filename))
    else
      var plan := c.payload.value;
      if plan.bucketDatabase != c.database then Err(WrongDatabase(c.database, plan.bucketDatabase))
      else if plan.bucketApp != "" then Err(PhaseZeroMustBeGlobal(c.database))
      else if plan.version != PHASE_ZERO_VERSION then Err(WrongPhaseZeroVersion(plan.version))
      else Ok(DiscoveredPlan([c.database, PHASE_ZERO_DIRECTORY, c.filename], BucketKey(c.database, ""), true, plan))
  }

  function ValidateNormal(c: Candidate): Result<DiscoveredPlan, DiscoveryError> {
    if !EndsWith(c.filename, JSON_SUFFIX) then Err(MissingJsonSuffix(c.database, c.filename))
    else
      var stem := c.filename[..|c.filename| - |JSON_SUFFIX|];
      if stem != GLOBAL_BUCKET_DIRNAME && !IsAcceptableLabel(stem)
      then Err(NonCanonicalAppFilename(c.database, c.filename))
      else
        var app := if stem == GLOBAL_BUCKET_DIRNAME then "" else stem;
        if c.filename != AppDirname(app) + JSON_SUFFIX then Err(NonCanonicalAppFilename(c.database, c.filename))
        else if c.payload.None? then Err(Unparsable(c.database, c.filename))
        else
          var plan := c.payload.value;
          if plan.bucketDatabase != c.database then Err(WrongDatabase(c.database, plan.bucketDatabase))
          else if plan.bucketApp != app then Err(WrongApp(app, plan.bucketApp))
          else if plan.version == PHASE_ZERO_VERSION then Err(PhaseZeroMustBeHidden(c.database, c.filename))
          else Ok(DiscoveredPlan([c.database, c.filename], BucketKey(c.database, app), false, plan))
  }

  function Validate(c: Candidate): Result<DiscoveredPlan, DiscoveryError> {
    if c.hidden then ValidateHidden(c) else ValidateNormal(c)
  }

  /** A validated plan says about itself what its place on disk says about it. */
  ghost predicate WellPlaced(p: DiscoveredPlan) {
    && p.plan.bucketDatabase == p.bucket.database && p.plan.bucketApp == p.bucket.app
    && (p.isPhaseZero <==> p.plan.version == PHASE_ZERO_VERSION)
    && (p.bucket.app == "" || (IsAcceptableLabel(p.bucket.app) && p.bucket.app != GLOBAL_BUCKET_DIRNAME))
    && (p.isPhaseZero ==> p.bucket.app == "")
    && p.path == if p.isPhaseZero
                 then [p.bucket.database, PHASE_ZERO_DIRECTORY, PHASE_ZERO_VERSION + JSON_SUFFIX]
                 else [p.bucket.database, AppDirname(p.bucket.app) + JSON_SUFFIX]
  }

  /** The plan a file would be if it were accepted: its contents, at the place where it was found. */
  ghost function AsFound(c: Candidate): DiscoveredPlan
    requires c.payload.Some?
  {
    var plan := c.payload.value;
    var path := if c.hidden then [c.database, PHASE_ZERO_DIRECTORY, c.filename] else [c.database, c.filename];
    DiscoveredPlan(path, BucketKey(c.database, plan.bucketApp), c.hidden, plan)
  }

  /** A file is accepted exactly when it parses and lies where its contents say it belongs. */
  lemma AcceptedIffWellPlaced(c: Candidate)
    ensures Validate(c).Ok? <==> c.payload.Some? && WellPlaced(AsFound(c))
    ensures Validate(c).Ok? ==> Validate(c).value == AsFound(c)
  {
  }

  /** The app that a file name in a database directory stands for; None for a name that stands for none. */
  ghost function NamedApp(filename: string): Option<string> {
    if filename == "_global_.json" then Some("")
    else if |filename| >= 5 && filename[|filename| - 5..] == ".json" && IsAcceptableLabel(filename[..|filename| - 5])
    then Some(filename[..|filename| - 5])
    else None
  }

  ghost predicate NameFits(c: Candidate) {
    if c.hidden then c.filename == "V00000000000000__phase_zero_bootstrap.json" else NamedApp(c.filename).Some?
  }

  /** The file has a proper name, parses, and says its database. */
  ghost predicate DatabaseFits(c: Candidate) {
    NameFits(c) && c.payload.Some? && c.payload.value.bucketDatabase == c.database
  }

  /** When a file is refused with which error. */
  ghost predicate Complains(c: Candidate, e: DiscoveryError) {
    match e
    case NonCanonicalPhaseZeroFilename(database, filename) =>
      c.hidden && !NameFits(c) && database == c.database && filename == c.filename
    case MissingJsonSuffix(database, filename) =>
      !c.hidden && !EndsWith(c.filename, ".json") && database == c.database && filename == c.filename
    case NonCanonicalAppFilename(database, filename) =>
      && !c.hidden && EndsWith(c.filename, ".json") && !NameFits(c)
      && database == c.database && filename == c.filename
    case Unparsable(database, filename) =>
      NameFits(c) && c.payload.None? && database == c.database && filename == c.filename
    case WrongDatabase(expected, found) =>
      && NameFits(c) && c.payload.Some? && c.payload.value.bucketDatabase != c.database
      && expected == c.database && found == c.payload.value.bucketDatabase
    case PhaseZeroMustBeGlobal(database) =>
      c.hidden && DatabaseFits(c) && c.payload.value.bucketApp != "" && database == c.database
    case WrongPhaseZeroVersion(found) =>
      && c.hidden && DatabaseFits(c) && c.payload.value.bucketApp == ""
      && c.payload.value.version != PHASE_ZERO_VERSION && found == c.payload.value.version
    case WrongApp(expected, found) =>
      && !c.hidden && DatabaseFits(c) && c.payload.value.bucketApp != NamedApp(c.filename).value
      && expected == NamedApp(c.filename).value && found == c.payload.value.bucketApp
    case PhaseZeroMustBeHidden(database, filename) =>
      && !c.hidden && DatabaseFits(c) && c.payload.value.bucketApp == NamedApp(c.filename).value
      && c.payload.value.version == PHASE_ZERO_VERSION && database == c.database && filename == c.filename
    case DuplicateIdentity(_) => false
    case Unorderable(_) => false
  }

  lemma NamedAppIs(filename: string)
    ensures !EndsWith(filename, JSON_SUFFIX) ==> NamedApp(filename).None?
    ensures EndsWith(filename, JSON_SUFFIX) ==>
      var stem := filename[..|filename| - 5];
      NamedApp(filename) ==
        if stem == GLOBAL_BUCKET_DIRNAME then Some("") else if IsAcceptableLabel(stem) then Some(stem) else None
    ensures NamedApp(filename).Some? ==> filename == AppDirname(NamedApp(filename).value) + JSON_SUFFIX
  {
    assert !IsAcceptableLabel("");
    hide IsAcceptableLabel;
    assert "_global_.json"[..8] == "_global_" && "_global_" + ".json" == "_global_.json";
    var stem := |filename| - 5;
    if EndsWith(filename, JSON_SUFFIX) {
      assert filename == filename[..stem] + ".json";
    }
  }

  lemma RefusedIffComplains(c: Candidate, e: DiscoveryError)
    ensures Validate(c) == Err(e) <==> Complains(c, e)
  {
    hide IsAcceptableLabel, NamedApp, AppDirname, EndsWith;
    if c.hidden {
      assert PHASE_ZERO_VERSION + JSON_SUFFIX == "V00000000000000__phase_zero_bootstrap.json";
    } else {
      NamedAppIs(c.filename);
    }
  }

  /** The path of a well-placed plan determines its bucket. */
  lemma PathDeterminesBucket(p: DiscoveredPlan, q: DiscoveredPlan)
    requires WellPlaced(p) && WellPlaced(q) && p.path == q.path
    ensures p.bucket == q.bucket
  {
    var a, b := AppDirname(p.bucket.app), AppDirname(q.bucket.app);
    if !p.isPhaseZero && !q.isPhaseZero {
      assert p.path[1] == q.path[1];
      assert (a + JSON_SUFFIX)[..|a + JSON_SUFFIX| - |JSON_SUFFIX|] == a;
      assert (b + JSON_SUFFIX)[..|b + JSON_SUFFIX| - |JSON_SUFFIX|] == b;
    }
  }

  // ---------------------------------------------------------------------------------------------
  // The scan: validate in read order, refuse the first duplicate identity
  // ---------------------------------------------------------------------------------------------

  function Scan(cs: seq<Candidate>): (r: Result<seq<DiscoveredPlan>, DiscoveryError>)
    ensures r.Ok? ==> |r.value| == |cs|
  {
    if cs == [] then Ok([])
    else match Scan(cs[..|cs| - 1])
      case Err(e) => Err(e)
      case Ok(out) => Admit(out, cs[|cs| - 1])
  }

  function Admit(out: seq<DiscoveredPlan>, c: Candidate): Result<seq<DiscoveredPlan>, DiscoveryError> {
    match Validate(c)
    case Err(e) => Err(e)
    case Ok(p) =>
      if exists i :: 0 <= i < |out| && IdentityOf(out[i]) == IdentityOf(p)
      then Err(DuplicateIdentity(IdentityOf(p)))
      else Ok(out + [p])
  }

  /** The whole discovery: scan, stage-1 sort, stage-2 dependency order. */
  ghost function Discover(cs: seq<Candidate>): Result<seq<DiscoveredPlan>, DiscoveryError> {
    match Scan(cs)
    case Err(e) => Err(e)
    case Ok(out) =>
      match OrderGroups(Sort(out, StageOneLeq))
      case Err(e) => Err(Unorderable(e))
      case Ok(ordered) => Ok(ordered)
  }

  lemma {:induction false} ScanExtends(a: seq<Candidate>, b: seq<Candidate>)
    ensures Scan(a).Err? ==> Scan(a + b) == Scan(a)
  {
    if b == [] {
      assert a + b == a;
    } else {
      var n := |b| - 1;
      ScanExtends(a, b[..n]);
      assert (a + b)[..|a + b| - 1] == a + b[..n];
    }
  }

  lemma ScanAppend(cs: seq<Candidate>, c: Candidate)
    requires Scan(cs).Ok?
    ensures Scan(cs + [c]) == Admit(Scan(cs).value, c)
  {
  }

  ghost predicate ValidatesTo(c: Candidate, p: DiscoveredPlan) {
    Validate(c) == Ok(p)
  }

  /** A successful scan keeps every candidate, in read order, and all identities differ. */
  lemma {:induction false} ScanKeepsAll(cs: seq<Candidate>)
    requires Scan(cs).Ok?
    ensures forall i :: 0 <= i < |cs| ==> ValidatesTo(cs[i], Scan(cs).value[i])
    ensures UniqueIdentities(Scan(cs).value)
  {
    if cs != [] {
      var n := |cs| - 1;
      ScanKeepsAll(cs[..n]);
      AdmitAddsOne(Scan(cs[..n]).value, cs[n]);
      assert ValidatesTo(cs[n], Scan(cs).value[n]);
    }
  }

  lemma AdmitAddsOne(out: seq<DiscoveredPlan>, c: Candidate)
    requires UniqueIdentities(out) && Admit(out, c).Ok?
    ensures Admit(out, c).value == out + [Admit(out, c).value[|out|]]
    ensures ValidatesTo(c, Admit(out, c).value[|out|])
    ensures UniqueIdentities(Admit(out, c).value)
  {
  }

  ghost predicate Valid(c: Candidate) {
    Validate(c).Ok?
  }

  ghost function ClaimedIdentity(c: Candidate): Option<Identity> {
    if Valid(c) then Some(IdentityOf(Validate(c).value)) else None
  }

  /** Every candidate is valid and no two claim the same identity. */
  ghost predicate AllAdmissible(cs: seq<Candidate>) {
    && (forall i :: 0 <= i < |cs| ==> Valid(cs[i]))
    && (forall i, j :: 0 <= i < j < |cs| ==> ClaimedIdentity(cs[i]) != ClaimedIdentity(cs[j]))
  }

  lemma AdmitOkIff(out: seq<DiscoveredPlan>, c: Candidate)
    ensures Admit(out, c).Ok? <==>
      Valid(c) && forall i :: 0 <= i < |out| ==> Some(IdentityOf(out[i])) != ClaimedIdentity(c)
  {
  }

  lemma PairsOfLonger<T, U>(s: seq<T>, f: T -> U, n: nat)
    requires |s| == n + 1
    ensures (forall i, j :: 0 <= i < j <= n ==> f(s[i]) != f(s[j])) <==>
      && (forall i, j :: 0 <= i < j < n ==> f(s[..n][i]) != f(s[..n][j]))
      && (forall i :: 0 <= i < n ==> f(s[i]) != f(s[n]))
  {
    var older := s[..n];
    assert forall i :: 0 <= i < n ==> older[i] == s[i];
    if forall i, j :: 0 <= i < j < n ==> f(older[i]) != f(older[j]) {
      forall i, j | 0 <= i < j < n ensures f(s[i]) != f(s[j]) {
        assert f(older[i]) != f(older[j]);
      }
    }
  }

  lemma AdmissibleStep(cs: seq<Candidate>)
    requires cs != []
    ensures AllAdmissible(cs) <==>
      && AllAdmissible(cs[..|cs| - 1]) && Valid(cs[|cs| - 1])
      && (forall i :: 0 <= i < |cs| - 1 ==> ClaimedIdentity(cs[i]) != ClaimedIdentity(cs[|cs| - 1]))
  {
    hide Validate;
    PairsOfLonger(cs, ClaimedIdentity, |cs| - 1);
  }

  /** The scan succeeds exactly when every candidate is valid and no two have the same identity. */
  lemma {:induction false} ScanOkIffAdmissible(cs: seq<Candidate>)
    ensures Scan(cs).Ok? <==> AllAdmissible(cs)
  {
    if cs != [] {
      var n := |cs| - 1;
      ScanOkIffAdmissible(cs[..n]);
      AdmissibleStep(cs);
      if Scan(cs[..n]).Ok? {
        ScanKeepsAll(cs[..n]);
        var out := Scan(cs[..n]).value;
        forall i | 0 <= i < n ensures Valid(cs[i]) && ClaimedIdentity(cs[i]) == Some(IdentityOf(out[i])) {
          assert cs[..n][i] == cs[i] && ValidatesTo(cs[i], out[i]);
        }
        AdmitOkIff(out, cs[n]);
      }
    }
  }

  /** The error of a refused scan is about the first file that is refused itself, or claims the identity of one
      before it. */
  lemma {:induction false} ScanErrorIsFirst(cs: seq<Candidate>) returns (k: nat)
    requires Scan(cs).Err?
    ensures k < |cs| && AllAdmissible(cs[..k])
    ensures Complains(cs[k], Scan(cs).error)
            || (Valid(cs[k]) && Scan(cs).error == DuplicateIdentity(ClaimedIdentity(cs[k]).value)
                && exists i :: 0 <= i < k && ClaimedIdentity(cs[i]) == ClaimedIdentity(cs[k]))
  {
    hide Validate, Complains;
    var n := |cs| - 1;
    if Scan(cs[..n]).Err? {
      k := ScanErrorIsFirst(cs[..n]);
      assert cs[..n][..k] == cs[..k];
    } else {
      k := n;
      ScanOkIffAdmissible(cs[..n]);
      var out := Scan(cs[..n]).value;
      if Valid(cs[n]) {
        ScanKeepsAll(cs[..n]);
        var i :| 0 <= i < |out| && IdentityOf(out[i]) == IdentityOf(Validate(cs[n]).value);
        assert ValidatesTo(cs[..n][i], out[i]);
        assert ClaimedIdentity(cs[i]) == ClaimedIdentity(cs[k]);
      } else {
        RefusedIffComplains(cs[n], Scan(cs).error);
      }
    }
  }

  // ---------------------------------------------------------------------------------------------
  // Read order does not matter
  // ---------------------------------------------------------------------------------------------

  lemma RepeatedElement<T>(s: seq<T>, i: nat, j: nat)
    requires i < j < |s| && s[i] == s[j]
    ensures multiset(s)[s[i]] >= 2
  {
    assert s == s[..i] + [s[i]] + s[i + 1..j] + [s[j]] + s[j + 1..];
  }

  lemma TwoPositions<T>(s: seq<T>, x: T) returns (i: nat, j: nat)
    requires multiset(s)[x] >= 2
    ensures i < j < |s| && s[i] == x && s[j] == x
  {
    assert x in multiset(s);
    i :| 0 <= i < |s| && s[i] == x;
    var rest := s[..i] + s[i + 1..];
    assert s == s[..i] + [x] + s[i + 1..];
    assert multiset(s) == multiset(rest) + multiset{x};
    assert x in multiset(rest);
    var k :| 0 <= k < |rest| && rest[k] == x;
    if k < i { i, j := k, i; } else { j := k + 1; }
  }

  lemma AdmissibilityIsOrderFree(a: seq<Candidate>, b: seq<Candidate>)
    requires multiset(a) == multiset(b) && AllAdmissible(a)
    ensures AllAdmissible(b)
  {
    forall j | 0 <= j < |b| ensures b[j] in a {
      assert b[j] in multiset(a);
    }
    forall j, k | 0 <= j < k < |b| ensures ClaimedIdentity(b[j]) != ClaimedIdentity(b[k]) {
      var x, y := b[j], b[k];
      var i :| 0 <= i < |a| && a[i] == x;
      var i' :| 0 <= i' < |a| && a[i'] == y;
      if x == y {
        RepeatedElement(b, j, k);
        i, i' := TwoPositions(a, x);
      }
    }
  }

  lemma SameElementsSameMultiset<T(!new)>(a: seq<T>, b: seq<T>)
    requires Distinct(a) && Distinct(b) && forall x :: x in a <==> x in b
    ensures multiset(a) == multiset(b)
  {
    forall x ensures multiset(a)[x] == multiset(b)[x] {
      DistinctMultiplicity(a, x);
      DistinctMultiplicity(b, x);
    }
  }

  lemma ScannedIn(a: seq<Candidate>, b: seq<Candidate>, p: DiscoveredPlan)
    requires multiset(a) == multiset(b) && Scan(a).Ok? && Scan(b).Ok? && p in Scan(a).value
    ensures p in Scan(b).value
  {
    ScanKeepsAll(a);
    ScanKeepsAll(b);
    var i :| 0 <= i < |Scan(a).value| && Scan(a).value[i] == p;
    assert a[i] in multiset(a) && a[i] in multiset(b);
    var j :| 0 <= j < |b| && b[j] == a[i];
    assert ValidatesTo(a[i], p) && ValidatesTo(b[j], Scan(b).value[j]);
  }

  lemma ScannedDistinct(a: seq<Candidate>)
    requires Scan(a).Ok?
    ensures Distinct(Scan(a).value)
  {
  }

  lemma ScansOfOneDisk(a: seq<Candidate>, b: seq<Candidate>)
    requires multiset(a) == multiset(b) && Scan(a).Ok? && Scan(b).Ok?
    ensures multiset(Scan(a).value) == multiset(Scan(b).value)
  {
    ScannedDistinct(a);
    ScannedDistinct(b);
    forall p ensures p in Scan(a).value <==> p in Scan(b).value {
      if p in Scan(a).value { ScannedIn(a, b, p); }
      if p in Scan(b).value { ScannedIn(b, a, p); }
    }
    SameElementsSameMultiset(Scan(a).value, Scan(b).value);
  }

  lemma {:induction false} UniqueIsPermutable(a: seq<DiscoveredPlan>, b: seq<DiscoveredPlan>)
    requires UniqueIdentities(a) && multiset(a) == multiset(b)
    ensures UniqueIdentities(b)
  {
    forall j, k | 0 <= j < k < |b| ensures IdentityOf(b[j]) != IdentityOf(b[k]) {
      assert b[j] in multiset(a) && b[k] in multiset(a);
      var i :| 0 <= i < |a| && a[i] == b[j];
      var i' :| 0 <= i' < |a| && a[i'] == b[k];
      if b[j] == b[k] {
        RepeatedElement(b, j, k);
        i, i' := TwoPositions(a, b[j]);
      }
    }
  }

  lemma AllWellPlaced(cs: seq<Candidate>)
    requires Scan(cs).Ok?
    ensures forall p :: p in Scan(cs).value ==> WellPlaced(p)
  {
  }

  /** Among scanned plans the stage-1 key has no ties. */
  lemma NoStageOneTies(cs: seq<Candidate>, p: DiscoveredPlan, q: DiscoveredPlan)
    requires Scan(cs).Ok? && p in Scan(cs).value && q in Scan(cs).value
    requires StageOneLeq(p, q) && StageOneLeq(q, p)
    ensures p == q
  {
    AllWellPlaced(cs);
    StageOneIsTotalPreorder();
    PathDeterminesBucket(p, q);
    ScanKeepsAll(cs);
    var i :| 0 <= i < |Scan(cs).value| && Scan(cs).value[i] == p;
    var j :| 0 <= j < |Scan(cs).value| && Scan(cs).value[j] == q;
    assert IdentityOf(Scan(cs).value[i]) == IdentityOf(Scan(cs).value[j]);
  }

  /** Whatever order the directories are read in, discovery succeeds or refuses alike, and a scan that
      succeeds yields the same list (or the same ordering error). */
  lemma ReadOrderIsIrrelevant(a: seq<Candidate>, b: seq<Candidate>)
    requires multiset(a) == multiset(b)
    ensures Scan(a).Ok? <==> Scan(b).Ok?
    ensures Scan(a).Ok? ==> Discover(a) == Discover(b)
  {
    ScanOkIffAdmissible(a);
    ScanOkIffAdmissible(b);
    if AllAdmissible(a) { AdmissibilityIsOrderFree(a, b); }
    if AllAdmissible(b) { AdmissibilityIsOrderFree(b, a); }
    if Scan(a).Ok? {
      ScansOfOneDisk(a, b);
      SortedScan(a);
      SortedScan(b);
      var sa, sb := Sort(Scan(a).value, StageOneLeq), Sort(Scan(b).value, StageOneLeq);
      forall i, j | 0 <= i < |sa| && 0 <= j < |sa| && StageOneLeq(sa[i], sa[j]) && StageOneLeq(sa[j], sa[i])
        ensures sa[i] == sa[j]
      {
        assert sa[i] in multiset(Scan(a).value) && sa[j] in multiset(Scan(a).value);
        NoStageOneTies(a, sa[i], sa[j]);
      }
      SortedIsUnique(sa, sb, StageOneLeq);
    }
  }

  /** Whatever order the directories are read in, at every depth: discovery of a listing is refused alike, and a
      scan that succeeds yields the same list, or the same ordering error. */
  lemma ListingOrderIsIrrelevant(a: seq<DatabaseEntry>, b: seq<DatabaseEntry>)
    requires SameListing(a, b)
    ensures Scan(Candidates(a)).Ok? <==> Scan(Candidates(b)).Ok?
    ensures Scan(Candidates(a)).Ok? ==> Discover(Candidates(a)) == Discover(Candidates(b))
  {
    SameListingCandidates(a, b);
    ReadOrderIsIrrelevant(Candidates(a), Candidates(b));
  }

  lemma SortedScan(cs: seq<Candidate>)
    requires Scan(cs).Ok?
    ensures var s := Sort(Scan(cs).value, StageOneLeq);
      && Sorted(s, StageOneLeq) && multiset(s) == multiset(Scan(cs).value)
      && UniqueIdentities(s) && (forall p :: p in s ==> WellPlaced(p))
  {
    var out := Scan(cs).value;
    StageOneIsTotalPreorder();
    SortIsSortedPermutation(out, StageOneLeq);
    ScanKeepsAll(cs);
    UniqueIsPermutable(out, Sort(out, StageOneLeq));
    AllWellPlaced(cs);
    forall p | p in Sort(out, StageOneLeq) ensures WellPlaced(p) {
      assert p in multiset(out);
    }
  }

  lemma PathBetween(a: seq<string>, b: seq<string>, c: seq<string>)
    requires PathLeq(a, b) && PathLeq(b, c) && a != [] && c != [] && a[0] == c[0]
    ensures b != [] && b[0] == a[0]
  {
    StringAndPathOrders();
  }

  /** Stage 1 makes every (database, version, phase-zero) class one contiguous block. */
  lemma SortedIsContiguous(s: seq<DiscoveredPlan>)
    requires Sorted(s, StageOneLeq) && forall p :: p in s ==> WellPlaced(p)
    ensures Contiguous(s)
  {
    forall i, j, k | 0 <= i < j < k < |s| && SameGroup(s[i], s[k]) ensures SameGroup(s[i], s[j]) {
      assert StageOneLeq(s[i], s[j]) && StageOneLeq(s[j], s[k]);
      assert WellPlaced(s[i]) && WellPlaced(s[j]) && WellPlaced(s[k]);
      StringAndPathOrders();
      assert s[i].plan.version == s[j].plan.version;
      assert s[i].isPhaseZero == s[j].isPhaseZero;
      PathBetween(s[i].path, s[j].path, s[k].path);
    }
  }

  /** Discovery is the dependency order of the scanned plans listed by version, phase zero first, and path. */
  lemma DiscoveryOrdersSorted(cs: seq<Candidate>, s: seq<DiscoveredPlan>)
    requires Scan(cs).Ok? && multiset(s) == multiset(Scan(cs).value) && Sorted(s, BelongsBefore)
    ensures Discover(cs) ==
      match OrderGroups(s)
      case Err(e) => Err(Unorderable(e))
      case Ok(ordered) => Ok(ordered)
  {
    var t := Sort(Scan(cs).value, StageOneLeq);
    StageOneIs();
    SortedScan(cs);
    forall i, j | 0 <= i < |s| && 0 <= j < |s| && StageOneLeq(s[i], s[j]) && StageOneLeq(s[j], s[i])
      ensures s[i] == s[j]
    {
      assert s[i] in multiset(Scan(cs).value) && s[j] in multiset(Scan(cs).value);
      NoStageOneTies(cs, s[i], s[j]);
    }
    SortedIsUnique(s, t, StageOneLeq);
  }

  /** What every consumer of a successful discovery may rely on. */
  lemma DiscoveredList(cs: seq<Candidate>)
    requires Discover(cs).Ok?
    ensures multiset(Discover(cs).value) == multiset(Scan(cs).value)
    ensures UniqueIdentities(Discover(cs).value)
    ensures PlansAfterDependencies(Discover(cs).value)
    ensures OrderGroups(Discover(cs).value) == Ok(Discover(cs).value)
  {
    var s := Sort(Scan(cs).value, StageOneLeq);
    SortedScan(cs);
    SortedIsContiguous(s);
    OrderingPermutes(s);
    UniqueIsPermutable(s, Discover(cs).value);
    OrderedListRespectsDependencies(s);
    OrderingIsIdempotent(s);
  }

  // ---------------------------------------------------------------------------------------------
  // Exactly the files of the listing
  // ---------------------------------------------------------------------------------------------

  /** Every file there is accepted, and no two have one identity. */
  ghost predicate FilesAdmissible(listing: seq<DatabaseEntry>) {
    && (forall place, c :: FileAt(listing, place, c) ==> c.payload.Some? && WellPlaced(AsFound(c)))
    && (forall p, c, q, d ::
         FileAt(listing, p, c) && FileAt(listing, q, d) && p != q && c.payload.Some? && d.payload.Some? ==>
         IdentityOf(AsFound(c)) != IdentityOf(AsFound(d)))
  }

  lemma ScanOkIffFilesAdmissible(listing: seq<DatabaseEntry>)
    ensures Scan(Candidates(listing)).Ok? <==> FilesAdmissible(listing)
  {
    hide FileAt, Candidates, WellPlaced, Validate, Scan;
    var cs := Candidates(listing);
    var places := FilesAreFound(listing);
    ScanOkIffAdmissible(cs);
    forall c { AcceptedIffWellPlaced(c); }
    if AllAdmissible(cs) {
      forall place, c | FileAt(listing, place, c) ensures c.payload.Some? && WellPlaced(AsFound(c)) {
        var n := FoundAt(listing, cs, places, place, c);
        assert Valid(cs[n]);
      }
      forall p, c, q, d | FileAt(listing, p, c) && FileAt(listing, q, d) && p != q
        ensures IdentityOf(AsFound(c)) != IdentityOf(AsFound(d))
      {
        var m := FoundAt(listing, cs, places, p, c);
        var n := FoundAt(listing, cs, places, q, d);
        assert Valid(cs[m]) && Valid(cs[n]) && ClaimedIdentity(cs[m]) != ClaimedIdentity(cs[n]);
      }
    }
    if FilesAdmissible(listing) {
      forall i | 0 <= i < |cs| ensures FileAt(listing, places[i], cs[i]) && Valid(cs[i]) {
        PlaceOf(listing, cs, places, i);
      }
      forall i, j | 0 <= i < j < |cs| ensures ClaimedIdentity(cs[i]) != ClaimedIdentity(cs[j]) {
        assert places[i] != places[j];
      }
    }
  }

  lemma PlaceOf(listing: seq<DatabaseEntry>, cs: seq<Candidate>, places: seq<Place>, n: nat)
    requires IsInventory(listing, cs, places) && n < |cs|
    ensures FileAt(listing, places[n], cs[n])
  {
    hide FileAt;
  }

  lemma FoundAt(listing: seq<DatabaseEntry>, cs: seq<Candidate>, places: seq<Place>, place: Place, c: Candidate)
    returns (n: nat)
    requires IsInventory(listing, cs, places) && FileAt(listing, place, c)
    ensures n < |cs| && places[n] == place && cs[n] == c
  {
    assert place in places;
    n :| n < |places| && places[n] == place;
    PlaceOf(listing, cs, places, n);
  }

  /** The plans are the files of the listing, each once, as found. */
  ghost predicate AreFilesOf(plans: seq<DiscoveredPlan>, listing: seq<DatabaseEntry>) {
    exists cs, places :: AreFiles(plans, listing, cs, places)
  }

  ghost predicate AreFiles(
    plans: seq<DiscoveredPlan>, listing: seq<DatabaseEntry>, cs: seq<Candidate>, places: seq<Place>)
  {
    && IsInventory(listing, cs, places) && |plans| == |cs|
    && (forall i :: 0 <= i < |cs| ==> cs[i].payload.Some? && plans[i] == AsFound(cs[i]))
  }

  /** Where each element of a is in b. */
  lemma Positions<T(!new)>(a: seq<T>, b: seq<T>) returns (order: seq<nat>)
    requires multiset(a) == multiset(b) && Distinct(b)
    ensures |order| == |a| == |b| && InRange(order, |b|) && a == Pick(b, order)
    ensures Distinct(order) && forall k: nat :: k < |b| ==> k in order
  {
    assert |a| == |multiset(a)| == |multiset(b)| == |b|;
    forall x ensures x in a <==> x in b { assert x in multiset(a) <==> x in multiset(b); }
    order := seq(|a|, i requires 0 <= i < |a| => assert a[i] in b; IndexIn(b, a[i]));
    assert a == Pick(b, order);
    forall i, j | 0 <= i < j < |a| ensures order[i] != order[j] {
      if order[i] == order[j] {
        RepeatedElement(a, i, j);
        DistinctMultiplicity(b, a[i]);
      }
    }
    forall k: nat | k < |b| ensures k in order {
      assert b[k] in a;
      var i :| 0 <= i < |a| && a[i] == b[k];
      assert b[order[i]] == b[k];
    }
  }

  ghost function IndexIn<T>(s: seq<T>, x: T): (i: nat)
    requires x in s
    ensures i < |s| && s[i] == x
  {
    if s[0] == x then 0 else IndexIn(s[1..], x) + 1
  }

  lemma PickInventory(listing: seq<DatabaseEntry>, cs: seq<Candidate>, places: seq<Place>, order: seq<nat>)
    requires IsInventory(listing, cs, places)
    requires InRange(order, |cs|) && Distinct(order) && |order| == |cs| && forall k: nat :: k < |cs| ==> k in order
    ensures IsInventory(listing, Pick(cs, order), Pick(places, order))
  {
    hide FileAt;
    var ds, qs := Pick(cs, order), Pick(places, order);
    forall n | 0 <= n < |qs| ensures FileAt(listing, qs[n], ds[n]) {
      PlaceOf(listing, cs, places, order[n]);
    }
    forall place, c | FileAt(listing, place, c) ensures place in qs {
      var n := FoundAt(listing, cs, places, place, c);
      assert n in order;
      var i :| 0 <= i < |order| && order[i] == n;
      assert qs[i] == place;
    }
  }

  /** Discovery loses and invents nothing: the list is the files of the listing. */
  lemma DiscoveredFiles(listing: seq<DatabaseEntry>)
    requires Discover(Candidates(listing)).Ok?
    ensures AreFilesOf(Discover(Candidates(listing)).value, listing)
  {
    hide FileAt, Candidates, Discover, Validate, Scan;
    var cs := Candidates(listing);
    var plans := Discover(cs).value;
    var places := FilesAreFound(listing);
    DiscoveredScans(cs);
    DiscoveredList(cs);
    ScannedDistinct(cs);
    var order := Positions(plans, Scan(cs).value);
    ScanKeepsAll(cs);
    PickInventory(listing, cs, places, order);
    forall i | 0 <= i < |cs| ensures Pick(cs, order)[i].payload.Some? && plans[i] == AsFound(Pick(cs, order)[i]) {
      assert ValidatesTo(cs[order[i]], Scan(cs).value[order[i]]);
      AcceptedIffWellPlaced(cs[order[i]]);
    }
    assert AreFiles(plans, listing, Pick(cs, order), Pick(places, order));
  }

  lemma DiscoveredScans(cs: seq<Candidate>)
    requires Discover(cs).Ok?
    ensures Scan(cs).Ok? && |Scan(cs).value| == |cs|
  {
  }

  // ---------------------------------------------------------------------------------------------
  // Versions ascend, phase zero first, also after the reordering
  // ---------------------------------------------------------------------------------------------

  predicate VersionOrder(a: DiscoveredPlan, b: DiscoveredPlan) {
    if a.plan.version != b.plan.version then StringLeq(a.plan.version, b.plan.version)
    else a.isPhaseZero || !b.isPhaseZero
  }

  lemma {:induction false} ReorderingKeepsVersionOrder(s: seq<DiscoveredPlan>)
    requires Sorted(s, VersionOrder) && OrderGroups(s).Ok?
    ensures Sorted(OrderGroups(s).value, VersionOrder)
    decreases |s|
  {
    if s != [] {
      var e := FirstGroup(s);
      var g, rest := s[..e], s[e..];
      ReorderingKeepsVersionOrder(rest);
      hide OrderGroups, OrderGroup;
      GroupMembers(g, s[0]);
      OrderingPermutes(rest);
      var r' := OrderGroups(rest).value;
      forall j | 0 <= j < |r'| ensures VersionOrder(s[0], r'[j]) {
        assert r'[j] in multiset(rest);
        var m :| 0 <= m < |rest| && rest[m] == r'[j];
        assert VersionOrder(s[0], s[e + m]);
      }
      JoinKeepsVersionOrder(OrderGroup(g).value, r', s[0]);
    }
  }

  lemma JoinKeepsVersionOrder(a: seq<DiscoveredPlan>, b: seq<DiscoveredPlan>, p: DiscoveredPlan)
    requires Sorted(b, VersionOrder)
    requires forall i :: 0 <= i < |a| ==> SameGroup(a[i], p)
    requires forall j :: 0 <= j < |b| ==> VersionOrder(p, b[j])
    ensures Sorted(a + b, VersionOrder)
  {
  }

  /** The apply loop meets versions in ascending order, and phase zero before the rest of its version. */
  lemma DiscoveredInVersionOrder(cs: seq<Candidate>)
    requires Discover(cs).Ok?
    ensures Sorted(Discover(cs).value, VersionOrder)
  {
    var s := Sort(Scan(cs).value, StageOneLeq);
    SortedScan(cs);
    assert forall a, b :: StageOneLeq(a, b) ==> VersionOrder(a, b);
    ReorderingKeepsVersionOrder(s);
  }

  // ---------------------------------------------------------------------------------------------
  // The nested directory loops
  // ---------------------------------------------------------------------------------------------

  ghost function Identities(out: seq<DiscoveredPlan>): set<Identity> {
    set i | 0 <= i < |out| :: IdentityOf(out[i])
  }

  lemma IdentitiesGrow(out: seq<DiscoveredPlan>, p: DiscoveredPlan)
    ensures Identities(out + [p]) == Identities(out) + {IdentityOf(p)}
  {
    var next := out + [p];
    forall id | id in Identities(out) ensures id in Identities(next) {
      var i :| 0 <= i < |out| && IdentityOf(out[i]) == id;
      assert next[i] == out[i];
    }
    assert next[|out|] == p;
  }

  /** One file: validate it, refuse a repeated identity, push it. */
  method Visit(ghost before: seq<Candidate>, c: Candidate, out: seq<DiscoveredPlan>, seen: set<Identity>)
    returns (r: Result<DiscoveredPlan, DiscoveryError>)
    requires Scan(before) == Ok(out)
    requires seen == Identities(out)
    ensures r.Ok? ==> Scan(before + [c]) == Ok(out + [r.value])
    ensures r.Ok? ==> seen + {IdentityOf(r.value)} == Identities(out + [r.value])
    ensures r.Err? ==> Scan(before + [c]) == Err(r.error)
  {
    ScanAppend(before, c);
    r := Validate(c);
    if r.Ok? {
      var identity := IdentityOf(r.value);
      if identity in seen {
        r := Err(DuplicateIdentity(identity));
      } else {
        IdentitiesGrow(out, r.value);
      }
    }
  }

  method ScanPhaseZero(ghost before: seq<Candidate>, database: string, files: seq<PhaseZeroEntry>,
                       out: seq<DiscoveredPlan>, seen: set<Identity>)
    returns (r: Result<seq<DiscoveredPlan>, DiscoveryError>, seen': set<Identity>)
    requires Scan(before) == Ok(out) && seen == Identities(out)
    ensures r == Scan(before + PhaseZeroCandidates(database, files))
    ensures r.Ok? ==> seen' == Identities(r.value)
  {
    r, seen' := Ok(out), seen;
    assert before + [] == before;
    for k := 0 to |files|
      invariant r.Ok? && r == Scan(before + PhaseZeroCandidates(database, files[..k]))
      invariant seen' == Identities(r.value)
    {
      ghost var here := before + PhaseZeroCandidates(database, files[..k]);
      assert files[..k + 1][..k] == files[..k];
      if !files[k].isFile {
        assert PhaseZeroCandidates(database, files[..k + 1]) == PhaseZeroCandidates(database, files[..k]);
        continue;
      }
      var c := Candidate(database, files[k].name, true, files[k].payload);
      assert here + [c] == before + PhaseZeroCandidates(database, files[..k + 1]);
      var visited := Visit(here, c, r.value, seen');
      if visited.Err? {
        PhaseZeroPrefix(database, files, k + 1);
        ScanExtendsTo(before, PhaseZeroCandidates(database, files[..k + 1]), PhaseZeroCandidates(database, files));
        return Err(visited.error), seen';
      }
      r, seen' := Ok(r.value + [visited.value]), seen' + {IdentityOf(visited.value)};
    }
    assert files[..|files|] == files;
  }

  lemma ScanExtendsTo(before: seq<Candidate>, part: seq<Candidate>, whole: seq<Candidate>)
    requires part <= whole && Scan(before + part).Err?
    ensures Scan(before + whole) == Scan(before + part)
  {
    var more := whole[|part|..];
    ScanExtends(before + part, more);
    PrefixThenRest(part, whole);
    Join(before, part, more);
  }

  lemma EntryStep(before: seq<Candidate>, database: string, entries: seq<AppEntry>, k: nat)
    requires k < |entries|
    ensures before + DatabaseCandidates(database, entries[..k]) + EntryCandidates(database, entries[k])
            == before + DatabaseCandidates(database, entries[..k + 1])
    ensures Scan(before + DatabaseCandidates(database, entries[..k + 1])).Err? ==>
      Scan(before + DatabaseCandidates(database, entries))
      == Scan(before + DatabaseCandidates(database, entries[..k + 1]))
  {
    assert entries[..k + 1][..k] == entries[..k];
    if Scan(before + DatabaseCandidates(database, entries[..k + 1])).Err? {
      DatabasePrefix(database, entries, k + 1);
      ScanExtendsTo(before, DatabaseCandidates(database, entries[..k + 1]), DatabaseCandidates(database, entries));
    }
  }

  method ScanDatabase(ghost before: seq<Candidate>, database: string, entries: seq<AppEntry>,
                      out: seq<DiscoveredPlan>, seen: set<Identity>)
    returns (r: Result<seq<DiscoveredPlan>, DiscoveryError>, seen': set<Identity>)
    requires Scan(before) == Ok(out) && seen == Identities(out)
    ensures r == Scan(before + DatabaseCandidates(database, entries))
    ensures r.Ok? ==> seen' == Identities(r.value)
  {
    r, seen' := Ok(out), seen;
    assert before + [] == before;
    for k := 0 to |entries|
      invariant r.Ok? && r == Scan(before + DatabaseCandidates(database, entries[..k]))
      invariant seen' == Identities(r.value)
    {
      ghost var here := before + DatabaseCandidates(database, entries[..k]);
      EntryStep(before, database, entries, k);
      r, seen' := ScanEntry(here, database, entries[k], r.value, seen');
      if r.Err? {
        return;
      }
    }
    assert entries[..|entries|] == entries;
  }

  /** One directory entry below a database directory: only `.phase_zero` is descended into, only `.json` is read. */
  method ScanEntry(ghost before: seq<Candidate>, database: string, entry: AppEntry,
                   out: seq<DiscoveredPlan>, seen: set<Identity>)
    returns (r: Result<seq<DiscoveredPlan>, DiscoveryError>, seen': set<Identity>)
    requires Scan(before) == Ok(out)
    requires seen == Identities(out)
    ensures r == Scan(before + EntryCandidates(database, entry))
    ensures r.Ok? ==> seen' == Identities(r.value)
  {
    assert before + [] == before;
    r, seen' := Ok(out), seen;
    match entry
    case Directory(name, files) =>
      if name == PHASE_ZERO_DIRECTORY {
        r, seen' := ScanPhaseZero(before, database, files, out, seen);
      }
    case File(name, payload) =>
      if EndsWith(name, JSON_SUFFIX) {
        var visited := Visit(before, Candidate(database, name, false, payload), out, seen);
        if visited.Err? {
          r := Err(visited.error);
        } else {
          r, seen' := Ok(out + [visited.value]), seen + {IdentityOf(visited.value)};
        }
      }
    case Special(_) =>
  }

  method ScanListing(listing: seq<DatabaseEntry>) returns (r: Result<seq<DiscoveredPlan>, DiscoveryError>)
    ensures r == Scan(Candidates(listing))
  {
    var out: seq<DiscoveredPlan>, seen := [], {};
    for k := 0 to |listing|
      invariant Scan(Candidates(listing[..k])) == Ok(out)
      invariant seen == Identities(out)
    {
      var db := listing[k];
      ghost var here := Candidates(listing[..k]);
      assert listing[..k + 1][..k] == listing[..k];
      if !IsAcceptableLabel(db.name) || !db.isDirectory {
        assert Candidates(listing[..k + 1]) == here;
        continue;
      }
      assert Candidates(listing[..k + 1]) == here + DatabaseCandidates(db.name, db.entries);
      var scanned, seenNow := ScanDatabase(here, db.name, db.entries, out, seen);
      if scanned.Err? {
        ListingPrefix(listing, k + 1);
        assert [] + Candidates(listing[..k + 1]) == Candidates(listing[..k + 1]);
        assert [] + Candidates(listing) == Candidates(listing);
        ScanExtendsTo([], Candidates(listing[..k + 1]), Candidates(listing));
        return scanned;
      }
      out, seen := scanned.value, seenNow;
    }
    assert listing[..|listing|] == listing;
    r := Ok(out);
  }

  /** What discovery says about the files of the listing. */
  lemma DiscoveryOfFiles(listing: seq<DatabaseEntry>)
    ensures var r := Discover(Candidates(listing));
      && (r.Ok? ==> FilesAdmissible(listing) && AreFilesOf(r.value, listing))
      && (!FilesAdmissible(listing) ==> r.Err? && !r.error.Unorderable?)
  {
    hide FilesAdmissible, AreFilesOf, Candidates, Complains, Validate;
    ScanOkIffFilesAdmissible(listing);
    if Discover(Candidates(listing)).Ok? {
      DiscoveredFiles(listing);
    }
    if Scan(Candidates(listing)).Err? {
      ScanErrors(Candidates(listing));
    }
  }

  lemma ScanErrors(cs: seq<Candidate>)
    requires Scan(cs).Err?
    ensures !Scan(cs).error.Unorderable?
  {
    var k := ScanErrorIsFirst(cs);
  }

  method DiscoverPendingPlans(listing: seq<DatabaseEntry>) returns (r: Result<seq<DiscoveredPlan>, DiscoveryError>)
    ensures r == Discover(Candidates(listing))
    ensures r.Ok? ==> FilesAdmissible(listing) && AreFilesOf(r.value, listing)
    ensures !FilesAdmissible(listing) ==> r.Err? && !r.error.Unorderable?
  {
    hide FilesAdmissible, AreFilesOf, Candidates, Scan;
    DiscoveryOfFiles(listing);
    r := ScanListing(listing);
    if r.Ok? {
      var ordered := OrderPendingGroupsByDependencies(Sort(r.value, StageOneLeq));
      r := match ordered
           case Err(e) => Err(Unorderable(e))
           case Ok(plans) => Ok(plans);
    }
  }
}
