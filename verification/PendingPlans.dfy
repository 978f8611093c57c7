/** Pending migration plans as `djogi migrations apply` discovers them, and the checks on their names. */
module PendingPlans {
  import opened Sorting
  import opened Lexicographic
  import opened Alphabets

  datatype BucketKey = BucketKey(database: string, app: string)

  /** The fields of a pending JSON file that ordering and applying look at. `body` stands for the rest of the
      file (slug, snapshot, checksums, timestamps), which is only ever compared for equality. */
  datatype PendingPlan = PendingPlan(
    bucketDatabase: string, bucketApp: string, version: string, dependsOn: seq<string>, body: string)

  /** `path` is relative to the pending root, one element per component. */
  datatype DiscoveredPlan = DiscoveredPlan(
    path: seq<string>, bucket: BucketKey, isPhaseZero: bool, plan: PendingPlan)

  const PHASE_ZERO_VERSION := "V00000000000000__phase_zero_bootstrap"
  const PHASE_ZERO_DIRECTORY := ".phase_zero"
  const GLOBAL_BUCKET_DIRNAME := "_global_"
  const JSON_SUFFIX := ".json"
  const MAX_LABEL_LENGTH := 63

  predicate IsAsciiAlphabetic(c: char) {
    'a' <= c <= 'z' || 'A' <= c <= 'Z'
  }

  predicate IsAsciiDigit(c: char) {
    '0' <= c <= '9'
  }

  /** `is_acceptable_pending_path_component`. The code works on UTF-8 bytes; every byte of a non-ASCII
      character is rejected, so an accepted label has one byte per character and the test agrees. */
  predicate IsAcceptableLabel(s: string) {
    && 0 < |s| <= MAX_LABEL_LENGTH
    && (s[0] == '_' || IsAsciiAlphabetic(s[0]))
    && (forall i :: 1 <= i < |s| ==> s[i] == '_' || IsAsciiAlphabetic(s[i]) || IsAsciiDigit(s[i]))
  }

  lemma LettersAre(c: char)
    ensures IsAsciiAlphabetic(c) <==> c in UPPER_CASE || c in LOWER_CASE
    ensures IsAsciiDigit(c) <==> c in DIGITS
  {
    hide UPPER_CASE, LOWER_CASE, DIGITS;
    UpperCaseIs(c);
    LowerCaseIs(c);
    DigitsAre(c);
  }

  /** A label is acceptable when it has 1 to 63 characters: letters, digits and underscores, a digit not first. */
  lemma LabelIs(s: string)
    ensures IsAcceptableLabel(s) <==>
      && 1 <= |s| <= 63 && s[0] !in DIGITS
      && forall i :: 0 <= i < |s| ==> s[i] == '_' || s[i] in UPPER_CASE || s[i] in LOWER_CASE || s[i] in DIGITS
  {
    LettersAreNotDigits();
    hide IsAsciiAlphabetic, IsAsciiDigit;
    forall c
      ensures (IsAsciiAlphabetic(c) <==> c in UPPER_CASE || c in LOWER_CASE) && (IsAsciiDigit(c) <==> c in DIGITS)
    {
      LettersAre(c);
    }
  }

  lemma LettersAreNotDigits()
    ensures forall c :: IsAsciiAlphabetic(c) ==> !IsAsciiDigit(c)
    ensures !IsAsciiDigit('_')
  {
  }

  function AppDirname(app: string): string {
    if app == "" then GLOBAL_BUCKET_DIRNAME else app
  }

  /** Stage 1: version, then phase zero first, then path. */
  predicate StageOneLeq(a: DiscoveredPlan, b: DiscoveredPlan) {
    if a.plan.version != b.plan.version then StringLeq(a.plan.version, b.plan.version)
    else if a.isPhaseZero != b.isPhaseZero then a.isPhaseZero
    else PathLeq(a.path, b.path)
  }

  lemma StageOneIsTotalPreorder()
    ensures TotalPreorder(StageOneLeq)
    ensures forall a, b :: StageOneLeq(a, b) && StageOneLeq(b, a) ==>
      a.plan.version == b.plan.version && a.isPhaseZero == b.isPhaseZero && a.path == b.path
  {
    StringAndPathOrders();
  }

  /** a belongs before b, or at the same place: by version, then phase zero before the rest, then by path, with
      versions and path components in dictionary order. */
  ghost predicate BelongsBefore(a: DiscoveredPlan, b: DiscoveredPlan) {
    || StringBefore(a.plan.version, b.plan.version)
    || (a.plan.version == b.plan.version && a.isPhaseZero && !b.isPhaseZero)
    || (a.plan.version == b.plan.version && a.isPhaseZero == b.isPhaseZero
        && (a.path == b.path || PathBefore(a.path, b.path)))
  }

  lemma StageOneIs()
    ensures forall a, b :: StageOneLeq(a, b) <==> BelongsBefore(a, b)
  {
    DictionaryOrders();
  }

  /** The (database, version, is_phase_zero) class inside which dependencies are honoured. */
  predicate SameGroup(a: DiscoveredPlan, b: DiscoveredPlan) {
    a.bucket.database == b.bucket.database && a.plan.version == b.plan.version && a.isPhaseZero == b.isPhaseZero
  }

  datatype Identity = Identity(database: string, app: string, version: string)

  function IdentityOf(p: DiscoveredPlan): Identity {
    Identity(p.bucket.database, p.bucket.app, p.plan.version)
  }

  ghost predicate UniqueIdentities(s: seq<DiscoveredPlan>) {
    forall i, j :: 0 <= i < j < |s| ==> IdentityOf(s[i]) != IdentityOf(s[j])
  }
}
