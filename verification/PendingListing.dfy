/** The directories below the pending root, and which of their files discovery looks into. */
module PendingListing {
  import opened Outcomes
  import opened Concatenation
  import opened PendingPlans

  /** What loading a pending JSON file gives; None when it does not parse. */
  type Payload = Option<PendingPlan>

  datatype PhaseZeroEntry = PhaseZeroEntry(name: string, isFile: bool, payload: Payload)

  datatype AppEntry =
    | File(name: string, payload: Payload)
    | Directory(name: string, files: seq<PhaseZeroEntry>)
    | Special(name: string)

  datatype DatabaseEntry = DatabaseEntry(name: string, isDirectory: bool, entries: seq<AppEntry>)

  /** A file the scan looks into, with where it was found. */
  datatype Candidate = Candidate(database: string, filename: string, hidden: bool, payload: Payload)

  predicate EndsWith(s: string, suffix: string) {
    |s| >= |suffix| && s[|s| - |suffix|..] == suffix
  }

  // ---------------------------------------------------------------------------------------------
  // Which entries are looked at
  // ---------------------------------------------------------------------------------------------

  function PhaseZeroCandidates(database: string, files: seq<PhaseZeroEntry>): seq<Candidate> {
    if files == [] then []
    else
      var last := files[|files| - 1];
      PhaseZeroCandidates(database, files[..|files| - 1]) +
      (if last.isFile then [Candidate(database, last.name, true, last.payload)] else [])
  }

  function EntryCandidates(database: string, e: AppEntry): seq<Candidate> {
    match e
    case File(name, payload) => if EndsWith(name, JSON_SUFFIX) then [Candidate(database, name, false, payload)] else []
    case Directory(name, files) => if name == PHASE_ZERO_DIRECTORY then PhaseZeroCandidates(database, files) else []
    case Special(_) => []
  }

  function DatabaseCandidates(database: string, entries: seq<AppEntry>): seq<Candidate> {
    if entries == [] then []
    else
      DatabaseCandidates(database, entries[..|entries| - 1]) + EntryCandidates(database, entries[|entries| - 1])
  }

  function CandidatesOfDatabase(d: DatabaseEntry): seq<Candidate> {
    if IsAcceptableLabel(d.name) && d.isDirectory then DatabaseCandidates(d.name, d.entries) else []
  }

  function Candidates(listing: seq<DatabaseEntry>): seq<Candidate> {
    if listing == [] then []
    else
      var last := listing[|listing| - 1];
      Candidates(listing[..|listing| - 1]) + CandidatesOfDatabase(last)
  }

  // ---------------------------------------------------------------------------------------------
  // Exactly the files
  // ---------------------------------------------------------------------------------------------

  /** A place in a listing: an entry of a database directory, or a file of such an entry. */
  datatype Place = Place(database: nat, entry: nat, file: Option<nat>)

  /** The file c is at this place: a `.json` file right in a database directory with an acceptable name, or any file in
      the directory `.phase_zero` there. */
  ghost predicate FileAt(listing: seq<DatabaseEntry>, place: Place, c: Candidate) {
    && place.database < |listing|
    && InDatabase(listing[place.database], place.entry, place.file, c)
  }

  ghost predicate InDatabase(d: DatabaseEntry, entry: nat, file: Option<nat>, c: Candidate) {
    d.isDirectory && IsAcceptableLabel(d.name) && entry < |d.entries| && InEntry(d.name, d.entries[entry], file, c)
  }

  ghost predicate InEntry(database: string, e: AppEntry, file: Option<nat>, c: Candidate) {
    match (e, file)
    case (File(name, payload), None) =>
      |name| >= 5 && name[|name| - 5..] == ".json" && c == Candidate(database, name, false, payload)
    case (Directory(name, files), Some(k)) =>
      && name == ".phase_zero" && k < |files| && files[k].isFile
      && c == Candidate(database, files[k].name, true, files[k].payload)
    case _ => false
  }

  /** The places are exactly those where something is, each once, and what is at each is listed beside it. */
  ghost predicate Inventory<P(!new), C(!new)>(places: seq<P>, cs: seq<C>, at: (P, C) -> bool) {
    && |places| == |cs| && Distinct(places)
    && (forall n :: 0 <= n < |places| ==> at(places[n], cs[n]))
    && (forall place, c :: at(place, c) ==> place in places)
  }

  lemma JoinInventories<P(!new), C(!new)>(a: seq<P>, ca: seq<C>, inA: (P, C) -> bool,
                                          b: seq<P>, cb: seq<C>, inB: (P, C) -> bool, at: (P, C) -> bool)
    requires Inventory(a, ca, inA) && Inventory(b, cb, inB)
    requires forall place, c :: at(place, c) <==> inA(place, c) || inB(place, c)
    requires forall place, c, c' :: inA(place, c) ==> !inB(place, c')
    ensures Inventory(a + b, ca + cb, at)
  {
    var places, cs := a + b, ca + cb;
    forall i, j | 0 <= i < j < |places| ensures places[i] != places[j] {
      if i < |a| <= j { assert inA(a[i], ca[i]) && inB(b[j - |a|], cb[j - |a|]); }
    }
    forall n | 0 <= n < |places| ensures at(places[n], cs[n]) {
      if n < |a| { assert inA(a[n], ca[n]); } else { assert inB(b[n - |a|], cb[n - |a|]); }
    }
  }

  /** The same things under other names for their places. */
  lemma RenameInventory<P(!new), Q(!new), C(!new)>(
    places: seq<P>, cs: seq<C>, at: (P, C) -> bool, name: P -> Q, back: Q -> P, named: (Q, C) -> bool)
    returns (names: seq<Q>)
    requires Inventory(places, cs, at) && forall p :: back(name(p)) == p
    requires forall p, c :: at(p, c) ==> named(name(p), c)
    requires forall q, c :: named(q, c) ==> name(back(q)) == q && at(back(q), c)
    ensures Inventory(names, cs, named)
  {
    names := seq(|places|, n requires 0 <= n < |places| => name(places[n]));
    forall n | 0 <= n < |names| ensures named(names[n], cs[n]) {
      assert at(places[n], cs[n]);
    }
    forall i, j | 0 <= i < j < |names| ensures names[i] != names[j] {
      assert back(names[i]) == places[i] && back(names[j]) == places[j];
    }
    forall q, c | named(q, c) ensures q in names {
      var n :| 0 <= n < |places| && places[n] == back(q);
      assert names[n] == q;
    }
  }

  ghost predicate InFiles(database: string, files: seq<PhaseZeroEntry>, k: nat, c: Candidate) {
    k < |files| && files[k].isFile && c == Candidate(database, files[k].name, true, files[k].payload)
  }

  lemma {:induction false} FilesFound(database: string, files: seq<PhaseZeroEntry>) returns (ks: seq<nat>)
    ensures Inventory(ks, PhaseZeroCandidates(database, files), (k: nat, c) => InFiles(database, files, k, c))
  {
    ks := [];
    if files != [] {
      var last, older := |files| - 1, files[..|files| - 1];
      ks := FilesFound(database, older);
      var here: seq<nat> := if files[last].isFile then [last] else [];
      var c := if files[last].isFile then [Candidate(database, files[last].name, true, files[last].payload)] else [];
      JoinInventories(
        ks, PhaseZeroCandidates(database, older), (k: nat, c) => InFiles(database, older, k, c),
        here, c, (k: nat, c) => k == last && InFiles(database, files, k, c),
        (k: nat, c) => InFiles(database, files, k, c));
      ks := ks + here;
    }
  }

  /** The files of one entry: none of most directories, itself, or those of `.phase_zero`. */
  lemma EntryFound(database: string, e: AppEntry) returns (fs: seq<Option<nat>>)
    ensures Inventory(fs, EntryCandidates(database, e), (f, c) => InEntry(database, e, f, c))
  {
    fs := [];
    match e {
      case File(name, _) =>
        if EndsWith(name, JSON_SUFFIX) { fs := [None]; }
      case Directory(name, files) =>
        if name == PHASE_ZERO_DIRECTORY {
          var ks := FilesFound(database, files);
          fs := RenameInventory<nat, Option<nat>, Candidate>(
            ks, PhaseZeroCandidates(database, files), (k: nat, c) => InFiles(database, files, k, c),
            (k: nat) => Some(k), (f: Option<nat>) => if f.Some? then f.value else 0,
            (f, c) => InEntry(database, e, f, c));
        }
      case Special(_) =>
    }
  }

  /** A place in one database directory. */
  datatype Spot = Spot(entry: nat, file: Option<nat>)

  ghost predicate AtSpot(database: string, entries: seq<AppEntry>, spot: Spot, c: Candidate) {
    spot.entry < |entries| && InEntry(database, entries[spot.entry], spot.file, c)
  }

  lemma {:induction false} EntriesFound(database: string, entries: seq<AppEntry>) returns (spots: seq<Spot>)
    ensures Inventory(
      spots, DatabaseCandidates(database, entries), (spot, c) => AtSpot(database, entries, spot, c))
  {
    hide InEntry, EntryCandidates;
    spots := [];
    if entries != [] {
      var last, older := |entries| - 1, entries[..|entries| - 1];
      var before := EntriesFound(database, older);
      var fs := EntryFound(database, entries[last]);
      var inLast := (spot: Spot, c) => spot.entry == last && AtSpot(database, entries, spot, c);
      var here := RenameInventory(
        fs, EntryCandidates(database, entries[last]), (f, c) => InEntry(database, entries[last], f, c),
        (f: Option<nat>) => Spot(last, f), (spot: Spot) => spot.file, inLast);
      JoinInventories(
        before, DatabaseCandidates(database, older), (spot, c) => AtSpot(database, older, spot, c),
        here, EntryCandidates(database, entries[last]), inLast,
        (spot, c) => AtSpot(database, entries, spot, c));
      spots := before + here;
    }
  }

  lemma DatabaseFound(d: DatabaseEntry) returns (spots: seq<Spot>)
    ensures Inventory(spots, CandidatesOfDatabase(d), (spot: Spot, c) => InDatabase(d, spot.entry, spot.file, c))
  {
    hide InEntry, DatabaseCandidates;
    spots := [];
    if IsAcceptableLabel(d.name) && d.isDirectory {
      var found := EntriesFound(d.name, d.entries);
      spots := RenameInventory(
        found, DatabaseCandidates(d.name, d.entries), (spot, c) => AtSpot(d.name, d.entries, spot, c),
        (spot: Spot) => spot, (spot: Spot) => spot, (spot: Spot, c) => InDatabase(d, spot.entry, spot.file, c));
    }
  }

  /** The files found are exactly those at the places of the listing, each once. */
  ghost predicate IsInventory(listing: seq<DatabaseEntry>, cs: seq<Candidate>, places: seq<Place>) {
    && |places| == |cs| && Distinct(places)
    && (forall n :: 0 <= n < |places| ==> FileAt(listing, places[n], cs[n]))
    && (forall place, c :: FileAt(listing, place, c) ==> place in places)
  }

  lemma {:induction false} FilesAreFound(listing: seq<DatabaseEntry>) returns (places: seq<Place>)
    ensures IsInventory(listing, Candidates(listing), places)
  {
    hide InDatabase, CandidatesOfDatabase;
    places := [];
    var at := (place: Place, c: Candidate) => FileAt(listing, place, c);
    if listing != [] {
      var last, older := |listing| - 1, listing[..|listing| - 1];
      var d := listing[last];
      var before := FilesAreFound(older);
      var spots := DatabaseFound(d);
      var inLast := (place: Place, c) => place.database == last && FileAt(listing, place, c);
      var here := RenameInventory(
        spots, CandidatesOfDatabase(d), (spot: Spot, c) => InDatabase(d, spot.entry, spot.file, c),
        (spot: Spot) => Place(last, spot.entry, spot.file), (place: Place) => Spot(place.entry, place.file), inLast);
      JoinInventories(
        before, Candidates(older), (place, c) => FileAt(older, place, c),
        here, CandidatesOfDatabase(d), inLast, at);
      places := before + here;
    }
    forall n | 0 <= n < |places| ensures FileAt(listing, places[n], Candidates(listing)[n]) {
      assert at(places[n], Candidates(listing)[n]);
    }
    forall place, c | FileAt(listing, place, c) ensures place in places {
      assert at(place, c);
    }
  }

  // ---------------------------------------------------------------------------------------------
  // One directory read twice: listings that differ in the order of their entries, at every depth
  // ---------------------------------------------------------------------------------------------

  /** b is a with its elements in another order and each of them replaced by a like one. */
  ghost predicate Shuffled<T(!new)>(a: seq<T>, b: seq<T>, like: (T, T) -> bool) {
    exists mid: seq<T> :: multiset(a) == multiset(mid) && Alike(mid, b, like)
  }

  ghost predicate Alike<T(!new)>(a: seq<T>, b: seq<T>, like: (T, T) -> bool) {
    |a| == |b| && forall i :: 0 <= i < |a| ==> like(a[i], b[i])
  }

  ghost predicate SameAppEntry(e: AppEntry, f: AppEntry) {
    e == f || (e.Directory? && f.Directory? && e.name == f.name && multiset(e.files) == multiset(f.files))
  }

  ghost predicate SameDatabaseEntry(d: DatabaseEntry, e: DatabaseEntry) {
    d.name == e.name && d.isDirectory == e.isDirectory && Shuffled(d.entries, e.entries, SameAppEntry)
  }

  ghost predicate SameListing(a: seq<DatabaseEntry>, b: seq<DatabaseEntry>) {
    Shuffled(a, b, SameDatabaseEntry)
  }

  lemma FlatMapShuffled<T(!new), U>(a: seq<T>, b: seq<T>, like: (T, T) -> bool, f: T -> seq<U>)
    requires Shuffled(a, b, like) && forall x, y :: like(x, y) ==> multiset(f(x)) == multiset(f(y))
    ensures multiset(FlatMap(a, f)) == multiset(FlatMap(b, f))
  {
    var mid: seq<T> :| multiset(a) == multiset(mid) && Alike(mid, b, like);
    FlatMapPermuted(a, mid, f);
    FlatMapAlike(mid, b, f);
  }

  function FileCandidates(database: string): PhaseZeroEntry -> seq<Candidate> {
    (e: PhaseZeroEntry) => if e.isFile then [Candidate(database, e.name, true, e.payload)] else []
  }

  lemma {:induction false} PhaseZeroIsFlat(database: string, files: seq<PhaseZeroEntry>)
    ensures PhaseZeroCandidates(database, files) == FlatMap(files, FileCandidates(database))
  {
    if files != [] { PhaseZeroIsFlat(database, files[..|files| - 1]); }
  }

  function CandidatesOfEntry(database: string): AppEntry -> seq<Candidate> {
    (e: AppEntry) => EntryCandidates(database, e)
  }

  lemma {:induction false} DatabaseIsFlat(database: string, entries: seq<AppEntry>)
    ensures DatabaseCandidates(database, entries) == FlatMap(entries, CandidatesOfEntry(database))
  {
    if entries != [] { DatabaseIsFlat(database, entries[..|entries| - 1]); }
  }

  lemma {:induction false} ListingIsFlat(listing: seq<DatabaseEntry>)
    ensures Candidates(listing) == FlatMap(listing, CandidatesOfDatabase)
  {
    if listing != [] { ListingIsFlat(listing[..|listing| - 1]); }
  }

  lemma SameEntryCandidates(database: string, e: AppEntry, f: AppEntry)
    requires SameAppEntry(e, f)
    ensures multiset(EntryCandidates(database, e)) == multiset(EntryCandidates(database, f))
  {
    if e.Directory? && f.Directory? {
      PhaseZeroIsFlat(database, e.files);
      PhaseZeroIsFlat(database, f.files);
      FlatMapPermuted(e.files, f.files, FileCandidates(database));
    }
  }

  lemma SameDatabaseCandidates(d: DatabaseEntry, e: DatabaseEntry)
    requires SameDatabaseEntry(d, e)
    ensures multiset(CandidatesOfDatabase(d)) == multiset(CandidatesOfDatabase(e))
  {
    var f := CandidatesOfEntry(d.name);
    forall x, y | SameAppEntry(x, y) ensures multiset(f(x)) == multiset(f(y)) {
      SameEntryCandidates(d.name, x, y);
    }
    FlatMapShuffled(d.entries, e.entries, SameAppEntry, f);
    DatabaseIsFlat(d.name, d.entries);
    DatabaseIsFlat(d.name, e.entries);
  }

  /** Reading the directories in another order yields the same candidates in another order. */
  lemma SameListingCandidates(a: seq<DatabaseEntry>, b: seq<DatabaseEntry>)
    requires SameListing(a, b)
    ensures multiset(Candidates(a)) == multiset(Candidates(b))
  {
    forall x, y | SameDatabaseEntry(x, y)
      ensures multiset(CandidatesOfDatabase(x)) == multiset(CandidatesOfDatabase(y))
    {
      SameDatabaseCandidates(x, y);
    }
    FlatMapShuffled(a, b, SameDatabaseEntry, CandidatesOfDatabase);
    ListingIsFlat(a);
    ListingIsFlat(b);
  }

  // ---------------------------------------------------------------------------------------------
  // What was found so far is the start of what is found
  // ---------------------------------------------------------------------------------------------

  lemma {:induction false} PhaseZeroPrefix(database: string, files: seq<PhaseZeroEntry>, k: nat)
    requires k <= |files|
    ensures PhaseZeroCandidates(database, files[..k]) <= PhaseZeroCandidates(database, files)
    decreases |files|
  {
    if k == |files| {
      assert files[..k] == files;
    } else {
      PhaseZeroPrefix(database, files[..|files| - 1], k);
      assert files[..|files| - 1][..k] == files[..k];
    }
  }

  lemma {:induction false} DatabasePrefix(database: string, entries: seq<AppEntry>, k: nat)
    requires k <= |entries|
    ensures DatabaseCandidates(database, entries[..k]) <= DatabaseCandidates(database, entries)
    decreases |entries|
  {
    if k == |entries| {
      assert entries[..k] == entries;
    } else {
      DatabasePrefix(database, entries[..|entries| - 1], k);
      assert entries[..|entries| - 1][..k] == entries[..k];
    }
  }

  lemma {:induction false} ListingPrefix(listing: seq<DatabaseEntry>, k: nat)
    requires k <= |listing|
    ensures Candidates(listing[..k]) <= Candidates(listing)
    decreases |listing|
  {
    if k == |listing| {
      assert listing[..k] == listing;
    } else {
      ListingPrefix(listing[..|listing| - 1], k);
      assert listing[..|listing| - 1][..k] == listing[..k];
    }
  }
}
