/** Stage 2 of pending discovery: `order_pending_groups_by_dependencies`. */
module PendingOrder {
  import opened Outcomes
  import opened Concatenation
  import opened Sorting
  import opened Lexicographic
  import opened DependencyOrder
  import opened PendingPlans

  datatype OrderError =
    | InvalidDependsOn(database: string, app: string, dependency: string)
    | DependencyCycle(database: string, version: string, apps: seq<string>)

  // ---------------------------------------------------------------------------------------------
  // The dependency graph of one group
  // ---------------------------------------------------------------------------------------------

  /** The app-to-position lookup; a repeated app keeps its last position. */
  function AppIndex(g: seq<DiscoveredPlan>): (index: map<string, nat>)
    ensures forall app :: app in index ==> index[app] < |g| && g[index[app]].bucket.app == app
  {
    if g == [] then map[]
    else AppIndex(g[..|g| - 1])[g[|g| - 1].bucket.app := |g| - 1]
  }

  /** The positions that the dependency labels of plan k resolve to: labels outside the group and the plan's
      own label are dropped, repetitions are kept. */
  function Resolve(index: map<string, nat>, k: nat, labels: seq<string>): (ds: seq<nat>)
    ensures forall d :: d in ds <==>
      d != k && exists i :: 0 <= i < |labels| && labels[i] in index && index[labels[i]] == d
  {
    if labels == [] then []
    else
      var last := labels[|labels| - 1];
      var before := Resolve(index, k, labels[..|labels| - 1]);
      assert labels == labels[..|labels| - 1] + [last];
      if last in index && index[last] != k then before + [index[last]] else before
  }

  function DependencyGraph(g: seq<DiscoveredPlan>): (deps: seq<seq<nat>>)
    ensures |deps| == |g| && IsGraph(deps)
  {
    seq(|g|, k requires 0 <= k < |g| => Resolve(AppIndex(g), k, g[k].plan.dependsOn))
  }

  ghost predicate DistinctApps(g: seq<DiscoveredPlan>) {
    forall i, j :: 0 <= i < j < |g| ==> g[i].bucket.app != g[j].bucket.app
  }

  lemma {:induction false} AppIndexFinds(g: seq<DiscoveredPlan>, d: nat)
    requires d < |g|
    ensures g[d].bucket.app in AppIndex(g) && AppIndex(g)[g[d].bucket.app] >= d
  {
    if d < |g| - 1 {
      AppIndexFinds(g[..|g| - 1], d);
    }
  }

  /** Of several plans with one app, the last one is meant. */
  lemma {:induction false} AppIndexIsLast(g: seq<DiscoveredPlan>, app: string, d: nat)
    ensures app in AppIndex(g) && AppIndex(g)[app] == d <==>
      d < |g| && g[d].bucket.app == app && forall i :: d < i < |g| ==> g[i].bucket.app != app
  {
    if g != [] { AppIndexIsLast(g[..|g| - 1], app, d); }
  }

  /** What an edge means: a plan waits for exactly the other plans of its group whose app it names. */
  lemma EdgeMeaning(g: seq<DiscoveredPlan>, k: nat, d: nat)
    requires DistinctApps(g) && k < |g| && d < |g|
    ensures d in DependencyGraph(g)[k] <==> d != k && g[d].bucket.app in g[k].plan.dependsOn
  {
    var labels := g[k].plan.dependsOn;
    AppIndexFinds(g, d);
    if g[d].bucket.app in labels {
      var i :| 0 <= i < |labels| && labels[i] == g[d].bucket.app;
      assert AppIndex(g)[labels[i]] == d;
    }
  }

  // ---------------------------------------------------------------------------------------------
  // One group
  // ---------------------------------------------------------------------------------------------

  function FirstBadLabel(labels: seq<string>): (r: Option<string>)
    ensures r.None? <==> forall i :: 0 <= i < |labels| ==> IsAcceptableLabel(labels[i])
    ensures r.Some? ==> r.value in labels && !IsAcceptableLabel(r.value)
  {
    if labels == [] then None
    else if IsAcceptableLabel(labels[0]) then FirstBadLabel(labels[1..])
    else Some(labels[0])
  }

  /** The first entry, in list order, with an unacceptable dependency label. */
  function LabelError(g: seq<DiscoveredPlan>): (r: Option<OrderError>)
    ensures r.None? <==> LabelsAcceptable(g)
    ensures r.Some? ==> r.value.InvalidDependsOn?
  {
    if g == [] then None
    else match FirstBadLabel(g[0].plan.dependsOn)
      case Some(dep) => Some(InvalidDependsOn(g[0].bucket.database, g[0].bucket.app, dep))
      case None => LabelError(g[1..])
  }

  predicate BadAt(g: seq<DiscoveredPlan>, k: nat, i: nat) {
    k < |g| && i < |g[k].plan.dependsOn| && !IsAcceptableLabel(g[k].plan.dependsOn[i])
  }

  /** Label i of entry k is unacceptable, and no earlier label of it or of an earlier entry is. */
  ghost predicate FirstBad(g: seq<DiscoveredPlan>, k: nat, i: nat) {
    BadAt(g, k, i) && forall k': nat, i': nat :: BadAt(g, k', i') ==> k < k' || (k == k' && i <= i')
  }

  ghost function BadLabelError(g: seq<DiscoveredPlan>, k: nat, i: nat): OrderError
    requires BadAt(g, k, i)
  {
    InvalidDependsOn(g[k].bucket.database, g[k].bucket.app, g[k].plan.dependsOn[i])
  }

  lemma {:induction false} FirstBadLabelIs(labels: seq<string>) returns (i: nat)
    requires FirstBadLabel(labels).Some?
    ensures i < |labels| && labels[i] == FirstBadLabel(labels).value
    ensures forall j :: 0 <= j < i ==> IsAcceptableLabel(labels[j])
  {
    i := 0;
    if IsAcceptableLabel(labels[0]) {
      i := FirstBadLabelIs(labels[1..]);
      i := i + 1;
    }
  }

  lemma {:induction false} LabelErrorIsFirst(g: seq<DiscoveredPlan>) returns (k: nat, i: nat)
    requires LabelError(g).Some?
    ensures FirstBad(g, k, i) && LabelError(g) == Some(BadLabelError(g, k, i))
    ensures OrderGroup(g) == Err(BadLabelError(g, k, i))
  {
    if FirstBadLabel(g[0].plan.dependsOn).Some? {
      k := 0;
      i := FirstBadLabelIs(g[0].plan.dependsOn);
    } else {
      k, i := LabelErrorIsFirst(g[1..]);
      k := k + 1;
      forall k': nat, i': nat | BadAt(g, k', i') ensures k < k' || (k == k' && i <= i') {
        assert k' > 0 && BadAt(g[1..], k' - 1, i');
      }
    }
  }

  ghost predicate LabelsAcceptable(g: seq<DiscoveredPlan>) {
    forall k, i :: 0 <= k < |g| && 0 <= i < |g[k].plan.dependsOn| ==> IsAcceptableLabel(g[k].plan.dependsOn[i])
  }

  predicate InRange(order: seq<nat>, n: nat) {
    forall i :: 0 <= i < |order| ==> order[i] < n
  }

  function Pick<T>(g: seq<T>, order: seq<nat>): (r: seq<T>)
    requires InRange(order, |g|)
  {
    seq(|order|, i requires 0 <= i < |order| => g[order[i]])
  }

  /** Which of the first n positions `ordered` leaves out. */
  function LeftOut(ordered: seq<nat>, n: nat): (nodes: seq<nat>)
    ensures forall i :: 0 <= i < |nodes| ==> nodes[i] < n
    ensures forall i, j :: 0 <= i < j < |nodes| ==> nodes[i] < nodes[j]
  {
    if n == 0 then [] else LeftOut(ordered, n - 1) + (if n - 1 in ordered then [] else [n - 1])
  }

  function AppsOf(plans: seq<DiscoveredPlan>): (apps: seq<string>)
    ensures |apps| == |plans| && forall i :: 0 <= i < |plans| ==> apps[i] == plans[i].bucket.app
  {
    seq(|plans|, i requires 0 <= i < |plans| => plans[i].bucket.app)
  }

  /** The apps of the first n entries that `ordered` leaves out. */
  function LeftOutApps(g: seq<DiscoveredPlan>, ordered: seq<nat>, n: nat): seq<string>
    requires n <= |g|
  {
    AppsOf(Pick(g, LeftOut(ordered, n)))
  }

  ghost function OrderGroup(g: seq<DiscoveredPlan>): Result<seq<DiscoveredPlan>, OrderError>
    requires g != []
  {
    if LabelError(g).Some? then Err(LabelError(g).value)
    else if |g| <= 1 then Ok(g)
    else
      var order := Greedy(DependencyGraph(g), []);
      GreedyInRange(DependencyGraph(g));
      if |order| != |g|
      then Err(DependencyCycle(g[0].bucket.database, g[0].plan.version, Sort(LeftOutApps(g, order, |g|), StringLeq)))
      else Ok(Pick(g, order))
  }

  lemma GreedyInRange(deps: seq<seq<nat>>)
    ensures InRange(Greedy(deps, []), |deps|)
  {
    GreedyIsMaximal(deps, []);
  }

  /** A group with acceptable labels is refused exactly when its dependency graph has a cycle. */
  lemma GroupRefusedIffCyclic(g: seq<DiscoveredPlan>)
    requires g != [] && LabelsAcceptable(g)
    ensures OrderGroup(g).Err? <==> HasCycle(DependencyGraph(g))
    ensures OrderGroup(g).Err? ==> OrderGroup(g).error.DependencyCycle?
  {
    var deps := DependencyGraph(g);
    FullLengthIffAllEmitted(deps);
    IncompleteIffCyclic(deps);
    if |g| == 1 {
      IdentityIsKept(deps);
    }
  }

  /** The order of an accepted group is the least, by stage-1 position, of all topological orders. */
  lemma GroupOrderIsLeast(g: seq<DiscoveredPlan>)
    requires g != [] && OrderGroup(g).Ok?
    ensures var deps := DependencyGraph(g);
      var order := Greedy(deps, []);
      && TopologicalOrder(deps, order)
      && (forall t :: TopologicalOrder(deps, t) ==> LexAtMost(order, t))
      && OrderGroup(g).value == Pick(g, order)
  {
    var deps := DependencyGraph(g);
    FullLengthIffAllEmitted(deps);
    if |g| == 1 {
      IdentityIsKept(deps);
      assert Greedy(deps, [])[0] == 0;
    }
    GreedyIsLeastTopologicalOrder(deps);
  }

  lemma {:induction false} LeftOutAre(ordered: seq<nat>, n: nat)
    ensures forall k: nat :: k in LeftOut(ordered, n) <==> k < n && k !in ordered
  {
    if n > 0 { LeftOutAre(ordered, n - 1); }
  }

  /** The report names, sorted, the app of each plan that lies on or depends on a cycle, once per such plan, and no
      other: `nodes` are the positions of those plans. */
  lemma CycleReportIsExact(g: seq<DiscoveredPlan>) returns (nodes: seq<nat>)
    requires g != [] && OrderGroup(g).Err? && OrderGroup(g).error.DependencyCycle?
    ensures OrderGroup(g).error.database == g[0].bucket.database && OrderGroup(g).error.version == g[0].plan.version
    ensures Sorted(OrderGroup(g).error.apps, StringLeq)
    ensures InRange(nodes, |g|) && multiset(OrderGroup(g).error.apps) == multiset(AppsOf(Pick(g, nodes)))
    ensures forall i, j :: 0 <= i < j < |nodes| ==> nodes[i] < nodes[j]
    ensures forall k: nat :: k in nodes <==> k < |g| && OnOrAboveCycle(DependencyGraph(g), k)
  {
    var order := Greedy(DependencyGraph(g), []);
    nodes := LeftOut(order, |g|);
    SortedReport(LeftOutApps(g, order, |g|));
    LeftOutAre(order, |g|);
    forall k: nat | k < |g| ensures k !in order <==> OnOrAboveCycle(DependencyGraph(g), k) {
      BlockedIffOnOrAboveCycle(DependencyGraph(g), k);
    }
  }

  lemma SortedReport(chain: seq<string>)
    ensures Sorted(Sort(chain, StringLeq), StringLeq) && multiset(Sort(chain, StringLeq)) == multiset(chain)
  {
    StringAndPathOrders();
    SortIsSortedPermutation(chain, StringLeq);
  }

  /** A group with acceptable labels is accepted exactly when its dependency graph has a topological order. */
  lemma GroupAcceptedIffOrderable(g: seq<DiscoveredPlan>)
    requires g != [] && LabelsAcceptable(g)
    ensures OrderGroup(g).Ok? <==> exists t :: TopologicalOrder(DependencyGraph(g), t)
  {
    var deps := DependencyGraph(g);
    if OrderGroup(g).Ok? {
      GroupOrderIsLeast(g);
    }
    if t :| TopologicalOrder(deps, t) {
      TopologicalOrderUnblocks(deps, t);
      FullLengthIffAllEmitted(deps);
    }
  }

  /** The empty label names the global bucket, and the label check refuses it: no accepted group has a plan that
      depends on the global bucket. */
  lemma GlobalDependencyIsRefused(g: seq<DiscoveredPlan>, k: nat)
    requires k < |g| && "" in g[k].plan.dependsOn
    ensures OrderGroup(g).Err? && OrderGroup(g).error.InvalidDependsOn?
  {
    var i :| 0 <= i < |g[k].plan.dependsOn| && g[k].plan.dependsOn[i] == "";
    assert !IsAcceptableLabel(g[k].plan.dependsOn[i]);
  }

  // ---------------------------------------------------------------------------------------------
  // The whole list
  // ---------------------------------------------------------------------------------------------

  /** The end of the run of entries, from j on, that share the group of the first entry. */
  function RunEnd(s: seq<DiscoveredPlan>, j: nat): (e: nat)
    requires 1 <= j <= |s|
    ensures j <= e <= |s|
    ensures forall i :: j <= i < e ==> SameGroup(s[i], s[0])
    ensures e < |s| ==> !SameGroup(s[e], s[0])
    decreases |s| - j
  {
    if j < |s| && SameGroup(s[j], s[0]) then RunEnd(s, j + 1) else j
  }

  /** The consecutive groups of the list. */
  function Groups(s: seq<DiscoveredPlan>): (gs: seq<seq<DiscoveredPlan>>)
    ensures forall i :: 0 <= i < |gs| ==> gs[i] != []
  {
    if s == [] then [] else [s[..RunEnd(s, 1)]] + Groups(s[RunEnd(s, 1)..])
  }

  /** Order group after group; the first refused group refuses the list. */
  ghost function OrderAll(gs: seq<seq<DiscoveredPlan>>): Result<seq<DiscoveredPlan>, OrderError>
    requires forall i :: 0 <= i < |gs| ==> gs[i] != []
  {
    if gs == [] then Ok([])
    else match OrderGroup(gs[0])
      case Err(error) => Err(error)
      case Ok(first) =>
        match OrderAll(gs[1..])
        case Err(error) => Err(error)
        case Ok(rest) => Ok(first + rest)
  }

  ghost function OrderGroups(s: seq<DiscoveredPlan>): Result<seq<DiscoveredPlan>, OrderError> {
    OrderAll(Groups(s))
  }

  ghost predicate Orderable(g: seq<DiscoveredPlan>) {
    LabelsAcceptable(g) && !HasCycle(DependencyGraph(g))
  }

  lemma OrderableIffAccepted(g: seq<DiscoveredPlan>)
    requires g != []
    ensures OrderGroup(g).Ok? <==> Orderable(g)
  {
    if LabelsAcceptable(g) { GroupRefusedIffCyclic(g); }
  }

  lemma {:induction false} FirstRefusedGroup(gs: seq<seq<DiscoveredPlan>>) returns (first: nat)
    requires forall i :: 0 <= i < |gs| ==> gs[i] != []
    ensures OrderAll(gs).Ok? ==> forall i :: 0 <= i < |gs| ==> OrderGroup(gs[i]).Ok?
    ensures OrderAll(gs).Err? ==>
      && first < |gs| && OrderGroup(gs[first]) == OrderAll(gs)
      && (forall j :: 0 <= j < first ==> OrderGroup(gs[j]).Ok?)
  {
    first := 0;
    if gs != [] && OrderGroup(gs[0]).Ok? {
      var rest := gs[1..];
      first := FirstRefusedGroup(rest);
      forall i | 1 <= i < |gs| ensures gs[i] == rest[i - 1] {}
      first := first + 1;
    }
  }

  /** The list is refused exactly when some group has an unacceptable label or a cycle, and then the error is
      the one of the first such group. */
  lemma ListRefusedIffGroupRefused(s: seq<DiscoveredPlan>) returns (first: nat)
    ensures OrderGroups(s).Ok? <==> forall i :: 0 <= i < |Groups(s)| ==> Orderable(Groups(s)[i])
    ensures OrderGroups(s).Err? ==>
      && first < |Groups(s)| && OrderGroup(Groups(s)[first]) == OrderGroups(s)
      && (forall j :: 0 <= j < first ==> Orderable(Groups(s)[j]))
  {
    first := FirstRefusedGroup(Groups(s));
    forall i | 0 <= i < |Groups(s)| ensures OrderGroup(Groups(s)[i]).Ok? <==> Orderable(Groups(s)[i]) {
      OrderableIffAccepted(Groups(s)[i]);
    }
    assert OrderGroups(s).Err? ==> !Orderable(Groups(s)[first]);
  }

  // ---------------------------------------------------------------------------------------------
  // Ordering permutes each group, puts dependencies first, and changes nothing the second time
  // ---------------------------------------------------------------------------------------------

  lemma {:induction false} DistinctMultiplicity<T(!new)>(s: seq<T>, x: T)
    requires Distinct(s)
    ensures multiset(s)[x] == if x in s then 1 else 0
  {
    if s != [] {
      assert s == [s[0]] + s[1..];
      assert s[0] !in s[1..];
      DistinctMultiplicity(s[1..], x);
    }
  }

  lemma PickAround<T>(g: seq<T>, left: seq<nat>, k: nat, right: seq<nat>)
    requires InRange(left, |g|) && k < |g| && InRange(right, |g|)
    ensures multiset(Pick(g, left + [k] + right)) == multiset(Pick(g, left + right)) + multiset{g[k]}
  {
    assert Pick(g, left + [k] + right) == Pick(g, left) + [g[k]] + Pick(g, right);
    assert Pick(g, left + right) == Pick(g, left) + Pick(g, right);
  }

  lemma TakeOut<T>(g: seq<T>, b: seq<nat>, k: nat) returns (rest: seq<nat>)
    requires InRange(b, |g|) && k < |g| && k in b
    ensures InRange(rest, |g|) && |rest| == |b| - 1
    ensures multiset(rest) == multiset(b) - multiset{k}
    ensures multiset(Pick(g, b)) == multiset(Pick(g, rest)) + multiset{g[k]}
  {
    var j :| 0 <= j < |b| && b[j] == k;
    var left, right := b[..j], b[j + 1..];
    assert b == left + [k] + right;
    rest := left + right;
    PickAround(g, left, k, right);
  }

  lemma {:induction false} PickMultiset<T>(g: seq<T>, a: seq<nat>, b: seq<nat>)
    requires multiset(a) == multiset(b) && InRange(a, |g|) && InRange(b, |g|)
    ensures multiset(Pick(g, a)) == multiset(Pick(g, b))
    decreases |a|
  {
    if a == [] {
      assert |b| == |multiset(b)| == 0;
      assert Pick(g, a) == [] && Pick(g, b) == [];
    } else {
      var k := a[0];
      assert k in multiset(a) && k in multiset(b);
      var a' := TakeOut(g, a, k);
      var b' := TakeOut(g, b, k);
      PickMultiset(g, a', b');
    }
  }

  /** Picking by a permutation of the positions permutes the group. */
  lemma PickPermutes<T(!new)>(g: seq<T>, order: seq<nat>)
    requires Distinct(order) && InRange(order, |g|) && forall k: nat :: k < |g| ==> k in order
    ensures multiset(Pick(g, order)) == multiset(g)
  {
    var id: seq<nat> := seq(|g|, i requires 0 <= i < |g| => i);
    assert forall i :: 0 <= i < |id| ==> id[i] == i;
    forall k: nat ensures multiset(order)[k] == multiset(id)[k] {
      assert k < |g| ==> id[k] == k;
      DistinctMultiplicity(order, k);
      DistinctMultiplicity(id, k);
    }
    assert multiset(order) == multiset(id);
    PickMultiset(g, order, id);
    assert Pick(g, id) == g;
  }

  lemma GroupIsPermuted(g: seq<DiscoveredPlan>)
    requires g != [] && OrderGroup(g).Ok?
    ensures multiset(OrderGroup(g).value) == multiset(g)
  {
    GroupOrderIsLeast(g);
    PickPermutes(g, Greedy(DependencyGraph(g), []));
  }

  /** In an ordered group no plan names the app of a plan that comes after it. */
  lemma GroupDependenciesFirst(g: seq<DiscoveredPlan>, i: nat, d: nat)
    requires g != [] && OrderGroup(g).Ok? && DistinctApps(g)
    requires i < |OrderGroup(g).value| && d < |OrderGroup(g).value| && d != i
    requires OrderGroup(g).value[d].bucket.app in OrderGroup(g).value[i].plan.dependsOn
    ensures d < i
  {
    var deps := DependencyGraph(g);
    var order := Greedy(deps, []);
    GroupOrderIsLeast(g);
    EdgeMeaning(g, order[i], order[d]);
    assert order[d] in deps[order[i]] && order[d] in order[..i];
    var j :| 0 <= j < i && order[j] == order[d];
  }

  lemma GroupAppsStayDistinct(g: seq<DiscoveredPlan>)
    requires g != [] && OrderGroup(g).Ok? && DistinctApps(g)
    ensures DistinctApps(OrderGroup(g).value)
  {
    GroupOrderIsLeast(g);
    var order := Greedy(DependencyGraph(g), []);
    forall i, j | 0 <= i < j < |order| ensures g[order[i]].bucket.app != g[order[j]].bucket.app {
      assert order[i] != order[j];
    }
  }

  /** Ordering an ordered group gives it back. */
  lemma GroupOrderIsIdempotent(g: seq<DiscoveredPlan>)
    requires g != [] && OrderGroup(g).Ok? && DistinctApps(g)
    ensures OrderGroup(g).value != []
    ensures OrderGroup(OrderGroup(g).value) == OrderGroup(g)
  {
    var r := OrderGroup(g).value;
    GroupOrderIsLeast(g);
    GroupIsPermuted(g);
    GroupAppsStayDistinct(g);
    assert |r| == |multiset(r)| == |multiset(g)| == |g|;
    assert LabelsAcceptable(r) by {
      forall k | 0 <= k < |r|
        ensures forall i :: 0 <= i < |r[k].plan.dependsOn| ==> IsAcceptableLabel(r[k].plan.dependsOn[i])
      {
        var order := Greedy(DependencyGraph(g), []);
        assert r[k] == g[order[k]];
      }
    }
    var deps := DependencyGraph(r);
    forall k, d | 0 <= k < |deps| && d in deps[k] ensures d < k {
      EdgeMeaning(r, k, d);
      GroupDependenciesFirst(g, k, d);
    }
    IdentityIsKept(deps);
    assert Pick(r, Greedy(deps, [])) == r;
  }

  lemma UniqueIdentitiesGiveDistinctApps(s: seq<DiscoveredPlan>, e: nat)
    requires UniqueIdentities(s) && e <= |s| && forall i :: 0 <= i < e ==> SameGroup(s[i], s[0])
    ensures DistinctApps(s[..e])
    ensures UniqueIdentities(s[e..])
  {
  }

  /** The facts every proof over the whole list takes apart: the first group and what follows it. */
  lemma FirstGroup(s: seq<DiscoveredPlan>) returns (e: nat)
    requires s != [] && OrderGroups(s).Ok?
    ensures 0 < e <= |s| && Groups(s) == [s[..e]] + Groups(s[e..])
    ensures OrderGroup(s[..e]).Ok? && OrderGroups(s[e..]).Ok?
    ensures OrderGroups(s).value == OrderGroup(s[..e]).value + OrderGroups(s[e..]).value
    ensures forall i :: 0 <= i < e ==> SameGroup(s[i], s[0])
    ensures e < |s| ==> !SameGroup(s[e], s[0])
  {
    e := RunEnd(s, 1);
    assert Groups(s)[0] == s[..e] && Groups(s)[1..] == Groups(s[e..]);
  }

  /** Ordering permutes the list. */
  lemma {:induction false} OrderingPermutes(s: seq<DiscoveredPlan>)
    requires OrderGroups(s).Ok?
    ensures multiset(OrderGroups(s).value) == multiset(s)
    decreases |s|
  {
    if s != [] {
      hide OrderGroups, OrderGroup;
      var e := FirstGroup(s);
      var g, rest := s[..e], s[e..];
      var g', r' := OrderGroup(g).value, OrderGroups(rest).value;
      GroupIsPermuted(g);
      OrderingPermutes(rest);
      assert s == g + rest && OrderGroups(s).value == g' + r';
      assert multiset(g' + r') == multiset(g') + multiset(r') == multiset(g) + multiset(rest);
    }
  }

  /** The first plan of an ordered list belongs to the group of the first plan of the list. */
  lemma HeadKeepsGroup(s: seq<DiscoveredPlan>)
    requires s != [] && OrderGroups(s).Ok?
    ensures OrderGroups(s).value != [] && SameGroup(OrderGroups(s).value[0], s[0])
  {
  }

  lemma RunEndIs(s: seq<DiscoveredPlan>, j: nat, e: nat)
    requires 1 <= j <= e <= |s|
    requires forall i :: j <= i < e ==> SameGroup(s[i], s[0])
    requires e < |s| ==> !SameGroup(s[e], s[0])
    ensures RunEnd(s, j) == e
    decreases e - j
  {
  }

  /** Ordering an already ordered list changes nothing. Distinct identities are what discovery's duplicate
      check guarantees to its caller. */
  lemma {:induction false} OrderingIsIdempotent(s: seq<DiscoveredPlan>)
    requires UniqueIdentities(s) && OrderGroups(s).Ok?
    ensures OrderGroups(OrderGroups(s).value) == OrderGroups(s)
    decreases |s|
  {
    if s != [] {
      var e := FirstGroup(s);
      var g, rest := s[..e], s[e..];
      UniqueIdentitiesGiveDistinctApps(s, e);
      GroupOrderIsIdempotent(g);
      OrderingIsIdempotent(rest);
      var g', r' := OrderGroup(g).value, OrderGroups(rest).value;
      GroupMembers(g, s[0]);
      if rest == [] {
        assert r' == [];
      } else {
        HeadKeepsGroup(rest);
      }
      var r := g' + r';
      RunEndIs(r, 1, |g'|);
      assert r[..|g'|] == g' && r[|g'|..] == r';
      assert Groups(r)[0] == g' && Groups(r)[1..] == Groups(r');
    }
  }

  lemma GroupMembers(g: seq<DiscoveredPlan>, p: DiscoveredPlan)
    requires g != [] && OrderGroup(g).Ok? && forall i :: 0 <= i < |g| ==> SameGroup(g[i], p)
    ensures forall i :: 0 <= i < |OrderGroup(g).value| ==> SameGroup(OrderGroup(g).value[i], p)
  {
    GroupIsPermuted(g);
    forall i | 0 <= i < |OrderGroup(g).value| ensures SameGroup(OrderGroup(g).value[i], p) {
      assert OrderGroup(g).value[i] in multiset(g);
    }
  }

  /** Each (database, version, phase-zero) class is one contiguous block. */
  ghost predicate Contiguous(s: seq<DiscoveredPlan>) {
    forall i, j, k :: 0 <= i < j < k < |s| && SameGroup(s[i], s[k]) ==> SameGroup(s[i], s[j])
  }

  /** No plan comes before a plan of its own class whose app it names in depends_on. */
  ghost predicate PlansAfterDependencies(s: seq<DiscoveredPlan>) {
    forall i, d :: 0 <= i < |s| && 0 <= d < |s| && DependsOn(s[i], s[d]) && d != i ==> d < i
  }

  /** p names the app of q, a plan of the same database, version and kind. */
  predicate DependsOn(p: DiscoveredPlan, q: DiscoveredPlan) {
    && p.bucket.database == q.bucket.database && p.plan.version == q.plan.version && p.isPhaseZero == q.isPhaseZero
    && q.bucket.app in p.plan.dependsOn
  }

  lemma TailAvoidsFirstClass(s: seq<DiscoveredPlan>, e: nat)
    requires Contiguous(s) && 0 < e <= |s| && (e < |s| ==> !SameGroup(s[e], s[0]))
    ensures Contiguous(s[e..])
    ensures forall p :: p in s[e..] ==> !SameGroup(p, s[0])
  {
  }

  lemma JoinRespectsDependencies(a: seq<DiscoveredPlan>, b: seq<DiscoveredPlan>, p: DiscoveredPlan)
    requires PlansAfterDependencies(a) && PlansAfterDependencies(b)
    requires forall i :: 0 <= i < |a| ==> SameGroup(a[i], p)
    requires forall i :: 0 <= i < |b| ==> !SameGroup(b[i], p)
    ensures PlansAfterDependencies(a + b)
  {
  }

  /** Over contiguous classes, the group-local order holds across the whole list. */
  lemma {:induction false} OrderedListRespectsDependencies(s: seq<DiscoveredPlan>)
    requires UniqueIdentities(s) && Contiguous(s) && OrderGroups(s).Ok?
    ensures PlansAfterDependencies(OrderGroups(s).value)
    decreases |s|
  {
    if s != [] {
      var e := FirstGroup(s);
      var g, rest := s[..e], s[e..];
      var g', r' := OrderGroup(g).value, OrderGroups(rest).value;
      UniqueIdentitiesGiveDistinctApps(s, e);
      TailAvoidsFirstClass(s, e);
      OrderedListRespectsDependencies(rest);
      GroupMembers(g, s[0]);
      OrderingPermutes(rest);
      forall k | 0 <= k < |r'| ensures !SameGroup(r'[k], s[0]) {
        assert r'[k] in multiset(rest);
      }
      forall i, d | 0 <= i < |g'| && 0 <= d < |g'| && DependsOn(g'[i], g'[d]) && d != i ensures d < i {
        GroupDependenciesFirst(g, i, d);
      }
      JoinRespectsDependencies(g', r', s[0]);
    }
  }

  // ---------------------------------------------------------------------------------------------
  // The in-place code
  // ---------------------------------------------------------------------------------------------

  method CheckLabels(g: seq<DiscoveredPlan>) returns (r: Option<OrderError>)
    ensures r == LabelError(g)
    ensures r.None? ==> LabelsAcceptable(g)
    ensures r.Some? ==> exists k: nat, i: nat :: FirstBad(g, k, i) && r.value == BadLabelError(g, k, i)
  {
    if LabelError(g).Some? {
      ghost var k, i := LabelErrorIsFirst(g);
    }
    for k := 0 to |g|
      invariant LabelError(g) == LabelError(g[k..])
    {
      var entry := g[k];
      var labels := entry.plan.dependsOn;
      for m := 0 to |labels|
        invariant FirstBadLabel(labels) == FirstBadLabel(labels[m..])
      {
        assert labels[m..][0] == labels[m] && labels[m..][1..] == labels[m + 1..];
        if !IsAcceptableLabel(labels[m]) {
          assert g[k..][0] == entry;
          return Some(InvalidDependsOn(entry.bucket.database, entry.bucket.app, labels[m]));
        }
      }
      assert labels[|labels|..] == [];
      assert g[k..][0] == entry && g[k..][1..] == g[k + 1..];
    }
    assert g[|g|..] == [];
    r := None;
  }

  method BuildAppIndex(g: seq<DiscoveredPlan>) returns (index: map<string, nat>)
    ensures index == AppIndex(g)
  {
    index := map[];
    for k := 0 to |g|
      invariant index == AppIndex(g[..k])
    {
      assert g[..k + 1][..k] == g[..k];
      index := index[g[k].bucket.app := k];
    }
    assert g[..|g|] == g;
  }

  /** The graph while plan k has had its first m labels counted. */
  ghost function Counted(g: seq<DiscoveredPlan>, k: nat, m: nat): (deps: seq<seq<nat>>)
    requires k <= |g| && (k < |g| ==> m <= |g[k].plan.dependsOn|)
    ensures |deps| == |g|
    ensures forall i :: 0 <= i < |g| ==> deps[i] == CountedAt(g, k, m, i)
  {
    seq(|g|, i requires 0 <= i < |g| => CountedAt(g, k, m, i))
  }

  ghost function CountedAt(g: seq<DiscoveredPlan>, k: nat, m: nat, i: nat): seq<nat>
    requires i < |g| && k <= |g| && (k < |g| ==> m <= |g[k].plan.dependsOn|)
  {
    if i < k then DependencyGraph(g)[i]
    else if i == k then Resolve(AppIndex(g), k, g[k].plan.dependsOn[..m])
    else []
  }

  lemma CountedStep(g: seq<DiscoveredPlan>, k: nat, m: nat)
    requires k < |g| && m < |g[k].plan.dependsOn|
    ensures var dep := g[k].plan.dependsOn[m];
      if dep in AppIndex(g) && AppIndex(g)[dep] != k
      then Counted(g, k, m + 1) == Counted(g, k, m)[k := Counted(g, k, m)[k] + [AppIndex(g)[dep]]]
      else Counted(g, k, m + 1) == Counted(g, k, m)
  {
    var labels := g[k].plan.dependsOn;
    assert labels[..m + 1][..m] == labels[..m];
    assert forall i :: 0 <= i < |g| && i != k ==> CountedAt(g, k, m + 1, i) == CountedAt(g, k, m, i);
  }

  lemma CountedNext(g: seq<DiscoveredPlan>, k: nat)
    requires k < |g|
    ensures Counted(g, k, |g[k].plan.dependsOn|) == Counted(g, k + 1, 0)
  {
    var labels := g[k].plan.dependsOn;
    forall i | 0 <= i < |g| ensures CountedAt(g, k, |labels|, i) == CountedAt(g, k + 1, 0, i) {
      assert labels[..|labels|] == labels;
    }
  }

  lemma NothingCounted(g: seq<DiscoveredPlan>)
    ensures forall i :: 0 <= i < |g| ==> Counted(g, 0, 0)[i] == []
  {
  }

  /** One more edge: node k also waits for d. */
  lemma ReversedEdge(deps: seq<seq<nat>>, reverse: seq<seq<nat>>, k: nat, d: nat)
    requires Reversed(deps, reverse) && k < |deps| && d < |deps|
    ensures Reversed(deps[k := deps[k] + [d]], reverse[d := reverse[d] + [k]])
  {
  }

  /** The counters and reverse lists while plan k has had its first m labels counted. */
  ghost predicate Tallied(g: seq<DiscoveredPlan>, k: nat, m: nat, degrees: seq<nat>, reverse: seq<seq<nat>>)
    requires k <= |g| && (k < |g| ==> m <= |g[k].plan.dependsOn|)
  {
    && |degrees| == |g| && Reversed(Counted(g, k, m), reverse)
    && (forall i :: 0 <= i < |g| ==> degrees[i] == |Counted(g, k, m)[i]|)
  }

  lemma TallyStep(g: seq<DiscoveredPlan>, k: nat, m: nat, degrees: seq<nat>, reverse: seq<seq<nat>>)
    requires k < |g| && m < |g[k].plan.dependsOn| && Tallied(g, k, m, degrees, reverse)
    ensures var dep := g[k].plan.dependsOn[m];
      if dep in AppIndex(g) && AppIndex(g)[dep] != k
      then Tallied(g, k, m + 1, degrees[k := degrees[k] + 1],
                   reverse[AppIndex(g)[dep] := reverse[AppIndex(g)[dep]] + [k]])
      else Tallied(g, k, m + 1, degrees, reverse)
  {
    var dep := g[k].plan.dependsOn[m];
    CountedStep(g, k, m);
    if dep in AppIndex(g) && AppIndex(g)[dep] != k {
      ReversedEdge(Counted(g, k, m), reverse, k, AppIndex(g)[dep]);
    }
  }

  /** The inner loop, over the labels of plan k. */
  method CountLabels(g: seq<DiscoveredPlan>, k: nat, index: map<string, nat>,
                     inDegree: array<nat>, reverse: array<seq<nat>>)
    requires k < |g| && index == AppIndex(g)
    requires Tallied(g, k, 0, inDegree[..], reverse[..])
    modifies inDegree, reverse
    ensures Tallied(g, k + 1, 0, inDegree[..], reverse[..])
  {
    var labels := g[k].plan.dependsOn;
    for m := 0 to |labels|
      invariant Tallied(g, k, m, inDegree[..], reverse[..])
    {
      TallyStep(g, k, m, inDegree[..], reverse[..]);
      if labels[m] in index {
        var d := index[labels[m]];
        if d != k {
          inDegree[k] := inDegree[k] + 1;
          reverse[d] := reverse[d] + [k];
        }
      }
    }
    CountedNext(g, k);
  }

  /** `in_degree` and `reverse`: every counted dependency raises one counter and enters one reverse list. */
  method CountDegrees(g: seq<DiscoveredPlan>) returns (inDegree: array<nat>, reverse: array<seq<nat>>)
    ensures fresh(inDegree) && fresh(reverse) && inDegree.Length == reverse.Length == |g|
    ensures Reversed(DependencyGraph(g), reverse[..])
    ensures forall k :: 0 <= k < |g| ==> inDegree[k] == |DependencyGraph(g)[k]|
  {
    inDegree := new nat[|g|](_ => 0);
    reverse := new seq<nat>[|g|](_ => []);
    var index := BuildAppIndex(g);
    NothingCounted(g);
    for k := 0 to |g|
      invariant Tallied(g, k, 0, inDegree[..], reverse[..])
    {
      CountLabels(g, k, index, inDegree, reverse);
    }
    assert Counted(g, |g|, 0) == DependencyGraph(g);
  }

  lemma OneMoreLeftOut(g: seq<DiscoveredPlan>, ordered: seq<nat>, k: nat)
    requires k < |g|
    ensures LeftOutApps(g, ordered, k + 1)
            == LeftOutApps(g, ordered, k) + if k in ordered then [] else [g[k].bucket.app]
  {
  }

  method CollectLeftOut(g: seq<DiscoveredPlan>, ghost ordered: seq<nat>, inDegree: array<nat>)
    returns (chain: seq<string>)
    requires inDegree.Length == |g| && forall k :: 0 <= k < |g| ==> (inDegree[k] > 0 <==> k !in ordered)
    ensures chain == LeftOutApps(g, ordered, |g|)
  {
    chain := [];
    for k := 0 to |g|
      invariant chain == LeftOutApps(g, ordered, k)
    {
      hide LeftOutApps;
      OneMoreLeftOut(g, ordered, k);
      if inDegree[k] > 0 {
        chain := chain + [g[k].bucket.app];
      } else {
        NothingAdded(chain);
      }
    }
  }

  method ReorderGroup(g: seq<DiscoveredPlan>) returns (r: Result<seq<DiscoveredPlan>, OrderError>)
    requires |g| > 1 && LabelError(g).None?
    ensures r == OrderGroup(g)
  {
    var inDegree, reverse := CountDegrees(g);
    var ordered := Drain(DependencyGraph(g), reverse, inDegree);
    GreedyInRange(DependencyGraph(g));
    if |ordered| != |g| {
      var chain := CollectLeftOut(g, ordered, inDegree);
      return Err(DependencyCycle(g[0].bucket.database, g[0].plan.version, Sort(chain, StringLeq)));
    }
    var result := [];
    for k := 0 to |ordered|
      invariant result == Pick(g, ordered[..k])
    {
      assert Pick(g, ordered[..k + 1]) == Pick(g, ordered[..k]) + [g[ordered[k]]];
      result := result + [g[ordered[k]]];
    }
    assert ordered[..|ordered|] == ordered;
    r := Ok(result);
  }

  ghost function Prepended(done: seq<DiscoveredPlan>, r: Result<seq<DiscoveredPlan>, OrderError>)
    : Result<seq<DiscoveredPlan>, OrderError>
  {
    match r
    case Err(e) => Err(e)
    case Ok(rest) => Ok(done + rest)
  }

  lemma PrependTwice(a: seq<DiscoveredPlan>, b: seq<DiscoveredPlan>, r: Result<seq<DiscoveredPlan>, OrderError>)
    ensures Prepended(a, Prepended(b, r)) == Prepended(a + b, r)
    ensures Prepended([], r) == r
  {
    if r.Ok? {
      assert a + (b + r.value) == (a + b) + r.value;
      assert [] + r.value == r.value;
    }
  }

  lemma OrderGroupsUnfold(s: seq<DiscoveredPlan>)
    requires s != []
    ensures var e := RunEnd(s, 1);
      OrderGroups(s) == if OrderGroup(s[..e]).Err? then Err(OrderGroup(s[..e]).error)
                        else Prepended(OrderGroup(s[..e]).value, OrderGroups(s[e..]))
  {
  }

  method FindRunEnd(out: seq<DiscoveredPlan>, i: nat) returns (j: nat)
    requires i < |out|
    ensures j == i + RunEnd(out[i..], 1)
  {
    ghost var rest := out[i..];
    j := i + 1;
    while j < |out| && SameGroup(out[j], out[i])
      invariant i < j <= |out|
      invariant RunEnd(rest, 1) == RunEnd(rest, j - i)
    {
      assert rest[j - i] == out[j];
      j := j + 1;
    }
    assert j < |out| ==> rest[j - i] == out[j];
  }

  method ProcessGroup(group: seq<DiscoveredPlan>) returns (r: Result<seq<DiscoveredPlan>, OrderError>)
    requires group != []
    ensures r == OrderGroup(group)
  {
    var labelError := CheckLabels(group);
    if labelError.Some? {
      return Err(labelError.value);
    }
    if |group| <= 1 {
      return Ok(group);
    }
    r := ReorderGroup(group);
  }

  method OrderPendingGroupsByDependencies(out: seq<DiscoveredPlan>)
    returns (r: Result<seq<DiscoveredPlan>, OrderError>)
    ensures r == OrderGroups(out)
  {
    var result: seq<DiscoveredPlan> := [];
    var i := 0;
    assert out[0..] == out;
    PrependTwice([], [], OrderGroups(out));
    while i < |out|
      invariant i <= |out|
      invariant OrderGroups(out) == Prepended(result, OrderGroups(out[i..]))
    {
      var j := FindRunEnd(out, i);
      ghost var rest := out[i..];
      assert rest[..j - i] == out[i..j] && rest[j - i..] == out[j..];
      OrderGroupsUnfold(rest);
      var ordered := ProcessGroup(out[i..j]);
      if ordered.Err? {
        return Err(ordered.error);
      }
      PrependTwice(result, ordered.value, OrderGroups(out[j..]));
      result := result + ordered.value;
      i := j;
    }
    assert out[i..] == [] && result + [] == result;
    r := Ok(result);
  }
}
