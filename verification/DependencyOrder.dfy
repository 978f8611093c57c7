/** Kahn's algorithm with a least-first ready set, as `order_pending_groups_by_dependencies` runs it on one
    group of pending plans. Nodes are positions in the group; `deps[k]` lists, with repetitions, the
    positions that node k waits for. */
module DependencyOrder {
  import opened Concatenation

  predicate IsGraph(deps: seq<seq<nat>>) {
    forall k, d :: 0 <= k < |deps| && d in deps[k] ==> d < |deps| && d != k
  }

  // ---------------------------------------------------------------------------------------------
  // Reference definitions: topological orders, cycles, the lexicographic order on index lists
  // ---------------------------------------------------------------------------------------------

  /** Every dependency of the node at position i stands before position i. */
  ghost predicate DependenciesFirst(deps: seq<seq<nat>>, order: seq<nat>) {
    forall i :: 0 <= i < |order| ==>
      order[i] < |deps| && (forall d :: d in deps[order[i]] ==> d in order[..i])
  }

  ghost predicate TopologicalOrder(deps: seq<seq<nat>>, order: seq<nat>) {
    && Distinct(order)
    && DependenciesFirst(deps, order)
    && (forall k: nat :: k < |deps| ==> k in order)
  }

  /** a comes before b in dictionary order, or is b. */
  ghost predicate LexAtMost(a: seq<nat>, b: seq<nat>) {
    a == b || exists i :: 0 <= i < |a| && i < |b| && a[..i] == b[..i] && a[i] < b[i]
  }

  /** Each node of the walk waits for the next one. */
  ghost predicate Walk(deps: seq<seq<nat>>, w: seq<nat>) {
    && (forall i :: 0 <= i < |w| ==> w[i] < |deps|)
    && (forall i :: 0 <= i < |w| - 1 ==> w[i + 1] in deps[w[i]])
  }

  ghost predicate Cycle(deps: seq<seq<nat>>, c: seq<nat>) {
    |c| >= 2 && Distinct(c) && Walk(deps, c) && c[0] in deps[c[|c| - 1]]
  }

  ghost predicate HasCycle(deps: seq<seq<nat>>) {
    exists c :: Cycle(deps, c)
  }

  ghost predicate LeadsInto(deps: seq<seq<nat>>, k: nat, w: seq<nat>, c: seq<nat>) {
    w != [] && w[0] == k && Walk(deps, w) && Cycle(deps, c) && w[|w| - 1] in c
  }

  /** k lies on a cycle, or depends on one through some chain of dependencies. */
  ghost predicate OnOrAboveCycle(deps: seq<seq<nat>>, k: nat) {
    exists w, c :: LeadsInto(deps, k, w, c)
  }

  // ---------------------------------------------------------------------------------------------
  // The greedy run
  // ---------------------------------------------------------------------------------------------

  predicate Ready(deps: seq<seq<nat>>, done: seq<nat>, k: nat) {
    k < |deps| && k !in done && forall d :: d in deps[k] ==> d in done
  }

  /** The least ready node from `from` on, or |deps| when there is none. */
  function FirstReady(deps: seq<seq<nat>>, done: seq<nat>, from: nat): (k: nat)
    requires from <= |deps|
    ensures from <= k <= |deps|
    ensures k < |deps| ==> Ready(deps, done, k)
    ensures forall j: nat :: from <= j < k ==> !Ready(deps, done, j)
    decreases |deps| - from
  {
    if from == |deps| || Ready(deps, done, from) then from else FirstReady(deps, done, from + 1)
  }

  ghost function Unfinished(deps: seq<seq<nat>>, done: seq<nat>): set<nat> {
    set k | 0 <= k < |deps| && k !in done
  }

  /** Extend `done` by the least ready node until no node is ready. */
  ghost function Greedy(deps: seq<seq<nat>>, done: seq<nat>): (r: seq<nat>)
    ensures done <= r
    decreases Unfinished(deps, done)
  {
    var k := FirstReady(deps, done, 0);
    if k == |deps| then done
    else
      assert k in Unfinished(deps, done) && k !in Unfinished(deps, done + [k]);
      Greedy(deps, done + [k])
  }

  /** Each element was the least ready node when it was taken. */
  ghost predicate LeastReadySteps(deps: seq<seq<nat>>, r: seq<nat>) {
    forall i :: 0 <= i < |r| ==> r[i] < |deps| && FirstReady(deps, r[..i], 0) == r[i]
  }

  lemma {:induction false} GreedyIsMaximal(deps: seq<seq<nat>>, done: seq<nat>)
    requires LeastReadySteps(deps, done)
    ensures LeastReadySteps(deps, Greedy(deps, done))
    ensures forall k :: !Ready(deps, Greedy(deps, done), k)
    decreases Unfinished(deps, done)
  {
    var k := FirstReady(deps, done, 0);
    if k < |deps| {
      assert k in Unfinished(deps, done) && k !in Unfinished(deps, done + [k]);
      StepsExtend(deps, done, k);
      GreedyIsMaximal(deps, done + [k]);
    }
  }

  lemma StepsAreConsistent(deps: seq<seq<nat>>, r: seq<nat>)
    requires LeastReadySteps(deps, r)
    ensures Distinct(r) && DependenciesFirst(deps, r)
  {
  }

  /** A node whose dependencies are all taken is taken too. */
  lemma ReleasedByEmitted(deps: seq<seq<nat>>, k: nat)
    requires k < |deps| && forall d :: d in deps[k] ==> d in Greedy(deps, [])
    ensures k in Greedy(deps, [])
  {
    GreedyIsMaximal(deps, []);
    assert !Ready(deps, Greedy(deps, []), k);
  }

  // ---------------------------------------------------------------------------------------------
  // Optimality
  // ---------------------------------------------------------------------------------------------

  ghost function Elements(s: seq<nat>): set<nat> {
    set k | k in s
  }

  lemma SameLength(deps: seq<seq<nat>>, r: seq<nat>, t: seq<nat>)
    requires Distinct(r) && Distinct(t)
    requires forall k :: k in r <==> k in t
    ensures |r| == |t|
  {
    DistinctCount(r);
    DistinctCount(t);
    assert Elements(r) == Elements(t);
  }

  lemma {:induction false} LeastFrom(deps: seq<seq<nat>>, r: seq<nat>, t: seq<nat>, i: nat)
    requires LeastReadySteps(deps, r) && DependenciesFirst(deps, t) && Distinct(t)
    requires |r| == |t| && i <= |r| && r[..i] == t[..i]
    ensures LexAtMost(r, t)
    decreases |r| - i
  {
    if i == |r| {
      assert r[..i] == r && t[..i] == t;
    } else {
      assert t[i] !in t[..i];
      assert FirstReady(deps, r[..i], 0) == r[i];
      assert Ready(deps, r[..i], t[i]);
      assert r[i] <= t[i];
      if r[i] == t[i] {
        assert r[..i + 1] == r[..i] + [r[i]] && t[..i + 1] == t[..i] + [t[i]];
        LeastFrom(deps, r, t, i + 1);
      }
    }
  }

  /** A graph with a topological order leaves no node out. */
  lemma TopologicalOrderUnblocks(deps: seq<seq<nat>>, t: seq<nat>)
    requires IsGraph(deps) && TopologicalOrder(deps, t)
    ensures forall k: nat :: k < |deps| ==> k in Greedy(deps, [])
  {
    FirstOutsideUnblocks(deps, t, |t|);
    forall k: nat | k < |deps| ensures k in Greedy(deps, []) {
      assert t[..|t|] == t && k in t;
    }
  }

  lemma {:induction false} FirstOutsideUnblocks(deps: seq<seq<nat>>, t: seq<nat>, i: nat)
    requires IsGraph(deps) && DependenciesFirst(deps, t) && i <= |t|
    ensures forall k :: k in t[..i] ==> k in Greedy(deps, [])
  {
    if i > 0 {
      FirstOutsideUnblocks(deps, t, i - 1);
      assert t[..i] == t[..i - 1] + [t[i - 1]];
      ReleasedByEmitted(deps, t[i - 1]);
    }
  }

  /** When no node is left out the run is a topological order, and it is the lexicographically least one. */
  lemma GreedyIsLeastTopologicalOrder(deps: seq<seq<nat>>)
    requires IsGraph(deps) && forall k: nat :: k < |deps| ==> k in Greedy(deps, [])
    ensures TopologicalOrder(deps, Greedy(deps, []))
    ensures forall t :: TopologicalOrder(deps, t) ==> LexAtMost(Greedy(deps, []), t)
  {
    var r := Greedy(deps, []);
    GreedyIsMaximal(deps, []);
    StepsAreConsistent(deps, r);
    forall t | TopologicalOrder(deps, t) ensures LexAtMost(r, t) {
      SameLength(deps, r, t);
      LeastFrom(deps, r, t, 0);
    }
  }

  // ---------------------------------------------------------------------------------------------
  // Completeness of the cycle report
  // ---------------------------------------------------------------------------------------------

  lemma {:induction false} CycleStaysBlocked(deps: seq<seq<nat>>, c: seq<nat>, r: seq<nat>)
    requires Cycle(deps, c) && DependenciesFirst(deps, r)
    ensures forall k :: k in c ==> k !in r
  {
    if r != [] {
      var n := |r| - 1;
      assert r == r[..n] + [r[n]];
      forall i | 0 <= i < |r[..n]|
        ensures r[..n][i] < |deps| && forall d :: d in deps[r[..n][i]] ==> d in r[..n][..i]
      {
        assert r[..n][..i] == r[..i];
      }
      CycleStaysBlocked(deps, c, r[..n]);
      forall i | 0 <= i < |c| ensures c[i] != r[n] {
        var d := if i == |c| - 1 then c[0] else c[i + 1];
        assert d in deps[c[i]] && d in c;
      }
    }
  }

  lemma {:induction false} WalkStaysBlocked(deps: seq<seq<nat>>, w: seq<nat>, r: seq<nat>)
    requires w != [] && Walk(deps, w) && DependenciesFirst(deps, r) && w[|w| - 1] !in r
    ensures w[0] !in r
  {
    if |w| > 1 {
      WalkStaysBlocked(deps, w[1..], r);
      assert w[1] in deps[w[0]];
      assert forall i :: 0 <= i < |r| && w[1] in deps[r[i]] ==> w[1] in r[..i];
    }
  }

  lemma CloseCycle(deps: seq<seq<nat>>, w: seq<nat>, i: nat)
    requires IsGraph(deps) && Distinct(w) && Walk(deps, w) && i < |w| && w[i] in deps[w[|w| - 1]]
    ensures LeadsInto(deps, w[0], w[..i + 1], w[i..])
  {
  }

  /** Follow blocked dependencies from w until a node repeats. */
  lemma {:induction false} ChaseBlocked(deps: seq<seq<nat>>, w: seq<nat>) returns (path: seq<nat>, c: seq<nat>)
    requires IsGraph(deps) && w != [] && Distinct(w) && Walk(deps, w)
    requires forall k :: k in w ==> k !in Greedy(deps, [])
    ensures LeadsInto(deps, w[0], path, c)
    decreases Unfinished(deps, w)
  {
    var last := w[|w| - 1];
    if forall d :: d in deps[last] ==> d in Greedy(deps, []) {
      ReleasedByEmitted(deps, last);
      assert false;
    }
    var d :| d in deps[last] && d !in Greedy(deps, []);
    if d in w {
      var i :| 0 <= i < |w| && w[i] == d;
      path, c := w[..i + 1], w[i..];
      CloseCycle(deps, w, i);
    } else {
      assert d in Unfinished(deps, w) && d !in Unfinished(deps, w + [d]);
      var w' := w + [d];
      assert forall i :: 0 <= i < |w'| - 1 ==> w'[i + 1] in deps[w'[i]];
      path, c := ChaseBlocked(deps, w');
    }
  }

  /** The nodes left out are exactly those on, or transitively depending on, a cycle. */
  lemma BlockedIffOnOrAboveCycle(deps: seq<seq<nat>>, k: nat)
    requires IsGraph(deps) && k < |deps|
    ensures k !in Greedy(deps, []) <==> OnOrAboveCycle(deps, k)
  {
    GreedyIsMaximal(deps, []);
    StepsAreConsistent(deps, Greedy(deps, []));
    if k !in Greedy(deps, []) {
      var w, c := ChaseBlocked(deps, [k]);
      assert LeadsInto(deps, k, w, c);
    }
    if OnOrAboveCycle(deps, k) {
      var w, c :| LeadsInto(deps, k, w, c);
      CycleStaysBlocked(deps, c, Greedy(deps, []));
      WalkStaysBlocked(deps, w, Greedy(deps, []));
    }
  }

  /** Some node is left out exactly when the graph has a cycle of two or more nodes. */
  lemma IncompleteIffCyclic(deps: seq<seq<nat>>)
    requires IsGraph(deps)
    ensures (exists k: nat :: k < |deps| && k !in Greedy(deps, [])) <==> HasCycle(deps)
  {
    if k: nat :| k < |deps| && k !in Greedy(deps, []) {
      var w, c := ChaseBlocked(deps, [k]);
    }
    if HasCycle(deps) {
      var c :| Cycle(deps, c);
      GreedyIsMaximal(deps, []);
      StepsAreConsistent(deps, Greedy(deps, []));
      CycleStaysBlocked(deps, c, Greedy(deps, []));
      assert c[0] in c && c[0] < |deps|;
    }
  }

  /** `ordered.len() != group_len` is the same test as "some node was left out". */
  lemma FullLengthIffAllEmitted(deps: seq<seq<nat>>)
    ensures |Greedy(deps, [])| == |deps| <==> forall k: nat :: k < |deps| ==> k in Greedy(deps, [])
  {
    var r := Greedy(deps, []);
    GreedyIsMaximal(deps, []);
    StepsAreConsistent(deps, r);
    DistinctCount(r);
    var emitted, all := Elements(r), Unfinished(deps, []);
    NodeCount(deps, |deps|);
    assert emitted <= all;
    if |r| == |deps| {
      SameSizeSubset(emitted, all);
      forall k: nat | k < |deps| ensures k in r { assert k in all; }
    }
    if forall k: nat :: k < |deps| ==> k in r {
      assert forall k :: k in all ==> k in emitted;
      assert emitted == all;
    }
  }

  lemma {:induction false} DistinctCount(s: seq<nat>)
    requires Distinct(s)
    ensures |Elements(s)| == |s|
  {
    if s == [] {
      assert Elements(s) == {};
    } else {
      var n := |s| - 1;
      DistinctCount(s[..n]);
      assert s == s[..n] + [s[n]] && s[n] !in s[..n];
      assert Elements(s) == Elements(s[..n]) + {s[n]};
    }
  }

  lemma {:induction false} NodeCount(deps: seq<seq<nat>>, n: nat)
    requires n <= |deps|
    ensures |set k | k in Unfinished(deps, []) && k < n| == n
    ensures n == |deps| ==> |Unfinished(deps, [])| == n
  {
    var below := set k | k in Unfinished(deps, []) && k < n;
    if n == 0 {
      assert below == {};
    } else {
      NodeCount(deps, n - 1);
      assert below == (set k | k in Unfinished(deps, []) && k < n - 1) + {n - 1};
    }
    if n == |deps| {
      assert below == Unfinished(deps, []);
    }
  }

  lemma SameSizeSubset(a: set<nat>, b: set<nat>)
    requires a <= b && |a| == |b|
    ensures a == b
  {
    assert b == a + (b - a);
    assert |b - a| == 0;
  }

  ghost predicate IsIdentity(n: nat, r: seq<nat>) {
    |r| == n && forall i :: 0 <= i < n ==> r[i] == i
  }

  lemma IdentityElements(n: nat, r: seq<nat>)
    requires IsIdentity(n, r)
    ensures forall k: nat :: k in r <==> k < n
  {
    forall k: nat | k < n ensures k in r { assert r[k] == k; }
  }

  lemma {:induction false} IdentityPrefix(deps: seq<seq<nat>>, r: seq<nat>, i: nat)
    requires forall k, d :: 0 <= k < |deps| && d in deps[k] ==> d < k
    requires LeastReadySteps(deps, r) && i <= |r|
    ensures IsIdentity(i, r[..i])
  {
    if i > 0 {
      var done := r[..i - 1];
      IdentityPrefix(deps, r, i - 1);
      StepsAreConsistent(deps, r);
      assert r[..i] == done + [r[i - 1]];
      IdentityElements(i - 1, done);
      assert FirstReady(deps, done, 0) == r[i - 1] && Ready(deps, done, r[i - 1]);
      assert Ready(deps, done, i - 1);
      assert r[i - 1] == i - 1;
    }
  }

  /** When the positions 0, 1, 2, ... already form a topological order, the run reproduces them. */
  lemma IdentityIsKept(deps: seq<seq<nat>>)
    requires forall k, d :: 0 <= k < |deps| && d in deps[k] ==> d < k
    ensures IsIdentity(|deps|, Greedy(deps, []))
  {
    var r := Greedy(deps, []);
    GreedyIsMaximal(deps, []);
    IdentityPrefix(deps, r, |r|);
    assert r[..|r|] == r;
    IdentityElements(|r|, r);
    assert |r| < |deps| ==> Ready(deps, r, |r|);
    assert r != [] ==> r[|r| - 1] < |deps|;
  }

  // ---------------------------------------------------------------------------------------------
  // The in-place run
  // ---------------------------------------------------------------------------------------------

  /** How many entries of ds are not yet in `done`: the in-degree that is left. */
  function Waiting(ds: seq<nat>, done: seq<nat>): nat {
    if ds == [] then 0 else (if ds[0] in done then 0 else 1) + Waiting(ds[1..], done)
  }

  lemma {:induction false} WaitingAfter(ds: seq<nat>, done: seq<nat>, x: nat)
    requires x !in done
    ensures Waiting(ds, done) == Waiting(ds, done + [x]) + multiset(ds)[x]
  {
    if ds != [] {
      WaitingAfter(ds[1..], done, x);
      assert ds == [ds[0]] + ds[1..];
    }
  }

  lemma {:induction false} WaitingNothing(ds: seq<nat>, done: seq<nat>)
    ensures Waiting(ds, done) == 0 <==> forall d :: d in ds ==> d in done
  {
    if ds != [] {
      WaitingNothing(ds[1..], done);
      assert ds == [ds[0]] + ds[1..];
    }
  }

  lemma {:induction false} WaitingFromStart(ds: seq<nat>)
    ensures Waiting(ds, []) == |ds|
  {
    if ds != [] { WaitingFromStart(ds[1..]); }
  }

  lemma {:induction false} LeastExists(s: set<nat>) returns (k: nat)
    requires s != {}
    ensures k in s && forall j :: j in s ==> k <= j
  {
    var x :| x in s;
    var rest := s - {x};
    k := x;
    if rest != {} {
      var least := LeastExists(rest);
      k := if x < least then x else least;
    }
    forall j | j in s ensures k <= j {
      assert j == x || j in rest;
    }
  }

  /** Every dependency list agrees with the reverse lists, counting repetitions. */
  ghost predicate Reversed(deps: seq<seq<nat>>, reverse: seq<seq<nat>>) {
    && |reverse| == |deps|
    && (forall d, k :: 0 <= d < |deps| && k in reverse[d] ==> k < |deps|)
    && (forall d, k :: 0 <= d < |deps| && 0 <= k < |deps| ==> multiset(reverse[d])[k] == multiset(deps[k])[d])
  }

  ghost function ReadySet(deps: seq<seq<nat>>, done: seq<nat>): set<nat> {
    set k | 0 <= k < |deps| && Ready(deps, done, k)
  }

  ghost predicate Closed(deps: seq<seq<nat>>, done: seq<nat>) {
    forall k :: k in done ==> k < |deps| && forall d :: d in deps[k] ==> d in done
  }

  /** The counters and the ready set after `released` of the dependents of idx have been counted down. */
  ghost predicate Releasing(deps: seq<seq<nat>>, before: seq<nat>, idx: nat, released: seq<nat>,
                            degrees: seq<int>, ready: set<nat>)
  {
    && |degrees| == |deps|
    && (forall k :: 0 <= k < |deps| ==> degrees[k] == Waiting(deps[k], before) - multiset(released)[k])
    && (forall k :: k in ready <==> 0 <= k < |deps| && k !in before + [idx] && degrees[k] == 0)
  }

  lemma ReleaseStep(deps: seq<seq<nat>>, before: seq<nat>, idx: nat, dependents: seq<nat>, m: nat,
                    degrees: seq<int>, ready: set<nat>)
    requires Closed(deps, before) && Ready(deps, before, idx)
    requires m < |dependents| && dependents[m] < |deps|
    requires multiset(dependents)[dependents[m]] == multiset(deps[dependents[m]])[idx]
    requires Releasing(deps, before, idx, dependents[..m], degrees, ready)
    ensures degrees[dependents[m]] > 0
    ensures var k := dependents[m];
      Releasing(deps, before, idx, dependents[..m + 1], degrees[k := degrees[k] - 1],
                if degrees[k] == 1 then ready + {k} else ready)
  {
    var k := dependents[m];
    assert dependents[..m + 1] == dependents[..m] + [k];
    assert dependents == dependents[..m + 1] + dependents[m + 1..];
    assert multiset(dependents)[k] >= multiset(dependents[..m + 1])[k] > 0;
    WaitingAfter(deps[k], before, idx);
    WaitingNothing(deps[k], before);
    assert idx in deps[k];
  }

  lemma ReleaseDone(deps: seq<seq<nat>>, before: seq<nat>, idx: nat, dependents: seq<nat>,
                    degrees: seq<int>, ready: set<nat>)
    requires idx !in before
    requires forall k :: 0 <= k < |deps| ==> multiset(dependents)[k] == multiset(deps[k])[idx]
    requires Releasing(deps, before, idx, dependents, degrees, ready)
    ensures forall k :: 0 <= k < |deps| ==> degrees[k] == Waiting(deps[k], before + [idx])
    ensures ready == ReadySet(deps, before + [idx])
  {
    forall k | 0 <= k < |deps|
      ensures degrees[k] == Waiting(deps[k], before + [idx])
      ensures k in ready <==> Ready(deps, before + [idx], k)
    {
      WaitingAfter(deps[k], before, idx);
      WaitingNothing(deps[k], before + [idx]);
    }
  }

  lemma ReleaseStart(deps: seq<seq<nat>>, before: seq<nat>, idx: nat, degrees: seq<int>)
    requires |degrees| == |deps| && forall k :: 0 <= k < |deps| ==> degrees[k] == Waiting(deps[k], before)
    ensures Releasing(deps, before, idx, [], degrees, ReadySet(deps, before) - {idx})
  {
    forall k | 0 <= k < |deps|
      ensures Waiting(deps[k], before) == 0 <==> forall d :: d in deps[k] ==> d in before
    {
      WaitingNothing(deps[k], before);
    }
  }

  /** Release the dependents of `idx`: `in_degree[dependent] -= 1`, then into the ready set at zero.
      That the subtraction never goes below zero is part of what is proved here. */
  method Release(ghost deps: seq<seq<nat>>, dependents: seq<nat>, inDegree: array<nat>,
                 ghost before: seq<nat>, idx: nat, ready: set<nat>) returns (ready': set<nat>)
    requires Closed(deps, before) && Ready(deps, before, idx) && ready == ReadySet(deps, before) - {idx}
    requires forall k :: k in dependents ==> k < |deps|
    requires forall k :: 0 <= k < |deps| ==> multiset(dependents)[k] == multiset(deps[k])[idx]
    requires inDegree.Length == |deps|
    requires forall k :: 0 <= k < |deps| ==> inDegree[k] == Waiting(deps[k], before)
    modifies inDegree
    ensures forall k :: 0 <= k < |deps| ==> inDegree[k] == Waiting(deps[k], before + [idx])
    ensures ready' == ReadySet(deps, before + [idx])
  {
    ready' := ready;
    ReleaseStart(deps, before, idx, inDegree[..]);
    for m := 0 to |dependents|
      invariant Releasing(deps, before, idx, dependents[..m], inDegree[..], ready')
    {
      var dependent := dependents[m];
      assert dependent in dependents;
      ReleaseStep(deps, before, idx, dependents, m, inDegree[..], ready');
      inDegree[dependent] := inDegree[dependent] - 1;
      if inDegree[dependent] == 0 {
        ready' := ready' + {dependent};
      }
    }
    assert dependents[..|dependents|] == dependents;
    ReleaseDone(deps, before, idx, dependents, inDegree[..], ready');
  }

  /** The drain loop. On return `inDegree` holds what is still missing, so the nodes left out are exactly
      those with a positive count. */
  method Drain(ghost deps: seq<seq<nat>>, reverse: array<seq<nat>>, inDegree: array<nat>) returns (ordered: seq<nat>)
    requires IsGraph(deps) && inDegree.Length == reverse.Length == |deps| && Reversed(deps, reverse[..])
    requires forall k :: 0 <= k < |deps| ==> inDegree[k] == |deps[k]|
    modifies inDegree
    ensures ordered == Greedy(deps, [])
    ensures forall k :: 0 <= k < |deps| ==> (inDegree[k] > 0 <==> k !in ordered)
  {
    forall k | 0 <= k < |deps| ensures inDegree[k] == Waiting(deps[k], []) {
      WaitingFromStart(deps[k]);
    }
    var ready := set k | 0 <= k < inDegree.Length && inDegree[k] == 0;
    InitialReady(deps, inDegree[..]);
    ordered := [];
    while ready != {}
      invariant Greedy(deps, []) == Greedy(deps, ordered) && LeastReadySteps(deps, ordered)
      invariant forall k :: 0 <= k < |deps| ==> inDegree[k] == Waiting(deps[k], ordered)
      invariant ready == ReadySet(deps, ordered)
      decreases Unfinished(deps, ordered)
    {
      ghost var least := LeastExists(ready);
      var idx :| idx in ready && forall j :: j in ready ==> idx <= j;
      LeastOfReadySet(deps, ordered, idx);
      EmittedIsClosed(deps, ordered);
      assert idx in Unfinished(deps, ordered) && idx !in Unfinished(deps, ordered + [idx]);
      assert reverse[..][idx] == reverse[idx];
      ready := Release(deps, reverse[idx], inDegree, ordered, idx, ready - {idx});
      StepsExtend(deps, ordered, idx);
      ordered := ordered + [idx];
    }
    NothingReady(deps, ordered);
    forall k | 0 <= k < |deps| ensures inDegree[k] > 0 <==> k !in ordered {
      WaitingNothing(deps[k], ordered);
      EmittedIsClosed(deps, ordered);
      assert k !in ReadySet(deps, ordered);
    }
  }

  lemma InitialReady(deps: seq<seq<nat>>, degrees: seq<nat>)
    requires |degrees| == |deps| && forall k :: 0 <= k < |deps| ==> degrees[k] == |deps[k]|
    ensures ReadySet(deps, []) == set k | 0 <= k < |degrees| && degrees[k] == 0
  {
    forall k | 0 <= k < |deps| ensures Ready(deps, [], k) <==> degrees[k] == 0 {
      if degrees[k] > 0 { assert deps[k][0] in deps[k]; }
    }
  }

  lemma LeastOfReadySet(deps: seq<seq<nat>>, done: seq<nat>, idx: nat)
    requires idx in ReadySet(deps, done) && forall j :: j in ReadySet(deps, done) ==> idx <= j
    ensures FirstReady(deps, done, 0) == idx
    ensures Greedy(deps, done) == Greedy(deps, done + [idx])
  {
    var k := FirstReady(deps, done, 0);
    assert k < |deps| ==> k in ReadySet(deps, done);
  }

  lemma NothingReady(deps: seq<seq<nat>>, done: seq<nat>)
    requires ReadySet(deps, done) == {}
    ensures Greedy(deps, done) == done
  {
    var k := FirstReady(deps, done, 0);
    assert k < |deps| ==> k in ReadySet(deps, done);
  }

  lemma StepsExtend(deps: seq<seq<nat>>, done: seq<nat>, idx: nat)
    requires LeastReadySteps(deps, done) && idx < |deps| && FirstReady(deps, done, 0) == idx
    ensures LeastReadySteps(deps, done + [idx])
  {
    var next := done + [idx];
    forall i | 0 <= i < |next| ensures next[i] < |deps| && FirstReady(deps, next[..i], 0) == next[i] {
      assert next[..i] == if i < |done| then done[..i] else done;
    }
  }

  lemma EmittedIsClosed(deps: seq<seq<nat>>, done: seq<nat>)
    requires LeastReadySteps(deps, done)
    ensures Closed(deps, done)
  {
  }
}
