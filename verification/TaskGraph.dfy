/** The prerequisite graph of the development plan, after `check_graph` in tools/validate_plan.py.
 *  Task identifiers are their positions in name order. */
module TaskGraph {
  import opened Prelude

  datatype Status = Ready | Done | Pending

  datatype Task = Task(status: Status, dependencies: seq<nat>)

  /** A dict of tasks: the identifiers in insertion order, and the task of each. */
  datatype Tasks = Tasks(order: seq<nat>, at: map<nat, Task>)

  datatype Error =
    | SelfDependency(id: nat)
    | MissingDependency(id: nat, required: nat)
    | UnfinishedDependency(id: nat, required: nat)
    | Cycle(blocked: seq<nat>)

  ghost predicate Valid(t: Tasks) {
    Distinct(t.order) && forall id: nat :: id in t.order <==> id in t.at
  }

  /** The tasks that `id` waits for; a missing one does not count, a task may wait for itself. */
  function Deps(t: Tasks, id: nat): set<nat>
    requires id in t.at
  {
    set d: nat | d in t.at[id].dependencies && d in t.at
  }

  // ---------------------------------------------------------------- the complaints about one task

  function EdgeErrors(t: Tasks, id: nat, required: nat): seq<Error>
    requires id in t.at
  {
    if required == id then [SelfDependency(id)]
    else if required !in t.at then [MissingDependency(id, required)]
    else if t.at[id].status != Pending && t.at[required].status != Done then [UnfinishedDependency(id, required)]
    else []
  }

  function TaskErrors(t: Tasks, id: nat, dependencies: seq<nat>): seq<Error>
    requires id in t.at
  {
    if dependencies == [] then []
    else EdgeErrors(t, id, dependencies[0]) + TaskErrors(t, id, dependencies[1..])
  }

  function LocalErrors(t: Tasks, order: seq<nat>): seq<Error>
    requires forall i :: 0 <= i < |order| ==> order[i] in t.at
  {
    if order == [] then []
    else TaskErrors(t, order[0], t.at[order[0]].dependencies) + LocalErrors(t, order[1..])
  }

  // ---------------------------------------------------------------- cycles

  /** Each task of the chain waits for the next. */
  ghost predicate Chain(t: Tasks, p: seq<nat>) {
    && p != []
    && (forall i :: 0 <= i < |p| ==> p[i] in t.at)
    && forall i :: 0 <= i < |p| - 1 ==> p[i + 1] in Deps(t, p[i])
  }

  ghost predicate IsCycle(t: Tasks, p: seq<nat>) {
    Chain(t, p) && |p| >= 2 && p[0] == p[|p| - 1]
  }

  ghost predicate HasCycle(t: Tasks) {
    exists p :: IsCycle(t, p)
  }

  /** A chain that ends in a task it has passed before. */
  ghost predicate Lasso(t: Tasks, p: seq<nat>) {
    Chain(t, p) && exists i :: 0 <= i < |p| - 1 && p[i] == p[|p| - 1]
  }

  /** `id` waits, directly or through others, for a cycle. */
  ghost predicate WaitsForCycle(t: Tasks, id: nat) {
    exists p :: Lasso(t, p) && p[0] == id
  }

  ghost function Blocked(t: Tasks): set<nat> {
    set id: nat | id in t.at && WaitsForCycle(t, id)
  }

  /** Some task waits for a cycle exactly when there is one. */
  lemma BlockedMeansCycle(t: Tasks)
    ensures Blocked(t) != {} <==> HasCycle(t)
  {
    if HasCycle(t) {
      var p :| IsCycle(t, p);
      assert Lasso(t, p) && p[0] in Blocked(t);
    }
    if Blocked(t) != {} {
      var id: nat :| id in Blocked(t);
      var p :| Lasso(t, p) && p[0] == id;
      var i :| 0 <= i < |p| - 1 && p[i] == p[|p| - 1];
      assert IsCycle(t, p[i..]);
    }
  }

  function Members(s: seq<nat>): set<nat> {
    set x: nat | x in s
  }

  ghost predicate WaitsWithin(t: Tasks, s: set<nat>, v: nat)
    requires v in t.at
  {
    exists w: nat :: w in Deps(t, v) && w in s
  }

  /** A set of tasks each of which waits for one of the set. */
  ghost predicate Stuck(t: Tasks, s: set<nat>) {
    forall v: nat :: v in s ==> v in t.at && WaitsWithin(t, s, v)
  }

  lemma {:induction false} DistinctBound(p: seq<nat>, s: set<nat>)
    requires Distinct(p) && forall i :: 0 <= i < |p| ==> p[i] in s
    ensures |p| <= |s|
  {
    if p != [] {
      var last := p[|p| - 1];
      assert forall i :: 0 <= i < |p| - 1 ==> p[..|p| - 1][i] == p[i] != last;
      DistinctBound(p[..|p| - 1], s - {last});
    }
  }

  ghost predicate Within(p: seq<nat>, s: set<nat>) {
    forall i :: 0 <= i < |p| ==> p[i] in s
  }

  /** Inside a stuck set every chain can be prolonged until it meets itself. */
  lemma {:induction false} StuckWaits(t: Tasks, s: set<nat>, p: seq<nat>)
    requires Stuck(t, s) && Chain(t, p) && Distinct(p) && Within(p, s)
    ensures p != [] && WaitsForCycle(t, p[0])
    decreases |s| - |p|
  {
    hide *;
    var w := StuckStep(t, s, p);
    ChainGrows(t, p, w);
    NoDoubt(p, w, s);
    if w in p {
      ChainCloses(t, p, w);
    } else {
      StuckWaits(t, s, p + [w]);
    }
  }

  lemma StuckStep(t: Tasks, s: set<nat>, p: seq<nat>) returns (w: nat)
    requires Stuck(t, s) && Chain(t, p) && Within(p, s)
    ensures p != [] && p[|p| - 1] in t.at && w in Deps(t, p[|p| - 1]) && w in s
  {
    hide Deps;
    var last := p[|p| - 1];
    assert last in s;
    w :| w in Deps(t, last) && w in s;
  }

  lemma NoDoubt(p: seq<nat>, w: nat, s: set<nat>)
    requires Distinct(p) && Within(p, s) && w in s
    ensures |p| <= |s| && (w !in p ==> Distinct(p + [w]) && Within(p + [w], s) && |p| < |s|)
  {
    DistinctBound(p, s);
    if w !in p {
      DistinctBound(p + [w], s);
    }
  }

  lemma ChainCloses(t: Tasks, p: seq<nat>, w: nat)
    requires p != [] && Chain(t, p + [w]) && w in p
    ensures WaitsForCycle(t, p[0])
  {
    hide Chain;
    var q := p + [w];
    var i :| 0 <= i < |p| && p[i] == w;
    assert q[i] == q[|q| - 1];
    assert Lasso(t, q) && q[0] == p[0];
  }

  lemma ChainGrows(t: Tasks, p: seq<nat>, w: nat)
    requires Chain(t, p) && w in Deps(t, p[|p| - 1])
    ensures Chain(t, p + [w])
  {
    hide Deps;
    var q := p + [w];
    DepsAreTasks(t, p[|p| - 1]);
    forall i | 0 <= i < |q| - 1 ensures q[i + 1] in Deps(t, q[i]) {
      assert q[i] == p[i];
    }
  }

  lemma DepsAreTasks(t: Tasks, v: nat)
    requires v in t.at
    ensures forall w: nat :: w in Deps(t, v) ==> w in t.at
  {
  }

  /** Tasks in an order in which each comes after all it waits for. */
  ghost predicate Sorted(t: Tasks, order: seq<nat>) {
    && Distinct(order)
    && (forall i :: 0 <= i < |order| ==> order[i] in t.at)
    && forall i :: 0 <= i < |order| ==> Deps(t, order[i]) <= Members(order[..i])
  }

  /** A chain from a sorted task stays among the sorted tasks and moves towards their front. */
  lemma {:induction false} ChainDescends(t: Tasks, order: seq<nat>, p: seq<nat>, k: nat) returns (i: nat)
    requires Sorted(t, order) && Chain(t, p) && p[0] in order && k < |p|
    ensures i < |order| && p[k] == order[i]
    ensures forall j: nat :: j < |order| && order[j] == p[0] ==> i + k <= j
  {
    if k == 0 {
      i :| 0 <= i < |order| && order[i] == p[0];
    } else {
      var h := ChainDescends(t, order, p, k - 1);
      assert p[k - 1 + 1] in Deps(t, p[k - 1]);
      assert p[k] in Members(order[..h]);
      i :| 0 <= i < h && order[..h][i] == p[k];
    }
  }

  lemma {:induction false} ChainTail(t: Tasks, p: seq<nat>, k: nat)
    requires Chain(t, p) && k < |p|
    ensures Chain(t, p[k..]) && p[k..][0] == p[k]
  {
    var q := p[k..];
    forall i | 0 <= i < |q| - 1 ensures q[i + 1] in Deps(t, q[i]) {
      assert q[i] == p[k + i] && q[i + 1] == p[k + i + 1];
    }
  }

  /** A chain from a sorted task never meets its last task before. */
  lemma NeverReturns(t: Tasks, order: seq<nat>, p: seq<nat>, k: nat)
    requires Sorted(t, order) && Chain(t, p) && p[0] in order && k < |p| - 1
    ensures p[k] != p[|p| - 1]
  {
    hide Chain, Deps;
    var i := ChainDescends(t, order, p, k);
    ChainTail(t, p, k);
    ChainStart(t, p);
    var j := ChainDescends(t, order, p[k..], |p| - 1 - k);
    assert j < i && order[j] == p[|p| - 1];
  }

  lemma ChainStart(t: Tasks, p: seq<nat>)
    requires Chain(t, p)
    ensures p != []
  {
  }

  /** No sorted task waits for a cycle. */
  lemma SortedIsFree(t: Tasks, order: seq<nat>, id: nat)
    requires Sorted(t, order) && id in order
    ensures !WaitsForCycle(t, id)
  {
    hide Sorted, Deps;
    forall p | Lasso(t, p) ensures p[0] != id {
      var k :| 0 <= k < |p| - 1 && p[k] == p[|p| - 1];
      if p[0] in order {
        NeverReturns(t, order, p, k);
      }
    }
  }

  function Unsorted(t: Tasks, order: seq<nat>): set<nat> {
    set id: nat | id in t.at && id !in order
  }

  /** No unsorted task is without an unsorted prerequisite. */
  ghost predicate Exhausted(t: Tasks, order: seq<nat>) {
    forall v: nat :: v in t.at && Deps(t, v) <= Members(order) ==> v in order
  }

  /** When nothing more can be sorted, the unsorted tasks are exactly those that wait for a cycle. */
  lemma UnsortedIsBlocked(t: Tasks, order: seq<nat>)
    requires Sorted(t, order) && Exhausted(t, order)
    ensures Blocked(t) == Unsorted(t, order)
  {
    UnsortedIsStuck(t, order);
    hide Stuck, Sorted, Deps, Exhausted, WaitsForCycle;
    forall id: nat | id in t.at ensures id in Unsorted(t, order) <==> WaitsForCycle(t, id) {
      SortedOrBlocked(t, order, id);
    }
  }

  lemma SortedOrBlocked(t: Tasks, order: seq<nat>, id: nat)
    requires Sorted(t, order) && Stuck(t, Unsorted(t, order)) && id in t.at
    ensures WaitsForCycle(t, id) <==> id !in order
  {
    hide Stuck, Sorted, Deps, WaitsForCycle;
    if id in order {
      SortedIsFree(t, order, id);
    } else {
      Alone(t, id);
      StuckWaits(t, Unsorted(t, order), [id]);
    }
  }

  lemma Alone(t: Tasks, id: nat)
    requires id in t.at
    ensures Chain(t, [id]) && Distinct([id])
  {
  }

  lemma UnsortedIsStuck(t: Tasks, order: seq<nat>)
    requires Exhausted(t, order)
    ensures Stuck(t, Unsorted(t, order))
  {
    forall v: nat | v in Unsorted(t, order) ensures v in t.at && WaitsWithin(t, Unsorted(t, order), v) {
      DepsAreTasks(t, v);
      hide Deps;
      assert !(Deps(t, v) <= Members(order));
      var w: nat :| w in Deps(t, v) && w !in Members(order);
    }
  }

  // ---------------------------------------------------------------- what is complained about

  /** The prerequisites are complained about one by one, in the order of the tasks and of their lists. */
  lemma {:induction false} TaskErrorsJoin(t: Tasks, id: nat, a: seq<nat>, b: seq<nat>)
    requires id in t.at
    ensures TaskErrors(t, id, a + b) == TaskErrors(t, id, a) + TaskErrors(t, id, b)
  {
    if a == [] {
      assert [] + b == b;
    } else {
      assert (a + b)[0] == a[0] && (a + b)[1..] == a[1..] + b;
      TaskErrorsJoin(t, id, a[1..], b);
    }
  }

  lemma {:induction false} LocalErrorsJoin(t: Tasks, a: seq<nat>, b: seq<nat>)
    requires forall i :: 0 <= i < |a| ==> a[i] in t.at
    requires forall i :: 0 <= i < |b| ==> b[i] in t.at
    ensures LocalErrors(t, a + b) == LocalErrors(t, a) + LocalErrors(t, b)
  {
    if a == [] {
      assert [] + b == b;
    } else {
      assert (a + b)[0] == a[0] && (a + b)[1..] == a[1..] + b;
      LocalErrorsJoin(t, a[1..], b);
      hide TaskErrors;
    }
  }

  /** One task with one prerequisite: it must not be the task itself, must be listed, and must be done before the
      task is ready or done. */
  lemma EdgeComplaint(t: Tasks, id: nat, required: nat)
    requires id in t.at
    ensures TaskErrors(t, id, [required]) ==
            if required == id then [SelfDependency(id)]
            else if required !in t.at then [MissingDependency(id, required)]
            else
              match (t.at[id].status, t.at[required].status)
              case (Ready, Ready) => [UnfinishedDependency(id, required)]
              case (Ready, Pending) => [UnfinishedDependency(id, required)]
              case (Done, Ready) => [UnfinishedDependency(id, required)]
              case (Done, Pending) => [UnfinishedDependency(id, required)]
              case _ => []
  {
    assert [required][1..] == [];
  }

  lemma SoleTask(t: Tasks, id: nat)
    requires id in t.at
    ensures LocalErrors(t, [id]) == TaskErrors(t, id, t.at[id].dependencies)
  {
    hide TaskErrors;
    assert [id][1..] == [];
  }
}
