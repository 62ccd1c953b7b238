/** The loops of `check_graph` in tools/validate_plan.py: local complaints, edge counting, and the removal
 *  of tasks without open prerequisites until none is left. */
module TaskGraphMachine {
  import opened Prelude
  import opened TaskGraph

  // ---------------------------------------------------------------- local complaints

  method CheckTasks(t: Tasks, before: seq<Error>) returns (errors: seq<Error>)
    requires Valid(t)
    ensures OrderKnown(t)
    ensures errors == before + LocalErrors(t, t.order)
  {
    hide LocalErrors, TaskErrors;
    errors := before;
    KnownOrder(t);
    assert t.order[0..] == t.order;
    for i := 0 to |t.order|
      invariant before + LocalErrors(t, t.order) == errors + LocalErrors(t, t.order[i..])
    {
      var id := t.order[i];
      LocalStep(t, i);
      Regroup(errors, TaskErrors(t, id, t.at[id].dependencies), LocalErrors(t, t.order[i + 1..]));
      errors := CheckTask(t, id, errors);
    }
    NothingLocal(t);
    assert t.order[|t.order|..] == [] && errors + [] == errors;
  }

  lemma NothingLocal(t: Tasks)
    ensures LocalErrors(t, []) == []
  {
  }

  lemma LocalStep(t: Tasks, i: nat)
    requires OrderKnown(t) && i < |t.order|
    ensures LocalErrors(t, t.order[i..])
         == TaskErrors(t, t.order[i], t.at[t.order[i]].dependencies) + LocalErrors(t, t.order[i + 1..])
  {
    hide TaskErrors;
    assert t.order[i..][0] == t.order[i] && t.order[i..][1..] == t.order[i + 1..];
  }

  method CheckTask(t: Tasks, id: nat, before: seq<Error>) returns (errors: seq<Error>)
    requires id in t.at
    ensures errors == before + TaskErrors(t, id, t.at[id].dependencies)
  {
    errors := before;
    var dependencies := t.at[id].dependencies;
    assert dependencies[0..] == dependencies;
    for j := 0 to |dependencies|
      invariant before + TaskErrors(t, id, dependencies) == errors + TaskErrors(t, id, dependencies[j..])
    {
      hide EdgeErrors;
      assert dependencies[j..][0] == dependencies[j] && dependencies[j..][1..] == dependencies[j + 1..];
      Regroup(errors, EdgeErrors(t, id, dependencies[j]), TaskErrors(t, id, dependencies[j + 1..]));
      errors := errors + EdgeErrors(t, id, dependencies[j]);
    }
    assert dependencies[|dependencies|..] == [] && errors + [] == errors;
  }

  lemma Regroup(a: seq<Error>, b: seq<Error>, c: seq<Error>)
    ensures a + (b + c) == a + b + c
  {
  }

  ghost predicate OrderKnown(t: Tasks) {
    forall i :: 0 <= i < |t.order| ==> t.order[i] in t.at
  }

  lemma KnownOrder(t: Tasks)
    requires Valid(t)
    ensures OrderKnown(t)
  {
    forall i | 0 <= i < |t.order| ensures t.order[i] in t.at {
      assert t.order[i] in t.order;
    }
  }

  // ---------------------------------------------------------------- counting edges

  /** How many prerequisites of `v` are still open when those in `gone` are closed. */
  ghost function Open(t: Tasks, v: nat, gone: set<nat>): nat
    requires v in t.at
  {
    |Deps(t, v) - gone|
  }

  ghost predicate Counted(t: Tasks, degree: map<nat, nat>, gone: set<nat>) {
    && (forall v: nat :: v in degree <==> v in t.at)
    && forall v: nat :: v in t.at ==> degree[v] == Open(t, v, gone)
  }

  /** `list` names each task that waits for `r` once. */
  ghost predicate Waiting(t: Tasks, r: nat, list: seq<nat>) {
    Distinct(list) && forall v: nat :: v in list <==> v in t.at && r in Deps(t, v)
  }

  ghost predicate Listed(t: Tasks, dependents: map<nat, seq<nat>>) {
    && (forall r: nat :: r in dependents <==> r in t.at)
    && forall r: nat :: r in t.at ==> Waiting(t, r, dependents[r])
  }

  /** The edges of the tasks in `seen` are counted, and of those of `id` the ones to `done`. */
  ghost predicate CountedSoFar(t: Tasks, degree: map<nat, nat>, seen: seq<nat>, id: nat, done: set<nat>)
    requires id in t.at
  {
    && (forall v: nat :: v in degree <==> v in t.at)
    && degree[id] == |Deps(t, id) * done|
    && forall v: nat :: v in t.at && v != id ==> degree[v] == if v in seen then |Deps(t, v)| else 0
  }

  ghost predicate ListedSoFar(t: Tasks, dependents: map<nat, seq<nat>>, seen: seq<nat>, id: nat, done: set<nat>)
    requires id in t.at
  {
    && (forall r: nat :: r in dependents <==> r in t.at)
    && forall r: nat :: r in t.at ==> ListSoFar(t, r, dependents[r], seen, id, done)
  }

  ghost predicate ListSoFar(t: Tasks, r: nat, list: seq<nat>, seen: seq<nat>, id: nat, done: set<nat>)
    requires id in t.at
  {
    Distinct(list)
    && forall v: nat :: v in list <==>
         v in t.at && r in Deps(t, v) && ((v in seen && v != id) || (v == id && r in done))
  }

  /** Before and after a whole task. */
  ghost predicate AllSoFar(t: Tasks, degree: map<nat, nat>, dependents: map<nat, seq<nat>>, seen: seq<nat>) {
    && (forall v: nat :: v in degree <==> v in t.at)
    && (forall v: nat :: v in t.at ==> degree[v] == if v in seen then |Deps(t, v)| else 0)
    && (forall r: nat :: r in dependents <==> r in t.at)
    && forall r: nat :: r in t.at ==>
         Distinct(dependents[r])
         && forall v: nat :: v in dependents[r] <==> v in t.at && r in Deps(t, v) && v in seen
  }

  lemma StartTask(t: Tasks, degree: map<nat, nat>, dependents: map<nat, seq<nat>>, seen: seq<nat>, id: nat)
    requires AllSoFar(t, degree, dependents, seen) && id in t.at && id !in seen
    ensures CountedSoFar(t, degree, seen, id, {})
    ensures ListedSoFar(t, dependents, seen, id, {})
  {
    hide Deps;
    assert Deps(t, id) * {} == {};
    forall r: nat | r in t.at ensures ListSoFar(t, r, dependents[r], seen, id, {}) {
    }
  }

  lemma FinishTask(t: Tasks, degree: map<nat, nat>, dependents: map<nat, seq<nat>>, seen: seq<nat>, id: nat, done: set<nat>)
    requires id in t.at && id !in seen && Deps(t, id) <= done
    requires CountedSoFar(t, degree, seen, id, done) && ListedSoFar(t, dependents, seen, id, done)
    ensures AllSoFar(t, degree, dependents, seen + [id])
  {
    hide Deps;
    assert Deps(t, id) * done == Deps(t, id);
    forall r: nat | r in t.at
      ensures Distinct(dependents[r])
      ensures forall v: nat :: v in dependents[r] <==> v in t.at && r in Deps(t, v) && v in seen + [id]
    {
      assert ListSoFar(t, r, dependents[r], seen, id, done);
    }
  }

  lemma EdgeCounted(t: Tasks, degree: map<nat, nat>, seen: seq<nat>, id: nat, done: set<nat>, required: nat)
    requires id in t.at && CountedSoFar(t, degree, seen, id, done)
    requires required in t.at[id].dependencies && required !in done
    ensures id in degree
    ensures required !in t.at ==> CountedSoFar(t, degree, seen, id, done + {required})
    ensures required in t.at ==> CountedSoFar(t, degree[id := degree[id] + 1], seen, id, done + {required})
  {
    assert required in Deps(t, id) <==> required in t.at;
    hide Deps;
    MeetGrows(Deps(t, id), done, required);
  }

  lemma MeetGrows(a: set<nat>, done: set<nat>, x: nat)
    requires x !in done
    ensures |a * (done + {x})| == |a * done| + if x in a then 1 else 0
  {
    if x in a {
      assert a * (done + {x}) == (a * done) + {x};
    } else {
      assert a * (done + {x}) == a * done;
    }
  }

  lemma EdgeListed(t: Tasks, dependents: map<nat, seq<nat>>, seen: seq<nat>, id: nat, done: set<nat>, required: nat)
    requires id in t.at && ListedSoFar(t, dependents, seen, id, done)
    requires required in t.at[id].dependencies && required !in done
    ensures required !in t.at ==> ListedSoFar(t, dependents, seen, id, done + {required})
    ensures required in t.at ==> required in dependents
    ensures required in t.at ==>
              ListedSoFar(t, dependents[required := dependents[required] + [id]], seen, id, done + {required})
  {
    var more := done + {required};
    assert required in t.at ==> required in Deps(t, id);
    hide Deps;
    var next := if required in t.at then dependents[required := dependents[required] + [id]] else dependents;
    forall r: nat | r in t.at ensures ListSoFar(t, r, next[r], seen, id, more) {
      assert ListSoFar(t, r, dependents[r], seen, id, done);
      if r == required {
        ListGrows(t, r, dependents[r], seen, id, done);
      }
    }
  }

  lemma ListGrows(t: Tasks, r: nat, list: seq<nat>, seen: seq<nat>, id: nat, done: set<nat>)
    requires id in t.at && r in Deps(t, id) && r !in done && ListSoFar(t, r, list, seen, id, done)
    ensures ListSoFar(t, r, list + [id], seen, id, done + {r})
  {
    hide Deps;
    assert id !in list;
    var next := list + [id];
    forall v: nat ensures v in next <==> v in t.at && r in Deps(t, v) && ((v in seen && v != id) || (v == id && r in done + {r})) {
      assert v in next <==> v in list || v == id;
    }
  }

  lemma AllCounted(t: Tasks, degree: map<nat, nat>, dependents: map<nat, seq<nat>>)
    requires Valid(t) && AllSoFar(t, degree, dependents, t.order)
    ensures Counted(t, degree, {}) && Listed(t, dependents)
  {
    hide Deps, Valid, AllSoFar, Waiting, Open;
    AllKeys(t, degree, dependents);
    forall v: nat | v in t.at ensures degree[v] == Open(t, v, {}) {
      AllCountedAt(t, degree, dependents, v);
    }
    forall r: nat | r in t.at ensures Waiting(t, r, dependents[r]) {
      AllListed(t, degree, dependents, r);
    }
  }

  lemma AllKeys(t: Tasks, degree: map<nat, nat>, dependents: map<nat, seq<nat>>)
    requires AllSoFar(t, degree, dependents, t.order)
    ensures (forall v: nat :: v in degree <==> v in t.at) && (forall r: nat :: r in dependents <==> r in t.at)
  {
    hide Deps;
  }

  lemma AllCountedAt(t: Tasks, degree: map<nat, nat>, dependents: map<nat, seq<nat>>, v: nat)
    requires Valid(t) && AllSoFar(t, degree, dependents, t.order) && v in t.at
    ensures v in degree && degree[v] == Open(t, v, {})
  {
    hide Deps, Distinct;
    assert v in t.order;
    LessNothing(Deps(t, v));
  }

  lemma LessNothing(s: set<nat>)
    ensures s - {} == s
  {
  }

  lemma AllListed(t: Tasks, degree: map<nat, nat>, dependents: map<nat, seq<nat>>, r: nat)
    requires Valid(t) && AllSoFar(t, degree, dependents, t.order) && r in t.at
    ensures Waiting(t, r, dependents[r])
  {
    hide Deps, Distinct;
  }

  lemma NothingCounted(t: Tasks, degree: map<nat, nat>, dependents: map<nat, seq<nat>>)
    requires degree == map id: nat | id in t.at :: 0
    requires dependents == map id: nat | id in t.at :: []
    ensures AllSoFar(t, degree, dependents, [])
  {
    hide Deps;
  }

  method CountEdges(t: Tasks) returns (degree: map<nat, nat>, dependents: map<nat, seq<nat>>)
    requires Valid(t)
    ensures Counted(t, degree, {}) && Listed(t, dependents)
  {
    hide *;
    degree := map id: nat | id in t.at :: 0;
    dependents := map id: nat | id in t.at :: [];
    NothingCounted(t, degree, dependents);
    assert t.order[..0] == [];
    for i := 0 to |t.order|
      invariant AllSoFar(t, degree, dependents, t.order[..i])
    {
      OrderAt(t, i);
      degree, dependents := CountTask(t, t.order[i], degree, dependents, t.order[..i]);
      assert t.order[..i + 1] == t.order[..i] + [t.order[i]];
    }
    assert t.order[..|t.order|] == t.order;
    AllCounted(t, degree, dependents);
  }

  /** One task: its distinct prerequisites in any order. */
  method CountTask(t: Tasks, id: nat, degree0: map<nat, nat>, dependents0: map<nat, seq<nat>>, ghost seen: seq<nat>)
    returns (degree: map<nat, nat>, dependents: map<nat, seq<nat>>)
    requires id in t.at && id !in seen && AllSoFar(t, degree0, dependents0, seen)
    ensures AllSoFar(t, degree, dependents, seen + [id])
  {
    hide *;
    degree, dependents := degree0, dependents0;
    StartTask(t, degree, dependents, seen, id);
    ghost var done: set<nat> := {};
    var todo := Members(t.at[id].dependencies);
    MembersOf(t.at[id].dependencies);
    while todo != {}
      invariant forall d: nat :: d in todo <==> d in t.at[id].dependencies && d !in done
      invariant CountedSoFar(t, degree, seen, id, done) && ListedSoFar(t, dependents, seen, id, done)
    {
      var required: nat :| required in todo;
      todo := todo - {required};
      EdgeCounted(t, degree, seen, id, done, required);
      EdgeListed(t, dependents, seen, id, done, required);
      if required in t.at {
        degree := degree[id := degree[id] + 1];
        dependents := dependents[required := dependents[required] + [id]];
      }
      done := done + {required};
    }
    AllDone(t, id, done);
    FinishTask(t, degree, dependents, seen, id, done);
  }

  lemma MembersOf(s: seq<nat>)
    ensures forall x: nat :: x in Members(s) <==> x in s
  {
  }

  lemma AllDone(t: Tasks, id: nat, done: set<nat>)
    requires id in t.at && forall d: nat :: d in t.at[id].dependencies ==> d in done
    ensures Deps(t, id) <= done
  {
  }

  lemma OrderAt(t: Tasks, i: nat)
    requires Valid(t) && i < |t.order|
    ensures t.order[i] in t.at && t.order[i] !in t.order[..i]
  {
    assert t.order[i] in t.order;
  }

  // ---------------------------------------------------------------- removing tasks

  /** The tasks counted as waiting for `x` are down to those in `rest`. */
  ghost predicate HalfCounted(t: Tasks, degree: map<nat, nat>, gone: set<nat>, x: nat, rest: seq<nat>) {
    && (forall v: nat :: v in degree <==> v in t.at)
    && forall v: nat :: v in t.at ==> degree[v] == Open(t, v, gone) + if v in rest then 1 else 0
  }

  /** Removed and ready tasks are exactly those without open prerequisites, but for the tasks in `rest`. */
  ghost predicate Frontier(t: Tasks, popped: seq<nat>, ready: seq<nat>, rest: seq<nat>) {
    && Distinct(popped) && Distinct(ready)
    && (forall v: nat :: v in popped ==> v !in ready)
    && forall v: nat :: v in popped || v in ready <==> v in t.at && Deps(t, v) <= Members(popped) && v !in rest
  }

  lemma OpenWithout(t: Tasks, v: nat, gone: set<nat>, x: nat)
    requires v in t.at && x !in gone
    ensures Open(t, v, gone) == Open(t, v, gone + {x}) + if x in Deps(t, v) then 1 else 0
  {
    hide Deps;
    var d := Deps(t, v);
    if x in d {
      assert d - gone == (d - (gone + {x})) + {x};
    } else {
      assert d - gone == d - (gone + {x});
    }
  }

  lemma OpenNone(t: Tasks, v: nat, gone: set<nat>)
    requires v in t.at
    ensures Open(t, v, gone) == 0 <==> Deps(t, v) <= gone
  {
    hide Deps;
    var d := Deps(t, v);
    if d <= gone {
      assert d - gone == {};
    }
    if |d - gone| == 0 {
      assert d - gone == {};
      assert forall x: nat :: x in d ==> x !in d - gone;
    }
  }

  lemma MembersGrow(s: seq<nat>, x: nat)
    ensures Members(s + [x]) == Members(s) + {x}
  {
  }

  lemma PopCounted(t: Tasks, degree: map<nat, nat>, popped: seq<nat>, x: nat, list: seq<nat>)
    requires Counted(t, degree, Members(popped)) && x !in popped && Waiting(t, x, list)
    ensures HalfCounted(t, degree, Members(popped + [x]), x, list)
  {
    hide Deps, Open;
    MembersGrow(popped, x);
    MembersOf(popped);
    hide Members;
    forall v: nat | v in t.at ensures degree[v] == Open(t, v, Members(popped + [x])) + if v in list then 1 else 0 {
      OpenWithout(t, v, Members(popped), x);
    }
  }

  lemma PopFrontier(t: Tasks, popped: seq<nat>, ready: seq<nat>, x: nat, list: seq<nat>)
    requires Frontier(t, popped, ready + [x], []) && Waiting(t, x, list)
    ensures x in t.at && x !in popped && Deps(t, x) <= Members(popped)
    ensures Frontier(t, popped + [x], ready, list)
  {
    LastOnce(ready, x);
    assert x in ready + [x];
    hide Deps, Distinct;
    MembersGrow(popped, x);
    MembersOf(popped);
    hide Members;
    assert Distinct(popped + [x]) by {
      Apart(popped, x);
    }
    forall v: nat ensures v in popped + [x] || v in ready <==>
                            v in t.at && Deps(t, v) <= Members(popped + [x]) && v !in list {
      assert v in popped + [x] || v in ready <==> v in popped || v in ready + [x];
      if v in t.at {
        ClosedByOne(Deps(t, v), Members(popped), x);
      }
    }
  }

  lemma ClosedByOne(d: set<nat>, gone: set<nat>, x: nat)
    requires x !in gone
    ensures d <= gone <==> d <= gone + {x} && x !in d
  {
  }

  lemma LastOnce(s: seq<nat>, x: nat)
    requires Distinct(s + [x])
    ensures Distinct(s) && x !in s
  {
    var a := s + [x];
    assert forall i :: 0 <= i < |s| ==> a[i] == s[i];
    assert a[|s|] == x;
  }

  lemma Apart(s: seq<nat>, x: nat)
    requires Distinct(s) && x !in s
    ensures Distinct(s + [x])
  {
  }

  /** One waiting task has one open prerequisite less; it is ready when that was the last. */
  lemma ReleaseStep(t: Tasks, degree: map<nat, nat>, popped: seq<nat>, ready: seq<nat>, x: nat, v: nat, rest: seq<nat>)
    requires x in popped && v in t.at && x in Deps(t, v) && v !in rest
    requires HalfCounted(t, degree, Members(popped), x, [v] + rest) && Frontier(t, popped, ready, [v] + rest)
    ensures v in degree && degree[v] > 0
    ensures HalfCounted(t, degree[v := degree[v] - 1], Members(popped), x, rest)
    ensures Frontier(t, popped, if degree[v] == 1 then ready + [v] else ready, rest)
  {
    hide Deps, Open, Members;
    assert v in [v] + rest;
    assert forall u: nat :: u in [v] + rest <==> u == v || u in rest;
    OpenNone(t, v, Members(popped));
    Apart(ready, v);
    hide Distinct;
  }

  lemma StartFrontier(t: Tasks, degree: map<nat, nat>, ready: seq<nat>)
    requires Counted(t, degree, {}) && Distinct(ready)
    requires forall v: nat :: v in ready <==> v in degree && degree[v] == 0
    ensures Frontier(t, [], ready, []) && Counted(t, degree, Members([])) && Sorted(t, [])
  {
    assert Members([]) == {};
    hide Deps, Open, Members, Sorted;
    forall v: nat | v in t.at ensures v in ready <==> Deps(t, v) <= {} {
      OpenNone(t, v, {});
    }
    assert Sorted(t, []) by {
      NothingSorted(t);
    }
  }

  lemma NothingSorted(t: Tasks)
    ensures Sorted(t, [])
  {
  }

  lemma SortedGrows(t: Tasks, popped: seq<nat>, x: nat)
    requires Sorted(t, popped) && x in t.at && x !in popped && Deps(t, x) <= Members(popped)
    ensures Sorted(t, popped + [x])
  {
    hide Deps, Members;
    var next := popped + [x];
    Apart(popped, x);
    forall i | 0 <= i < |next| ensures Deps(t, next[i]) <= Members(next[..i]) {
      assert next[..i] == popped[..i];
      assert i == |popped| ==> popped[..i] == popped;
    }
  }

  lemma HalfIsWhole(t: Tasks, degree: map<nat, nat>, gone: set<nat>, x: nat)
    requires HalfCounted(t, degree, gone, x, [])
    ensures Counted(t, degree, gone)
  {
    hide Open;
  }

  lemma SortedBound(t: Tasks, popped: seq<nat>)
    requires Sorted(t, popped)
    ensures |popped| <= |t.at.Keys|
    ensures |popped| == |t.at.Keys| ==> Unsorted(t, popped) == {}
  {
    hide Deps, Members;
    DistinctBound(popped, t.at.Keys);
    if Unsorted(t, popped) != {} {
      var v: nat :| v in Unsorted(t, popped);
      DistinctBound(popped, t.at.Keys - {v});
    }
  }

  lemma AllSorted(t: Tasks, popped: seq<nat>)
    requires Sorted(t, popped) && Unsorted(t, popped) == {}
    ensures |popped| == |t.at.Keys|
  {
    SortedBound(t, popped);
    DistinctSize(popped);
    assert Members(popped) == t.at.Keys by {
      forall v: nat ensures v in Members(popped) <==> v in t.at.Keys {
        if v in t.at.Keys {
          assert v !in Unsorted(t, popped);
        }
      }
    }
  }

  lemma {:induction false} DistinctSize(s: seq<nat>)
    requires Distinct(s)
    ensures |Members(s)| == |s|
  {
    if s != [] {
      var init, last := s[..|s| - 1], s[|s| - 1];
      assert s == init + [last];
      LastOnce(init, last);
      DistinctSize(init);
      MembersGrow(init, last);
    }
  }

  lemma ListedAt(t: Tasks, dependents: map<nat, seq<nat>>, x: nat)
    requires Listed(t, dependents) && x in t.at
    ensures x in dependents && Waiting(t, x, dependents[x])
  {
    hide Waiting;
  }

  lemma NothingReady(t: Tasks, popped: seq<nat>)
    requires Frontier(t, popped, [], [])
    ensures Exhausted(t, popped)
  {
    hide Deps, Members, Distinct;
  }

  /** Pops every ready task and releases the tasks that wait for it. No task is popped twice, and none
      before all it waits for; the tasks left with a count are those that wait for a cycle. */
  method Drain(t: Tasks, degree0: map<nat, nat>, dependents: map<nat, seq<nat>>, ready0: seq<nat>)
    returns (visited: nat, degree: map<nat, nat>, ghost popped: seq<nat>)
    requires Counted(t, degree0, {}) && Listed(t, dependents) && Distinct(ready0)
    requires forall v: nat :: v in ready0 <==> v in degree0 && degree0[v] == 0
    ensures visited == |popped| && Sorted(t, popped)
    ensures forall v: nat :: v in degree && degree[v] != 0 <==> v in Blocked(t)
    ensures visited == |t.at| <==> Blocked(t) == {}
  {
    hide *;
    StartFrontier(t, degree0, ready0);
    degree, popped, visited := degree0, [], 0;
    var ready := ready0;
    while ready != []
      invariant visited == |popped| && Sorted(t, popped)
      invariant Frontier(t, popped, ready, []) && Counted(t, degree, Members(popped))
      decreases |t.at.Keys| - |popped|
    {
      var id, others := ready[|ready| - 1], ready[..|ready| - 1];
      assert ready == others + [id];
      FrontierTask(t, popped, others, id);
      ListedAt(t, dependents, id);
      var list := dependents[id];
      PopFrontier(t, popped, others, id, list);
      PopCounted(t, degree, popped, id, list);
      SortedGrows(t, popped, id);
      visited := visited + 1;
      popped := popped + [id];
      SortedBound(t, popped);
      degree, ready := Release(t, degree, popped, others, id, list);
    }
    NothingReady(t, popped);
    UnsortedIsBlocked(t, popped);
    BlockedByCount(t, degree, popped);
  }

  lemma FrontierTask(t: Tasks, popped: seq<nat>, others: seq<nat>, id: nat)
    requires Frontier(t, popped, others + [id], [])
    ensures id in t.at
  {
    hide Deps, Members, Distinct;
    assert id in others + [id];
  }

  lemma WaitingAt(t: Tasks, x: nat, list: seq<nat>, j: nat)
    requires Waiting(t, x, list) && j < |list|
    ensures list[j] in t.at && x in Deps(t, list[j]) && list[j] !in list[j + 1..]
  {
    hide Deps;
    assert list[j] in list;
  }

  /** The tasks that wait for `id` have one open prerequisite less. */
  method Release(t: Tasks, degree0: map<nat, nat>, ghost popped: seq<nat>, ready0: seq<nat>, ghost id: nat, list: seq<nat>)
    returns (degree: map<nat, nat>, ready: seq<nat>)
    requires id in popped && Waiting(t, id, list)
    requires HalfCounted(t, degree0, Members(popped), id, list) && Frontier(t, popped, ready0, list)
    ensures Counted(t, degree, Members(popped)) && Frontier(t, popped, ready, [])
  {
    hide *;
    degree, ready := degree0, ready0;
    assert list[0..] == list;
    for j := 0 to |list|
      invariant HalfCounted(t, degree, Members(popped), id, list[j..]) && Frontier(t, popped, ready, list[j..])
    {
      var downstream := list[j];
      WaitingAt(t, id, list, j);
      assert list[j..] == [downstream] + list[j + 1..];
      ReleaseStep(t, degree, popped, ready, id, downstream, list[j + 1..]);
      degree := degree[downstream := degree[downstream] - 1];
      if degree[downstream] == 0 {
        ready := ready + [downstream];
      }
    }
    assert list[|list|..] == [];
    HalfIsWhole(t, degree, Members(popped), id);
  }

  // ---------------------------------------------------------------- check_graph

  /** Every complaint about single edges, then one about cycles that lists all tasks waiting for one. */
  ghost function GraphErrors(t: Tasks): seq<Error>
    requires OrderKnown(t)
  {
    LocalErrors(t, t.order) + if Blocked(t) == {} then [] else [Cycle(SortedKeys(Blocked(t)))]
  }

  method CheckGraph(t: Tasks, before: seq<Error>) returns (errors: seq<Error>)
    requires Valid(t)
    ensures OrderKnown(t)
    ensures errors == before + GraphErrors(t)
  {
    hide *;
    errors := CheckTasks(t, before);
    var degree, dependents := CountEdges(t);
    var ready := SortedKeys(set id: nat | id in degree && degree[id] == 0);
    ReadyListed(degree, ready);
    ghost var popped;
    var visited;
    visited, degree, popped := Drain(t, degree, dependents, ready);
    GraphErrorsUnfold(t);
    if visited != |t.at| {
      var blocked := set id: nat | id in degree && degree[id] != 0;
      assert blocked == Blocked(t);
      errors := errors + [Cycle(SortedKeys(blocked))];
    }
  }

  lemma GraphErrorsUnfold(t: Tasks)
    requires OrderKnown(t)
    ensures GraphErrors(t) == LocalErrors(t, t.order) + if Blocked(t) == {} then [] else [Cycle(SortedKeys(Blocked(t)))]
    ensures Blocked(t) == {} ==> GraphErrors(t) == LocalErrors(t, t.order)
  {
    hide LocalErrors, Blocked, SortedKeys;
  }

  lemma ReadyListed(degree: map<nat, nat>, ready: seq<nat>)
    requires ready == SortedKeys(set id: nat | id in degree && degree[id] == 0)
    ensures Distinct(ready) && forall v: nat :: v in ready <==> v in degree && degree[v] == 0
  {
    var s := set id: nat | id in degree && degree[id] == 0;
    SortedKeysMembers(s);
    SortedKeysIncreasing(s);
    hide SortedKeys;
  }

  /** After draining, the tasks with a count left are the unsorted ones, and there are some exactly when
      not every task was visited. */
  lemma BlockedByCount(t: Tasks, degree: map<nat, nat>, popped: seq<nat>)
    requires Sorted(t, popped) && Exhausted(t, popped) && Counted(t, degree, Members(popped))
    ensures forall id: nat :: id in degree && degree[id] != 0 <==> id in Unsorted(t, popped)
    ensures |popped| == |t.at| <==> Unsorted(t, popped) == {}
  {
    hide *;
    SortedBound(t, popped);
    if Unsorted(t, popped) == {} {
      AllSorted(t, popped);
    }
    KeyCount(t.at);
    forall id: nat ensures id in degree && degree[id] != 0 <==> id in Unsorted(t, popped) {
      CountLeft(t, degree, popped, id);
    }
  }

  lemma CountLeft(t: Tasks, degree: map<nat, nat>, popped: seq<nat>, id: nat)
    requires Sorted(t, popped) && Exhausted(t, popped) && Counted(t, degree, Members(popped))
    ensures id in degree && degree[id] != 0 <==> id in Unsorted(t, popped)
  {
    hide Deps, Open, Members, Sorted;
    if id in t.at {
      OpenNone(t, id, Members(popped));
      if id in popped {
        SortedClosed(t, popped, id);
      }
    }
  }

  lemma KeyCount(m: map<nat, Task>)
    ensures |m| == |m.Keys|
  {
  }

  lemma SortedClosed(t: Tasks, popped: seq<nat>, id: nat)
    requires Sorted(t, popped) && id in popped
    ensures id in t.at && Deps(t, id) <= Members(popped)
  {
    hide Deps;
    var i :| 0 <= i < |popped| && popped[i] == id;
    assert Deps(t, popped[i]) <= Members(popped[..i]);
  }

  // ---------------------------------------------------------------- what is reported

  /** A cycle is reported exactly when there is one, and the report lists, in order, exactly the tasks
      that wait for a cycle. */
  lemma CycleReported(t: Tasks, blocked: seq<nat>)
    requires OrderKnown(t)
    ensures (exists i :: 0 <= i < |GraphErrors(t)| && GraphErrors(t)[i].Cycle?) <==> HasCycle(t)
    ensures Cycle(blocked) in GraphErrors(t) <==>
              && HasCycle(t)
              && StrictlyIncreasing(blocked)
              && forall id: nat :: id in blocked <==> id in t.at && WaitsForCycle(t, id)
  {
    hide LocalErrors, Blocked, SortedKeys, GraphErrors, HasCycle, WaitsForCycle, StrictlyIncreasing;
    GraphErrorsUnfold(t);
    LocalHasNoCycle(t, t.order);
    BlockedMeansCycle(t);
    BlockedListing(t, blocked);
    ReportPlace(t, blocked);
  }

  lemma ReportPlace(t: Tasks, blocked: seq<nat>)
    requires OrderKnown(t)
    requires GraphErrors(t) == LocalErrors(t, t.order) + if Blocked(t) == {} then [] else [Cycle(SortedKeys(Blocked(t)))]
    requires forall e :: e in LocalErrors(t, t.order) ==> !e.Cycle?
    ensures (exists i :: 0 <= i < |GraphErrors(t)| && GraphErrors(t)[i].Cycle?) <==> Blocked(t) != {}
    ensures Cycle(blocked) in GraphErrors(t) <==> Blocked(t) != {} && blocked == SortedKeys(Blocked(t))
  {
    hide LocalErrors, Blocked, SortedKeys, GraphErrors;
    var all, locals := GraphErrors(t), LocalErrors(t, t.order);
    if Blocked(t) == {} {
      assert all == locals;
    } else {
      assert all[|all| - 1] == Cycle(SortedKeys(Blocked(t)));
    }
  }

  lemma BlockedListing(t: Tasks, blocked: seq<nat>)
    ensures blocked == SortedKeys(Blocked(t)) <==>
              StrictlyIncreasing(blocked) && forall id: nat :: id in blocked <==> id in t.at && WaitsForCycle(t, id)
  {
    SortedKeysMembers(Blocked(t));
    SortedKeysIncreasing(Blocked(t));
    hide SortedKeys, WaitsForCycle, StrictlyIncreasing;
    if StrictlyIncreasing(blocked) && forall id: nat :: id in blocked <==> id in t.at && WaitsForCycle(t, id) {
      SortedKeysUnique(Blocked(t), blocked);
    }
  }

  lemma {:induction false} LocalHasNoCycle(t: Tasks, order: seq<nat>)
    requires forall i :: 0 <= i < |order| ==> order[i] in t.at
    ensures forall e :: e in LocalErrors(t, order) ==> !e.Cycle?
  {
    if order != [] {
      LocalHasNoCycle(t, order[1..]);
      TaskHasNoCycle(t, order[0], t.at[order[0]].dependencies);
      hide TaskErrors;
    }
  }

  lemma {:induction false} TaskHasNoCycle(t: Tasks, id: nat, dependencies: seq<nat>)
    requires id in t.at
    ensures forall e :: e in TaskErrors(t, id, dependencies) ==> !e.Cycle?
  {
    if dependencies != [] {
      TaskHasNoCycle(t, id, dependencies[1..]);
    }
  }
}
