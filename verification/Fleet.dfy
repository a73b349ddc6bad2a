/** The round-robin planner of the parity fleet (src/release_sentinel/parity/fleet.py). */
module Fleet {
  import opened Sets
  import opened Sorting
  import opened Wrappers

  datatype Scenario = Scenario(id: string, verb: string)

  datatype Budget = Budget(maxScenarios: int, maxTasks: int, maxRequests: int)

  datatype Plan = Plan(tasks: seq<seq<string>>, scenarioCount: nat, requestCount: nat)

  datatype FleetError =
    | NoScenarios
    | NotReadOnly
    | ScenarioBudget
    | TaskBudget
    | RequestBudget
    | Coverage

  const READ_ONLY: set<string> := {"GET", "HEAD", "OPTIONS"}

  function Ids(scenarios: seq<Scenario>): (ids: seq<string>)
    ensures |ids| == |scenarios|
    ensures forall i :: 0 <= i < |ids| ==> ids[i] == scenarios[i].id
  {
    seq(|scenarios|, i requires 0 <= i < |scenarios| => scenarios[i].id)
  }

  function TaskCount(requested: int, scenarios: nat): (count: int)
    ensures count <= requested && count <= scenarios && (count == requested || count == scenarios)
  {
    if requested < scenarios then requested else scenarios
  }

  // ---------------------------------------------------------------- what a plan is

  /** The input that belongs at position `q` of shard `r` out of `k`. */
  function Slot(q: nat, r: nat, k: nat): nat {
    q * k + r
  }

  /** Position q of shard r holds input q * k + r, and each shard is as long as that allows:
      the first index it lacks is not an input, and is the next one it would get. */
  predicate RoundRobin(shards: seq<seq<string>>, ids: seq<string>, k: nat) {
    && |shards| == k
    && (forall r :: 0 <= r < k ==> |ids| <= Slot(|shards[r]|, r, k) < |ids| + k)
    && (forall r, q :: 0 <= r < k && 0 <= q < |shards[r]| ==>
          Slot(q, r, k) < |ids| && shards[r][q] == ids[Slot(q, r, k)])
  }

  lemma SlotBelow(q: nat, size: nat, k: nat)
    ensures q < size ==> q * k + k <= size * k
  {
    if q < size {
      var gap := size - q;
      assert size * k == q * k + gap * k;
      assert gap * k >= k;
    }
  }

  /** Slots are numbered without overlap. */
  lemma SlotUnique(q: nat, r: nat, p: nat, s: nat, k: nat)
    requires r < k && s < k && q * k + r == p * k + s
    ensures q == p && r == s
  {
    SlotBelow(q, p, k);
    SlotBelow(p, q, k);
  }

  lemma HomeSlot(i: nat, k: nat)
    requires k > 0
    ensures i / k * k + i % k == i
  {
  }

  /** Input i is at position i div k of shard i mod k. */
  lemma InputIsAt(shards: seq<seq<string>>, ids: seq<string>, k: nat, i: nat)
    requires RoundRobin(shards, ids, k) && i < |ids| && k > 0
    ensures i / k < |shards[i % k]| && shards[i % k][i / k] == ids[i]
  {
    HomeSlot(i, k);
    SlotBelow(|shards[i % k]|, i / k, k);
  }

  /** No shard is longer than another by more than one, and none is empty. */
  lemma ShardsAreBalanced(shards: seq<seq<string>>, ids: seq<string>, k: nat, r: nat, s: nat)
    requires RoundRobin(shards, ids, k) && r < k <= |ids| && s < k
    ensures 1 <= |shards[r]| <= |shards[s]| + 1
  {
    SlotBelow(|shards[s]| + 1, |shards[r]|, k);
    SlotBelow(|shards[s]|, |shards[s]| + 1, k);
  }

  function Flatten(shards: seq<seq<string>>): seq<string> {
    if shards == [] then [] else shards[0] + Flatten(shards[1..])
  }

  lemma {:induction false} FlattenAppend(shards: seq<seq<string>>, r: nat, x: string)
    requires r < |shards|
    ensures multiset(Flatten(shards[r := shards[r] + [x]])) == multiset(Flatten(shards)) + multiset{x}
  {
    var longer := shards[r := shards[r] + [x]];
    if r == 0 {
      assert longer[1..] == shards[1..];
      AppendInFront(shards[0], x, Flatten(shards[1..]));
    } else {
      assert longer[1..] == shards[1..][r - 1 := shards[1..][r - 1] + [x]];
      FlattenAppend(shards[1..], r - 1, x);
      assert Flatten(longer) == shards[0] + Flatten(longer[1..]);
    }
  }

  lemma AppendInFront(s: seq<string>, x: string, rest: seq<string>)
    ensures multiset(s + [x] + rest) == multiset(s + rest) + multiset{x}
  {
  }

  lemma {:induction false} FlattenEmpty(shards: seq<seq<string>>)
    requires forall r :: 0 <= r < |shards| ==> shards[r] == []
    ensures Flatten(shards) == []
  {
    if shards == [] {
    } else {
      FlattenEmpty(shards[1..]);
    }
  }

  // ---------------------------------------------------------------- planning

  /** The first reason to refuse, in the order they are looked for. */
  ghost function Refusal(scenarios: seq<Scenario>, taskCount: int, budget: Budget, upper: string -> string):
    Option<FleetError>
  {
    if scenarios == [] then Some(NoScenarios)
    else if exists i :: 0 <= i < |scenarios| && upper(scenarios[i].verb) !in READ_ONLY then Some(NotReadOnly)
    else if |scenarios| > budget.maxScenarios then Some(ScenarioBudget)
    else if !(1 <= TaskCount(taskCount, |scenarios|) <= budget.maxTasks) then Some(TaskBudget)
    else if 2 * |scenarios| > budget.maxRequests then Some(RequestBudget)
    else if !Distinct(Ids(scenarios)) then Some(Coverage)
    else None
  }

  /** The first index a shard lacks is i only for the shard i falls to. */
  lemma FirstLacking(i: nat, k: nat, r: nat, size: nat)
    requires r < k && i <= Slot(size, r, k) < i + k
    ensures Slot(size, r, k) == i <==> r == i % k
    ensures Slot(size + 1, r, k) == Slot(size, r, k) + k
  {
    HomeSlot(i, k);
    if Slot(size, r, k) == i {
      SlotUnique(size, r, i / k, i % k, k);
    } else if r == i % k {
      SlotBelow(i / k, size, k);
      SlotBelow(size, i / k, k);
    }
  }

  lemma RoundRobinStep(shards: seq<seq<string>>, ids: seq<string>, k: nat, i: nat, home: nat)
    requires i < |ids| && RoundRobin(shards, ids[..i], k)
    requires k > 0 && home == i % k
    ensures |shards| == k && RoundRobin(shards[home := shards[home] + [ids[i]]], ids[..i + 1], k)
  {
    hide Slot;
    var longer := shards[home := shards[home] + [ids[i]]];
    forall r | 0 <= r < k
      ensures i + 1 <= Slot(|longer[r]|, r, k) < i + 1 + k
      ensures r == home ==> Slot(|shards[r]|, r, k) == i
    {
      FirstLacking(i, k, r, |shards[r]|);
    }
    forall r, q | 0 <= r < k && 0 <= q < |longer[r]|
      ensures Slot(q, r, k) < i + 1 && longer[r][q] == ids[..i + 1][Slot(q, r, k)]
    {
      if q < |shards[r]| {
        assert longer[r][q] == shards[r][q] == ids[..i][Slot(q, r, k)];
      }
    }
  }

  lemma NothingDistributed(shards: seq<seq<string>>, k: nat)
    requires |shards| == k && forall r :: 0 <= r < k ==> shards[r] == []
    ensures RoundRobin(shards, [], k)
  {
  }

  method Distribute(ids: seq<string>, k: nat) returns (shards: seq<seq<string>>)
    requires 1 <= k
    ensures RoundRobin(shards, ids, k)
    ensures multiset(Flatten(shards)) == multiset(ids)
  {
    shards := seq(k, _ => []);
    FlattenEmpty(shards);
    NothingDistributed(shards, k);
    assert ids[..0] == [];
    hide RoundRobin, Flatten;
    for i := 0 to |ids|
      invariant |shards| == k && RoundRobin(shards, ids[..i], k)
      invariant multiset(Flatten(shards)) == multiset(ids[..i])
    {
      var home := i % k;
      RoundRobinStep(shards, ids, k, i, home);
      FlattenAppend(shards, home, ids[i]);
      assert ids[..i + 1] == ids[..i] + [ids[i]];
      shards := shards[home := shards[home] + [ids[i]]];
    }
    assert ids[..|ids|] == ids;
  }

  lemma HasShards(shards: seq<seq<string>>, ids: seq<string>, k: nat)
    requires RoundRobin(shards, ids, k)
    ensures |shards| == k
  {
  }

  method PlanFleet(scenarios: seq<Scenario>, taskCount: int, budget: Budget, upper: string -> string)
    returns (outcome: Result<Plan, FleetError>)
    ensures outcome.Ok? <==>
      && scenarios != []
      && (forall i :: 0 <= i < |scenarios| ==> upper(scenarios[i].verb) in {"GET", "HEAD", "OPTIONS"})
      && |scenarios| <= budget.maxScenarios && 2 * |scenarios| <= budget.maxRequests
      && 1 <= taskCount && (taskCount <= budget.maxTasks || |scenarios| <= budget.maxTasks)
      && forall i, j :: 0 <= i < j < |scenarios| ==> scenarios[i].id != scenarios[j].id
    ensures match Refusal(scenarios, taskCount, budget, upper)
      case Some(error) => outcome == Err(error)
      case None =>
        && outcome.Ok?
        && RoundRobin(outcome.value.tasks, Ids(scenarios), TaskCount(taskCount, |scenarios|))
        && multiset(Flatten(outcome.value.tasks)) == multiset(Ids(scenarios))
        && outcome.value.scenarioCount == |scenarios| && outcome.value.requestCount == 2 * |scenarios|
        && |outcome.value.tasks| <= taskCount && |outcome.value.tasks| <= |scenarios|
        && |outcome.value.tasks| in {taskCount, |scenarios|}
  {
    hide RoundRobin, Flatten;
    if scenarios == [] {
      return Err(NoScenarios);
    }
    if exists i :: 0 <= i < |scenarios| && upper(scenarios[i].verb) !in READ_ONLY {
      return Err(NotReadOnly);
    }
    if |scenarios| > budget.maxScenarios {
      return Err(ScenarioBudget);
    }
    var k := TaskCount(taskCount, |scenarios|);
    if k < 1 || k > budget.maxTasks {
      return Err(TaskBudget);
    }
    var requests := |scenarios| * 2;
    if requests > budget.maxRequests {
      return Err(RequestBudget);
    }
    var ids := Ids(scenarios);
    var shards := Distribute(ids, k);
    var flattened := Flatten(shards);
    SameCoverage(flattened, scenarios);
    if |flattened| != |set x | x in flattened| || (set x | x in flattened) != (set s | s in scenarios :: s.id) {
      return Err(Coverage);
    }
    assert |shards| == k by {
      HasShards(shards, ids, k);
    }
    outcome := Ok(Plan(shards, |scenarios|, requests));
  }

  /** Any rearrangement of the ids passes the coverage test unless an id repeats. */
  lemma SameCoverage(flattened: seq<string>, scenarios: seq<Scenario>)
    requires multiset(flattened) == multiset(Ids(scenarios))
    ensures (|flattened| != |set x | x in flattened| ||
             (set x | x in flattened) != (set s | s in scenarios :: s.id)) <==> !Distinct(Ids(scenarios))
  {
    var ids := Ids(scenarios);
    ElementsSize(flattened);
    assert Elements(flattened) == set x | x in flattened;
    assert Elements(flattened) == Elements(ids) by {
      forall x ensures x in flattened <==> x in ids {
        assert x in multiset(flattened) <==> x in multiset(ids);
      }
    }
    assert Elements(ids) == set s | s in scenarios :: s.id by {
      forall s | s in scenarios ensures s.id in ids {
        var i :| 0 <= i < |scenarios| && scenarios[i] == s;
        assert ids[i] == s.id;
      }
      forall x | x in ids ensures exists s :: s in scenarios && s.id == x {
        var i :| 0 <= i < |ids| && ids[i] == x;
        assert scenarios[i] in scenarios;
      }
    }
    DistinctPermuted(flattened, ids);
  }

  lemma DistinctPermuted(a: seq<string>, b: seq<string>)
    requires multiset(a) == multiset(b)
    ensures Distinct(a) <==> Distinct(b)
  {
    DistinctOneWay(a, b);
    DistinctOneWay(b, a);
  }

  lemma DistinctOneWay(a: seq<string>, b: seq<string>)
    requires multiset(a) == multiset(b)
    ensures Distinct(a) ==> Distinct(b)
  {
    if Distinct(a) {
      forall x | x in b ensures multiset(b)[x] == 1 {
        DistinctMultiset(a, x);
        assert x in multiset(a);
      }
      DistinctFromMultiset(b);
    }
  }
}
