/** That serving requests ends (deploy/embedder/server.py, `_encode_into` under `_gpu`): a
    measure that every step of the machine uses up, and what follows for whole schedules. */
module Progress {
  import opened Device
  import opened DeviceLock
  import opened LockRuns

  /** Steps that encoding a group of `m` texts can take, at most: each of its halvings
      may need a recompute of all `n` weights. */
  function GroupCost(m: nat, n: nat): nat {
    if m == 0 then 0 else (2 * m - 1) * (2 * n + 5)
  }

  lemma HalvesCostLess(m: nat, n: nat)
    requires m > 1
    ensures GroupCost(m / 2, n) + GroupCost(m - m / 2, n) < GroupCost(m, n)
  {
    var a, b, c := m / 2, m - m / 2, 2 * n + 5;
    assert (2 * a - 1) * c + (2 * b - 1) * c == (2 * m - 2) * c;
    assert (2 * m - 1) * c == (2 * m - 2) * c + c;
  }

  lemma OneGroupCost(m: nat, n: nat)
    requires m > 0
    ensures GroupCost(m, n) >= 2 * n + 5
  {
    assert (2 * m - 1) * (2 * n + 5) >= 1 * (2 * n + 5);
  }

  function TodoCost(todo: seq<seq<nat>>, n: nat): nat {
    if todo == [] then 0 else GroupCost(|todo[0]|, n) + TodoCost(todo[1..], n)
  }

  lemma TodoCostOf(g: seq<nat>, todo: seq<seq<nat>>, n: nat)
    ensures TodoCost([g] + todo, n) == GroupCost(|g|, n) + TodoCost(todo, n)
  {
    assert ([g] + todo)[1..] == todo;
  }

  function Left(k: nat, n: nat): nat {
    if k < n then n - k else 0
  }

  /** Steps left to a request inside the lock. */
  function PhaseCost(p: Phase, n: nat): nat {
    match p
    case Working(todo) => TodoCost(todo, n) + 1
    case Casting(_, todo, _, k) => TodoCost(todo, n) + n + 4 + Left(k, n)
    case Restoring(_, todo, _, k, _) => TodoCost(todo, n) + 2 + Left(k, n)
    case _ => 0
  }

  function WaitCost(p: Phase): nat {
    if p.Waiting? then 1 else 0
  }

  lemma PassCostsLess(q: Request, weights: seq<DType>, g: seq<nat>, todo: seq<seq<nat>>, outcome: Pass)
    requires CanWrite(q, g) && ActPass(q, weights, g, todo, outcome).Some?
    ensures PhaseCost(ActPass(q, weights, g, todo, outcome).value.request.phase, |weights|) <
            PhaseCost(Working([g] + todo), |weights|)
  {
    var n := |weights|;
    TodoCostOf(g, todo, n);
    OneGroupCost(|g|, n);
    if outcome.OutOfMemory? && |g| > 1 {
      var a, b := g[..|g| / 2], g[|g| / 2..];
      assert [a, b] + todo == [a] + ([b] + todo);
      TodoCostOf(a, [b] + todo, n);
      TodoCostOf(b, todo, n);
      HalvesCostLess(|g|, n);
    }
  }

  /** Inside the lock every step leaves fewer steps; taking the lock leaves fewer waiting. */
  lemma ActCostsLess(q: Request, weights: seq<DType>, ev: Event)
    requires Act(q, weights, ev).Some?
    ensures var after, n := Act(q, weights, ev).value.request.phase, |weights|;
      WaitCost(after) < WaitCost(q.phase) || (WaitCost(after) == WaitCost(q.phase) && PhaseCost(after, n) < PhaseCost(q.phase, n))
  {
    if q.phase.Working? && q.phase.todo != [] {
      assert q.phase.todo == [q.phase.todo[0]] + q.phase.todo[1..];
      PassCostsLess(q, weights, q.phase.todo[0], q.phase.todo[1..], ev.outcome);
    }
  }

  ghost function WaitCosts(requests: seq<Request>): nat {
    if requests == [] then 0 else WaitCosts(requests[1..]) + WaitCost(requests[0].phase)
  }

  ghost function PhaseCosts(requests: seq<Request>, n: nat): nat {
    if requests == [] then 0 else PhaseCosts(requests[1..], n) + PhaseCost(requests[0].phase, n)
  }

  lemma {:induction false} CostsOfUpdate(requests: seq<Request>, r: nat, q: Request, n: nat)
    requires r < |requests|
    ensures WaitCosts(requests[r := q]) == WaitCosts(requests) - WaitCost(requests[r].phase) + WaitCost(q.phase)
    ensures PhaseCosts(requests[r := q], n) == PhaseCosts(requests, n) - PhaseCost(requests[r].phase, n) + PhaseCost(q.phase, n)
  {
    if r > 0 {
      assert requests[r := q][1..] == requests[1..][r - 1 := q];
      CostsOfUpdate(requests[1..], r - 1, q, n);
    } else {
      assert requests[r := q][1..] == requests[1..];
    }
  }

  lemma StepCostsLess(s: State, r: nat, ev: Event)
    requires Step(s, r, ev).Some?
    ensures var t, n := Step(s, r, ev).value, |s.weights|;
      |t.weights| == n &&
      (WaitCosts(t.requests) < WaitCosts(s.requests) ||
       (WaitCosts(t.requests) == WaitCosts(s.requests) && PhaseCosts(t.requests, n) < PhaseCosts(s.requests, n)))
  {
    ActCostsLess(s.requests[r], s.weights, ev);
    ActMovesTheLock(s.requests[r], s.weights, ev);
    CostsOfUpdate(s.requests, r, Act(s.requests[r], s.weights, ev).value.request, |s.weights|);
  }

  /** The first `n` events of an endless schedule. */
  function First(schedule: nat -> (nat, Event), n: nat): (r: seq<(nat, Event)>)
    ensures |r| == n
  {
    seq(n, i requires 0 <= i < n => schedule(i))
  }

  /** No run goes on for ever, whatever the schedule and the faults: the halving and
      the recomputes end. */
  lemma {:induction false} EveryRunEnds(s: State, schedule: nat -> (nat, Event), k: nat) returns (n: nat)
    requires Run(s, First(schedule, k)).Some?
    ensures n > k && Run(s, First(schedule, n)).None?
    decreases WaitCosts(Run(s, First(schedule, k)).value.requests),
      PhaseCosts(Run(s, First(schedule, k)).value.requests, |Run(s, First(schedule, k)).value.weights|)
  {
    n := k + 1;
    assert First(schedule, n)[..k] == First(schedule, k);
    if Run(s, First(schedule, n)).Some? {
      StepCostsLess(Run(s, First(schedule, k)).value, schedule(k).0, schedule(k).1);
      n := EveryRunEnds(s, schedule, n);
    }
  }

  /** A schedule that makes a step whenever some request can make one. */
  ghost predicate KeepsGoing(s: State, schedule: nat -> (nat, Event)) {
    forall k: nat :: Run(s, First(schedule, k)).Some? && (exists r :: CanStep(Run(s, First(schedule, k)).value, r)) ==>
      Run(s, First(schedule, k + 1)).Some?
  }

  lemma {:induction false} LastStep(s: State, schedule: nat -> (nat, Event), n: nat) returns (k: nat)
    requires Run(s, First(schedule, n)).None?
    ensures k < n && Run(s, First(schedule, k)).Some? && Run(s, First(schedule, k + 1)).None?
  {
    assert n == 0 ==> First(schedule, n) == [];
    if Run(s, First(schedule, n - 1)).Some? {
      k := n - 1;
    } else {
      k := LastStep(s, schedule, n - 1);
    }
  }

  /** Under any schedule that keeps going, whatever the interleaving and the faults,
      every request is answered or ends in an error, and the lock is free again. */
  lemma EveryRequestEnds(s: State, schedule: nat -> (nat, Event)) returns (n: nat)
    requires Idle(s) && KeepsGoing(s, schedule)
    ensures Run(s, First(schedule, n)).Some? && AllEnded(Run(s, First(schedule, n)).value)
  {
    assert First(schedule, 0) == [];
    n := EveryRunEnds(s, schedule, 0);
    n := LastStep(s, schedule, n);
    NeverStuck(s, First(schedule, n));
  }
}
