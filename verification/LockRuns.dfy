/** Whole runs of concurrent requests sharing one model (deploy/embedder/server.py: `_gpu`,
    `embeddings`, `_encode_into`), in any interleaving and under any faults. */
module LockRuns {
  import opened Basics
  import opened Grouping
  import opened Device
  import opened DeviceLock

  // ----- whole runs, on a model loaded in any mix of precisions -----

  /** The weights to come back to are those loaded, or, after a recompute, all in the
      precision of the first one. */
  ghost predicate Sound(s: State, loaded: seq<DType>) {
    loaded != [] && (Inv(s, loaded) || Inv(s, Flat(loaded)))
  }

  /** The one step that breaks the promise: a restore that raises part-way. */
  predicate LeavesCastWeights(s: State, ev: Event, loaded: seq<DType>)
    requires loaded != []
  {
    ev.RestoreRaises? && s.weights != loaded && s.weights != Flat(loaded)
  }

  lemma RaisingRestore(s: State, r: nat, base: seq<DType>, other: seq<DType>)
    requires Inv(s, base) && Step(s, r, RestoreRaises).Some? && other != []
    ensures Inv(Step(s, r, RestoreRaises).value, other) <==> s.weights == other
  {
    StepKeepsRequests(s, r, RestoreRaises);
    StepKeepsLock(s, r, RestoreRaises);
  }

  /** On a model loaded in any mix of precisions a step keeps the promise exactly when
      it is not a restore that raises with the weights neither as loaded nor all in the
      precision of the first one. */
  lemma StepStaysSoundExactly(s: State, r: nat, ev: Event, loaded: seq<DType>)
    requires Sound(s, loaded) && Step(s, r, ev).Some?
    ensures Sound(Step(s, r, ev).value, loaded) <==> !LeavesCastWeights(s, ev, loaded)
  {
    FlatIsSameExactly(loaded);
    var base := if Inv(s, loaded) then loaded else Flat(loaded);
    if ev.RestoreRaises? {
      RaisingRestore(s, r, base, loaded);
      RaisingRestore(s, r, base, Flat(loaded));
    } else if ev.Resume? {
      RestoreIsExact(s, r, base);
    } else {
      StepKeepsInvariantExactly(s, r, ev, base);
    }
  }

  /** Nobody has asked for the lock yet, and no slot is filled. */
  ghost predicate Idle(s: State) {
    s.lock.None? &&
    forall r :: 0 <= r < |s.requests| ==>
      s.requests[r].phase.Waiting? && |s.requests[r].out| == |s.requests[r].texts| &&
      forall i :: 0 <= i < |s.requests[r].out| ==> s.requests[r].out[i].None?
  }

  ghost predicate Initial(s: State, loaded: seq<DType>) {
    Idle(s) && s.weights == loaded != []
  }

  /** The run is possible and no step of it is a raising restore that leaves cast weights. */
  ghost predicate CleanRun(s: State, events: seq<(nat, Event)>, loaded: seq<DType>)
    requires loaded != []
  {
    if events == [] then true
    else
      var before := Run(s, events[..|events| - 1]);
      CleanRun(s, events[..|events| - 1], loaded) && before.Some? && Run(s, events).Some? &&
      !LeavesCastWeights(before.value, events[|events| - 1].1, loaded)
  }

  lemma {:induction false} RunStaysSound(s: State, events: seq<(nat, Event)>, loaded: seq<DType>)
    requires Initial(s, loaded) && CleanRun(s, events, loaded)
    ensures Run(s, events).Some? && Sound(Run(s, events).value, loaded)
  {
    if events != [] {
      var m := |events| - 1;
      RunStaysSound(s, events[..m], loaded);
      StepStaysSoundExactly(Run(s, events[..m]).value, events[m].0, events[m].1, loaded);
    }
  }

  /** After any clean run, whoever starts an ordinary pass holds the lock and sees the
      weights as loaded or, after a recompute, all in the precision of the first one;
      on a model of one precision these are the same. Whoever starts a recompute holds
      the lock and sees every weight in full precision. */
  lemma NoPassOnAModelCastByAnother(s: State, events: seq<(nat, Event)>, loaded: seq<DType>, r: nat, outcome: Pass)
    requires Initial(s, loaded) && CleanRun(s, events, loaded)
    ensures Run(s, events).Some?
    ensures var t := Run(s, events).value;
      Step(t, r, RunPass(outcome)).Some? ==> t.lock == Some(r) && (t.weights == loaded || t.weights == Flat(loaded))
    ensures var t := Run(s, events).value;
      Step(t, r, RunPass(outcome)).Some? && Uniform(loaded) ==> t.weights == loaded
    ensures var t := Run(s, events).value;
      Step(t, r, RunFullPass(outcome)).Some? ==> t.lock == Some(r) && AllAt(t.weights, Fp32)
  {
    RunStaysSound(s, events, loaded);
    FlatIsSameExactly(loaded);
    var t := Run(s, events).value;
    if Inv(t, loaded) {
      PassSeesBase(t, loaded, r, outcome);
    } else {
      PassSeesBase(t, Flat(loaded), r, outcome);
    }
  }

  lemma PassSeesBase(t: State, base: seq<DType>, r: nat, outcome: Pass)
    requires Inv(t, base)
    ensures Step(t, r, RunPass(outcome)).Some? ==> t.lock == Some(r) && t.weights == base
    ensures Step(t, r, RunFullPass(outcome)).Some? ==> t.lock == Some(r) && AllAt(t.weights, Fp32)
  {
    if r < |t.requests| {
      assert Inside(t.requests[r].phase) ==> t.lock == Some(r);
    }
  }

  lemma {:induction false} RunKeepsRequestsAndLock(s: State, events: seq<(nat, Event)>)
    requires Idle(s) && Run(s, events).Some?
    ensures RequestsOk(Run(s, events).value) && LockOk(Run(s, events).value)
  {
    if events != [] {
      var m := |events| - 1;
      RunKeepsRequestsAndLock(s, events[..m]);
      StepKeepsRequests(Run(s, events[..m]).value, events[m].0, events[m].1);
      StepKeepsLock(Run(s, events[..m]).value, events[m].0, events[m].1);
    }
  }

  /** After any run at all, an answered request has, in every slot, a finite
      vector of the text in that slot. */
  lemma EveryAnswerIsAligned(s: State, events: seq<(nat, Event)>, r: nat, i: nat)
    requires Idle(s) && Run(s, events).Some?
    ensures var t := Run(s, events).value;
      r < |t.requests| && t.requests[r].phase.Answered? && i < |t.requests[r].texts| ==>
        |t.requests[r].out| == |t.requests[r].texts| && t.requests[r].out[i].Some? &&
        Proper(t.requests[r].out[i].value, t.requests[r].texts[i])
  {
    RunKeepsRequestsAndLock(s, events);
    if r < |Run(s, events).value.requests| {
      assert RequestOk(Run(s, events).value.requests[r]);
    }
  }

  // ----- progress -----

  /** Some step is enabled other than an exception in a cast. */
  ghost predicate CanStep(s: State, r: nat) {
    exists ev: Event :: !ev.CastRaises? && !ev.RestoreRaises? && Step(s, r, ev).Some?
  }

  ghost predicate AllEnded(s: State) {
    s.lock.None? && forall r :: 0 <= r < |s.requests| ==> Ended(s.requests[r].phase)
  }

  lemma OneGroupPerText(n: nat) returns (plan: seq<seq<nat>>)
    ensures IsPlan(plan, n)
  {
    plan := seq(n, i requires 0 <= i < n => [i]);
    forall i: nat | i < n ensures InSomePass(plan, i) {
      assert i in plan[i];
    }
  }

  lemma HolderCanStep(t: State)
    requires LockOk(t) && RequestsOk(t) && t.lock.Some?
    ensures CanStep(t, t.lock.value)
  {
    var h := t.lock.value;
    var q := t.requests[h];
    assert RequestOk(q);
    match q.phase {
      case Working(todo) => assert Step(t, h, if todo == [] then Release else RunPass(Raised)).Some?;
      case Casting(_, _, _, k) =>
        assert Step(t, h, if k < |t.weights| then CastWeight else RunFullPass(Raised)).Some?;
      case Restoring(_, _, _, k, _) =>
        assert Step(t, h, if k < |t.weights| then RestoreWeight else Resume).Some?;
    }
  }

  /** After any run at all, raising restores included, either every request has ended
      and the lock is free, or some request can step: every exit drops the lock. */
  lemma NeverStuck(s: State, events: seq<(nat, Event)>)
    requires Idle(s) && Run(s, events).Some?
    ensures AllEnded(Run(s, events).value) || exists r :: CanStep(Run(s, events).value, r)
  {
    RunKeepsRequestsAndLock(s, events);
    var t := Run(s, events).value;
    if t.lock.Some? {
      HolderCanStep(t);
    } else if r :| 0 <= r < |t.requests| && t.requests[r].phase.Waiting? {
      var plan := OneGroupPerText(|t.requests[r].texts|);
      assert Step(t, r, Acquire(plan)).Some?;
      assert CanStep(t, r);
    }
  }

  // ----- what a raising restore does -----

  const OVERFLOW: Pass := Computed(_ => [NonFinite])

  /** Two requests of one text each, and the first one's recompute going wrong. */
  ghost function LeakState(k: nat): State {
    var q := Request(["t"], [None], Waiting);
    match k
    case 0 => State(None, [Bf16], [q, q])
    case 1 => State(Some(0), [Bf16], [q.(phase := Working([[0]])), q])
    case 2 => State(Some(0), [Bf16], [q.(phase := Casting([0], [], Bf16, 0)), q])
    case 3 => State(Some(0), [Fp32], [q.(phase := Casting([0], [], Bf16, 1)), q])
    case 4 => State(Some(0), [Fp32], [q.(phase := Restoring([0], [], Bf16, 0, None)), q])
    case 5 => State(None, [Fp32], [q.(phase := Errored), q])
    case _ => State(Some(1), [Fp32], [q.(phase := Errored), q.(phase := Working([[0]]))])
  }

  ghost function LeakEvent(k: nat): (nat, Event) {
    match k
    case 0 => (0, Acquire([[0]]))
    case 1 => (0, RunPass(OVERFLOW))
    case 2 => (0, CastWeight)
    case 3 => (0, RunFullPass(Raised))
    case 4 => (0, RestoreRaises)
    case _ => (1, Acquire([[0]]))
  }

  lemma LeakStep(k: nat)
    requires k < 6
    ensures Step(LeakState(k), LeakEvent(k).0, LeakEvent(k).1) == Some(LeakState(k + 1))
  {
    var plan: seq<seq<nat>> := [[0]];
    if k == 0 || k == 5 {
      assert 0 in plan[0] && InSomePass(plan, 0) && IsPlan(plan, 1);
    } else if k == 1 {
      assert plan[1..] == [] && plan[0] == [0];
      assert RowsOf(TextsOf(["t"], [0]), OVERFLOW.values)[0].values[0] == NonFinite;
    } else if k == 2 {
      assert LeakState(2).weights[0 := Fp32] == [Fp32];
    }
    assert Step(LeakState(k), LeakEvent(k).0, LeakEvent(k).1).value.requests == LeakState(k + 1).requests;
  }

  lemma {:induction false} LeakRun(k: nat) returns (events: seq<(nat, Event)>)
    requires k <= 6
    ensures Run(LeakState(0), events) == Some(LeakState(k))
  {
    events := [];
    if k > 0 {
      var before := LeakRun(k - 1);
      LeakStep(k - 1);
      events := before + [LeakEvent(k - 1)];
      assert events[..|events| - 1] == before;
    }
  }

  /** The promise really does depend on the restore: here one raises, the lock is
      released, and the next request may run an ordinary pass on the cast model. */
  lemma RaisingRestoreLeaksTheCast() returns (events: seq<(nat, Event)>)
    ensures Initial(LeakState(0), [Bf16]) && Run(LeakState(0), events).Some?
    ensures Step(Run(LeakState(0), events).value, 1, RunPass(OutOfMemory)).Some?
    ensures !AllAt(Run(LeakState(0), events).value.weights, Bf16)
  {
    events := LeakRun(6);
    assert LeakState(6).weights[0] == Fp32;
  }
}
