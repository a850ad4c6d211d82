/** The request handler as one run of the concurrent machine (deploy/embedder/server.py:
    `embeddings` and `_encode_into` under `_gpu`): what `EmbedServer` says of a request
    served alone is what `DeviceLock` lets that request do while it holds the lock. */
module Refinement {
  import opened Basics
  import opened Device
  import opened Encoding
  import opened EmbedServer
  import opened DeviceLock

  /** The same events, all of request `r`. */
  function By(r: nat, events: seq<Event>): (t: seq<(nat, Event)>)
    ensures |t| == |events|
  {
    seq(|events|, i requires 0 <= i < |events| => (r, events[i]))
  }

  /** `t` is reached from `s` by the events of request `r`. */
  ghost predicate Reaches(s: State, r: nat, events: seq<Event>, t: State) {
    Run(s, By(r, events)) == Some(t)
  }

  lemma Stay(s: State, r: nat)
    ensures Reaches(s, r, [], s)
  {
  }

  lemma Then(s: State, r: nat, events: seq<Event>, t: State, ev: Event, u: State)
    requires Reaches(s, r, events, t) && Step(t, r, ev) == Some(u)
    ensures Reaches(s, r, events + [ev], u)
  {
    var all := By(r, events + [ev]);
    assert all[..|all| - 1] == By(r, events);
  }

  /** The state before the last event. */
  lemma LastOf(t: State, r: nat, b: seq<Event>, u: State) returns (v: State)
    requires b != [] && Reaches(t, r, b, u)
    ensures Reaches(t, r, b[..|b| - 1], v) && Step(v, r, b[|b| - 1]) == Some(u)
  {
    var m := |b| - 1;
    assert By(r, b)[..m] == By(r, b[..m]) && By(r, b)[m] == (r, b[m]);
    v := Run(t, By(r, b[..m])).value;
  }

  lemma {:induction false} AppendSnoc(a: seq<Event>, b: seq<Event>)
    requires b != []
    ensures a + b == (a + b[..|b| - 1]) + [b[|b| - 1]]
  {
  }

  lemma {:induction false} ThenAll(s: State, r: nat, a: seq<Event>, t: State, b: seq<Event>, u: State)
    requires Reaches(s, r, a, t) && Reaches(t, r, b, u)
    ensures Reaches(s, r, a + b, u)
  {
    if b == [] {
      assert a + b == a && By(r, b) == [];
    } else {
      var m := |b| - 1;
      var v := LastOf(t, r, b, u);
      ThenAll(s, r, a, t, b[..m], v);
      Then(s, r, a + b[..m], v, b[m], u);
      AppendSnoc(a, b);
    }
  }

  /** The state with request `r` replaced, and the lock and the weights as given. */
  function With(s: State, r: nat, q: Request, weights: seq<DType>, lock: Option<nat>): State
    requires r < |s.requests|
  {
    State(lock, weights, s.requests[r := q])
  }

  lemma WithTwice(s: State, r: nat, q: Request, weights: seq<DType>, lock: Option<nat>, q': Request, weights': seq<DType>, lock': Option<nat>)
    requires r < |s.requests|
    ensures With(With(s, r, q, weights, lock), r, q', weights', lock') == With(s, r, q', weights', lock')
  {
  }

  /** Request `r` holds the lock and is in phase `p`. */
  predicate Holds(s: State, r: nat, p: Phase) {
    r < |s.requests| && s.lock == Some(r) && s.requests[r].phase == p
  }

  lemma OneStep(s: State, r: nat, ev: Event)
    requires r < |s.requests| && s.lock == Some(r) && Act(s.requests[r], s.weights, ev).Some?
    requires !Act(s.requests[r], s.weights, ev).value.move.Take?
    ensures var fx := Act(s.requests[r], s.weights, ev).value;
      Step(s, r, ev) == Some(With(s, r, fx.request, fx.weights, if fx.move.Drop? then None else Some(r)))
  {
  }

  /** Converting the weights before `to`, one by one. */
  lemma {:induction false} CastSteps(s: State, r: nat, g: seq<nat>, todo: seq<seq<nat>>, original: DType, to: nat)
    returns (events: seq<Event>)
    requires Holds(s, r, Casting(g, todo, original, 0)) && CanWrite(s.requests[r], g) && to <= |s.weights|
    ensures Reaches(s, r, events,
      With(s, r, s.requests[r].(phase := Casting(g, todo, original, to)), CastTo(s.weights, Fp32, Some(to)), Some(r)))
  {
    events := [];
    var q := s.requests[r];
    if to == 0 {
      assert CastTo(s.weights, Fp32, Some(0)) == s.weights;
      assert With(s, r, q.(phase := Casting(g, todo, original, 0)), s.weights, Some(r)) == s;
      Stay(s, r);
    } else {
      events := CastSteps(s, r, g, todo, original, to - 1);
      var t := With(s, r, q.(phase := Casting(g, todo, original, to - 1)), CastTo(s.weights, Fp32, Some(to - 1)), Some(r));
      OneStep(t, r, CastWeight);
      WithTwice(s, r, t.requests[r], t.weights, t.lock, q.(phase := Casting(g, todo, original, to)), CastTo(s.weights, Fp32, Some(to)), Some(r));
      assert CastTo(s.weights, Fp32, Some(to - 1))[to - 1 := Fp32] == CastTo(s.weights, Fp32, Some(to));
      Then(s, r, events, t, CastWeight,
        With(s, r, q.(phase := Casting(g, todo, original, to)), CastTo(s.weights, Fp32, Some(to)), Some(r)));
      events := events + [CastWeight];
    }
  }

  lemma {:induction false} RestoreSteps(
    s: State, r: nat, g: seq<nat>, todo: seq<seq<nat>>, original: DType, rows: Option<seq<Vector>>, to: nat)
    returns (events: seq<Event>)
    requires Holds(s, r, Restoring(g, todo, original, 0, rows)) && to <= |s.weights|
    ensures Reaches(s, r, events,
      With(s, r, s.requests[r].(phase := Restoring(g, todo, original, to, rows)), CastTo(s.weights, original, Some(to)), Some(r)))
  {
    events := [];
    var q := s.requests[r];
    if to == 0 {
      assert CastTo(s.weights, original, Some(0)) == s.weights;
      assert With(s, r, q.(phase := Restoring(g, todo, original, 0, rows)), s.weights, Some(r)) == s;
      Stay(s, r);
    } else {
      events := RestoreSteps(s, r, g, todo, original, rows, to - 1);
      var t := With(s, r, q.(phase := Restoring(g, todo, original, to - 1, rows)), CastTo(s.weights, original, Some(to - 1)), Some(r));
      OneStep(t, r, RestoreWeight);
      WithTwice(s, r, t.requests[r], t.weights, t.lock, q.(phase := Restoring(g, todo, original, to, rows)), CastTo(s.weights, original, Some(to)), Some(r));
      assert CastTo(s.weights, original, Some(to - 1))[to - 1 := original] == CastTo(s.weights, original, Some(to));
      Then(s, r, events, t, RestoreWeight,
        With(s, r, q.(phase := Restoring(g, todo, original, to, rows)), CastTo(s.weights, original, Some(to)), Some(r)));
      events := events + [RestoreWeight];
    }
  }

  /** How many weights a cast gets to. */
  function Reached(stop: Option<nat>, n: nat): nat {
    if stop.Some? && stop.value < n then stop.value else n
  }

  lemma ReachedIsCast(weights: seq<DType>, dtype: DType, stop: Option<nat>)
    ensures CastTo(weights, dtype, Some(Reached(stop, |weights|))) == CastTo(weights, dtype, stop)
  {
  }

  /** The `try`: to the point where the `finally` begins. */
  lemma TrySteps(d: Device, clock: nat, s: State, r: nat, g: seq<nat>, todo: seq<seq<nat>>, original: DType)
    returns (events: seq<Event>, rows: Option<seq<Vector>>)
    requires Holds(s, r, Casting(g, todo, original, 0)) && CanWrite(s.requests[r], g)
    ensures var stop, asked := d.cast(clock, Fp32), TextsOf(s.requests[r].texts, g);
      var ran := if stop.None? then d.run(clock + 1, asked, HalfBatch(|asked|), CastTo(s.weights, Fp32, stop)) else Raised;
      rows == if ran.Computed? then Some(RowsOf(asked, ran.values)) else None
    ensures Reaches(s, r, events,
      With(s, r, s.requests[r].(phase := Restoring(g, todo, original, 0, rows)), CastTo(s.weights, Fp32, d.cast(clock, Fp32)), Some(r)))
  {
    var q, stop, n := s.requests[r], d.cast(clock, Fp32), |s.weights|;
    var asked, cast := TextsOf(q.texts, g), CastTo(s.weights, Fp32, stop);
    var to := Reached(stop, n);
    events := CastSteps(s, r, g, todo, original, to);
    ReachedIsCast(s.weights, Fp32, stop);
    var t := With(s, r, q.(phase := Casting(g, todo, original, to)), cast, Some(r));
    var ran := if stop.None? then d.run(clock + 1, asked, HalfBatch(|asked|), cast) else Raised;
    rows := if ran.Computed? then Some(RowsOf(asked, ran.values)) else None;
    var ev := if stop.Some? then CastRaises else RunFullPass(ran);
    OneStep(t, r, ev);
    var after := q.(phase := Restoring(g, todo, original, 0, rows));
    WithTwice(s, r, t.requests[r], cast, Some(r), after, cast, Some(r));
    Then(s, r, events, t, ev, With(s, r, after, cast, Some(r)));
    events := events + [ev];
  }

  /** Where a group leaves the request: at the next one, or out of the lock with an error. */
  function After(s: State, r: nat, error: Option<Failure>, weights: seq<DType>, out: seq<Option<Vector>>, todo: seq<seq<nat>>): State
    requires r < |s.requests|
  {
    var texts := s.requests[r].texts;
    if error.None? then With(s, r, Request(texts, out, Working(todo)), weights, Some(r))
    else With(s, r, Request(texts, out, Errored), weights, None)
  }

  /** The `finally` and what follows it. */
  lemma FinallySteps(
    s: State, r: nat, g: seq<nat>, todo: seq<seq<nat>>, original: DType, rows: Option<seq<Vector>>, back: Option<nat>)
    returns (events: seq<Event>)
    requires Holds(s, r, Restoring(g, todo, original, 0, rows)) && CanWrite(s.requests[r], g)
    requires rows.Some? ==> |rows.value| == |g|
    ensures var ok := back.None? && rows.Some? && EveryRowFinite(rows.value);
      var q, restored := s.requests[r], CastTo(s.weights, original, back);
      Reaches(s, r, events,
        if ok then After(s, r, None, restored, Write(q.out, g, rows.value), todo)
        else With(s, r, q.(phase := Errored), restored, None))
  {
    var q, restored, to := s.requests[r], CastTo(s.weights, original, back), Reached(back, |s.weights|);
    events := RestoreSteps(s, r, g, todo, original, rows, to);
    ReachedIsCast(s.weights, original, back);
    var t := With(s, r, q.(phase := Restoring(g, todo, original, to, rows)), restored, Some(r));
    var ev := if back.Some? then RestoreRaises else Resume;
    OneStep(t, r, ev);
    var fx := Act(t.requests[r], t.weights, ev).value;
    var lock := if fx.move.Drop? then None else Some(r);
    WithTwice(s, r, t.requests[r], restored, Some(r), fx.request, fx.weights, lock);
    Then(s, r, events, t, ev, With(s, r, fx.request, fx.weights, lock));
    events := events + [ev];
  }

  lemma RecomputeSteps(d: Device, clock: nat, s: State, r: nat, g: seq<nat>, todo: seq<seq<nat>>)
    returns (events: seq<Event>)
    requires s.weights != [] && Holds(s, r, Casting(g, todo, s.weights[0], 0)) && CanWrite(s.requests[r], g)
    ensures var q := s.requests[r];
      var again := Recompute(d, clock, s.weights, TextsOf(q.texts, g));
      Reaches(s, r, events,
        if again.error.None? then After(s, r, None, again.weights, Write(q.out, g, again.rows), todo)
        else After(s, r, again.error, again.weights, q.out, todo))
  {
    var q, original := s.requests[r], s.weights[0];
    var rows, more;
    events, rows := TrySteps(d, clock, s, r, g, todo, original);
    var stop := d.cast(clock, Fp32);
    var cast := CastTo(s.weights, Fp32, stop);
    var t := With(s, r, q.(phase := Restoring(g, todo, original, 0, rows)), cast, Some(r));
    var back := d.cast(if stop.None? then clock + 2 else clock + 1, original);
    more := FinallySteps(t, r, g, todo, original, rows, back);
    var restored := CastTo(cast, original, back);
    if back.None? && rows.Some? && EveryRowFinite(rows.value) {
      var after := Request(q.texts, Write(q.out, g, rows.value), Working(todo));
      WithTwice(s, r, t.requests[r], cast, Some(r), after, restored, Some(r));
      ThenAll(s, r, events, t, more, With(s, r, after, restored, Some(r)));
    } else {
      WithTwice(s, r, t.requests[r], cast, Some(r), q.(phase := Errored), restored, None);
      ThenAll(s, r, events, t, more, With(s, r, q.(phase := Errored), restored, None));
    }
    events := events + more;
  }

  /** Where the first pass over a group leaves the request. */
  function PassLeadsTo(s: State, r: nat, g: seq<nat>, todo: seq<seq<nat>>, ran: Pass): State
    requires s.weights != [] && r < |s.requests| && CanWrite(s.requests[r], g)
  {
    var q := s.requests[r];
    match ran
    case OutOfMemory =>
      if |g| == 1 then After(s, r, Some(DeviceOutOfMemory), s.weights, q.out, todo)
      else With(s, r, q.(phase := Working([g[..|g| / 2], g[|g| / 2..]] + todo)), s.weights, Some(r))
    case Raised => After(s, r, Some(DeviceRaised), s.weights, q.out, todo)
    case Computed(values) =>
      var rows := RowsOf(TextsOf(q.texts, g), values);
      if EveryRowFinite(rows) then After(s, r, None, s.weights, Write(q.out, g, rows), todo)
      else With(s, r, q.(phase := Casting(g, todo, s.weights[0], 0)), s.weights, Some(r))
  }

  lemma ActPassLeads(s: State, r: nat, g: seq<nat>, todo: seq<seq<nat>>, ran: Pass)
    requires s.weights != [] && r < |s.requests| && CanWrite(s.requests[r], g)
    ensures ActPass(s.requests[r], s.weights, g, todo, ran).Some?
    ensures var fx := ActPass(s.requests[r], s.weights, g, todo, ran).value;
      !fx.move.Take? &&
      With(s, r, fx.request, fx.weights, if fx.move.Drop? then None else Some(r)) == PassLeadsTo(s, r, g, todo, ran)
  {
  }

  lemma PassStep(s: State, r: nat, g: seq<nat>, todo: seq<seq<nat>>, ran: Pass)
    requires s.weights != [] && Holds(s, r, Working([g] + todo)) && CanWrite(s.requests[r], g)
    ensures Step(s, r, RunPass(ran)) == Some(PassLeadsTo(s, r, g, todo, ran))
  {
    assert ([g] + todo)[0] == g && ([g] + todo)[1..] == todo;
    ActPassLeads(s, r, g, todo, ran);
    assert Act(s.requests[r], s.weights, RunPass(ran)) == ActPass(s.requests[r], s.weights, g, todo, ran);
    OneStep(s, r, RunPass(ran));
  }

  lemma AfterPhase(s: State, r: nat, p: Phase, error: Option<Failure>, w: seq<DType>, out: seq<Option<Vector>>, todo: seq<seq<nat>>)
    requires r < |s.requests|
    ensures After(With(s, r, s.requests[r].(phase := p), s.weights, Some(r)), r, error, w, out, todo) ==
      After(s, r, error, w, out, todo)
  {
  }

  lemma OneEvent(s: State, r: nat, ev: Event, t: State)
    requires Step(s, r, ev) == Some(t)
    ensures Reaches(s, r, [ev], t)
  {
    Stay(s, r);
    Then(s, r, [], s, ev, t);
  }

  /** One group: what `EncodeGroup` says of it, halvings and recomputes included, is
      what the machine can do with it. */
  lemma {:induction false} GroupSteps(d: Device, clock: nat, s: State, r: nat, g: seq<nat>, todo: seq<seq<nat>>)
    returns (events: seq<Event>)
    requires s.weights != [] && Holds(s, r, Working([g] + todo)) && CanWrite(s.requests[r], g)
    ensures var q := s.requests[r];
      var r' := EncodeGroup(d, clock, s.weights, q.out, q.texts, g);
      Reaches(s, r, events, After(s, r, r'.error, r'.weights, r'.out, todo))
    decreases |g|
  {
    var q := s.requests[r];
    var r' := EncodeGroup(d, clock, s.weights, q.out, q.texts, g);
    var done := After(s, r, r'.error, r'.weights, r'.out, todo);
    var ran := d.run(clock, TextsOf(q.texts, g), |g|, s.weights);
    PassStep(s, r, g, todo, ran);
    var t := Step(s, r, RunPass(ran)).value;
    OneEvent(s, r, RunPass(ran), t);
    events := [RunPass(ran)];
    if ran.OutOfMemory? && |g| > 1 {
      var p := Working([g[..|g| / 2], g[|g| / 2..]] + todo);
      var more := HalvesSteps(d, clock + 1, t, r, g, todo);
      AfterPhase(s, r, p, r'.error, r'.weights, r'.out, todo);
      ThenAll(s, r, events, t, more, done);
      events := events + more;
    } else if ran.Computed? && !EveryRowFinite(RowsOf(TextsOf(q.texts, g), ran.values)) {
      var p := Casting(g, todo, s.weights[0], 0);
      var more := RecomputeSteps(d, clock + 1, t, r, g, todo);
      AfterPhase(s, r, p, r'.error, r'.weights, r'.out, todo);
      ThenAll(s, r, events, t, more, done);
      events := events + more;
    }
  }

  lemma {:induction false} HalvesSteps(d: Device, clock: nat, t: State, r: nat, g: seq<nat>, todo: seq<seq<nat>>)
    returns (events: seq<Event>)
    requires t.weights != [] && |g| > 1
    requires Holds(t, r, Working([g[..|g| / 2], g[|g| / 2..]] + todo)) && CanWrite(t.requests[r], g)
    ensures var q := t.requests[r];
      var first := EncodeGroup(d, clock, t.weights, q.out, q.texts, g[..|g| / 2]);
      var last := if first.error.Some? then first else EncodeGroup(d, first.clock, first.weights, first.out, q.texts, g[|g| / 2..]);
      Reaches(t, r, events, After(t, r, last.error, last.weights, last.out, todo))
    decreases |g|, 0
  {
    var q, a, b := t.requests[r], g[..|g| / 2], g[|g| / 2..];
    assert [a, b] + todo == [a] + ([b] + todo);
    events := GroupSteps(d, clock, t, r, a, [b] + todo);
    var first := EncodeGroup(d, clock, t.weights, q.out, q.texts, a);
    if first.error.None? {
      var u := After(t, r, None, first.weights, first.out, [b] + todo);
      var more := GroupSteps(d, first.clock, u, r, b, todo);
      var last := EncodeGroup(d, first.clock, first.weights, first.out, q.texts, b);
      AfterTwice(t, r, first.weights, first.out, [b] + todo, last.error, last.weights, last.out, todo);
      ThenAll(t, r, events, u, more, After(t, r, last.error, last.weights, last.out, todo));
      events := events + more;
    }
  }

  lemma AfterTwice(
    s: State, r: nat, w: seq<DType>, out: seq<Option<Vector>>, todo: seq<seq<nat>>,
    error: Option<Failure>, w': seq<DType>, out': seq<Option<Vector>>, todo': seq<seq<nat>>)
    requires r < |s.requests|
    ensures After(After(s, r, None, w, out, todo), r, error, w', out', todo') == After(s, r, error, w', out', todo')
  {
  }

  lemma NextGroup(
    d: Device, before: Effect, s: State, r: nat, events: seq<Event>, g: seq<nat>, todo: seq<seq<nat>>)
    returns (events': seq<Event>)
    requires r < |s.requests| && before.error.None? && before.weights != [] && |before.out| == |s.requests[r].texts|
    requires UsableGroup(g, |s.requests[r].texts|)
    requires Reaches(s, r, events, After(s, r, None, before.weights, before.out, [g] + todo))
    ensures var last := EncodeGroup(d, before.clock, before.weights, before.out, s.requests[r].texts, g);
      Reaches(s, r, events', After(s, r, last.error, last.weights, last.out, todo))
  {
    var t := After(s, r, None, before.weights, before.out, [g] + todo);
    var more := GroupSteps(d, before.clock, t, r, g, todo);
    var last := EncodeGroup(d, before.clock, before.weights, before.out, s.requests[r].texts, g);
    AfterTwice(s, r, before.weights, before.out, [g] + todo, last.error, last.weights, last.out, todo);
    ThenAll(s, r, events, t, more, After(s, r, last.error, last.weights, last.out, todo));
    events' := events + more;
  }

  /** The events so far are those of the first `n` groups. */
  ghost predicate Encoded(d: Device, clock: nat, s: State, r: nat, plan: seq<seq<nat>>, n: nat, events: seq<Event>)
    requires s.weights != [] && r < |s.requests| && n <= |plan| && UsableGroups(plan, |s.requests[r].texts|)
  {
    var r' := EncodeAll(d, clock, s.weights, s.requests[r].texts, plan[..n]);
    Reaches(s, r, events, After(s, r, r'.error, r'.weights, r'.out, plan[n..]))
  }

  lemma {:induction false} NoGroupYet(d: Device, clock: nat, s: State, r: nat, plan: seq<seq<nat>>)
    requires s.weights != [] && Holds(s, r, Working(plan)) && UsableGroups(plan, |s.requests[r].texts|)
    requires s.requests[r].out == NoSlots(|s.requests[r].texts|)
    ensures Encoded(d, clock, s, r, plan, 0, [])
  {
    Stay(s, r);
    assert plan[..0] == [] && plan[0..] == plan;
    assert EncodeAll(d, clock, s.weights, s.requests[r].texts, plan[..0]).out == s.requests[r].out;
    assert After(s, r, None, s.weights, s.requests[r].out, plan).requests == s.requests;
  }

  lemma {:induction false} PlanStep(d: Device, clock: nat, s: State, r: nat, plan: seq<seq<nat>>, n: nat, events: seq<Event>)
    returns (events': seq<Event>)
    requires s.weights != [] && r < |s.requests| && n < |plan| && UsableGroups(plan, |s.requests[r].texts|)
    requires Encoded(d, clock, s, r, plan, n, events)
    ensures Encoded(d, clock, s, r, plan, n + 1, events')
  {
    var before := EncodeAll(d, clock, s.weights, s.requests[r].texts, plan[..n]);
    var after := EncodeAll(d, clock, s.weights, s.requests[r].texts, plan[..n + 1]);
    OneGroupMore(d, clock, s.weights, s.requests[r].texts, plan, n);
    events' := events;
    if before.error.None? {
      assert plan[n..] == [plan[n]] + plan[n + 1..];
      events' := NextGroup(d, before, s, r, events, plan[n], plan[n + 1..]);
    }
    assert Reaches(s, r, events', After(s, r, after.error, after.weights, after.out, plan[n + 1..]));
  }

  /** The loop over the groups. */
  lemma {:induction false} PlanSteps(d: Device, clock: nat, s: State, r: nat, plan: seq<seq<nat>>, n: nat)
    returns (events: seq<Event>)
    requires s.weights != [] && n <= |plan| && Holds(s, r, Working(plan)) && UsableGroups(plan, |s.requests[r].texts|)
    requires s.requests[r].out == NoSlots(|s.requests[r].texts|)
    ensures Encoded(d, clock, s, r, plan, n, events)
  {
    if n == 0 {
      events := [];
      NoGroupYet(d, clock, s, r, plan);
    } else {
      events := PlanSteps(d, clock, s, r, plan, n - 1);
      events := PlanStep(d, clock, s, r, plan, n - 1, events);
    }
  }

  /** A request served alone is a run of the machine: from a free lock, by its own steps
      only, it ends answered with the slots, or in an error, and with the weights, that
      the request handler computes for the same device and the same plan. */
  lemma RequestIsARun(d: Device, clock: nat, s: State, r: nat, plan: seq<seq<nat>>) returns (events: seq<Event>)
    requires s.weights != [] && r < |s.requests| && s.lock.None? && s.requests[r].phase.Waiting?
    requires s.requests[r].out == NoSlots(|s.requests[r].texts|) && IsPlan(plan, |s.requests[r].texts|)
    ensures var texts := s.requests[r].texts;
      var r' := EncodeAll(d, clock, s.weights, texts, plan);
      Reaches(s, r, events,
        With(s, r, Request(texts, r'.out, if r'.error.None? then Answered else Errored), r'.weights, None))
  {
    var q := s.requests[r];
    Stay(s, r);
    var t := With(s, r, q.(phase := Working(plan)), s.weights, Some(r));
    Then(s, r, [], s, Acquire(plan), t);
    var more := PlanSteps(d, clock, t, r, plan, |plan|);
    assert plan[..|plan|] == plan && plan[|plan|..] == [];
    var r' := EncodeAll(d, clock, s.weights, q.texts, plan);
    var u := After(s, r, r'.error, r'.weights, r'.out, []);
    AfterPhase(s, r, Working(plan), r'.error, r'.weights, r'.out, []);
    ThenAll(s, r, [Acquire(plan)], t, more, u);
    events := [Acquire(plan)] + more;
    if r'.error.None? {
      OneStep(u, r, Release);
      var done := With(s, r, Request(q.texts, r'.out, Answered), r'.weights, None);
      assert Step(u, r, Release).value.requests == done.requests;
      Then(s, r, events, u, Release, done);
      events := events + [Release];
    }
  }

  /** The request handler, called with the lock free, does what request `r` of the machine
      does by its own steps: it answers with the request's slots or fails with its error,
      and leaves the same weights. */
  method ServeAlone(m: Model, texts: seq<string>, tokens: string -> nat, limits: Limits, ghost s: State, ghost r: nat)
    returns (resp: Response, ghost events: seq<Event>, ghost t: State)
    requires m.weights != [] && texts != []
    requires s.lock.None? && s.weights == m.weights
    requires r < |s.requests| && s.requests[r] == Request(texts, NoSlots(|texts|), Waiting)
    modifies m
    ensures Reaches(s, r, events, t) && t.lock.None? && t.weights == m.weights
    ensures |t.requests| == |s.requests| && forall q :: 0 <= q < |s.requests| && q != r ==> t.requests[q] == s.requests[q]
    ensures if resp.Rows? then t.requests[r].phase.Answered? else t.requests[r].phase.Errored?
    ensures resp.Rows? ==> |t.requests[r].out| == |resp.rows|
    ensures resp.Rows? ==> forall i :: 0 <= i < |resp.rows| ==> t.requests[r].out[i] == Some(resp.rows[i])
  {
    ghost var clock := m.clock;
    ghost var plan;
    resp, plan := Embeddings(m, texts, tokens, limits);
    events := RequestIsARun(m.device, clock, s, r, plan);
    t := Run(s, By(r, events)).value;
  }
}
