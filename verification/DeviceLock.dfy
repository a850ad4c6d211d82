/** Concurrent requests sharing one model (deploy/embedder/server.py: `_gpu`,
    `_model`, `embeddings`, `_encode_into`).

    A state machine over atomic steps: taking and releasing the lock, one
    forward pass, converting one weight. Requests interleave in any order and
    the device decides every outcome. Only taking the lock looks at the lock, so
    that nobody steps on a model somebody else has cast is an invariant, not
    part of the definition. */
module DeviceLock {
  import opened Basics
  import opened Grouping
  import opened Device

  datatype Phase =
    | Waiting
      // inside the lock: the groups still to encode
    | Working(todo: seq<seq<nat>>)
      // the recompute of `group`: weights before `k` are in full precision
    | Casting(group: seq<nat>, todo: seq<seq<nat>>, original: DType, k: nat)
      // the `finally`: weights before `k` are restored; `rows` is what the recompute gave
    | Restoring(group: seq<nat>, todo: seq<seq<nat>>, original: DType, k: nat, rows: Option<seq<Vector>>)
    | Answered
    | Errored

  datatype Request = Request(texts: seq<string>, out: seq<Option<Vector>>, phase: Phase)

  datatype State = State(lock: Option<nat>, weights: seq<DType>, requests: seq<Request>)

  datatype Event =
    | Acquire(plan: seq<seq<nat>>)
    | RunPass(outcome: Pass)
    | CastWeight
    | CastRaises
    | RunFullPass(outcome: Pass)
    | RestoreWeight
    | RestoreRaises
    | Resume
    | Release

  // ----- one step of one request -----

  datatype LockMove = Take | Keep | Drop

  /** What a step does to the request, to the weights and to the lock. */
  datatype Effects = Effects(request: Request, weights: seq<DType>, move: LockMove)

  function GoOn(q: Request, weights: seq<DType>, p: Phase): Option<Effects> {
    Some(Effects(q.(phase := p), weights, Keep))
  }

  /** Leaving the `with _gpu` block, normally or by an exception. */
  function Leave(q: Request, weights: seq<DType>, p: Phase): Option<Effects> {
    Some(Effects(q.(phase := p), weights, Drop))
  }

  predicate CanWrite(q: Request, g: seq<nat>) {
    |q.out| == |q.texts| && UsableGroup(g, |q.texts|)
  }

  function Store(q: Request, weights: seq<DType>, g: seq<nat>, rows: seq<Vector>, todo: seq<seq<nat>>): Option<Effects>
    requires CanWrite(q, g) && |rows| == |g|
  {
    Some(Effects(Request(q.texts, Write(q.out, g, rows), Working(todo)), weights, Keep))
  }

  /** None when the step is not enabled. */
  ghost function Act(q: Request, weights: seq<DType>, ev: Event): Option<Effects> {
    match q.phase
    case Waiting =>
      if ev.Acquire? && IsPlan(ev.plan, |q.texts|)
      then Some(Effects(q.(phase := Working(ev.plan)), weights, Take)) else None
    case Working(todo) =>
      if todo == [] then if ev.Release? then Leave(q, weights, Answered) else None
      else if ev.RunPass? && CanWrite(q, todo[0]) then ActPass(q, weights, todo[0], todo[1..], ev.outcome)
      else None
    case Casting(g, todo, original, k) => if CanWrite(q, g) then ActCast(q, weights, ev) else None
    case Restoring(g, todo, original, k, rows) => ActRestore(q, weights, ev)
    case _ => None
  }

  /** The first forward pass over a group, and where each outcome leads. */
  function ActPass(q: Request, weights: seq<DType>, g: seq<nat>, todo: seq<seq<nat>>, outcome: Pass): Option<Effects>
    requires CanWrite(q, g)
  {
    match outcome
    case OutOfMemory =>
      if |g| == 1 then Leave(q, weights, Errored)
      else GoOn(q, weights, Working([g[..|g| / 2], g[|g| / 2..]] + todo))
    case Raised => Leave(q, weights, Errored)
    case Computed(values) =>
      var rows := RowsOf(TextsOf(q.texts, g), values);
      if EveryRowFinite(rows) then Store(q, weights, g, rows, todo)
      else if weights == [] then None
      else GoOn(q, weights, Casting(g, todo, weights[0], 0))
  }

  /** Inside the `try`: the cast, weight by weight, and the pass in full precision. */
  function ActCast(q: Request, weights: seq<DType>, ev: Event): Option<Effects>
    requires q.phase.Casting? && CanWrite(q, q.phase.group)
  {
    var Casting(g, todo, original, k) := q.phase;
    if ev.CastRaises? then GoOn(q, weights, Restoring(g, todo, original, 0, None))
    else if k < |weights| then
      if ev.CastWeight? then GoOn(q, weights[k := Fp32], Casting(g, todo, original, k + 1)) else None
    else if ev.RunFullPass? then
      var rows := if ev.outcome.Computed? then Some(RowsOf(TextsOf(q.texts, g), ev.outcome.values)) else None;
      GoOn(q, weights, Restoring(g, todo, original, 0, rows))
    else None
  }

  /** The `finally`, and what follows it. */
  function ActRestore(q: Request, weights: seq<DType>, ev: Event): Option<Effects>
    requires q.phase.Restoring?
  {
    var Restoring(g, todo, original, k, rows) := q.phase;
    if ev.RestoreRaises? then Leave(q, weights, Errored)
    else if k < |weights| then
      if ev.RestoreWeight? then GoOn(q, weights[k := original], Restoring(g, todo, original, k + 1, rows)) else None
    else if !ev.Resume? then None
    else if rows.Some? && EveryRowFinite(rows.value) && |rows.value| == |g| && CanWrite(q, g)
    then Store(q, weights, g, rows.value, todo)
    else Leave(q, weights, Errored)
  }

  // ----- the machine -----

  function Moved(lock: Option<nat>, r: nat, move: LockMove): Option<nat> {
    match move
    case Take => Some(r)
    case Keep => lock
    case Drop => None
  }

  /** One atomic step of request `r`; None when the step is not enabled. */
  ghost function Step(s: State, r: nat, ev: Event): Option<State> {
    if r >= |s.requests| then None
    else
      match Act(s.requests[r], s.weights, ev)
      case None => None
      case Some(fx) =>
        if fx.move.Take? && s.lock.Some? then None
        else Some(State(Moved(s.lock, r, fx.move), fx.weights, s.requests[r := fx.request]))
  }

  ghost function Run(s: State, events: seq<(nat, Event)>): Option<State> {
    if events == [] then Some(s)
    else
      match Run(s, events[..|events| - 1])
      case None => None
      case Some(t) => Step(t, events[|events| - 1].0, events[|events| - 1].1)
  }

  // ----- the requests: rows belong to their texts -----

  /** Rows of the recompute, if any, belong to the group's texts. */
  predicate RowsMatch(texts: seq<string>, g: seq<nat>, rows: Option<seq<Vector>>) {
    UsableGroup(g, |texts|) &&
    (rows.Some? ==> |rows.value| == |g| && forall k :: 0 <= k < |g| ==> rows.value[k].text == texts[g[k]])
  }

  ghost predicate Covered(q: Request, todo: seq<seq<nat>>) {
    UsableGroups(todo, |q.texts|) &&
    forall i :: 0 <= i < |q.out| ==> q.out[i].Some? || InSomePass(todo, i)
  }

  /** Every slot written so far holds a finite vector of its own text. */
  predicate SlotsOk(q: Request) {
    |q.out| == |q.texts| && forall i :: 0 <= i < |q.out| && q.out[i].Some? ==> Proper(q.out[i].value, q.texts[i])
  }

  ghost predicate RequestOk(q: Request) {
    SlotsOk(q) &&
    match q.phase
    case Working(todo) => Covered(q, todo)
    case Casting(g, todo, _, _) => Covered(q, [g] + todo) && RowsMatch(q.texts, g, None)
    case Restoring(g, todo, _, _, rows) => Covered(q, [g] + todo) && RowsMatch(q.texts, g, rows)
    case Answered => forall i :: 0 <= i < |q.out| ==> q.out[i].Some?
    case _ => true
  }

  /** Needs nothing of the lock or the weights. */
  ghost predicate RequestsOk(s: State) {
    forall r :: 0 <= r < |s.requests| ==> RequestOk(s.requests[r])
  }

  lemma StoredRequest(q: Request, g: seq<nat>, rows: seq<Vector>, todo: seq<seq<nat>>)
    requires SlotsOk(q) && RowsMatch(q.texts, g, Some(rows)) && EveryRowFinite(rows)
    requires Covered(q, [g] + todo)
    ensures RequestOk(Request(q.texts, Write(q.out, g, rows), Working(todo)))
  {
    var out := Write(q.out, g, rows);
    forall i | 0 <= i < |out|
      ensures out[i].Some? ==> Proper(out[i].value, q.texts[i])
      ensures out[i].Some? || InSomePass(todo, i)
    {
      if i !in g && q.out[i].None? {
        var j :| 0 <= j < |[g] + todo| && i in ([g] + todo)[j];
        assert todo[j - 1] == ([g] + todo)[j];
      }
    }
    forall j | 0 <= j < |todo| ensures UsableGroup(todo[j], |q.texts|) {
      assert ([g] + todo)[j + 1] == todo[j];
    }
  }

  lemma HalvedRequest(q: Request, g: seq<nat>, todo: seq<seq<nat>>)
    requires Covered(q, [g] + todo) && |g| > 1
    ensures Covered(q, [g[..|g| / 2], g[|g| / 2..]] + todo)
  {
    var h := |g| / 2;
    var a, b := [g] + todo, [g[..h], g[h..]] + todo;
    assert a[0] == g && g == g[..h] + g[h..] && b[0] == g[..h] && b[1] == g[h..];
    forall j | 0 <= j < |b| ensures UsableGroup(b[j], |q.texts|) {
      assert j > 1 ==> b[j] == a[j - 1];
    }
    forall i | 0 <= i < |q.out| ensures q.out[i].Some? || InSomePass(b, i) {
      if q.out[i].None? {
        var j :| 0 <= j < |a| && i in a[j];
        assert j > 0 ==> b[j + 1] == a[j];
        assert j == 0 ==> i in b[0] || i in b[1];
      }
    }
  }

  lemma PassKeepsRequest(q: Request, weights: seq<DType>, g: seq<nat>, todo: seq<seq<nat>>, outcome: Pass)
    requires SlotsOk(q) && UsableGroup(g, |q.texts|) && Covered(q, [g] + todo)
    requires ActPass(q, weights, g, todo, outcome).Some?
    ensures RequestOk(ActPass(q, weights, g, todo, outcome).value.request)
  {
    if outcome.OutOfMemory? && |g| > 1 {
      HalvedRequest(q, g, todo);
    } else if outcome.Computed? {
      var rows := RowsOf(TextsOf(q.texts, g), outcome.values);
      if EveryRowFinite(rows) {
        StoredRequest(q, g, rows, todo);
      }
    }
  }

  lemma RestoreKeepsRequest(q: Request, weights: seq<DType>, ev: Event)
    requires RequestOk(q) && q.phase.Restoring? && ActRestore(q, weights, ev).Some?
    ensures RequestOk(ActRestore(q, weights, ev).value.request)
  {
    var rows := q.phase.rows;
    if ev.Resume? && rows.Some? && EveryRowFinite(rows.value) {
      StoredRequest(q, q.phase.group, rows.value, q.phase.todo);
    }
  }

  /** Every step keeps a request's rows with their texts, whatever the weights are. */
  lemma ActKeepsRequest(q: Request, weights: seq<DType>, ev: Event)
    requires RequestOk(q) && Act(q, weights, ev).Some?
    ensures RequestOk(Act(q, weights, ev).value.request)
  {
    match q.phase {
      case Working(todo) =>
        if todo != [] {
          assert todo == [todo[0]] + todo[1..];
          PassKeepsRequest(q, weights, todo[0], todo[1..], ev.outcome);
        } else {
          forall i | 0 <= i < |q.out| ensures q.out[i].Some? {
            assert !InSomePass(todo, i);
          }
        }
      case Restoring(_, _, _, _, _) => RestoreKeepsRequest(q, weights, ev);
      case _ =>
    }
  }

  lemma StepKeepsRequests(s: State, r: nat, ev: Event)
    requires RequestsOk(s) && Step(s, r, ev).Some?
    ensures RequestsOk(Step(s, r, ev).value)
  {
    ActKeepsRequest(s.requests[r], s.weights, ev);
  }

  // ----- the lock -----

  predicate Inside(p: Phase) {
    p.Working? || p.Casting? || p.Restoring?
  }

  predicate Ended(p: Phase) {
    p.Answered? || p.Errored?
  }

  /** Exactly the lock holder is inside. */
  ghost predicate LockOk(s: State) {
    (forall r :: 0 <= r < |s.requests| && Inside(s.requests[r].phase) ==> s.lock == Some(r)) &&
    (s.lock.Some? ==> s.lock.value < |s.requests| && Inside(s.requests[s.lock.value].phase))
  }

  /** The lock is taken on the way in and dropped on every way out. */
  lemma ActMovesTheLock(q: Request, weights: seq<DType>, ev: Event)
    requires Act(q, weights, ev).Some?
    ensures var fx := Act(q, weights, ev).value;
      match fx.move
      case Take => q.phase.Waiting? && Inside(fx.request.phase) && fx.weights == weights
      case Keep => Inside(q.phase) && Inside(fx.request.phase)
      case Drop => Inside(q.phase) && Ended(fx.request.phase) && fx.weights == weights
    ensures |Act(q, weights, ev).value.weights| == |weights| && Act(q, weights, ev).value.request.texts == q.texts
  {
  }

  lemma StepKeepsLock(s: State, r: nat, ev: Event)
    requires LockOk(s) && Step(s, r, ev).Some?
    ensures LockOk(Step(s, r, ev).value)
  {
    ActMovesTheLock(s.requests[r], s.weights, ev);
  }

  // ----- the weights -----

  /** What the weights look like while the holder is in phase `p`, on a model whose
      weights were `base` when no recompute was under way. */
  predicate WeightsMatch(weights: seq<DType>, p: Phase, base: seq<DType>) {
    |weights| == |base| != 0 &&
    match p
    case Casting(_, _, original, k) =>
      original == base[0] && k <= |base| &&
      forall j :: 0 <= j < |base| ==> weights[j] == if j < k then Fp32 else base[j]
    case Restoring(_, _, original, k, _) =>
      original == base[0] && k <= |base| && forall j :: 0 <= j < k ==> weights[j] == original
    case _ => weights == base
  }

  ghost predicate WeightsOk(s: State, base: seq<DType>) {
    base != [] &&
    if s.lock.Some? && s.lock.value < |s.requests| then WeightsMatch(s.weights, s.requests[s.lock.value].phase, base)
    else s.weights == base
  }

  ghost predicate Inv(s: State, base: seq<DType>) {
    LockOk(s) && RequestsOk(s) && WeightsOk(s, base)
  }

  /** The steps that end a recompute with weights other than those it began with. */
  predicate ChangesWeights(s: State, ev: Event, base: seq<DType>) {
    (ev.RestoreRaises? || ev.Resume?) && s.weights != base
  }

  lemma CastKeepsMatch(q: Request, weights: seq<DType>, ev: Event, base: seq<DType>)
    requires q.phase.Casting? && CanWrite(q, q.phase.group) && WeightsMatch(weights, q.phase, base)
    requires ActCast(q, weights, ev).Some?
    ensures var fx := ActCast(q, weights, ev).value; WeightsMatch(fx.weights, fx.request.phase, base)
  {
  }

  lemma RestoreKeepsMatch(q: Request, weights: seq<DType>, ev: Event, base: seq<DType>)
    requires q.phase.Restoring? && WeightsMatch(weights, q.phase, base) && ActRestore(q, weights, ev).Some?
    ensures var fx := ActRestore(q, weights, ev).value;
      WeightsMatch(fx.weights, fx.request.phase, base) <==> !((ev.RestoreRaises? || ev.Resume?) && weights != base)
    ensures ev.Resume? ==> weights == Flat(base)
  {
  }

  lemma ActKeepsMatchExactly(q: Request, weights: seq<DType>, ev: Event, base: seq<DType>)
    requires WeightsMatch(weights, q.phase, base) && Act(q, weights, ev).Some?
    ensures var fx := Act(q, weights, ev).value;
      WeightsMatch(fx.weights, fx.request.phase, base) <==> !((ev.RestoreRaises? || ev.Resume?) && weights != base)
    ensures ev.Resume? ==> weights == Flat(base)
  {
    match q.phase {
      case Casting(_, _, _, _) => CastKeepsMatch(q, weights, ev, base);
      case Restoring(_, _, _, _, _) => RestoreKeepsMatch(q, weights, ev, base);
      case _ =>
    }
  }

  /** A step keeps the invariant, with the same weights to come back to, exactly when it
      does not end a recompute with other weights than those it began with. */
  lemma StepKeepsInvariantExactly(s: State, r: nat, ev: Event, base: seq<DType>)
    requires Inv(s, base) && Step(s, r, ev).Some?
    ensures Inv(Step(s, r, ev).value, base) <==> !ChangesWeights(s, ev, base)
  {
    StepKeepsRequests(s, r, ev);
    StepKeepsLock(s, r, ev);
    ActMovesTheLock(s.requests[r], s.weights, ev);
    assert !s.requests[r].phase.Waiting? ==> s.lock == Some(r);
    if s.requests[r].phase.Waiting? {
      assert !ev.RestoreRaises? && !ev.Resume?;
    } else {
      ActKeepsMatchExactly(s.requests[r], s.weights, ev, base);
    }
  }

  /** A restore that completes leaves every weight in the precision of the first one:
      the weights are those before the recompute if and only if all had one precision. */
  lemma RestoreIsExact(s: State, r: nat, base: seq<DType>)
    requires Inv(s, base) && Step(s, r, Resume).Some?
    ensures Step(s, r, Resume).value.weights == Flat(base)
    ensures Inv(Step(s, r, Resume).value, Flat(base))
    ensures Inv(Step(s, r, Resume).value, base) <==> Uniform(base)
  {
    StepKeepsInvariantExactly(s, r, Resume, base);
    StepKeepsRequests(s, r, Resume);
    StepKeepsLock(s, r, Resume);
    ActMovesTheLock(s.requests[r], s.weights, Resume);
    assert s.lock == Some(r);
    ActKeepsMatchExactly(s.requests[r], s.weights, Resume, base);
    FlatIsSameExactly(base);
  }
}
