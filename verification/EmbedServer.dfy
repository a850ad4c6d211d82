/** The embedding server (deploy/embedder/server.py): one forward pass, the
    recovery around it, and the request handler that answers in request order. */
module EmbedServer {
  import opened Basics
  import opened Device
  import opened Encoding
  import opened Grouping

  class Model {
    const device: Device
    var weights: seq<DType>
    var clock: nat

    constructor (device: Device, weights: seq<DType>)
      requires weights != []
      ensures this.device == device && this.weights == weights
    {
      this.device := device;
      this.weights := weights;
      clock := 0;
    }

    /** `SentenceTransformer.encode`: one row per text, in the order given. */
    method Encode(texts: seq<string>, batch: nat) returns (ran: Pass, rows: seq<Vector>)
      modifies this`clock
      ensures clock == old(clock) + 1 && ran == device.run(old(clock), texts, batch, weights)
      ensures rows == if ran.Computed? then RowsOf(texts, ran.values) else []
    {
      ran := device.run(clock, texts, batch, weights);
      clock := clock + 1;
      rows := if ran.Computed? then RowsOf(texts, ran.values) else [];
    }

    /** `module.to(dtype)`: converts the weights one by one and may raise on the way,
        with those before that point converted and the others as they were. */
    method To(dtype: DType) returns (stop: Option<nat>)
      modifies this
      ensures clock == old(clock) + 1 && stop == device.cast(old(clock), dtype)
      ensures |weights| == |old(weights)|
      ensures forall k :: 0 <= k < |weights| ==>
        weights[k] == if stop.None? || k < stop.value then dtype else old(weights)[k]
    {
      stop := device.cast(clock, dtype);
      clock := clock + 1;
      weights := CastTo(weights, dtype, stop);
    }
  }

  /** The recompute: the whole group again with every weight in full precision.
      `original` is read off the first weight, and the restore runs on every exit. */
  method RecomputeInFp32(m: Model, group: seq<string>) returns (e: Option<Failure>, rows: seq<Vector>)
    requires m.weights != []
    modifies m
    ensures Recomputed(e, rows, m.clock, m.weights) == Recompute(m.device, old(m.clock), old(m.weights), group)
    ensures m.weights != []
    ensures e != Some(RestoreRaised) ==> m.weights == Flat(old(m.weights))
    ensures e != Some(RestoreRaised) ==> (m.weights == old(m.weights) <==> Uniform(old(m.weights)))
    ensures e.None? ==> |rows| == |group| && forall i :: 0 <= i < |rows| ==> Proper(rows[i], group[i])
    ensures Forgiving(m.device) ==> e.None?
  {
    RecomputeRestoresExactly(m.device, m.clock, m.weights, group);
    RecomputeAnswers(m.device, m.clock, m.weights, group);
    ghost var before := m.weights;
    var original := m.weights[0];
    var stop := m.To(Fp32);
    assert m.weights == CastTo(before, Fp32, stop);
    ghost var cast := m.weights;
    var ran := Raised;
    rows := [];
    if stop.None? {
      ran, rows := m.Encode(group, HalfBatch(|group|));
    }
    var back := m.To(original);
    assert m.weights == CastTo(cast, original, back);
    e := RecomputeError(stop, ran, rows, back);
  }

  /** Encodes one group into `out` at the group's own indices, halving the group
      when the device runs out of memory. */
  method EncodeInto(m: Model, out: array<Option<Vector>>, texts: seq<string>, group: seq<nat>)
    returns (e: Option<Failure>, ghost recomputed: bool)
    requires m.weights != [] && out.Length == |texts| && UsableGroup(group, |texts|)
    modifies m, out
    ensures Effect(e, m.clock, m.weights, out[..], recomputed) ==
      EncodeGroup(m.device, old(m.clock), old(m.weights), old(out[..]), texts, group)
    // only slots of the group change, to finite vectors of their own texts; without an error all of them do
    ensures Aligned(old(out[..]), out[..], texts, group) && (e.None? ==> Holds(out[..], texts, group))
    // the weights, on every exit but one
    ensures e != Some(RestoreRaised) ==> m.weights == if recomputed then Flat(old(m.weights)) else old(m.weights)
    ensures e != Some(RestoreRaised) ==> (m.weights == old(m.weights) <==> !recomputed || Uniform(old(m.weights)))
    ensures Forgiving(m.device) ==> e.None?
    decreases |group|
  {
    ghost var clock, weights, before := m.clock, m.weights, out[..];
    recomputed := false;
    var asked := TextsOf(texts, group);
    var ran, rows := m.Encode(asked, |group|);
    if ran.OutOfMemory? {
      if |group| == 1 {
        e := Some(DeviceOutOfMemory);
      } else {
        e, recomputed := EncodeInto(m, out, texts, group[..|group| / 2]);
        if e.None? {
          ghost var again;
          e, again := EncodeInto(m, out, texts, group[|group| / 2..]);
          recomputed := recomputed || again;
        }
      }
    } else if ran.Raised? {
      e := Some(DeviceRaised);
    } else {
      e := None;
      if !EveryRowFinite(rows) {
        recomputed := true;
        e, rows := RecomputeInFp32(m, asked);
      }
      if e.None? {
        WriteRows(out, texts, group, rows);
      }
    }
    assert Effect(e, m.clock, m.weights, out[..], recomputed) ==
      EncodeGroup(m.device, clock, weights, before, texts, group);
    EncodingIsSound(m.device, clock, weights, before, texts, group);
  }

  /** The final loop: row k of the pass goes to slot `group[k]`. */
  method WriteRows(out: array<Option<Vector>>, texts: seq<string>, group: seq<nat>, rows: seq<Vector>)
    requires out.Length == |texts| && |rows| == |group| && UsableGroup(group, |texts|)
    modifies out
    ensures out[..] == Write(old(out[..]), group, rows)
  {
    for k := 0 to |group|
      invariant out[..] == Write(old(out[..]), group[..k], rows[..k])
    {
      assert group[..k + 1][..k] == group[..k] && rows[..k + 1][..k] == rows[..k];
      out[group[k]] := Some(rows[k]);
    }
    assert group[..|group|] == group && rows[..|rows|] == rows;
  }

  datatype Limits = Limits(tokenBudget: int, maxRows: int, maxSeq: nat)

  datatype Response = Rows(rows: seq<Vector>) | Refused(status: nat) | Failed(cause: Failure)

  /** `lengths` holds the token count of each text, or the truncation length if less. */
  predicate AreClamped(lengths: seq<nat>, texts: seq<string>, tokens: string -> nat, maxSeq: nat) {
    |lengths| == |texts| &&
    forall i :: 0 <= i < |texts| ==>
      lengths[i] <= tokens(texts[i]) && lengths[i] <= maxSeq && (lengths[i] == tokens(texts[i]) || lengths[i] == maxSeq)
  }

  /** Every pass of more than one row is within the row cap, and within the token budget
      when each row is padded to any of its own texts. */
  ghost predicate WithinLimits(plan: seq<seq<nat>>, texts: seq<string>, tokens: string -> nat, limits: Limits)
    requires UsableGroups(plan, |texts|)
  {
    forall j, k {:trigger plan[j][k]} :: 0 <= j < |plan| && 0 <= k < |plan[j]| && |plan[j]| > 1 ==>
      |plan[j]| <= limits.maxRows &&
      (|plan[j]| * tokens(texts[plan[j][k]]) <= limits.tokenBudget || |plan[j]| * limits.maxSeq <= limits.tokenBudget)
  }

  /** A greedy packing of the clamped counts keeps every pass within the limits: its
      longest row is listed first. */
  lemma PackingWithinLimits(lengths: seq<nat>, plan: seq<seq<nat>>, texts: seq<string>, tokens: string -> nat, limits: Limits)
    requires AreClamped(lengths, texts, tokens, limits.maxSeq) && UsableGroups(plan, |texts|)
    requires GreedyPacking(lengths, plan, limits.tokenBudget, limits.maxRows)
    ensures WithinLimits(plan, texts, tokens, limits)
  {
    forall j, k | 0 <= j < |plan| && 0 <= k < |plan[j]| && |plan[j]| > 1
      ensures |plan[j]| <= limits.maxRows
      ensures |plan[j]| * tokens(texts[plan[j][k]]) <= limits.tokenBudget || |plan[j]| * limits.maxSeq <= limits.tokenBudget
    {
      assert Admissible(plan[j], lengths, limits.tokenBudget, limits.maxRows);
      FirstIsLongest(lengths, plan, j, k, limits.tokenBudget, limits.maxRows);
      TimesOrder(|plan[j]|, lengths[plan[j][k]], lengths[plan[j][0]]);
    }
  }

  lemma TimesOrder(n: nat, x: nat, y: nat)
    requires x <= y
    ensures n * x <= n * y
  {
  }

  lemma FirstIsLongest(lengths: seq<nat>, plan: seq<seq<nat>>, j: nat, k: nat, budget: int, maxRows: int)
    requires GreedyPacking(lengths, plan, budget, maxRows) && j < |plan| && k < |plan[j]|
    ensures plan[j][0] < |lengths| && plan[j][k] < |lengths| && lengths[plan[j][k]] <= lengths[plan[j][0]]
  {
    var order := LongestFirst(lengths, |lengths|);
    LongestFirstIsOrdered(lengths, |lengths|);
    FlattenSplits(plan, j);
    var at := Start(plan, j);
    assert plan[j][k] == order[at + k] && plan[j][0] == order[at];
    assert order[at + k] in order && order[at] in order;
    assert k > 0 ==> Before(lengths, order[at], order[at + k]);
  }

  /** Tokens per text, clamped to the truncation length. */
  function TokenLengths(texts: seq<string>, tokens: string -> nat, maxSeq: nat): (r: seq<nat>)
    ensures AreClamped(r, texts, tokens, maxSeq)
  {
    seq(|texts|, i requires 0 <= i < |texts| => if tokens(texts[i]) < maxSeq then tokens(texts[i]) else maxSeq)
  }

  lemma ClampedOnce(a: seq<nat>, b: seq<nat>, texts: seq<string>, tokens: string -> nat, maxSeq: nat)
    requires AreClamped(a, texts, tokens, maxSeq) && AreClamped(b, texts, tokens, maxSeq)
    ensures a == b
  {
  }

  /** `POST /v1/embeddings`. `tokens` is the tokenizer's count before truncation;
      a null model is one that is still loading. The caller holds the device lock.
      `plan` is the grouping that was used. */
  method Embeddings(m: Model?, texts: seq<string>, tokens: string -> nat, limits: Limits)
    returns (resp: Response, ghost plan: seq<seq<nat>>)
    requires m != null ==> m.weights != []
    modifies m
    ensures m == null ==> resp == Refused(503)
    ensures m != null && texts == [] ==> resp == Refused(400)
    ensures m != null && texts != [] ==> !resp.Refused?
    // alignment
    ensures resp.Rows? ==> |resp.rows| == |texts|
    ensures resp.Rows? ==> forall i :: 0 <= i < |texts| ==> Proper(resp.rows[i], texts[i])
    // the weights
    ensures m != null ==> m.weights != []
    ensures m != null && resp != Failed(RestoreRaised) ==> m.weights == old(m.weights) || m.weights == Flat(old(m.weights))
    ensures m != null && resp != Failed(RestoreRaised) ==> m.weights[0] == old(m.weights)[0]
    ensures m != null && resp != Failed(RestoreRaised) && Uniform(old(m.weights)) ==> m.weights == old(m.weights)
    ensures m != null && texts != [] && Forgiving(m.device) ==> resp.Rows?
    // the passes: within the limits, and as few as the limits allow
    ensures m != null && texts != [] ==> IsPlan(plan, |texts|) && WithinLimits(plan, texts, tokens, limits)
    ensures m != null && texts != [] ==>
      forall lengths: seq<nat> :: AreClamped(lengths, texts, tokens, limits.maxSeq) ==>
        FewestPasses(lengths, |plan|, limits.tokenBudget, limits.maxRows)
    // and nothing else happened but the groups of one plan, in order
    ensures m != null && texts != [] ==>
      GreedyPacking(TokenLengths(texts, tokens, limits.maxSeq), plan, limits.tokenBudget, limits.maxRows) &&
      IsPlan(plan, |texts|) &&
      var r := EncodeAll(m.device, old(m.clock), old(m.weights), texts, plan);
      r.clock == m.clock && r.weights == m.weights && Answers(resp, r)
  {
    plan := [];
    if m == null {
      return Refused(503), plan;
    }
    if texts == [] {
      return Refused(400), plan;
    }
    var lengths := TokenLengths(texts, tokens, limits.maxSeq);
    var groups := Groups(lengths, limits.tokenBudget, limits.maxRows);
    plan := groups;
    GroupsArePlan(lengths, groups, limits.tokenBudget, limits.maxRows);
    PackingWithinLimits(lengths, groups, texts, tokens, limits);
    forall other: seq<nat> | AreClamped(other, texts, tokens, limits.maxSeq) ensures other == lengths {
      ClampedOnce(other, lengths, texts, tokens, limits.maxSeq);
    }
    AllGroupsWeights(m.device, m.clock, m.weights, texts, groups);
    AllGroupsAlign(m.device, m.clock, m.weights, texts, groups);
    FlatIsSameExactly(m.weights);
    var e, out;
    ghost var recomputed;
    e, out, recomputed := EncodeGroups(m, texts, groups);
    resp := if e.Some? then Failed(e.value) else Rows(Values(out));
  }

  /** The loop over the groups, under the lock; an exception ends it. */
  method EncodeGroups(m: Model, texts: seq<string>, groups: seq<seq<nat>>)
    returns (e: Option<Failure>, slots: seq<Option<Vector>>, ghost recomputed: bool)
    requires m.weights != [] && UsableGroups(groups, |texts|)
    modifies m
    ensures Effect(e, m.clock, m.weights, slots, recomputed) ==
      EncodeAll(m.device, old(m.clock), old(m.weights), texts, groups)
  {
    var out := new Option<Vector>[|texts|](_ => None);
    recomputed := false;
    assert out[..] == NoSlots(|texts|);
    for g := 0 to |groups|
      invariant m.weights != []
      invariant Effect(None, m.clock, m.weights, out[..], recomputed) ==
        EncodeAll(m.device, old(m.clock), old(m.weights), texts, groups[..g])
    {
      OneGroupMore(m.device, old(m.clock), old(m.weights), texts, groups, g);
      ghost var again;
      e, again := EncodeInto(m, out, texts, groups[g]);
      recomputed := recomputed || again;
      if e.Some? {
        FirstFailureEnds(m.device, old(m.clock), old(m.weights), texts, groups, g + 1);
        return e, out[..], recomputed;
      }
    }
    assert groups[..|groups|] == groups;
    return None, out[..], recomputed;
  }

  /** The response that an effect stands for. */
  predicate Answers(resp: Response, r: Effect) {
    match r.error
    case Some(cause) => resp == Failed(cause)
    case None => resp.Rows? && |resp.rows| == |r.out| && forall i :: 0 <= i < |r.out| ==> r.out[i] == Some(resp.rows[i])
  }

  function Values(out: seq<Option<Vector>>): (r: seq<Vector>)
    requires forall i :: 0 <= i < |out| ==> out[i].Some?
    ensures |r| == |out| && forall i :: 0 <= i < |r| ==> r[i] == out[i].value
  {
    seq(|out|, i requires 0 <= i < |out| => out[i].value)
  }

  /** The batching divides the texts into non-empty groups that cover them. */
  lemma GroupsArePlan(lengths: seq<nat>, groups: seq<seq<nat>>, budget: int, maxRows: int)
    requires GreedyPacking(lengths, groups, budget, maxRows)
    ensures IsPlan(groups, |lengths|)
  {
    PassesPartitionTheTexts(lengths, groups, budget, maxRows);
    forall j | 0 <= j < |groups| ensures UsableGroup(groups[j], |lengths|) {
      assert Admissible(groups[j], lengths, budget, maxRows);
      forall k | 0 <= k < |groups[j]| ensures groups[j][k] < |lengths| {
        assert groups[j][k] in groups[j];
        assert InSomePass(groups, groups[j][k]);
      }
    }
  }
}
