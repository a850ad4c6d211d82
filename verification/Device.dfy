/** The device behind the embedding server (deploy/embedder/server.py), and what the
    recompute in `_encode_into` does to the weights.

    The device is an oracle: every pass may run out of memory, raise, or answer
    with non-finite numbers, and every cast of the weights may raise half way,
    all depending arbitrarily on the moment, the texts and the weights. A vector
    records the text it was computed from; the code never reads that record. */
module Device {
  import opened Basics
  import opened Grouping

  datatype DType = Bf16 | Fp16 | Fp32

  datatype Num = Finite(r: real) | NonFinite

  datatype Vector = Vector(text: string, values: seq<Num>)

  predicate AllFinite(v: Vector) {
    forall k :: 0 <= k < |v.values| ==> v.values[k].Finite?
  }

  /** `v` is a vector of `text` that may be shipped. */
  predicate Proper(v: Vector, text: string) {
    v.text == text && AllFinite(v)
  }

  datatype Pass = OutOfMemory | Raised | Computed(values: nat -> seq<Num>)

  /** `run(t, texts, batch, weights)` is what a pass at moment `t` does;
      `cast(t, d)` is None when a cast completes and otherwise the number of
      weights already converted when it raised. */
  datatype Device = Device(
    run: (nat, seq<string>, nat, seq<DType>) -> Pass,
    cast: (nat, DType) -> Option<nat>)

  datatype Failure = DeviceOutOfMemory | DeviceRaised | StillNonFinite | CastRaised | RestoreRaised

  // ----- weights -----

  predicate Uniform(weights: seq<DType>) {
    forall k :: 0 <= k < |weights| ==> weights[k] == weights[0]
  }

  predicate AllAt(weights: seq<DType>, dtype: DType) {
    forall k :: 0 <= k < |weights| ==> weights[k] == dtype
  }

  /** The weights after a cast: all converted, or those before the point where it raised. */
  function CastTo(weights: seq<DType>, dtype: DType, stop: Option<nat>): (r: seq<DType>)
    ensures |r| == |weights|
    ensures forall k :: 0 <= k < |r| ==> r[k] == if stop.None? || k < stop.value then dtype else weights[k]
  {
    seq(|weights|, k requires 0 <= k < |weights| => if stop.None? || k < stop.value then dtype else weights[k])
  }

  /** Every weight in the precision of the first one, which is what the restore casts to. */
  function Flat(weights: seq<DType>): (r: seq<DType>)
    requires weights != []
  {
    CastTo(weights, weights[0], None)
  }

  lemma FlatIsSameExactly(weights: seq<DType>)
    requires weights != []
    ensures Flat(weights) == weights <==> Uniform(weights)
    ensures Flat(weights) != [] && Uniform(Flat(weights)) && Flat(Flat(weights)) == Flat(weights)
  {
    if Uniform(weights) {
      assert Flat(weights) == weights;
    }
    assert Flat(weights)[0] == weights[0];
  }

  /** A device on which a pass of one text fits, a full-precision pass is finite,
      and nothing else goes wrong. Passes of several texts may still run out of
      memory, and reduced-precision ones may still overflow. */
  ghost predicate Forgiving(d: Device) {
    (forall t, x, b, w :: !d.run(t, x, b, w).Raised?) &&
    (forall t, x, b, w :: |x| == 1 ==> !d.run(t, x, b, w).OutOfMemory?) &&
    (forall t, x, b, w :: AllAt(w, Fp32) ==>
      d.run(t, x, b, w).Computed? &&
      forall i :: AllFinite(Vector("", d.run(t, x, b, w).values(i)))) &&
    forall t, y :: d.cast(t, y).None?
  }

  // ----- rows and slots -----

  predicate UsableGroup(g: seq<nat>, n: nat) {
    g != [] && forall k :: 0 <= k < |g| ==> g[k] < n
  }

  ghost predicate UsableGroups(plan: seq<seq<nat>>, n: nat) {
    forall j :: 0 <= j < |plan| ==> UsableGroup(plan[j], n)
  }

  /** Some division of the texts into non-empty groups, as the batching gives. */
  ghost predicate IsPlan(plan: seq<seq<nat>>, n: nat) {
    UsableGroups(plan, n) && forall i: nat :: i < n ==> InSomePass(plan, i)
  }

  predicate EveryRowFinite(rows: seq<Vector>) {
    forall i :: 0 <= i < |rows| ==> AllFinite(rows[i])
  }

  /** The texts of one pass, in the pass's own order. */
  function TextsOf(texts: seq<string>, group: seq<nat>): (r: seq<string>)
    requires UsableGroup(group, |texts|)
    ensures |r| == |group| && forall k :: 0 <= k < |r| ==> r[k] == texts[group[k]]
  {
    seq(|group|, k requires 0 <= k < |group| => texts[group[k]])
  }

  /** What a pass that computed answers: one row per text, in the order given. */
  function RowsOf(asked: seq<string>, values: nat -> seq<Num>): (rows: seq<Vector>)
    ensures |rows| == |asked| && forall k :: 0 <= k < |rows| ==> rows[k] == Vector(asked[k], values(k))
  {
    seq(|asked|, k requires 0 <= k < |asked| => Vector(asked[k], values(k)))
  }

  /** `for slot, vec in zip(group, vecs): out[slot] = vec` */
  function Write(out: seq<Option<Vector>>, g: seq<nat>, rows: seq<Vector>): (r: seq<Option<Vector>>)
    requires |rows| == |g| && forall k :: 0 <= k < |g| ==> g[k] < |out|
    ensures |r| == |out|
    ensures forall i :: 0 <= i < |out| && i !in g ==> r[i] == out[i]
    ensures forall i :: 0 <= i < |out| && i in g ==> exists k :: 0 <= k < |g| && g[k] == i && r[i] == Some(rows[k])
  {
    if g == [] then out
    else
      var m := |g| - 1;
      var earlier := Write(out, g[..m], rows[..m]);
      assert forall i :: i in g <==> i in g[..m] || i == g[m];
      earlier[g[m] := Some(rows[m])]
  }

  /** Slot `i` holds nothing new, or a finite vector of its own text. */
  predicate SlotOk(before: Option<Vector>, after: Option<Vector>, text: string) {
    after == before || (after.Some? && Proper(after.value, text))
  }

  // ----- the recompute -----

  datatype Recomputed = Recomputed(error: Option<Failure>, rows: seq<Vector>, clock: nat, weights: seq<DType>)

  /** The recompute of a group in full precision, with its `finally`. The error is the
      last exception raised: one in the restore replaces one before it. */
  function Recompute(d: Device, clock: nat, weights: seq<DType>, asked: seq<string>): (r: Recomputed)
    requires weights != []
  {
    var stop := d.cast(clock, Fp32);
    var cast := CastTo(weights, Fp32, stop);
    var ran := if stop.None? then d.run(clock + 1, asked, HalfBatch(|asked|), cast) else Raised;
    var t := if stop.None? then clock + 2 else clock + 1;
    var rows := if ran.Computed? then RowsOf(asked, ran.values) else [];
    var back := d.cast(t, weights[0]);
    Recomputed(RecomputeError(stop, ran, rows, back), rows, t + 1, CastTo(cast, weights[0], back))
  }

  /** `max(1, len(group) // 2)` */
  function HalfBatch(n: nat): (half: nat)
    ensures half >= 1 && (n >= 2 ==> 2 * half <= n <= 2 * half + 1) && (n < 2 ==> half == 1)
  {
    if n / 2 < 1 then 1 else n / 2
  }

  /** The exception the caller sees: that of the restore first, then that of the `try`. */
  function RecomputeError(stop: Option<nat>, ran: Pass, rows: seq<Vector>, back: Option<nat>): (e: Option<Failure>)
    ensures e == Some(RestoreRaised) <==> back.Some?
    ensures e == Some(CastRaised) <==> back.None? && stop.Some?
    ensures e == Some(DeviceOutOfMemory) <==> back.None? && stop.None? && ran.OutOfMemory?
    ensures e == Some(DeviceRaised) <==> back.None? && stop.None? && ran.Raised?
    ensures e == Some(StillNonFinite) <==> back.None? && stop.None? && ran.Computed? && !EveryRowFinite(rows)
    ensures e.None? <==> back.None? && stop.None? && ran.Computed? && EveryRowFinite(rows)
  {
    if back.Some? then Some(RestoreRaised)
    else if stop.Some? then Some(CastRaised)
    else if ran.OutOfMemory? then Some(DeviceOutOfMemory)
    else if ran.Raised? then Some(DeviceRaised)
    else if !EveryRowFinite(rows) then Some(StillNonFinite)
    else None
  }

  /** Unless the restore itself raises, the recompute leaves every weight in the
      precision of the first one, on every exit. So it leaves the weights as they
      were if and only if they were all in one precision. */
  lemma RecomputeRestoresExactly(d: Device, clock: nat, weights: seq<DType>, asked: seq<string>)
    requires weights != []
    ensures var r := Recompute(d, clock, weights, asked);
      r.error != Some(RestoreRaised) ==> r.weights == Flat(weights) && (r.weights == weights <==> Uniform(weights))
  {
    var r := Recompute(d, clock, weights, asked);
    FlatIsSameExactly(weights);
    if r.error != Some(RestoreRaised) {
      assert r.weights == Flat(weights);
    }
  }

  lemma RecomputeAnswers(d: Device, clock: nat, weights: seq<DType>, asked: seq<string>)
    requires weights != []
    ensures var r := Recompute(d, clock, weights, asked);
      r.error.None? ==> |r.rows| == |asked| && forall i :: 0 <= i < |asked| ==> Proper(r.rows[i], asked[i])
    ensures Forgiving(d) ==> Recompute(d, clock, weights, asked).error.None?
  {
    if Forgiving(d) {
      var cast := CastTo(weights, Fp32, None);
      var ran := d.run(clock + 1, asked, HalfBatch(|asked|), cast);
      assert AllAt(cast, Fp32) && ran.Computed?;
      var rows := RowsOf(asked, ran.values);
      forall i | 0 <= i < |rows| ensures AllFinite(rows[i]) {
        assert AllFinite(Vector("", ran.values(i)));
      }
    }
  }
}
