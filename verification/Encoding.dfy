/** Encoding as a function of the device (deploy/embedder/server.py, `_encode_into` and the
    loop in `embeddings`): what it does to the weights and to the answer under every fault. */
module Encoding {
  import opened Basics
  import opened Grouping
  import opened Device

  // ----- one group -----

  /** What encoding did; `recomputed` says whether a recompute ran to its restore. */
  datatype Effect = Effect(
    error: Option<Failure>, clock: nat, weights: seq<DType>, out: seq<Option<Vector>>, recomputed: bool)

  /** `_encode_into` as a function of the device, the weights and the answer so far. */
  function EncodeGroup(
    d: Device, clock: nat, weights: seq<DType>, out: seq<Option<Vector>>, texts: seq<string>, group: seq<nat>): (r: Effect)
    requires weights != [] && |out| == |texts| && UsableGroup(group, |texts|)
    ensures |r.weights| == |weights| && |r.out| == |out|
    decreases |group|
  {
    var asked := TextsOf(texts, group);
    match d.run(clock, asked, |group|, weights)
    case OutOfMemory =>
      if |group| == 1 then Effect(Some(DeviceOutOfMemory), clock + 1, weights, out, false)
      else
        var first := EncodeGroup(d, clock + 1, weights, out, texts, group[..|group| / 2]);
        if first.error.Some? then first
        else
          var second := EncodeGroup(d, first.clock, first.weights, first.out, texts, group[|group| / 2..]);
          second.(recomputed := first.recomputed || second.recomputed)
    case Raised => Effect(Some(DeviceRaised), clock + 1, weights, out, false)
    case Computed(values) =>
      var rows := RowsOf(asked, values);
      if EveryRowFinite(rows) then Effect(None, clock + 1, weights, Write(out, group, rows), false)
      else
        var again := Recompute(d, clock + 1, weights, asked);
        if again.error.Some? then Effect(again.error, again.clock, again.weights, out, true)
        else Effect(None, again.clock, again.weights, Write(out, group, again.rows), true)
  }

  /** Slots of the group hold finite vectors of their own texts. */
  ghost predicate Holds(out: seq<Option<Vector>>, texts: seq<string>, group: seq<nat>)
    requires |out| == |texts|
  {
    forall i :: 0 <= i < |out| && i in group ==> out[i].Some? && Proper(out[i].value, texts[i])
  }

  /** Only slots of the group changed, and only to finite vectors of their own texts. */
  ghost predicate Aligned(before: seq<Option<Vector>>, after: seq<Option<Vector>>, texts: seq<string>, group: seq<nat>)
    requires |before| == |after| == |texts|
  {
    (forall i :: 0 <= i < |before| && i !in group ==> after[i] == before[i]) &&
    forall i :: 0 <= i < |before| ==> SlotOk(before[i], after[i], texts[i])
  }

  lemma WriteAligns(out: seq<Option<Vector>>, texts: seq<string>, group: seq<nat>, rows: seq<Vector>)
    requires |out| == |texts| && UsableGroup(group, |texts|) && |rows| == |group|
    requires forall k :: 0 <= k < |group| ==> Proper(rows[k], texts[group[k]])
    ensures Aligned(out, Write(out, group, rows), texts, group) && Holds(Write(out, group, rows), texts, group)
  {
  }

  lemma HalvesAlign(
    a: seq<Option<Vector>>, b: seq<Option<Vector>>, c: seq<Option<Vector>>, texts: seq<string>, group: seq<nat>, half: nat)
    requires |a| == |b| == |c| == |texts| && half <= |group|
    requires Aligned(a, b, texts, group[..half]) && Aligned(b, c, texts, group[half..])
    ensures Aligned(a, c, texts, group)
    ensures Holds(b, texts, group[..half]) && Holds(c, texts, group[half..]) ==> Holds(c, texts, group)
  {
    assert group == group[..half] + group[half..];
    forall i | 0 <= i < |a| ensures SlotOk(a[i], c[i], texts[i]) {
      assert SlotOk(a[i], b[i], texts[i]) && SlotOk(b[i], c[i], texts[i]);
    }
    if Holds(b, texts, group[..half]) && Holds(c, texts, group[half..]) {
      forall i | 0 <= i < |c| && i in group ensures c[i].Some? && Proper(c[i].value, texts[i]) {
        assert SlotOk(b[i], c[i], texts[i]);
      }
    }
  }

  /** Alignment under every fault: whatever happens, only slots of the group change and
      only to finite vectors of their own texts; without an error all of them do. */
  lemma {:induction false} EncodingAligns(
    d: Device, clock: nat, weights: seq<DType>, out: seq<Option<Vector>>, texts: seq<string>, group: seq<nat>)
    requires weights != [] && |out| == |texts| && UsableGroup(group, |texts|)
    ensures var r := EncodeGroup(d, clock, weights, out, texts, group);
      Aligned(out, r.out, texts, group) && (r.error.None? ==> Holds(r.out, texts, group))
    decreases |group|
  {
    var asked := TextsOf(texts, group);
    match d.run(clock, asked, |group|, weights) {
      case OutOfMemory =>
        if |group| > 1 {
          var half := |group| / 2;
          var first := EncodeGroup(d, clock + 1, weights, out, texts, group[..half]);
          EncodingAligns(d, clock + 1, weights, out, texts, group[..half]);
          var last := first.out;
          if first.error.None? {
            last := EncodeGroup(d, first.clock, first.weights, first.out, texts, group[half..]).out;
            EncodingAligns(d, first.clock, first.weights, first.out, texts, group[half..]);
          }
          HalvesAlign(out, first.out, last, texts, group, half);
        }
      case Raised =>
      case Computed(values) =>
        var rows := RowsOf(asked, values);
        if EveryRowFinite(rows) {
          WriteAligns(out, texts, group, rows);
        } else {
          var again := Recompute(d, clock + 1, weights, asked);
          RecomputeAnswers(d, clock + 1, weights, asked);
          if again.error.None? {
            WriteAligns(out, texts, group, again.rows);
          }
        }
    }
  }

  /** The weights afterwards, unless a restore raised: as before when no recompute was
      needed, and otherwise all in the precision of the first one. */
  lemma {:induction false} EncodingWeights(
    d: Device, clock: nat, weights: seq<DType>, out: seq<Option<Vector>>, texts: seq<string>, group: seq<nat>)
    requires weights != [] && |out| == |texts| && UsableGroup(group, |texts|)
    ensures var r := EncodeGroup(d, clock, weights, out, texts, group);
      r.error != Some(RestoreRaised) ==> r.weights == if r.recomputed then Flat(weights) else weights
    decreases |group|
  {
    var asked := TextsOf(texts, group);
    var ran := d.run(clock, asked, |group|, weights);
    if ran.OutOfMemory? && |group| > 1 {
      var half := |group| / 2;
      var first := EncodeGroup(d, clock + 1, weights, out, texts, group[..half]);
      EncodingWeights(d, clock + 1, weights, out, texts, group[..half]);
      if first.error.None? {
        EncodingWeights(d, first.clock, first.weights, first.out, texts, group[half..]);
        FlatIsSameExactly(weights);
      }
    } else if ran.Computed? {
      RecomputeRestoresExactly(d, clock + 1, weights, asked);
    }
  }

  /** What success rests on: single texts fit, nothing else raises, and every recompute works. */
  ghost predicate Recovers(d: Device) {
    (forall t, x, b, w {:trigger d.run(t, x, b, w)} ::
      !d.run(t, x, b, w).Raised? && (|x| == 1 ==> !d.run(t, x, b, w).OutOfMemory?)) &&
    forall t, w, x {:trigger Recompute(d, t, w, x)} :: w != [] ==> Recompute(d, t, w, x).error.None?
  }

  lemma ForgivingRecovers(d: Device)
    ensures Forgiving(d) ==> Recovers(d)
  {
    if Forgiving(d) {
      forall t, w, x | w != [] ensures Recompute(d, t, w, x).error.None? {
        RecomputeAnswers(d, t, w, x);
      }
    }
  }

  lemma {:induction false} OnePassRecovers(
    d: Device, clock: nat, weights: seq<DType>, out: seq<Option<Vector>>, texts: seq<string>, group: seq<nat>)
    requires weights != [] && |out| == |texts| && UsableGroup(group, |texts|)
    ensures Recovers(d) && !d.run(clock, TextsOf(texts, group), |group|, weights).OutOfMemory? ==>
      EncodeGroup(d, clock, weights, out, texts, group).error.None?
  {
    assert Recovers(d) ==> Recompute(d, clock + 1, weights, TextsOf(texts, group)).error.None?;
  }

  lemma {:induction false} EncodingRecovers(
    d: Device, clock: nat, weights: seq<DType>, out: seq<Option<Vector>>, texts: seq<string>, group: seq<nat>)
    requires weights != [] && |out| == |texts| && UsableGroup(group, |texts|)
    ensures Recovers(d) ==> EncodeGroup(d, clock, weights, out, texts, group).error.None?
    decreases |group|
  {
    var ran := d.run(clock, TextsOf(texts, group), |group|, weights);
    OnePassRecovers(d, clock, weights, out, texts, group);
    if Recovers(d) && ran.OutOfMemory? {
      assert |group| > 1;
      var half := |group| / 2;
      var first := EncodeGroup(d, clock + 1, weights, out, texts, group[..half]);
      EncodingRecovers(d, clock + 1, weights, out, texts, group[..half]);
      EncodingRecovers(d, first.clock, first.weights, first.out, texts, group[half..]);
    }
  }

  /** On a forgiving device the halving and the recompute together always succeed. */
  lemma EncodingSucceeds(
    d: Device, clock: nat, weights: seq<DType>, out: seq<Option<Vector>>, texts: seq<string>, group: seq<nat>)
    requires weights != [] && |out| == |texts| && UsableGroup(group, |texts|)
    ensures Forgiving(d) ==> EncodeGroup(d, clock, weights, out, texts, group).error.None?
  {
    ForgivingRecovers(d);
    EncodingRecovers(d, clock, weights, out, texts, group);
  }

  /** The three together. */
  lemma EncodingIsSound(
    d: Device, clock: nat, weights: seq<DType>, out: seq<Option<Vector>>, texts: seq<string>, group: seq<nat>)
    requires weights != [] && |out| == |texts| && UsableGroup(group, |texts|)
    ensures var r := EncodeGroup(d, clock, weights, out, texts, group);
      Aligned(out, r.out, texts, group) && (r.error.None? ==> Holds(r.out, texts, group))
    ensures var r := EncodeGroup(d, clock, weights, out, texts, group);
      r.error != Some(RestoreRaised) ==>
        (r.weights == if r.recomputed then Flat(weights) else weights) &&
        (r.weights == weights <==> !r.recomputed || Uniform(weights))
    ensures Forgiving(d) ==> EncodeGroup(d, clock, weights, out, texts, group).error.None?
  {
    EncodingAligns(d, clock, weights, out, texts, group);
    EncodingWeights(d, clock, weights, out, texts, group);
    FlatIsSameExactly(weights);
    EncodingSucceeds(d, clock, weights, out, texts, group);
  }

  // ----- all groups of a request -----

  /** `[None] * n` */
  function NoSlots(n: nat): (r: seq<Option<Vector>>)
    ensures |r| == n && forall i :: 0 <= i < n ==> r[i].None?
  {
    seq(n, _ => None)
  }

  /** The loop over the groups: it stops at the first that fails. */
  ghost function EncodeAll(
    d: Device, clock: nat, weights: seq<DType>, texts: seq<string>, groups: seq<seq<nat>>): (r: Effect)
    requires weights != [] && UsableGroups(groups, |texts|)
    ensures |r.weights| == |weights| && |r.out| == |texts|
  {
    if groups == [] then Effect(None, clock, weights, NoSlots(|texts|), false)
    else
      var before := EncodeAll(d, clock, weights, texts, groups[..|groups| - 1]);
      if before.error.Some? then before
      else
        var last := EncodeGroup(d, before.clock, before.weights, before.out, texts, groups[|groups| - 1]);
        last.(recomputed := before.recomputed || last.recomputed)
  }

  /** Every slot the passes `done` list holds a finite vector of its own text. */
  ghost predicate Filled(out: seq<Option<Vector>>, texts: seq<string>, done: seq<seq<nat>>) {
    |out| == |texts| && forall i: nat :: i < |out| && InSomePass(done, i) ==> out[i].Some? && Proper(out[i].value, texts[i])
  }

  lemma FilledOneMore(before: seq<Option<Vector>>, after: seq<Option<Vector>>, texts: seq<string>, done: seq<seq<nat>>, group: seq<nat>)
    requires Filled(before, texts, done) && |after| == |texts|
    requires Aligned(before, after, texts, group) && Holds(after, texts, group)
    ensures Filled(after, texts, done + [group])
  {
    var more := done + [group];
    forall i: nat | i < |after| && InSomePass(more, i) ensures after[i].Some? && Proper(after[i].value, texts[i]) {
      var j :| 0 <= j < |more| && i in more[j];
      if j < |done| {
        assert i in done[j] && InSomePass(done, i);
        assert SlotOk(before[i], after[i], texts[i]);
      }
    }
  }

  /** Row i belongs to text i: after a run without error every slot that some group
      lists holds a finite vector of its own text. */
  lemma {:induction false} AllGroupsAlign(d: Device, clock: nat, weights: seq<DType>, texts: seq<string>, groups: seq<seq<nat>>)
    requires weights != [] && UsableGroups(groups, |texts|)
    ensures var r := EncodeAll(d, clock, weights, texts, groups);
      r.error.None? ==> Filled(r.out, texts, groups)
  {
    if groups != [] {
      var m := |groups| - 1;
      var before := EncodeAll(d, clock, weights, texts, groups[..m]);
      AllGroupsAlign(d, clock, weights, texts, groups[..m]);
      if before.error.None? {
        EncodingAligns(d, before.clock, before.weights, before.out, texts, groups[m]);
        var last := EncodeGroup(d, before.clock, before.weights, before.out, texts, groups[m]);
        if last.error.None? {
          FilledOneMore(before.out, last.out, texts, groups[..m], groups[m]);
          assert groups[..m] + [groups[m]] == groups;
        }
      }
    }
  }

  lemma {:induction false} AllGroupsWeights(d: Device, clock: nat, weights: seq<DType>, texts: seq<string>, groups: seq<seq<nat>>)
    requires weights != [] && UsableGroups(groups, |texts|)
    ensures var r := EncodeAll(d, clock, weights, texts, groups);
      r.error != Some(RestoreRaised) ==> r.weights == if r.recomputed then Flat(weights) else weights
    ensures Forgiving(d) ==> EncodeAll(d, clock, weights, texts, groups).error.None?
  {
    if groups != [] {
      var m := |groups| - 1;
      var before := EncodeAll(d, clock, weights, texts, groups[..m]);
      AllGroupsWeights(d, clock, weights, texts, groups[..m]);
      FlatIsSameExactly(weights);
      if before.error.None? {
        EncodingWeights(d, before.clock, before.weights, before.out, texts, groups[m]);
        EncodingSucceeds(d, before.clock, before.weights, before.out, texts, groups[m]);
      }
    }
  }

  lemma {:induction false} OneGroupMore(d: Device, clock: nat, weights: seq<DType>, texts: seq<string>, groups: seq<seq<nat>>, n: nat)
    requires weights != [] && UsableGroups(groups, |texts|) && n < |groups|
    ensures var before := EncodeAll(d, clock, weights, texts, groups[..n]);
      EncodeAll(d, clock, weights, texts, groups[..n + 1]) ==
        if before.error.Some? then before
        else
          var last := EncodeGroup(d, before.clock, before.weights, before.out, texts, groups[n]);
          last.(recomputed := before.recomputed || last.recomputed)
  {
    assert groups[..n + 1][..n] == groups[..n];
  }

  /** A group that fails ends the loop. */
  lemma {:induction false} FirstFailureEnds(
    d: Device, clock: nat, weights: seq<DType>, texts: seq<string>, groups: seq<seq<nat>>, n: nat)
    requires weights != [] && UsableGroups(groups, |texts|) && n <= |groups|
    requires EncodeAll(d, clock, weights, texts, groups[..n]).error.Some?
    ensures EncodeAll(d, clock, weights, texts, groups) == EncodeAll(d, clock, weights, texts, groups[..n])
  {
    if n < |groups| {
      assert groups[..|groups| - 1][..n] == groups[..n];
      FirstFailureEnds(d, clock, weights, texts, groups[..|groups| - 1], n);
    } else {
      assert groups[..n] == groups;
    }
  }

  // ----- the width of the rows -----

  /** Every pass that computes gives rows of `dim` numbers. */
  ghost predicate Wide(d: Device, dim: nat) {
    forall t, x, b, w, i: nat {:trigger d.run(t, x, b, w).values(i)} ::
      d.run(t, x, b, w).Computed? ==> |d.run(t, x, b, w).values(i)| == dim
  }

  predicate WideRows(rows: seq<Vector>, dim: nat) {
    forall k :: 0 <= k < |rows| ==> |rows[k].values| == dim
  }

  predicate WideSlots(out: seq<Option<Vector>>, dim: nat) {
    forall k :: 0 <= k < |out| && out[k].Some? ==> |out[k].value.values| == dim
  }

  lemma WriteIsWide(out: seq<Option<Vector>>, g: seq<nat>, rows: seq<Vector>, dim: nat)
    requires |rows| == |g| && (forall k :: 0 <= k < |g| ==> g[k] < |out|) && WideSlots(out, dim) && WideRows(rows, dim)
    ensures WideSlots(Write(out, g, rows), dim)
  {
  }

  lemma RecomputeIsWide(d: Device, clock: nat, weights: seq<DType>, asked: seq<string>, dim: nat)
    requires weights != []
    ensures Wide(d, dim) ==> WideRows(Recompute(d, clock, weights, asked).rows, dim)
  {
  }

  lemma {:induction false} EncodingIsWide(
    d: Device, clock: nat, weights: seq<DType>, out: seq<Option<Vector>>, texts: seq<string>, group: seq<nat>, dim: nat)
    requires weights != [] && |out| == |texts| && UsableGroup(group, |texts|) && WideSlots(out, dim)
    ensures Wide(d, dim) ==> WideSlots(EncodeGroup(d, clock, weights, out, texts, group).out, dim)
    decreases |group|
  {
    var asked := TextsOf(texts, group);
    match d.run(clock, asked, |group|, weights) {
      case OutOfMemory =>
        if Wide(d, dim) && |group| > 1 {
          var half := |group| / 2;
          var first := EncodeGroup(d, clock + 1, weights, out, texts, group[..half]);
          EncodingIsWide(d, clock + 1, weights, out, texts, group[..half], dim);
          EncodingIsWide(d, first.clock, first.weights, first.out, texts, group[half..], dim);
        }
      case Raised =>
      case Computed(values) =>
        var rows := RowsOf(asked, values);
        var again := Recompute(d, clock + 1, weights, asked);
        RecomputeIsWide(d, clock + 1, weights, asked, dim);
        if Wide(d, dim) {
          if EveryRowFinite(rows) {
            assert forall k: nat :: k < |rows| ==> rows[k].values == d.run(clock, asked, |group|, weights).values(k);
            WriteIsWide(out, group, rows, dim);
          } else if again.error.None? {
            WriteIsWide(out, group, again.rows, dim);
          }
        }
    }
  }

  lemma {:induction false} AllGroupsAreWide(
    d: Device, clock: nat, weights: seq<DType>, texts: seq<string>, groups: seq<seq<nat>>, dim: nat)
    requires weights != [] && UsableGroups(groups, |texts|)
    ensures Wide(d, dim) ==> WideSlots(EncodeAll(d, clock, weights, texts, groups).out, dim)
  {
    if groups != [] && Wide(d, dim) {
      var m := |groups| - 1;
      var before := EncodeAll(d, clock, weights, texts, groups[..m]);
      AllGroupsAreWide(d, clock, weights, texts, groups[..m], dim);
      EncodingIsWide(d, before.clock, before.weights, before.out, texts, groups[m], dim);
    }
  }
}
