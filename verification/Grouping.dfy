/** The embedder's batching: which texts share a forward pass
    (deploy/embedder/server.py, `_groups`).

    Indices are taken longest first and packed greedily. A pass of several rows
    must respect both limits; a single row is always accepted. The main result
    is that no other way of splitting the texts into admissible passes uses
    fewer passes. */
module Grouping {
  import opened Basics

  /** Admissible pass: one row, or at most `maxRows` rows whose padded size
      `rows * longest` stays within `budget`. */
  predicate Fits(rows: nat, longest: nat, budget: int, maxRows: int) {
    rows <= 1 || (rows <= maxRows && rows * longest <= budget)
  }

  lemma FitsIsMonotone(rows: nat, longest: nat, rows': nat, longest': nat, budget: int, maxRows: int)
    requires Fits(rows, longest, budget, maxRows)
    requires rows' <= rows && longest' <= longest
    ensures Fits(rows', longest', budget, maxRows)
  {
    assert rows' * longest' <= rows' * longest <= rows * longest;
  }

  /** A pass that had no room for one more row is at least as large as any
      admissible pass of texts that are no shorter. */
  lemma NoLargerThanFull(rows: nat, longest: nat, full: nat, longest': nat, budget: int, maxRows: int)
    requires Fits(rows, longest, budget, maxRows) && !Fits(full + 1, longest', budget, maxRows)
    requires longest' <= longest
    ensures rows <= full
  {
    if rows > full {
      FitsIsMonotone(rows, longest, full + 1, longest', budget, maxRows);
    }
  }

  // ----- the order in which the loop visits the indices -----

  /** Places `i` after every index already present that is at least as long. */
  function Insert(order: seq<nat>, i: nat, lengths: seq<nat>): (r: seq<nat>)
    requires i < |lengths| && forall k :: 0 <= k < |order| ==> order[k] < |lengths|
    ensures |r| == |order| + 1
    ensures forall x: nat :: x in r <==> x == i || x in order
  {
    if order == [] then [i]
    else if lengths[order[0]] >= lengths[i] then
      [order[0]] + Insert(order[1..], i, lengths)
    else [i] + order
  }

  /** The stable descending sort of the first `n` indices by length. */
  function LongestFirst(lengths: seq<nat>, n: nat): (r: seq<nat>)
    requires n <= |lengths|
    ensures |r| == n
    ensures forall x: nat :: x in r <==> x < n
  {
    if n == 0 then []
    else
      var shorter := LongestFirst(lengths, n - 1);
      assert forall k :: 0 <= k < |shorter| ==> shorter[k] in shorter;
      Insert(shorter, n - 1, lengths)
  }

  /** `a` is listed before `b`: longer, or equally long and earlier in the request. */
  predicate Before(lengths: seq<nat>, a: nat, b: nat)
    requires a < |lengths| && b < |lengths|
  {
    lengths[a] > lengths[b] || (lengths[a] == lengths[b] && a < b)
  }

  ghost predicate Ordered(lengths: seq<nat>, order: seq<nat>) {
    (forall k :: 0 <= k < |order| ==> order[k] < |lengths|) &&
    forall j, k :: 0 <= j < k < |order| ==> Before(lengths, order[j], order[k])
  }

  lemma {:induction false} InsertKeepsOrder(order: seq<nat>, i: nat, lengths: seq<nat>)
    requires i < |lengths| && Ordered(lengths, order)
    requires forall k :: 0 <= k < |order| ==> order[k] < i
    ensures Ordered(lengths, Insert(order, i, lengths))
  {
    if order == [] {
    } else if lengths[order[0]] >= lengths[i] {
      var r := Insert(order[1..], i, lengths);
      InsertKeepsOrder(order[1..], i, lengths);
      forall k | 0 <= k < |r| ensures Before(lengths, order[0], r[k]) {
        assert r[k] in r;
      }
    } else {
      forall k | 0 <= k < |order| ensures Before(lengths, i, order[k]) {
        assert k > 0 ==> Before(lengths, order[0], order[k]);
      }
    }
  }

  /** The visiting order lists every index exactly once, longest first, and
      equally long texts in request order. */
  lemma {:induction false} LongestFirstIsOrdered(lengths: seq<nat>, n: nat)
    requires n <= |lengths|
    ensures Ordered(lengths, LongestFirst(lengths, n))
  {
    if n > 0 {
      LongestFirstIsOrdered(lengths, n - 1);
      var shorter := LongestFirst(lengths, n - 1);
      forall k | 0 <= k < |shorter| ensures shorter[k] < n - 1 {
        assert shorter[k] in shorter;
      }
      InsertKeepsOrder(shorter, n - 1, lengths);
    }
  }

  // ----- the greedy packing -----

  function Flatten(groups: seq<seq<nat>>): seq<nat> {
    if groups == [] then [] else Flatten(groups[..|groups| - 1]) + groups[|groups| - 1]
  }

  lemma FlattenAppend(groups: seq<seq<nat>>, g: seq<nat>)
    ensures Flatten(groups + [g]) == Flatten(groups) + g
  {
    assert (groups + [g])[..|groups|] == groups;
  }

  /** An admissible pass, listed longest row first. */
  predicate Admissible(g: seq<nat>, lengths: seq<nat>, budget: int, maxRows: int) {
    g != [] && g[0] < |lengths| && Fits(|g|, lengths[g[0]], budget, maxRows)
  }

  /** An admissible pass that could not have taken one more row. */
  predicate Closed(g: seq<nat>, lengths: seq<nat>, budget: int, maxRows: int) {
    Admissible(g, lengths, budget, maxRows) && !Fits(|g| + 1, lengths[g[0]], budget, maxRows)
  }

  /** What the loop produces: admissible passes, cut from the visiting order,
      each closed only when the next index would not have fitted. */
  ghost predicate GreedyPacking(lengths: seq<nat>, groups: seq<seq<nat>>, budget: int, maxRows: int) {
    Flatten(groups) == LongestFirst(lengths, |lengths|) &&
    (forall j :: 0 <= j < |groups| ==> Admissible(groups[j], lengths, budget, maxRows)) &&
    forall j :: 0 <= j < |groups| - 1 ==> Closed(groups[j], lengths, budget, maxRows)
  }

  /** The positions carrying label `c`. */
  ghost function Class(labels: seq<nat>, c: nat): set<nat> {
    set q | 0 <= q < |labels| && labels[q] == c
  }

  /** Any other way of splitting the texts into at most `passes` passes: text
      `i` goes into pass `labels[i]`, and every pass is admissible. */
  ghost predicate AdmissibleSplit(lengths: seq<nat>, labels: seq<nat>, passes: nat, budget: int, maxRows: int) {
    |labels| == |lengths| && (forall i :: 0 <= i < |labels| ==> labels[i] < passes) &&
    EveryPassFits(lengths, labels, budget, maxRows)
  }

  ghost predicate EveryPassFits(lengths: seq<nat>, labels: seq<nat>, budget: int, maxRows: int)
    requires |labels| == |lengths|
  {
    forall i {:trigger lengths[i]} :: 0 <= i < |lengths| ==> Fits(|Class(labels, labels[i])|, lengths[i], budget, maxRows)
  }

  /** No admissible split of these texts uses fewer than `count` passes. */
  ghost predicate FewestPasses(lengths: seq<nat>, count: nat, budget: int, maxRows: int) {
    forall labels, passes :: AdmissibleSplit(lengths, labels, passes, budget, maxRows) ==> count <= passes
  }

  /** After `k` indices: closed passes, and the one being filled. */
  ghost predicate PackedSoFar(
    lengths: seq<nat>, k: nat, out: seq<seq<nat>>, cur: seq<nat>, budget: int, maxRows: int)
  {
    k <= |lengths| && Flatten(out) + cur == LongestFirst(lengths, |lengths|)[..k] &&
    (cur != [] ==> Admissible(cur, lengths, budget, maxRows)) &&
    forall j :: 0 <= j < |out| ==> Closed(out[j], lengths, budget, maxRows)
  }

  lemma {:induction false} ClosePass(lengths: seq<nat>, k: nat, out: seq<seq<nat>>, cur: seq<nat>, budget: int, maxRows: int)
    requires PackedSoFar(lengths, k, out, cur, budget, maxRows)
    requires cur != [] && !Fits(|cur| + 1, lengths[cur[0]], budget, maxRows)
    ensures PackedSoFar(lengths, k, out + [cur], [], budget, maxRows)
  {
    FlattenAppend(out, cur);
    assert Flatten(out + [cur]) + [] == Flatten(out) + cur;
  }

  lemma {:induction false} GrowPass(lengths: seq<nat>, k: nat, out: seq<seq<nat>>, cur: seq<nat>, budget: int, maxRows: int)
    requires PackedSoFar(lengths, k, out, cur, budget, maxRows) && k < |lengths|
    requires cur == [] || Fits(|cur| + 1, lengths[cur[0]], budget, maxRows)
    ensures PackedSoFar(lengths, k + 1, out, cur + [LongestFirst(lengths, |lengths|)[k]], budget, maxRows)
  {
    var order := LongestFirst(lengths, |lengths|);
    assert order[k] in order;
    assert order[..k + 1] == order[..k] + [order[k]];
    assert Flatten(out) + (cur + [order[k]]) == (Flatten(out) + cur) + [order[k]];
  }

  lemma {:induction false} LastPass(lengths: seq<nat>, out: seq<seq<nat>>, cur: seq<nat>, budget: int, maxRows: int)
    requires PackedSoFar(lengths, |lengths|, out, cur, budget, maxRows)
    ensures GreedyPacking(lengths, if cur != [] then out + [cur] else out, budget, maxRows)
  {
    var order := LongestFirst(lengths, |lengths|);
    assert order[..|lengths|] == order;
    if cur != [] {
      FlattenAppend(out, cur);
    }
  }

  method Groups(lengths: seq<nat>, budget: int, maxRows: int) returns (out: seq<seq<nat>>)
    ensures GreedyPacking(lengths, out, budget, maxRows)
    ensures FewestPasses(lengths, |out|, budget, maxRows)
  {
    var order := LongestFirst(lengths, |lengths|);
    var cur: seq<nat> := [];
    out := [];
    for k := 0 to |order|
      invariant PackedSoFar(lengths, k, out, cur, budget, maxRows)
    {
      var i := order[k];
      assert i in order;
      var longest := if cur != [] then lengths[cur[0]] else lengths[i];
      if cur != [] && ((|cur| + 1) * longest > budget || |cur| >= maxRows) {
        ClosePass(lengths, k, out, cur, budget, maxRows);
        out := out + [cur];
        cur := [];
      }
      GrowPass(lengths, k, out, cur, budget, maxRows);
      cur := cur + [i];
    }
    LastPass(lengths, out, cur, budget, maxRows);
    if cur != [] {
      out := out + [cur];
    }
    GreedyUsesFewestPasses(lengths, out, budget, maxRows);
  }

  // ----- optimality -----

  /** Position in the visiting order where pass `j` starts; the end when there is no pass `j`. */
  function Start(groups: seq<seq<nat>>, j: nat): nat {
    if j >= |groups| then |Flatten(groups)| else |Flatten(groups[..j])|
  }

  lemma {:induction false} FlattenSplits(groups: seq<seq<nat>>, j: nat)
    requires j < |groups|
    ensures Start(groups, j + 1) == Start(groups, j) + |groups[j]| <= |Flatten(groups)|
    ensures Flatten(groups)[Start(groups, j)..Start(groups, j + 1)] == groups[j]
  {
    var front := groups[..|groups| - 1];
    if j == |front| {
      assert groups[..j] == front;
    } else {
      FlattenSplits(front, j);
      assert front[..j] == groups[..j] && front[..j + 1] == groups[..j + 1];
      assert front[..|front|] == front;
      assert Start(front, j) == Start(groups, j) && Start(front, j + 1) == Start(groups, j + 1);
      assert Flatten(groups)[Start(groups, j)..Start(groups, j + 1)] ==
        Flatten(front)[Start(groups, j)..Start(groups, j + 1)];
    }
  }

  lemma StartInside(groups: seq<seq<nat>>, j: nat)
    requires forall k :: 0 <= k < |groups| ==> groups[k] != []
    ensures j < |groups| ==> Start(groups, j) < |Flatten(groups)|
  {
    if j < |groups| {
      FlattenSplits(groups, j);
    }
  }

  /** Labels met among the first `x` positions. */
  ghost function Met(labels: seq<nat>, x: nat): set<nat>
    requires x <= |labels|
  {
    if x == 0 then {} else Met(labels, x - 1) + {labels[x - 1]}
  }

  lemma {:induction false} MetHas(labels: seq<nat>, x: nat, q: nat)
    requires q < x <= |labels|
    ensures labels[q] in Met(labels, x)
  {
    if q < x - 1 {
      MetHas(labels, x - 1, q);
    }
  }

  /** Positions whose pass has been met among the first `x`. */
  ghost function Committed(labels: seq<nat>, x: nat): set<nat>
    requires x <= |labels|
  {
    set q | 0 <= q < |labels| && labels[q] in Met(labels, x)
  }

  /** One step of the argument below: position `y` opens a pass of `size` texts
      when `d` passes, of `committed` texts, are already open. */
  lemma StaysAheadStep(
    sorted: seq<nat>, groups: seq<seq<nat>>, y: nat, d: nat, committed: nat, size: nat, budget: int, maxRows: int)
    requires |sorted| == |Flatten(groups)| && y < |sorted|
    requires Descending(sorted) && NoRoomLeft(sorted, groups, budget, maxRows)
    requires y <= committed <= Start(groups, d)
    requires committed + size <= |sorted|
    requires Fits(size, sorted[y], budget, maxRows)
    ensures committed + size <= Start(groups, d + 1)
  {
    if d + 1 < |groups| {
      FlattenSplits(groups, d);
      var s := Start(groups, d);
      assert s == y || sorted[y] >= sorted[s];
      NoLargerThanFull(size, sorted[y], |groups[d]|, sorted[s], budget, maxRows);
    }
  }

  lemma CommittedCovers(labels: seq<nat>, y: nat)
    requires y <= |labels|
    ensures y <= |Committed(labels, y)|
  {
    forall q: nat | q < y ensures q in Committed(labels, y) {
      MetHas(labels, y, q);
    }
    SubsetSize(Below(y), Committed(labels, y));
  }

  lemma CommittedGrows(labels: seq<nat>, y: nat)
    requires y < |labels|
    ensures labels[y] in Met(labels, y) ==>
      Met(labels, y + 1) == Met(labels, y) && Committed(labels, y + 1) == Committed(labels, y)
    ensures labels[y] !in Met(labels, y) ==>
      |Met(labels, y + 1)| == |Met(labels, y)| + 1 &&
      |Committed(labels, y + 1)| == |Committed(labels, y)| + |Class(labels, labels[y])|
    ensures y <= |Committed(labels, y)| && |Committed(labels, y + 1)| <= |labels|
  {
    CommittedCovers(labels, y);
    SubsetSize(Committed(labels, y + 1), Below(|labels|));
    if labels[y] in Met(labels, y) {
      assert Met(labels, y + 1) == Met(labels, y);
    } else {
      assert Committed(labels, y + 1) == Committed(labels, y) + Class(labels, labels[y]);
      assert Committed(labels, y) !! Class(labels, labels[y]);
    }
  }

  ghost predicate Descending(sorted: seq<nat>) {
    forall i, j :: 0 <= i < j < |sorted| ==> sorted[i] >= sorted[j]
  }

  /** Every pass but the last starts inside the order and had no room left. */
  ghost predicate NoRoomLeft(sorted: seq<nat>, groups: seq<seq<nat>>, budget: int, maxRows: int) {
    forall j :: 0 <= j < |groups| - 1 ==>
      Start(groups, j) < |sorted| && !Fits(|groups[j]| + 1, sorted[Start(groups, j)], budget, maxRows)
  }

  /** Greedy stays ahead: once the passes that a split opens among the first
      `x` positions are filled, greedy with as many passes has gone at least as far. */
  lemma {:induction false} GreedyStaysAhead(
    sorted: seq<nat>, groups: seq<seq<nat>>, labels: seq<nat>, x: nat, budget: int, maxRows: int)
    requires |labels| == |sorted| == |Flatten(groups)| && x <= |labels|
    requires Descending(sorted) && NoRoomLeft(sorted, groups, budget, maxRows)
    requires EveryPassFits(sorted, labels, budget, maxRows)
    ensures |Committed(labels, x)| <= Start(groups, |Met(labels, x)|)
  {
    if x == 0 {
      assert Committed(labels, 0) == {};
    } else {
      var y := x - 1;
      GreedyStaysAhead(sorted, groups, labels, y, budget, maxRows);
      CommittedGrows(labels, y);
      if labels[y] !in Met(labels, y) {
        assert sorted[y] >= 0;
        StaysAheadStep(sorted, groups, y, |Met(labels, y)|, |Committed(labels, y)|, |Class(labels, labels[y])|, budget, maxRows);
      }
    }
  }

  /** Reading a split in the visiting order keeps every pass's size. */
  lemma MovedClassFits(lengths: seq<nat>, order: seq<nat>, labels: seq<nat>, moved: seq<nat>, i: nat, budget: int, maxRows: int)
    requires |order| == |labels| == |moved| == |lengths| && i < |order|
    requires forall k :: 0 <= k < |order| ==> order[k] < |labels| && moved[k] == labels[order[k]]
    requires forall j, k :: 0 <= j < k < |order| ==> order[j] != order[k]
    requires Fits(|Class(labels, labels[order[i]])|, lengths[order[i]], budget, maxRows)
    ensures Fits(|Class(moved, moved[i])|, lengths[order[i]], budget, maxRows)
  {
    InjectionSize(Class(moved, moved[i]), order, Class(labels, moved[i]));
    FitsIsMonotone(|Class(labels, moved[i])|, lengths[order[i]], |Class(moved, moved[i])|, lengths[order[i]], budget, maxRows);
  }

  lemma NoRoomInSortedOrder(lengths: seq<nat>, groups: seq<seq<nat>>, sorted: seq<nat>, budget: int, maxRows: int)
    requires GreedyPacking(lengths, groups, budget, maxRows)
    requires |sorted| == |lengths|
    requires var order := LongestFirst(lengths, |lengths|);
      forall k :: 0 <= k < |order| ==> order[k] < |lengths| && sorted[k] == lengths[order[k]]
    ensures NoRoomLeft(sorted, groups, budget, maxRows)
  {
    var order := LongestFirst(lengths, |lengths|);
    forall j | 0 <= j < |groups| - 1
      ensures Start(groups, j) < |sorted| && !Fits(|groups[j]| + 1, sorted[Start(groups, j)], budget, maxRows)
    {
      FlattenSplits(groups, j);
      assert Closed(groups[j], lengths, budget, maxRows);
      assert order[Start(groups, j)] == groups[j][0];
    }
  }

  /** One admissible split against the greedy packing. */
  lemma GreedyBeatsSplit(
    lengths: seq<nat>, groups: seq<seq<nat>>, budget: int, maxRows: int, labels: seq<nat>, passes: nat)
    requires GreedyPacking(lengths, groups, budget, maxRows)
    requires AdmissibleSplit(lengths, labels, passes, budget, maxRows)
    ensures |groups| <= passes
  {
    var n := |lengths|;
    var order := LongestFirst(lengths, n);
    LongestFirstIsOrdered(lengths, n);
    var sorted := seq(n, k requires 0 <= k < n => lengths[order[k]]);
    var moved := seq(n, k requires 0 <= k < n => labels[order[k]]);
    forall i | 0 <= i < n ensures Fits(|Class(moved, moved[i])|, sorted[i], budget, maxRows) {
      MovedClassFits(lengths, order, labels, moved, i, budget, maxRows);
    }
    NoRoomInSortedOrder(lengths, groups, sorted, budget, maxRows);
    GreedyStaysAhead(sorted, groups, moved, n, budget, maxRows);
    CommittedCovers(moved, n);
    MetBound(moved, n, passes);
    StartInside(groups, |Met(moved, n)|);
  }

  lemma {:induction false} MetBound(labels: seq<nat>, x: nat, passes: nat)
    requires x <= |labels| && forall i :: 0 <= i < |labels| ==> labels[i] < passes
    ensures Met(labels, x) <= Below(passes) && |Met(labels, x)| <= passes
  {
    if x > 0 {
      MetBound(labels, x - 1, passes);
    }
    SubsetSize(Met(labels, x), Below(passes));
  }

  /** No admissible split of the same texts uses fewer passes than the greedy packing. */
  lemma GreedyUsesFewestPasses(lengths: seq<nat>, groups: seq<seq<nat>>, budget: int, maxRows: int)
    requires GreedyPacking(lengths, groups, budget, maxRows)
    ensures FewestPasses(lengths, |groups|, budget, maxRows)
  {
    forall labels, passes | AdmissibleSplit(lengths, labels, passes, budget, maxRows)
      ensures |groups| <= passes
    {
      GreedyBeatsSplit(lengths, groups, budget, maxRows, labels, passes);
    }
  }

  // ----- every text in exactly one pass -----

  lemma {:induction false} PassOf(groups: seq<seq<nat>>, p: nat) returns (j: nat)
    requires p < |Flatten(groups)|
    ensures j < |groups| && Start(groups, j) <= p < Start(groups, j + 1)
  {
    var front := groups[..|groups| - 1];
    j := |groups| - 1;
    if p < |Flatten(front)| {
      j := PassOf(front, p);
      assert front[..j] == groups[..j] && front[..j + 1] == groups[..j + 1];
      assert front[..|front|] == front;
    }
  }

  lemma {:induction false} StartsAscend(groups: seq<seq<nat>>, i: nat, j: nat)
    requires i <= j <= |groups|
    ensures Start(groups, i) <= Start(groups, j)
  {
    if i < j {
      StartsAscend(groups, i, j - 1);
      FlattenSplits(groups, j - 1);
    }
  }

  ghost predicate InSomePass(groups: seq<seq<nat>>, i: nat) {
    exists j :: 0 <= j < |groups| && i in groups[j]
  }

  /** Slot `k` of pass `i` and slot `l` of pass `j` list different texts. */
  ghost predicate DifferentTexts(groups: seq<seq<nat>>, i: nat, k: nat, j: nat, l: nat) {
    i < |groups| && k < |groups[i]| && j < |groups| && l < |groups[j]| && (i != j || k != l) ==>
      groups[i][k] != groups[j][l]
  }

  /** The passes partition the texts: every index is in some pass, and no index
      is listed twice, neither in two passes nor twice in one. */
  lemma PassesPartitionTheTexts(lengths: seq<nat>, groups: seq<seq<nat>>, budget: int, maxRows: int)
    requires GreedyPacking(lengths, groups, budget, maxRows)
    ensures forall i: nat :: i < |lengths| <==> InSomePass(groups, i)
    ensures forall i, k, j, l :: DifferentTexts(groups, i, k, j, l)
  {
    forall i: nat ensures i < |lengths| <==> InSomePass(groups, i) {
      TextInSomePass(lengths, groups, i, budget, maxRows);
    }
    forall i, k, j, l ensures DifferentTexts(groups, i, k, j, l) {
      TextsDiffer(lengths, groups, i, k, j, l, budget, maxRows);
    }
  }

  lemma TextInSomePass(lengths: seq<nat>, groups: seq<seq<nat>>, i: nat, budget: int, maxRows: int)
    requires GreedyPacking(lengths, groups, budget, maxRows)
    ensures i < |lengths| <==> InSomePass(groups, i)
  {
    if i < |lengths| {
      assert i in LongestFirst(lengths, |lengths|);
      ListedSomewhere(groups, i);
    }
    if j :| 0 <= j < |groups| && i in groups[j] {
      FlattenSplits(groups, j);
      assert i in Flatten(groups);
    }
  }

  lemma ListedSomewhere(groups: seq<seq<nat>>, i: nat)
    requires i in Flatten(groups)
    ensures InSomePass(groups, i)
  {
    var p :| 0 <= p < |Flatten(groups)| && Flatten(groups)[p] == i;
    var j := PassOf(groups, p);
    FlattenSplits(groups, j);
    assert groups[j][p - Start(groups, j)] == i;
  }

  lemma TextsDiffer(
    lengths: seq<nat>, groups: seq<seq<nat>>, i: nat, k: nat, j: nat, l: nat, budget: int, maxRows: int)
    requires GreedyPacking(lengths, groups, budget, maxRows)
    ensures DifferentTexts(groups, i, k, j, l)
  {
    if i < |groups| && k < |groups[i]| && j < |groups| && l < |groups[j]| && (i != j || k != l) {
      var p, q := Start(groups, i) + k, Start(groups, j) + l;
      FlattenSplits(groups, i);
      FlattenSplits(groups, j);
      assert Flatten(groups)[p] == groups[i][k] && Flatten(groups)[q] == groups[j][l];
      if i < j {
        StartsAscend(groups, i + 1, j);
      } else if j < i {
        StartsAscend(groups, j + 1, i);
      }
      ListedOnce(lengths, p, q);
    }
  }

  lemma ListedOnce(lengths: seq<nat>, p: nat, q: nat)
    requires p < |lengths| && q < |lengths| && p != q
    ensures LongestFirst(lengths, |lengths|)[p] != LongestFirst(lengths, |lengths|)[q]
  {
    var order := LongestFirst(lengths, |lengths|);
    LongestFirstIsOrdered(lengths, |lengths|);
    assert if p < q then Before(lengths, order[p], order[q]) else Before(lengths, order[q], order[p]);
  }
}
