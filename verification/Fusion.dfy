/** The fusion harness's weight grid (bench/baselines/fusion.py, `weight_grid`). */
module Fusion {
  import opened Basics

  // ----- the weight grid -----

  type Ticks = seq<nat>

  function Sum(v: Ticks): nat {
    if v == [] then 0 else v[0] + Sum(v[1..])
  }

  /** Every vector of `rest` with `first` put in front. */
  function Prefixed(first: nat, rest: seq<Ticks>): (r: seq<Ticks>)
    ensures |r| == |rest| && forall i :: 0 <= i < |r| ==> r[i] == [first] + rest[i]
  {
    seq(|rest|, i requires 0 <= i < |rest| => [first] + rest[i])
  }

  /** The vectors that start with a value below `upto`, in the order the product visits them. */
  function Blocks(upto: nat, rest: seq<Ticks>): seq<Ticks> {
    if upto == 0 then [] else Blocks(upto - 1, rest) + Prefixed(upto - 1, rest)
  }

  /** `itertools.product(range(ticks + 1), repeat=n)`. */
  function Product(n: nat, ticks: nat): seq<Ticks> {
    if n == 0 then [[]] else Blocks(ticks + 1, Product(n - 1, ticks))
  }

  function Keep(vs: seq<Ticks>, total: nat): seq<Ticks> {
    if vs == [] then []
    else Keep(vs[..|vs| - 1], total) + if Sum(vs[|vs| - 1]) == total then [vs[|vs| - 1]] else []
  }

  function Scaled(v: Ticks, ticks: nat): (w: seq<real>)
    requires ticks > 0
    ensures |w| == |v| && forall i :: 0 <= i < |v| ==> w[i] == v[i] as real / ticks as real
  {
    seq(|v|, i requires 0 <= i < |v| => v[i] as real / ticks as real)
  }

  function ScaledAll(vs: seq<Ticks>, ticks: nat): (ws: seq<seq<real>>)
    requires ticks > 0
    ensures |ws| == |vs| && forall i :: 0 <= i < |vs| ==> ws[i] == Scaled(vs[i], ticks)
  {
    seq(|vs|, i requires 0 <= i < |vs| => Scaled(vs[i], ticks))
  }

  /** `weight_grid` after `round(1.0 / step)`; None is the division by zero a step
      above 2 leads to. */
  method WeightGrid(legs: nat, ticks: nat) returns (grid: Option<seq<seq<real>>>)
    ensures grid.None? <==> ticks == 0 && legs > 0
    ensures ticks == 0 && legs == 0 ==> grid == Some([[]])
    ensures ticks > 0 ==> grid == Some(ScaledAll(Keep(Product(legs, ticks), ticks), ticks))
  {
    if ticks == 0 {
      // the only combination is all zeros, and an empty one divides nothing
      return if legs == 0 then Some([[]]) else None;
    }
    var combos := Product(legs, ticks);
    var out: seq<seq<real>> := [];
    for k := 0 to |combos|
      invariant out == ScaledAll(Keep(combos[..k], ticks), ticks)
    {
      assert combos[..k + 1][..k] == combos[..k];
      if Sum(combos[k]) == ticks {
        out := out + [Scaled(combos[k], ticks)];
      }
    }
    assert combos[..|combos|] == combos;
    grid := Some(out);
  }

  // ----- what the product lists -----

  ghost predicate InBox(v: Ticks, n: nat, ticks: nat) {
    |v| == n && forall i :: 0 <= i < n ==> v[i] <= ticks
  }

  /** Lexicographic order. */
  predicate LexLess(a: Ticks, b: Ticks) {
    a != [] && b != [] && (a[0] < b[0] || (a[0] == b[0] && LexLess(a[1..], b[1..])))
  }

  ghost predicate Increasing(vs: seq<Ticks>) {
    forall i, j :: 0 <= i < j < |vs| ==> LexLess(vs[i], vs[j])
  }

  lemma {:induction false} BlocksHold(upto: nat, rest: seq<Ticks>, v: Ticks)
    ensures v in Blocks(upto, rest) <==> v != [] && v[0] < upto && v[1..] in rest
  {
    if upto > 0 {
      BlocksHold(upto - 1, rest, v);
      var last := Prefixed(upto - 1, rest);
      if v in last {
        var i :| 0 <= i < |last| && last[i] == v;
        assert v[1..] == rest[i];
      }
      if v != [] && v[0] == upto - 1 && v[1..] in rest {
        var i :| 0 <= i < |rest| && rest[i] == v[1..];
        assert last[i] == v;
      }
    }
  }

  lemma {:induction false} ProductHolds(n: nat, ticks: nat, v: Ticks)
    ensures v in Product(n, ticks) <==> InBox(v, n, ticks)
  {
    if n > 0 {
      BlocksHold(ticks + 1, Product(n - 1, ticks), v);
      if v != [] {
        ProductHolds(n - 1, ticks, v[1..]);
        assert forall i :: 0 <= i < |v[1..]| ==> v[1..][i] == v[i + 1];
        assert InBox(v, n, ticks) <==> v[0] <= ticks && InBox(v[1..], n - 1, ticks) by {
          if v[0] <= ticks && InBox(v[1..], n - 1, ticks) {
            forall i | 0 <= i < n ensures v[i] <= ticks {
              assert i > 0 ==> v[1..][i - 1] == v[i];
            }
          }
        }
      }
    }
  }

  lemma {:induction false} BlocksIncrease(upto: nat, rest: seq<Ticks>)
    requires Increasing(rest)
    ensures Increasing(Blocks(upto, rest))
  {
    if upto > 0 {
      BlocksIncrease(upto - 1, rest);
      var before, last := Blocks(upto - 1, rest), Prefixed(upto - 1, rest);
      forall i, j | 0 <= i < j < |before + last| ensures LexLess((before + last)[i], (before + last)[j]) {
        if i < |before| <= j {
          assert before[i] in before;
          BlocksHold(upto - 1, rest, before[i]);
        } else if |before| <= i {
          var a, b := i - |before|, j - |before|;
          assert last[a][1..] == rest[a] && last[b][1..] == rest[b];
        }
      }
    }
  }

  lemma {:induction false} ProductIncreases(n: nat, ticks: nat)
    ensures Increasing(Product(n, ticks))
  {
    if n > 0 {
      ProductIncreases(n - 1, ticks);
      BlocksIncrease(ticks + 1, Product(n - 1, ticks));
    }
  }

  // ----- what the filter keeps -----

  lemma {:induction false} KeepHolds(vs: seq<Ticks>, total: nat, v: Ticks)
    ensures v in Keep(vs, total) <==> v in vs && Sum(v) == total
  {
    if vs != [] {
      KeepHolds(vs[..|vs| - 1], total, v);
      assert vs == vs[..|vs| - 1] + [vs[|vs| - 1]];
    }
  }

  lemma {:induction false} KeepIncreases(vs: seq<Ticks>, total: nat)
    requires Increasing(vs)
    ensures Increasing(Keep(vs, total))
  {
    if vs != [] {
      var m := |vs| - 1;
      KeepIncreases(vs[..m], total);
      var before := Keep(vs[..m], total);
      forall i | 0 <= i < |before| ensures LexLess(before[i], vs[m]) {
        assert before[i] in before;
        KeepHolds(vs[..m], total, before[i]);
        var k :| 0 <= k < m && vs[k] == before[i];
      }
    }
  }

  lemma {:induction false} KeepAppend(a: seq<Ticks>, b: seq<Ticks>, total: nat)
    ensures Keep(a + b, total) == Keep(a, total) + Keep(b, total)
  {
    if b == [] {
      assert a + b == a;
    } else {
      KeepAppend(a, b[..|b| - 1], total);
      assert (a + b)[..|a + b| - 1] == a + b[..|b| - 1];
    }
  }

  /** Of the vectors starting with `first`, those with the right sum are the ones
      whose tail sums to what is left. */
  lemma {:induction false} KeepPrefixed(first: nat, rest: seq<Ticks>, total: nat)
    ensures |Keep(Prefixed(first, rest), total)| == if first <= total then |Keep(rest, total - first)| else 0
  {
    if rest != [] {
      var m := |rest| - 1;
      KeepPrefixed(first, rest[..m], total);
      assert Prefixed(first, rest)[..m] == Prefixed(first, rest[..m]);
      assert ([first] + rest[m])[1..] == rest[m];
    }
  }

  // ----- how many there are -----

  /** Ways to write `total` as an ordered sum of `n` naturals. */
  function Compositions(n: nat, total: nat): nat {
    if n == 0 then if total == 0 then 1 else 0
    else if total == 0 then Compositions(n - 1, 0)
    else Compositions(n, total - 1) + Compositions(n - 1, total)
  }

  function Choose(n: nat, k: nat): nat {
    if k == 0 then 1 else if n == 0 then 0 else Choose(n - 1, k - 1) + Choose(n - 1, k)
  }

  /** The sum over the first entry. */
  function ByFirst(n: nat, total: nat, upto: nat): nat {
    if upto == 0 then 0
    else ByFirst(n, total, upto - 1) + if upto - 1 <= total then Compositions(n, total - (upto - 1)) else 0
  }

  lemma {:induction false} ByFirstShifts(n: nat, total: nat, upto: nat)
    requires total > 0 && upto > 0
    ensures ByFirst(n, total, upto) == Compositions(n, total) + ByFirst(n, total - 1, upto - 1)
  {
    if upto > 1 {
      ByFirstShifts(n, total, upto - 1);
    }
  }

  lemma {:induction false} CompositionsByFirst(n: nat, total: nat, upto: nat)
    requires n > 0 && total < upto
    ensures Compositions(n, total) == ByFirst(n - 1, total, upto)
  {
    if total == 0 {
      OnlyTheFirst(n - 1, upto);
    } else {
      CompositionsByFirst(n, total - 1, upto - 1);
      ByFirstShifts(n - 1, total, upto);
    }
  }

  lemma {:induction false} OnlyTheFirst(n: nat, upto: nat)
    requires upto > 0
    ensures ByFirst(n, 0, upto) == Compositions(n, 0)
  {
    if upto > 1 {
      OnlyTheFirst(n, upto - 1);
    }
  }

  /** Among these vectors, as many have sum `t` as there are compositions. */
  ghost predicate CountIs(vs: seq<Ticks>, n: nat, t: nat) {
    |Keep(vs, t)| == Compositions(n, t)
  }

  ghost predicate CountsAre(vs: seq<Ticks>, n: nat, total: nat) {
    forall t: nat :: t <= total ==> CountIs(vs, n, t)
  }

  lemma CountPrefixed(rest: seq<Ticks>, n: nat, total: nat, first: nat)
    requires CountsAre(rest, n, total)
    ensures |Keep(Prefixed(first, rest), total)| == if first <= total then Compositions(n, total - first) else 0
  {
    KeepPrefixed(first, rest, total);
    if first <= total {
      assert CountIs(rest, n, total - first);
    }
  }

  lemma {:induction false} CountBlocks(rest: seq<Ticks>, n: nat, total: nat, upto: nat)
    requires CountsAre(rest, n, total)
    ensures |Keep(Blocks(upto, rest), total)| == ByFirst(n, total, upto)
  {
    if upto > 0 {
      var first: nat := upto - 1;
      CountBlocks(rest, n, total, first);
      CountOneBlock(rest, n, total, first);
    }
  }

  lemma {:induction false} CountOneBlock(rest: seq<Ticks>, n: nat, total: nat, first: nat)
    requires CountsAre(rest, n, total)
    ensures |Keep(Blocks(first + 1, rest), total)| ==
            |Keep(Blocks(first, rest), total)| + (if first <= total then Compositions(n, total - first) else 0)
  {
    KeepAppend(Blocks(first, rest), Prefixed(first, rest), total);
    CountPrefixed(rest, n, total, first);
  }

  lemma {:induction false} CountProduct(n: nat, ticks: nat, total: nat)
    requires total <= ticks
    ensures CountIs(Product(n, ticks), n, total)
  {
    if n == 0 {
      assert Product(0, ticks)[..0] == [];
    } else {
      var m: nat := n - 1;
      forall t: nat | t <= total ensures CountIs(Product(m, ticks), m, t) {
        CountProduct(m, ticks, t);
      }
      CountOneLonger(Product(m, ticks), m, ticks, total);
    }
  }

  lemma CountOneLonger(rest: seq<Ticks>, n: nat, ticks: nat, total: nat)
    requires total <= ticks && CountsAre(rest, n, total)
    ensures |Keep(Blocks(ticks + 1, rest), total)| == Compositions(n + 1, total)
  {
    CountBlocks(rest, n, total, ticks + 1);
    CompositionsByFirst(n + 1, total, ticks + 1);
  }

  /** Stars and bars. */
  lemma {:induction false} CompositionsAreBinomial(n: nat, total: nat)
    requires n > 0
    ensures Compositions(n, total) == Choose(total + n - 1, n - 1)
    decreases n, total
  {
    if n == 1 {
      if total > 0 {
        CompositionsAreBinomial(1, total - 1);
      }
    } else if total == 0 {
      CompositionsAreBinomial(n - 1, 0);
      ChooseAll(n - 1);
      ChooseAll(n - 2);
    } else {
      CompositionsAreBinomial(n, total - 1);
      CompositionsAreBinomial(n - 1, total);
    }
  }

  lemma {:induction false} ChooseAll(n: nat)
    ensures Choose(n, n) == 1
    ensures Choose(n, n + 1) == 0
  {
    if n > 0 {
      ChooseAll(n - 1);
      ChooseNone(n - 1, n + 1);
    }
  }

  lemma {:induction false} ChooseNone(n: nat, k: nat)
    requires k > n
    ensures Choose(n, k) == 0
  {
    if n > 0 {
      ChooseNone(n - 1, k - 1);
      ChooseNone(n - 1, k);
    }
  }

  lemma {:induction false} EntryBelowSum(v: Ticks, i: nat)
    requires i < |v|
    ensures v[i] <= Sum(v)
  {
    if i > 0 {
      EntryBelowSum(v[1..], i - 1);
    }
  }

  /** The grid is exactly the vectors of naturals of the right length and sum, in
      strictly increasing lexicographic order, so each once, and as many as the
      binomial coefficient says. */
  lemma GridIsTheSimplex(legs: nat, ticks: nat, v: Ticks)
    requires legs > 0
    ensures v in Keep(Product(legs, ticks), ticks) <==> |v| == legs && Sum(v) == ticks
    ensures Increasing(Keep(Product(legs, ticks), ticks))
    ensures |Keep(Product(legs, ticks), ticks)| == Choose(ticks + legs - 1, legs - 1)
  {
    KeepHolds(Product(legs, ticks), ticks, v);
    ProductHolds(legs, ticks, v);
    if |v| == legs && Sum(v) == ticks {
      forall i | 0 <= i < legs ensures v[i] <= ticks {
        EntryBelowSum(v, i);
      }
    }
    ProductIncreases(legs, ticks);
    KeepIncreases(Product(legs, ticks), ticks);
    CountProduct(legs, ticks, ticks);
    CompositionsAreBinomial(legs, ticks);
  }

  /** Distinct grid points are listed at distinct places. */
  lemma {:induction false} LexLessIsStrict(a: Ticks, b: Ticks)
    ensures LexLess(a, b) ==> a != b
  {
    if a != [] && b != [] {
      LexLessIsStrict(a[1..], b[1..]);
    }
  }

  function SumReal(w: seq<real>): real {
    if w == [] then 0.0 else w[0] + SumReal(w[1..])
  }

  lemma {:induction false} ScaledSum(v: Ticks, ticks: nat)
    requires ticks > 0
    ensures SumReal(Scaled(v, ticks)) == Sum(v) as real / ticks as real
  {
    if v == [] {
      assert 0.0 / ticks as real == 0.0;
    } else {
      ScaledSum(v[1..], ticks);
      assert Scaled(v, ticks)[1..] == Scaled(v[1..], ticks);
      AddQuotients(v[0] as real, Sum(v[1..]) as real, ticks as real);
    }
  }

  lemma AddQuotients(x: real, y: real, d: real)
    requires d > 0.0
    ensures x / d + y / d == (x + y) / d
  {
    assert (x / d) * d == x && (y / d) * d == y && ((x + y) / d) * d == x + y;
    assert (x / d + y / d - (x + y) / d) * d == 0.0;
  }

  lemma QuotientFacts(x: nat, d: nat)
    requires d > 0
    ensures x as real / d as real >= 0.0
    ensures x == d ==> x as real / d as real == 1.0
  {
    var q := x as real / d as real;
    assert q * d as real == x as real;
    assert q < 0.0 ==> q * d as real < 0.0;
    assert x == d ==> (q - 1.0) * d as real == 0.0;
  }

  /** Every weight vector of the grid has non-negative entries that add up to one. */
  lemma WeightsSumToOne(legs: nat, ticks: nat, k: nat)
    requires legs > 0 && ticks > 0 && k < |Keep(Product(legs, ticks), ticks)|
    ensures var w := ScaledAll(Keep(Product(legs, ticks), ticks), ticks)[k];
      |w| == legs && SumReal(w) == 1.0 && forall i :: 0 <= i < legs ==> w[i] >= 0.0
  {
    var v := Keep(Product(legs, ticks), ticks)[k];
    assert v in Keep(Product(legs, ticks), ticks);
    GridIsTheSimplex(legs, ticks, v);
    ScaledSum(v, ticks);
    QuotientFacts(ticks, ticks);
    forall i | 0 <= i < legs ensures Scaled(v, ticks)[i] >= 0.0 {
      QuotientFacts(v[i], ticks);
    }
  }

  // ----- only the ratio of the weights matters -----

  function Rescaled(w: seq<real>, c: real): (r: seq<real>)
    ensures |r| == |w| && forall i :: 0 <= i < |w| ==> r[i] == c * w[i]
  {
    seq(|w|, i requires 0 <= i < |w| => c * w[i])
  }

  /** The weighted sum of one chunk's leg scores. */
  function WeightedScore(w: seq<real>, scores: seq<real>): real
    requires |scores| == |w|
  {
    if w == [] then 0.0 else w[0] * scores[0] + WeightedScore(w[1..], scores[1..])
  }

  lemma RescaledTail(w: seq<real>, c: real)
    requires w != []
    ensures Rescaled(w, c)[1..] == Rescaled(w[1..], c)
  {
    var a, b := Rescaled(w, c)[1..], Rescaled(w[1..], c);
    forall i | 0 <= i < |a| ensures a[i] == b[i] {
      assert w[1..][i] == w[i + 1];
    }
  }

  lemma {:induction false} RescaledScore(w: seq<real>, c: real, scores: seq<real>)
    requires |scores| == |w|
    ensures WeightedScore(Rescaled(w, c), scores) == c * WeightedScore(w, scores)
  {
    if w != [] {
      RescaledTail(w, c);
      RescaledScore(w[1..], c, scores[1..]);
      Factor(c, w[0], scores[0], WeightedScore(w[1..], scores[1..]));
    }
  }

  lemma Factor(c: real, w: real, x: real, rest: real)
    ensures (c * w) * x + c * rest == c * (w * x + rest)
  {
  }

  lemma ScaleOrder(c: real, x: real, y: real)
    requires c > 0.0
    ensures c * x < c * y <==> x < y
  {
    assert c * (y - x) > 0.0 <==> y - x > 0.0;
    assert c * (y - x) == c * y - c * x;
  }

  /** A positive rescaling of the weights ranks every two chunks as the weights do. */
  lemma {:induction false} RescalingKeepsTheOrdering(w: seq<real>, c: real, x: seq<real>, y: seq<real>)
    requires c > 0.0 && |x| == |y| == |w|
    ensures WeightedScore(Rescaled(w, c), x) < WeightedScore(Rescaled(w, c), y) <==> WeightedScore(w, x) < WeightedScore(w, y)
  {
    RescaledScore(w, c, x);
    RescaledScore(w, c, y);
    ScaleOrder(c, WeightedScore(w, x), WeightedScore(w, y));
  }

  lemma {:induction false} RescaledSum(w: seq<real>, c: real)
    ensures SumReal(Rescaled(w, c)) == c * SumReal(w)
  {
    if w != [] {
      RescaledTail(w, c);
      RescaledSum(w[1..], c);
    }
  }

  /** The grid spends no two points on one ratio: a rescaling of a grid point that is
      again a grid point is the same point. */
  lemma NoTwoPointsOfOneRatio(legs: nat, ticks: nat, j: nat, k: nat, c: real)
    requires legs > 0 && ticks > 0
    requires var grid := ScaledAll(Keep(Product(legs, ticks), ticks), ticks);
      j < |grid| && k < |grid| && grid[k] == Rescaled(grid[j], c)
    ensures j == k
  {
    var vs := Keep(Product(legs, ticks), ticks);
    var grid := ScaledAll(vs, ticks);
    WeightsSumToOne(legs, ticks, j);
    WeightsSumToOne(legs, ticks, k);
    RescaledSum(grid[j], c);
    assert c == 1.0;
    assert vs[j] in vs;
    GridIsTheSimplex(legs, ticks, vs[j]);
    assert vs[k] in vs;
    GridIsTheSimplex(legs, ticks, vs[k]);
    forall i | 0 <= i < legs ensures vs[j][i] == vs[k][i] {
      assert grid[k][i] == 1.0 * grid[j][i];
      SameTicks(vs[j][i], vs[k][i], ticks);
    }
    assert vs[j] == vs[k];
    LexLessIsStrict(vs[j], vs[k]);
    LexLessIsStrict(vs[k], vs[j]);
  }

  lemma SameTicks(x: nat, y: nat, ticks: nat)
    requires ticks > 0 && x as real / ticks as real == y as real / ticks as real
    ensures x == y
  {
    assert x as real == (x as real / ticks as real) * ticks as real;
    assert y as real == (y as real / ticks as real) * ticks as real;
  }
}
