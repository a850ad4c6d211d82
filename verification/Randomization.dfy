/** The paired randomization test (bench/stats.py, `permutation_p`), in exact arithmetic.

    The random draws are a parameter. Two things are proved about the add-one
    p-value: that it is valid, in the counting form that needs no probability
    (few choices of the observed arrangement can look extreme), and that the
    tolerance in the comparison can only make it larger. */
module Randomization {
  import opened Basics

  /** An assignment of signs, one per query; true keeps the difference. */
  type Flips = seq<bool>

  function FlippedSum(diffs: seq<real>, flips: Flips): real
    requires |flips| == |diffs|
  {
    if diffs == [] then 0.0
    else
      var m := |diffs| - 1;
      FlippedSum(diffs[..m], flips[..m]) + if flips[m] then diffs[m] else -diffs[m]
  }

  function Abs(x: real): (r: real)
    ensures r >= 0.0 && (r == x || r == -x)
  {
    if x < 0.0 then -x else x
  }

  /** The statistic of one arrangement: the absolute mean of the flipped differences. */
  function Statistic(diffs: seq<real>, flips: Flips): real
    requires |flips| == |diffs| > 0
  {
    Abs(FlippedSum(diffs, flips) / |diffs| as real)
  }

  function AllKept(n: nat): Flips {
    seq(n, _ => true)
  }

  /** Draw `d` of the test: the signs given by the random numbers `coin`. */
  function Draw(coin: (nat, nat) -> real, d: nat, n: nat): (f: Flips)
    ensures |f| == n
  {
    seq(n, i requires 0 <= i < n => coin(d, i) < 0.5)
  }

  /** Draws whose statistic reaches `observed`, up to the tolerance. */
  function HitCount(stats: seq<real>, observed: real, slack: real): nat {
    if stats == [] then 0
    else HitCount(stats[..|stats| - 1], observed, slack) + if stats[|stats| - 1] >= observed - slack then 1 else 0
  }

  const SLACK: real := 0.000000000001

  /** The statistics of the draws, in order. */
  function DrawStatistics(diffs: seq<real>, coin: (nat, nat) -> real, b: nat): (s: seq<real>)
    requires |diffs| > 0
    ensures |s| == b
  {
    seq(b, d requires 0 <= d < b => Statistic(diffs, Draw(coin, d, |diffs|)))
  }

  function AddOneP(hits: nat, b: nat): (p: real)
    ensures p * (b + 1) as real == (hits + 1) as real
  {
    (hits + 1) as real / (b + 1) as real
  }

  /** The test is two-sided: it looks at the size of the mean and not at its sign, so
      turning every sign around changes no statistic. */
  lemma {:induction false} StatisticIsTwoSided(diffs: seq<real>, flips: Flips)
    requires |flips| == |diffs| > 0
    ensures Statistic(diffs, flips) >= FlippedSum(diffs, flips) / |diffs| as real
    ensures Statistic(diffs, flips) >= -(FlippedSum(diffs, flips) / |diffs| as real)
    ensures Statistic(diffs, Turned(flips)) == Statistic(diffs, flips)
  {
    TurnedSum(diffs, flips);
    NegatedQuotient(FlippedSum(diffs, flips), |diffs| as real);
  }

  function Turned(flips: Flips): (r: Flips)
    ensures |r| == |flips| && forall i :: 0 <= i < |r| ==> r[i] == !flips[i]
  {
    seq(|flips|, i requires 0 <= i < |flips| => !flips[i])
  }

  lemma {:induction false} TurnedSum(diffs: seq<real>, flips: Flips)
    requires |flips| == |diffs|
    ensures FlippedSum(diffs, Turned(flips)) == -FlippedSum(diffs, flips)
  {
    if diffs != [] {
      var m := |diffs| - 1;
      TurnedSum(diffs[..m], flips[..m]);
      assert Turned(flips)[..m] == Turned(flips[..m]);
    }
  }

  lemma NegatedQuotient(x: real, d: real)
    requires d > 0.0
    ensures (-x) / d == -(x / d)
  {
    assert (x / d) * d == x && ((-x) / d) * d == -x;
    assert ((-x) / d + x / d) * d == 0.0;
  }

  /** The sum the statistic is about: each difference with its sign. */
  lemma {:induction false} FlippedSumOfOne(diffs: seq<real>, flips: Flips, i: nat, d: real)
    requires |flips| == |diffs| && i < |diffs|
    ensures FlippedSum(diffs[i := d], flips) - FlippedSum(diffs, flips) == if flips[i] then d - diffs[i] else diffs[i] - d
  {
    var m := |diffs| - 1;
    if i < m {
      FlippedSumOfOne(diffs[..m], flips[..m], i, d);
      assert diffs[i := d][..m] == diffs[..m][i := d];
    } else {
      assert diffs[i := d][..m] == diffs[..m];
    }
  }

  /** `permutation_p`; None is the error raised for an empty sample. */
  method PermutationP(diffs: seq<real>, coin: (nat, nat) -> real, b: nat) returns (p: Option<real>)
    ensures diffs == [] ==> p == None
    ensures diffs != [] ==>
      p == Some(AddOneP(HitCount(DrawStatistics(diffs, coin, b), Statistic(diffs, AllKept(|diffs|)), 0.000000000001), b))
  {
    if diffs == [] {
      return None;
    }
    var n := |diffs|;
    var sum := 0.0;
    for i := 0 to n
      invariant sum == FlippedSum(diffs[..i], AllKept(i))
    {
      assert diffs[..i + 1][..i] == diffs[..i] && AllKept(i + 1)[..i] == AllKept(i);
      sum := sum + diffs[i];
    }
    assert diffs[..n] == diffs;
    var observed := Abs(sum / n as real);
    ghost var stats := DrawStatistics(diffs, coin, b);
    var hits := 0;
    for d := 0 to b
      invariant hits == HitCount(stats[..d], observed, SLACK)
    {
      var total := 0.0;
      ghost var flips := Draw(coin, d, n);
      for i := 0 to n
        invariant total == FlippedSum(diffs[..i], flips[..i])
      {
        assert diffs[..i + 1][..i] == diffs[..i] && flips[..i + 1][..i] == flips[..i];
        total := total + if coin(d, i) < 0.5 then diffs[i] else -diffs[i];
      }
      assert flips[..n] == flips;
      assert stats[..d + 1][..d] == stats[..d];
      if Abs(total / n as real) >= observed - SLACK {
        hits := hits + 1;
      }
    }
    assert stats[..b] == stats;
    p := Some(AddOneP(hits, b));
  }

  // ----- validity over any collection of statistics -----

  /** Members of a finite set of arrangements at least as extreme as `x`, up to the tolerance. */
  ghost function Extreme<T(!new)>(group: set<T>, stat: T -> real, x: real, slack: real): set<T> {
    set g | g in group && stat(g) >= x - slack
  }

  lemma {:induction false} LeastOf<T(!new)>(s: set<T>, stat: T -> real) returns (least: T)
    requires s != {}
    ensures least in s && forall g :: g in s ==> stat(least) <= stat(g)
  {
    var g :| g in s;
    if s == {g} {
      least := g;
    } else {
      least := LeastOf(s - {g}, stat);
      if stat(g) < stat(least) {
        least := g;
      }
    }
  }

  /** The arrangements that at most `m` members of the group reach. */
  ghost function Significant<T(!new)>(group: set<T>, stat: T -> real, slack: real, m: nat): set<T> {
    set g | g in group && |Extreme(group, stat, stat(g), slack)| <= m
  }

  /** Of any finite collection of statistics at most `m` are reached by at most `m`
      of them: whichever member is called the observed one, no more than `m` of the
      choices give a p-value of at most m over the number of members. */
  lemma AtMostMAreSignificant<T(!new)>(group: set<T>, stat: T -> real, slack: real, m: nat)
    requires slack >= 0.0
    ensures |Significant(group, stat, slack, m)| <= m
  {
    var few := Significant(group, stat, slack, m);
    if few != {} {
      var least := LeastOf(few, stat);
      SubsetSize(few, Extreme(group, stat, stat(least), slack));
    }
  }

  // ----- the drawn test -----

  /** Statistics 0..b, of which number `i` is observed and the others are the draws. */
  function WithObserved(stats: seq<real>, i: nat): seq<real>
    requires i < |stats|
  {
    stats[..i] + stats[i + 1..]
  }

  ghost function Reaching(stats: seq<real>, x: real, slack: real): set<nat> {
    set k | 0 <= k < |stats| && stats[k] >= x - slack
  }

  lemma {:induction false} HitCountIsASize(stats: seq<real>, x: real, slack: real)
    ensures HitCount(stats, x, slack) == |Reaching(stats, x, slack)|
  {
    if stats == [] {
      assert Reaching(stats, x, slack) == {};
    } else {
      var m := |stats| - 1;
      HitCountIsASize(stats[..m], x, slack);
      var r, r' := Reaching(stats[..m], x, slack), Reaching(stats, x, slack);
      assert r' == if stats[m] >= x - slack then r + {m} else r;
    }
  }

  lemma {:induction false} HitCountAppend(a: seq<real>, b: seq<real>, x: real, slack: real)
    ensures HitCount(a + b, x, slack) == HitCount(a, x, slack) + HitCount(b, x, slack)
  {
    if b == [] {
      assert a + b == a;
    } else {
      HitCountAppend(a, b[..|b| - 1], x, slack);
      assert (a + b)[..|a + b| - 1] == a + b[..|b| - 1];
    }
  }

  /** The observed statistic always reaches itself, which is the added one. */
  lemma ObservedCountsItself(stats: seq<real>, i: nat, slack: real)
    requires i < |stats| && slack >= 0.0
    ensures HitCount(WithObserved(stats, i), stats[i], slack) + 1 == |Reaching(stats, stats[i], slack)|
  {
    var one := [stats[i]];
    HitCountIsASize(stats, stats[i], slack);
    HitCountAppend(stats[..i], stats[i + 1..], stats[i], slack);
    HitCountAppend(stats[..i], one + stats[i + 1..], stats[i], slack);
    HitCountAppend(one, stats[i + 1..], stats[i], slack);
    assert stats == stats[..i] + (one + stats[i + 1..]);
    assert one[..0] == [];
  }

  /** The choices of the observed statistic that give a p-value of at most m / (b + 1). */
  ghost function SmallP(stats: seq<real>, slack: real, m: nat): set<nat> {
    set i | 0 <= i < |stats| &&
      AddOneP(HitCount(WithObserved(stats, i), stats[i], slack), |stats| - 1) <= m as real / |stats| as real
  }

  lemma FractionOrder(x: nat, y: nat, d: nat)
    requires d > 0
    ensures x as real / d as real <= y as real / d as real <==> x <= y
  {
    var p, q := x as real / d as real, y as real / d as real;
    assert p * d as real == x as real && q * d as real == y as real;
    assert p <= q ==> p * d as real <= q * d as real;
    assert p > q ==> p * d as real > q * d as real;
  }

  /** Validity of the add-one p-value with b drawn statistics: of the b + 1 equally
      admissible choices of the observed one, at most m give p <= m / (b + 1). */
  lemma AddOnePIsValid(stats: seq<real>, slack: real, m: nat)
    requires stats != [] && slack >= 0.0
    ensures |SmallP(stats, slack, m)| <= m
  {
    var stat := (i: nat) => if i < |stats| then stats[i] else 0.0;
    var group := Below(|stats|);
    AtMostMAreSignificant(group, stat, slack, m);
    forall i | i in SmallP(stats, slack, m) ensures i in Significant(group, stat, slack, m) {
      ObservedCountsItself(stats, i, slack);
      FractionOrder(HitCount(WithObserved(stats, i), stats[i], slack) + 1, m, |stats|);
      assert Extreme(group, stat, stat(i), slack) == Reaching(stats, stats[i], slack);
    }
    SubsetSize(SmallP(stats, slack, m), Significant(group, stat, slack, m));
  }

  /** The tolerance only makes the test more conservative. */
  lemma {:induction false} SlackIsConservative(stats: seq<real>, observed: real, slack: real)
    requires slack >= 0.0
    ensures HitCount(stats, observed, slack) >= HitCount(stats, observed, 0.0)
    ensures AddOneP(HitCount(stats, observed, slack), |stats|) >= AddOneP(HitCount(stats, observed, 0.0), |stats|)
  {
    if stats != [] {
      SlackIsConservative(stats[..|stats| - 1], observed, slack);
    }
    FractionOrder(HitCount(stats, observed, 0.0) + 1, HitCount(stats, observed, slack) + 1, |stats| + 1);
  }

  // ----- the full group of sign flips -----

  function Pow2(n: nat): (r: nat)
    ensures r > 0
  {
    if n == 0 then 1 else 2 * Pow2(n - 1)
  }

  /** `f` is a member of `s` with one more sign. */
  ghost predicate Lengthens(f: Flips, s: set<Flips>) {
    |f| > 0 && f[..|f| - 1] in s
  }

  /** Every member of `s` with either sign added at its end. */
  ghost function Lengthened(s: set<Flips>): (r: set<Flips>)
    ensures |r| == 2 * |s|
    ensures forall f {:trigger f in r} :: f in r <==> Lengthens(f, s)
  {
    if s == {} then {}
    else
      var g :| g in s;
      var rest := Lengthened(s - {g});
      TwoMore(s, g);
      Adjoin(s, g, rest, g + [true], g + [false]);
      rest + {g + [true], g + [false]}
  }

  lemma Adjoin(s: set<Flips>, g: Flips, rest: set<Flips>, a: Flips, b: Flips)
    requires g in s && a != b && !Lengthens(a, s - {g}) && !Lengthens(b, s - {g})
    requires |rest| == 2 * |s - {g}| && forall f {:trigger f in rest} :: f in rest <==> Lengthens(f, s - {g})
    requires forall f {:trigger Lengthens(f, s)} :: Lengthens(f, s) <==> Lengthens(f, s - {g}) || f == a || f == b
    ensures |rest + {a, b}| == 2 * |s|
    ensures forall f {:trigger f in rest + {a, b}} :: f in rest + {a, b} <==> Lengthens(f, s)
  {
    assert a !in rest && b !in rest && |{a, b}| == 2;
    assert |s| == |s - {g}| + 1;
  }

  lemma TwoMore(s: set<Flips>, g: Flips)
    requires g in s
    ensures g + [true] != g + [false] && !Lengthens(g + [true], s - {g}) && !Lengthens(g + [false], s - {g})
    ensures forall f {:trigger Lengthens(f, s)} ::
      Lengthens(f, s) <==> Lengthens(f, s - {g}) || f == g + [true] || f == g + [false]
  {
    assert (g + [true])[|g|] && !(g + [false])[|g|];
    forall f: Flips ensures Lengthens(f, s) <==> Lengthens(f, s - {g}) || f == g + [true] || f == g + [false] {
      OneSign(g, f);
    }
    OneSign(g, g + [true]);
    OneSign(g, g + [false]);
  }

  lemma OneSign(g: Flips, f: Flips)
    ensures f == g + [true] || f == g + [false] <==> |f| > 0 && f[..|f| - 1] == g
  {
    assert (g + [true])[..|g|] == g && (g + [false])[..|g|] == g;
    if |f| > 0 && f[..|f| - 1] == g {
      assert f == g + [f[|f| - 1]];
      assert f[|f| - 1] ==> f == g + [true];
      assert !f[|f| - 1] ==> f == g + [false];
    }
  }

  /** All assignments of signs to `n` differences: there are 2^n. */
  ghost function AllFlips(n: nat): (s: set<Flips>)
    ensures |s| == Pow2(n)
    ensures forall f {:trigger f in s} :: f in s <==> |f| == n
  {
    if n == 0 then
      assert forall f: Flips {:trigger |f|} :: |f| == 0 <==> f == [];
      {[]}
    else Lengthened(AllFlips(n - 1))
  }

  /** Flipping twice: signs multiply. */
  function Compose(f: Flips, g: Flips): (r: Flips)
    requires |f| == |g|
    ensures |r| == |f| && forall i :: 0 <= i < |r| ==> r[i] == (f[i] == g[i])
  {
    seq(|f|, i requires 0 <= i < |f| => f[i] == g[i])
  }

  function Flipped(diffs: seq<real>, f: Flips): (r: seq<real>)
    requires |f| == |diffs|
    ensures |r| == |diffs| && forall i :: 0 <= i < |r| ==> r[i] == if f[i] then diffs[i] else -diffs[i]
  {
    seq(|diffs|, i requires 0 <= i < |diffs| => if f[i] then diffs[i] else -diffs[i])
  }

  lemma {:induction false} FlippingComposes(diffs: seq<real>, f: Flips, g: Flips)
    requires |f| == |g| == |diffs|
    ensures FlippedSum(Flipped(diffs, f), g) == FlippedSum(diffs, Compose(f, g))
  {
    if diffs != [] {
      var m := |diffs| - 1;
      FlippingComposes(diffs[..m], f[..m], g[..m]);
      assert Flipped(diffs, f)[..m] == Flipped(diffs[..m], f[..m]);
      assert Compose(f, g)[..m] == Compose(f[..m], g[..m]);
    }
  }

  /** Sign patterns at least as extreme as `f` on these differences. */
  ghost function AsExtremeAs(diffs: seq<real>, f: Flips, slack: real): set<Flips>
    requires |f| == |diffs| > 0
  {
    set h | h in AllFlips(|diffs|) && Statistic(diffs, h) >= Statistic(diffs, f) - slack
  }

  /** The exact p-value: the draws run over the whole group once. */
  ghost function ExactP(diffs: seq<real>, slack: real): real
    requires |diffs| > 0
  {
    |AsExtremeAs(diffs, AllKept(|diffs|), slack)| as real / Pow2(|diffs|) as real
  }

  lemma FlippedStatistic(diffs: seq<real>, f: Flips, g: Flips)
    requires |f| == |g| == |diffs| > 0
    ensures Statistic(Flipped(diffs, f), g) == Statistic(diffs, Compose(f, g))
    ensures Compose(f, Compose(f, g)) == g && Compose(f, AllKept(|diffs|)) == f
  {
    FlippingComposes(diffs, f, g);
  }

  /** Had `f` been the signs the data came with, the test would have counted the
      members of the group that reach the statistic of `f`. */
  lemma FlippedDataCountsTheSameGroup(diffs: seq<real>, f: Flips, slack: real)
    requires |f| == |diffs| > 0
    ensures |AsExtremeAs(Flipped(diffs, f), AllKept(|diffs|), slack)| == |AsExtremeAs(diffs, f, slack)|
  {
    var a, b := AsExtremeAs(Flipped(diffs, f), AllKept(|diffs|), slack), AsExtremeAs(diffs, f, slack);
    FlippedStatistic(diffs, f, AllKept(|diffs|));
    forall g | g in a ensures Compose(f, g) in b {
      FlippedStatistic(diffs, f, g);
    }
    forall h | h in b ensures Compose(f, h) in a {
      FlippedStatistic(diffs, f, h);
      FlippedStatistic(diffs, f, Compose(f, h));
    }
    ImageSize(a, b, f);
    ImageSize(b, a, f);
  }

  lemma {:induction false} ImageSize(a: set<Flips>, b: set<Flips>, f: Flips)
    requires forall g :: g in a ==> |g| == |f| && Compose(f, g) in b
    ensures |a| <= |b|
  {
    if a != {} {
      var g :| g in a;
      forall h | h in a - {g} ensures Compose(f, h) in b - {Compose(f, g)} {
        assert Compose(f, Compose(f, h)) == h && Compose(f, Compose(f, g)) == g;
      }
      ImageSize(a - {g}, b - {Compose(f, g)}, f);
    }
  }

  /** The statistic as a total function, for the general counting result. */
  ghost function StatisticOf(diffs: seq<real>): Flips -> real
    requires |diffs| > 0
  {
    (f: Flips) => if |f| == |diffs| then Statistic(diffs, f) else 0.0
  }

  /** The sign patterns under which the test would have reported p <= m / 2^n. */
  ghost function SmallExactP(diffs: seq<real>, slack: real, m: nat): set<Flips>
    requires |diffs| > 0
  {
    set f | f in AllFlips(|diffs|) && ExactP(Flipped(diffs, f), slack) <= m as real / Pow2(|diffs|) as real
  }

  lemma SmallIsSignificant(diffs: seq<real>, slack: real, m: nat, f: Flips)
    requires |f| == |diffs| > 0
    ensures f in SmallExactP(diffs, slack, m) ==> f in Significant(AllFlips(|diffs|), StatisticOf(diffs), slack, m)
  {
    FlippedDataCountsTheSameGroup(diffs, f, slack);
    FractionOrder(|AsExtremeAs(diffs, f, slack)|, m, Pow2(|diffs|));
    ExtremeIsAsExtreme(diffs, f, slack);
  }

  lemma ExtremeIsAsExtreme(diffs: seq<real>, f: Flips, slack: real)
    requires |f| == |diffs| > 0
    ensures Extreme(AllFlips(|diffs|), StatisticOf(diffs), StatisticOf(diffs)(f), slack) == AsExtremeAs(diffs, f, slack)
  {
  }

  /** Validity of the exact test: whatever the differences, at most m of the 2^n
      sign patterns the data could have come with give a p-value of at most m / 2^n. */
  lemma ExactPIsValid(diffs: seq<real>, slack: real, m: nat)
    requires |diffs| > 0 && slack >= 0.0
    ensures |AllFlips(|diffs|)| == Pow2(|diffs|)
    ensures |SmallExactP(diffs, slack, m)| <= m
  {
    var significant := Significant(AllFlips(|diffs|), StatisticOf(diffs), slack, m);
    AtMostMAreSignificant(AllFlips(|diffs|), StatisticOf(diffs), slack, m);
    forall f | f in SmallExactP(diffs, slack, m) ensures f in significant {
      SmallIsSignificant(diffs, slack, m, f);
    }
    SubsetSize(SmallExactP(diffs, slack, m), significant);
  }
}
