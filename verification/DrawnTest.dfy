/** Validity of the randomization test as it is run (bench/stats.py, `permutation_p`):
    with b drawn sign patterns instead of the whole group.

    An experiment is a tuple of b + 1 patterns, the signs the data came with and the
    b draws; when signs are arbitrary all tuples are equally likely. The share of tuples
    for which the test reports p <= m / (b + 1) is at most m / (b + 1). */
module DrawnTest {
  import opened Basics
  import opened Randomization

  // ----- tuples over a finite set -----

  ghost predicate Over<T(!new)>(t: seq<T>, u: set<T>, n: nat) {
    |t| == n && forall i :: 0 <= i < n ==> t[i] in u
  }

  ghost predicate AllOver<T(!new)>(all: set<seq<T>>, u: set<T>, n: nat) {
    forall t {:trigger t in all} :: t in all <==> Over(t, u, n)
  }

  /** Every tuple of length `n` over `u`. */
  ghost function Tuples<T(!new)>(u: set<T>, n: nat): (all: set<seq<T>>)
    ensures AllOver(all, u, n)
  {
    if n == 0 then
      assert forall t: seq<T> {:trigger |t|} :: |t| == 0 <==> t == [];
      {[]}
    else
      var shorter := Tuples(u, n - 1);
      var all := set t, x | t in shorter && x in u :: t + [x];
      LongerTuples(shorter, u, n, all);
      all
  }

  lemma {:induction false} OverFront<T(!new)>(t: seq<T>, u: set<T>, n: nat)
    requires n > 0 && Over(t, u, n)
    ensures Over(t[..n - 1], u, n - 1) && t[n - 1] in u && t == t[..n - 1] + [t[n - 1]]
  {
  }

  lemma {:induction false} OverSnoc<T(!new)>(t: seq<T>, x: T, u: set<T>, n: nat)
    requires Over(t, u, n) && x in u
    ensures Over(t + [x], u, n + 1)
  {
  }

  lemma {:induction false} LongerTuples<T(!new)>(shorter: set<seq<T>>, u: set<T>, n: nat, all: set<seq<T>>)
    requires n > 0 && AllOver(shorter, u, n - 1)
    requires all == set t, x | t in shorter && x in u :: t + [x]
    ensures AllOver(all, u, n)
  {
    forall t: seq<T> ensures t in all <==> Over(t, u, n) {
      if Over(t, u, n) {
        OverFront(t, u, n);
        assert t[..n - 1] in shorter;
      }
      if t in all {
        var front, x :| front in shorter && x in u && t == front + [x];
        OverSnoc(front, x, u, n - 1);
      }
    }
  }

  // ----- exchanging two entries -----

  function Swapped(k: nat, i: nat): nat {
    if k == 0 then i else if k == i then 0 else k
  }

  function Swap<T>(t: seq<T>, i: nat): (r: seq<T>)
    requires i < |t|
    ensures |r| == |t| && forall k :: 0 <= k < |r| ==> r[k] == t[Swapped(k, i)]
  {
    seq(|t|, k requires 0 <= k < |t| => t[Swapped(k, i)])
  }

  lemma SwapTwice<T>(t: seq<T>, i: nat)
    requires i < |t|
    ensures Swap(Swap(t, i), i) == t
  {
  }

  /** How many statistics reach `x` does not depend on their order. */
  lemma SwapReaches(stats: seq<real>, i: nat, x: real, slack: real)
    requires i < |stats|
    ensures |Reaching(stats, x, slack)| == |Reaching(Swap(stats, i), x, slack)|
  {
    SwapReachesNoMore(stats, i, x, slack);
    SwapReachesNoMore(Swap(stats, i), i, x, slack);
    SwapTwice(stats, i);
  }

  lemma SwapReachesNoMore(stats: seq<real>, i: nat, x: real, slack: real)
    requires i < |stats|
    ensures |Reaching(stats, x, slack)| <= |Reaching(Swap(stats, i), x, slack)|
  {
    var places: seq<nat> := seq(|stats|, k requires 0 <= k < |stats| => Swapped(k, i));
    InjectionSize(Reaching(stats, x, slack), places, Reaching(Swap(stats, i), x, slack));
  }

  /** A p-value is small exactly when few statistics reach the observed one. */
  lemma SmallExactly(stats: seq<real>, i: nat, slack: real, m: nat)
    requires i < |stats| && slack >= 0.0
    ensures i in SmallP(stats, slack, m) <==> |Reaching(stats, stats[i], slack)| <= m
  {
    ObservedCountsItself(stats, i, slack);
    FractionOrder(HitCount(WithObserved(stats, i), stats[i], slack) + 1, m, |stats|);
  }

  /** So the p-value with the statistic at 0 observed is the one with it moved to `i`. */
  lemma {:induction false} SwapKeepsSmall(stats: seq<real>, i: nat, slack: real, m: nat)
    requires i < |stats| && slack >= 0.0 && 0 in SmallP(stats, slack, m)
    ensures i in SmallP(Swap(stats, i), slack, m)
  {
    SmallExactly(stats, 0, slack, m);
    SmallExactly(Swap(stats, i), i, slack, m);
    assert Swap(stats, i)[i] == stats[0];
    SwapReaches(stats, i, stats[0], slack);
  }

  // ----- counting tuples -----

  ghost function Stats<T>(t: seq<T>, stat: T -> real): (r: seq<real>)
    ensures |r| == |t| && forall k :: 0 <= k < |r| ==> r[k] == stat(t[k])
  {
    seq(|t|, k requires 0 <= k < |t| => stat(t[k]))
  }

  /** The tuples whose entry `i`, taken as the observed one, gives p <= m / (b + 1). */
  ghost function SmallAt<T(!new)>(all: set<seq<T>>, stat: T -> real, slack: real, m: nat, i: nat): set<seq<T>> {
    set t | t in all && i in SmallP(Stats(t, stat), slack, m)
  }

  lemma {:induction false} SwapImage<T(!new)>(a: set<seq<T>>, b: set<seq<T>>, i: nat)
    requires forall t :: t in a ==> i < |t| && Swap(t, i) in b
    ensures |a| <= |b|
  {
    if a != {} {
      var t :| t in a;
      forall v | v in a - {t} ensures Swap(v, i) in b - {Swap(t, i)} {
        SwapTwice(v, i);
        SwapTwice(t, i);
      }
      SwapImage(a - {t}, b - {Swap(t, i)}, i);
    }
  }

  /** No entry is special: as many tuples are small at `i` as at 0. */
  lemma {:induction false} EveryEntryAlike<T(!new)>(all: set<seq<T>>, u: set<T>, n: nat, stat: T -> real, slack: real, m: nat, i: nat)
    requires AllOver(all, u, n) && i < n && slack >= 0.0
    ensures |SmallAt(all, stat, slack, m, 0)| <= |SmallAt(all, stat, slack, m, i)|
  {
    var a, b := SmallAt(all, stat, slack, m, 0), SmallAt(all, stat, slack, m, i);
    forall t | t in a ensures i < |t| && Swap(t, i) in b {
      assert t in all && Over(t, u, n);
      assert Over(Swap(t, i), u, n);
      SwapKeepsSmall(Stats(t, stat), i, slack, m);
      assert Swap(Stats(t, stat), i) == Stats(Swap(t, i), stat);
    }
    SwapImage(a, b, i);
  }

  ghost function Sum(f: nat -> nat, k: nat): nat {
    if k == 0 then 0 else Sum(f, k - 1) + f(k - 1)
  }

  lemma {:induction false} SumAdds(f: nat -> nat, g: nat -> nat, h: nat -> nat, k: nat)
    requires forall i: nat :: f(i) == g(i) + h(i)
    ensures Sum(f, k) == Sum(g, k) + Sum(h, k)
  {
    if k > 0 {
      SumAdds(f, g, h, k - 1);
      var i: nat := k - 1;
      assert f(i) == g(i) + h(i);
    }
  }

  lemma {:induction false} SumAtLeast(f: nat -> nat, x: nat, k: nat)
    requires forall i: nat :: i < k ==> x <= f(i)
    ensures k * x <= Sum(f, k)
  {
    if k > 0 {
      SumAtLeast(f, x, k - 1);
      OneTimesMore(k, x);
    }
  }

  lemma OneTimesMore(k: nat, x: nat)
    requires k > 0
    ensures k * x == (k - 1) * x + x
  {
  }

  /** How many tuples are small at each entry. */
  ghost function SmallCount<T(!new)>(all: set<seq<T>>, stat: T -> real, slack: real, m: nat): nat -> nat {
    (i: nat) => |SmallAt(all, stat, slack, m, i)|
  }

  /** 1 on the set, 0 elsewhere. */
  ghost function Mark(s: set<nat>): nat -> nat {
    (i: nat) => if i in s then 1 else 0
  }

  lemma {:induction false} OneMoreBelow(s: set<nat>, i: nat)
    ensures |s * Below(i + 1)| == |s * Below(i)| + if i in s then 1 else 0
  {
    var a, b := s * Below(i), s * Below(i + 1);
    forall q: nat ensures q in b <==> q in a || (q == i && i in s) {
    }
    if i in s {
      assert b == a + {i};
    } else {
      assert b == a;
    }
  }

  lemma {:induction false} MarksCount(s: set<nat>, k: nat)
    ensures Sum(Mark(s), k) == |s * Below(k)|
  {
    if k > 0 {
      var i: nat := k - 1;
      MarksCount(s, i);
      OneMoreBelow(s, i);
    }
  }

  lemma {:induction false} OneTupleLess<T(!new)>(all: set<seq<T>>, t: seq<T>, stat: T -> real, slack: real, m: nat, i: nat)
    requires t in all
    ensures SmallCount(all, stat, slack, m)(i) ==
            SmallCount(all - {t}, stat, slack, m)(i) + Mark(SmallP(Stats(t, stat), slack, m))(i)
  {
    var a, b := SmallAt(all, stat, slack, m, i), SmallAt(all - {t}, stat, slack, m, i);
    assert a == if i in SmallP(Stats(t, stat), slack, m) then b + {t} else b;
  }

  lemma TimesSucc(m: nat, x: nat)
    ensures m * (x + 1) == m * x + m
  {
  }

  lemma {:induction false} SumIsBounded<T(!new)>(all: set<seq<T>>, stat: T -> real, slack: real, m: nat, n: nat)
    requires n > 0 && slack >= 0.0 && forall t :: t in all ==> |t| == n
    ensures Sum(SmallCount(all, stat, slack, m), n) <= m * |all|
  {
    if all == {} {
      EmptySum(stat, slack, m, n);
    } else {
      var t :| t in all;
      SumIsBounded(all - {t}, stat, slack, m, n);
      forall i: nat
        ensures SmallCount(all, stat, slack, m)(i) ==
                SmallCount(all - {t}, stat, slack, m)(i) + Mark(SmallP(Stats(t, stat), slack, m))(i)
      {
        OneTupleLess(all, t, stat, slack, m, i);
      }
      SumAdds(SmallCount(all, stat, slack, m), SmallCount(all - {t}, stat, slack, m), Mark(SmallP(Stats(t, stat), slack, m)), n);
      // one tuple is small at no more than m of its entries
      MarksCount(SmallP(Stats(t, stat), slack, m), n);
      SubsetSize(SmallP(Stats(t, stat), slack, m) * Below(n), SmallP(Stats(t, stat), slack, m));
      AddOnePIsValid(Stats(t, stat), slack, m);
      assert |all| == |all - {t}| + 1;
      TimesSucc(m, |all - {t}|);
    }
  }

  lemma {:induction false} EmptySum<T(!new)>(stat: T -> real, slack: real, m: nat, k: nat)
    ensures Sum(SmallCount<T>({}, stat, slack, m), k) == 0
  {
    if k > 0 {
      EmptySum(stat, slack, m, k - 1);
      assert SmallAt<T>({}, stat, slack, m, k - 1) == {};
    }
  }

  /** For any statistic on any finite set: of all tuples of `n` members, the share whose
      first entry gives p <= m / n is at most m / n. */
  lemma {:induction false} FirstIsSeldomSmall<T(!new)>(all: set<seq<T>>, u: set<T>, n: nat, stat: T -> real, slack: real, m: nat)
    requires AllOver(all, u, n) && n > 0 && slack >= 0.0
    ensures n * |SmallAt(all, stat, slack, m, 0)| <= m * |all|
  {
    assert forall t :: t in all ==> Over(t, u, n);
    forall i: nat | i < n
      ensures |SmallAt(all, stat, slack, m, 0)| <= SmallCount(all, stat, slack, m)(i)
    {
      EveryEntryAlike(all, u, n, stat, slack, m, i);
    }
    SumAtLeast(SmallCount(all, stat, slack, m), |SmallAt(all, stat, slack, m, 0)|, n);
    SumIsBounded(all, stat, slack, m, n);
  }

  // ----- the test -----

  /** The signs the data came with, and the draws. */
  predicate IsExperiment(t: seq<Flips>, n: nat) {
    t != [] && forall k :: 0 <= k < |t| ==> |t[k]| == n
  }

  /** The statistics of the draws. */
  function Drawn(diffs: seq<real>, t: seq<Flips>): (r: seq<real>)
    requires |diffs| > 0 && IsExperiment(t, |diffs|)
    ensures |r| == |t| - 1 && forall d :: 0 <= d < |r| ==> r[d] == Statistic(Flipped(diffs, t[0]), t[d + 1])
  {
    seq(|t| - 1, d requires 0 <= d < |t| - 1 => Statistic(Flipped(diffs, t[0]), t[d + 1]))
  }

  /** What the test reports on data that came with the signs `t[0]`, with draws `t[1..]`. */
  function ReportedP(diffs: seq<real>, t: seq<Flips>, slack: real): real
    requires |diffs| > 0 && IsExperiment(t, |diffs|)
  {
    AddOneP(HitCount(Drawn(diffs, t), Statistic(Flipped(diffs, t[0]), AllKept(|diffs|)), slack), |t| - 1)
  }

  /** The signs of the data, and the draws that the random numbers give. */
  function ExperimentOf(signs: Flips, coin: (nat, nat) -> real, b: nat): (t: seq<Flips>)
    ensures |t| == b + 1 && IsExperiment(t, |signs|)
  {
    [signs] + seq(b, d requires 0 <= d < b => Draw(coin, d, |signs|))
  }

  /** It is what `permutation_p` returns on that data when the random numbers give those draws. */
  lemma ReportedIsReturned(diffs: seq<real>, signs: Flips, coin: (nat, nat) -> real, b: nat)
    requires |signs| == |diffs| > 0
    ensures ReportedP(diffs, ExperimentOf(signs, coin, b), SLACK) ==
      var data := Flipped(diffs, signs);
      AddOneP(HitCount(DrawStatistics(data, coin, b), Statistic(data, AllKept(|data|)), SLACK), b)
  {
    assert DrawStatistics(Flipped(diffs, signs), coin, b) == Drawn(diffs, ExperimentOf(signs, coin, b));
  }

  /** The arrangements that the test compares: the data's own signs, and each draw on top. */
  function Arrangements(t: seq<Flips>): (r: seq<Flips>)
    requires t != [] && IsExperiment(t, |t[0]|)
    ensures |r| == |t| && r[0] == t[0]
    ensures forall k :: 0 < k < |r| ==> r[k] == Compose(t[0], t[k])
  {
    [t[0]] + seq(|t| - 1, d requires 0 <= d < |t| - 1 => Compose(t[0], t[d + 1]))
  }

  lemma ArrangementsBack(t: seq<Flips>)
    requires t != [] && IsExperiment(t, |t[0]|)
    ensures IsExperiment(Arrangements(t), |t[0]|)
    ensures Arrangements(Arrangements(t)) == t
  {
    var r := Arrangements(t);
    forall k | 0 < k < |t| ensures Compose(r[0], r[k]) == t[k] {
      assert r[k] == Compose(t[0], t[k]);
    }
  }

  lemma {:induction false} DrawnAreOthers(diffs: seq<real>, t: seq<Flips>)
    requires |diffs| > 0 && IsExperiment(t, |diffs|)
    ensures var stats := Stats(Arrangements(t), StatisticOf(diffs));
      WithObserved(stats, 0) == Drawn(diffs, t) && stats[0] == Statistic(Flipped(diffs, t[0]), AllKept(|diffs|))
  {
    var stats := Stats(Arrangements(t), StatisticOf(diffs));
    FlippedStatistic(diffs, t[0], AllKept(|diffs|));
    forall d | 0 <= d < |t| - 1 ensures Drawn(diffs, t)[d] == stats[d + 1] {
      FlippedStatistic(diffs, t[0], t[d + 1]);
    }
    assert WithObserved(stats, 0) == stats[1..];
  }

  lemma {:induction false} ReportedIsFirst(diffs: seq<real>, t: seq<Flips>, slack: real, m: nat)
    requires |diffs| > 0 && IsExperiment(t, |diffs|)
    ensures ReportedP(diffs, t, slack) <= m as real / |t| as real <==>
            0 in SmallP(Stats(Arrangements(t), StatisticOf(diffs)), slack, m)
  {
    DrawnAreOthers(diffs, t);
  }

  lemma {:induction false} ArrangementImage(a: set<seq<Flips>>, b: set<seq<Flips>>)
    requires forall t :: t in a ==> t != [] && IsExperiment(t, |t[0]|) && Arrangements(t) in b
    ensures |a| <= |b|
  {
    if a != {} {
      var t :| t in a;
      forall v | v in a - {t} ensures Arrangements(v) in b - {Arrangements(t)} {
        ArrangementsBack(v);
        ArrangementsBack(t);
      }
      ArrangementImage(a - {t}, b - {Arrangements(t)});
    }
  }

  /** All experiments: the signs of the data and `b` draws, on `n` differences. */
  ghost function Experiments(n: nat, b: nat): set<seq<Flips>> {
    Tuples(AllFlips(n), b + 1)
  }

  /** The experiments for which the test reports p <= m / (b + 1). */
  ghost function SmallReports(diffs: seq<real>, b: nat, slack: real, m: nat): set<seq<Flips>>
    requires |diffs| > 0
  {
    set t | t in Experiments(|diffs|, b) && IsExperiment(t, |diffs|) && ReportedP(diffs, t, slack) <= m as real / (b + 1) as real
  }

  lemma {:induction false} ExperimentsAre(n: nat, b: nat, t: seq<Flips>)
    ensures t in Experiments(n, b) <==> |t| == b + 1 && IsExperiment(t, n)
  {
    assert t in Experiments(n, b) <==> Over(t, AllFlips(n), b + 1);
  }

  lemma {:induction false} SmallReportIsFirst(diffs: seq<real>, b: nat, slack: real, m: nat, t: seq<Flips>)
    requires |diffs| > 0 && IsExperiment(t, |diffs|)
    ensures t in SmallReports(diffs, b, slack, m) ==>
      Arrangements(t) in SmallAt(Experiments(|diffs|, b), StatisticOf(diffs), slack, m, 0)
  {
    if t in SmallReports(diffs, b, slack, m) {
      ExperimentsAre(|diffs|, b, t);
      ExperimentsAre(|diffs|, b, Arrangements(t));
      ReportedIsFirst(diffs, t, slack, m);
    }
  }

  /** Validity of the test as run: whatever the differences and the number of draws, the
      share of experiments reporting p <= m / (b + 1) is at most m / (b + 1). */
  lemma {:induction false} DrawnTestIsValid(diffs: seq<real>, b: nat, slack: real, m: nat)
    requires |diffs| > 0 && slack >= 0.0
    ensures (b + 1) * |SmallReports(diffs, b, slack, m)| <= m * |Experiments(|diffs|, b)|
  {
    var all := Experiments(|diffs|, b);
    var small, first := SmallReports(diffs, b, slack, m), SmallAt(all, StatisticOf(diffs), slack, m, 0);
    FirstIsSeldomSmall(all, AllFlips(|diffs|), b + 1, StatisticOf(diffs), slack, m);
    forall t | t in small ensures t != [] && IsExperiment(t, |t[0]|) && Arrangements(t) in first {
      SmallReportIsFirst(diffs, b, slack, m, t);
    }
    ArrangementImage(small, first);
    TimesOrder(b + 1, |small|, |first|);
  }

  lemma TimesOrder(n: nat, x: nat, y: nat)
    requires x <= y
    ensures n * x <= n * y
  {
  }
}
