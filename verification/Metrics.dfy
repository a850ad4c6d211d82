/** The ranking metrics (bench/score.py: `ranked_files`, `dcg`, `ndcg_at`,
    `recall_at`, `reciprocal_rank`, `average_precision`, `accuracy_at`), in exact
    arithmetic. The discount 1 / log2(i + 2) becomes any positive, strictly
    decreasing weight of the rank. */
module Metrics {
  import opened Basics

  type File = string

  ghost predicate Discount(w: nat -> real) {
    (forall i: nat :: w(i) > 0.0) && forall i: nat, j: nat :: i < j ==> w(j) < w(i)
  }

  ghost predicate NoRepeats(r: seq<File>) {
    forall i, j :: 0 <= i < j < |r| ==> r[i] != r[j]
  }

  // ----- chunk ranking to file ranking -----

  function RankedFiles(hits: seq<File>): (r: seq<File>)
    ensures forall p :: p in r <==> p in hits
  {
    if hits == [] then []
    else
      var r, p := RankedFiles(hits[..|hits| - 1]), hits[|hits| - 1];
      assert hits == hits[..|hits| - 1] + [p];
      if p in r then r else r + [p]
  }

  /** `ranked_files`: the running list and the set of paths already seen. */
  method RankFiles(results: seq<File>) returns (seen: seq<File>)
    ensures seen == RankedFiles(results)
    ensures NoRepeats(seen)
  {
    seen := [];
    var known: set<File> := {};
    for k := 0 to |results|
      invariant seen == RankedFiles(results[..k]) && NoRepeats(seen)
      invariant forall p :: p in known <==> p in seen
    {
      var path := results[k];
      assert results[..k + 1][..k] == results[..k];
      if path !in known {
        known := known + {path};
        seen := seen + [path];
      }
    }
    assert results[..|results|] == results;
  }

  lemma {:induction false} RankedFilesAreDistinct(hits: seq<File>)
    ensures NoRepeats(RankedFiles(hits))
  {
    if hits != [] {
      RankedFilesAreDistinct(hits[..|hits| - 1]);
    }
  }

  /** Files appear in the order of their first chunk: ranking a truncated hit list
      gives a prefix of the full ranking. */
  lemma {:induction false} TruncationIsAPrefix(hits: seq<File>, n: nat)
    requires n <= |hits|
    ensures RankedFiles(hits[..n]) <= RankedFiles(hits)
  {
    if n < |hits| {
      var shorter := hits[..|hits| - 1];
      TruncationIsAPrefix(shorter, n);
      assert shorter[..n] == hits[..n];
    } else {
      assert hits[..n] == hits;
    }
  }

  // ----- the metrics -----

  function Top(r: seq<File>, k: nat): seq<File> {
    if k < |r| then r[..k] else r
  }

  function Gain(r: seq<File>, gold: set<File>, i: nat): nat {
    if i < |r| && r[i] in gold then 1 else 0
  }

  /** Gold files among the first `j`. */
  function Hits(r: seq<File>, gold: set<File>, j: nat): nat {
    if j == 0 then 0 else Hits(r, gold, j - 1) + Gain(r, gold, j - 1)
  }

  function Dcg(gains: seq<real>, w: nat -> real): real {
    if gains == [] then 0.0
    else Dcg(gains[..|gains| - 1], w) + gains[|gains| - 1] * w(|gains| - 1)
  }

  function Smaller(a: nat, b: nat): nat {
    if a < b then a else b
  }

  function Gains(r: seq<File>, gold: set<File>): (g: seq<real>)
    ensures |g| == |r| && forall i :: 0 <= i < |g| ==> g[i] == if r[i] in gold then 1.0 else 0.0
  {
    seq(|r|, i requires 0 <= i < |r| => if r[i] in gold then 1.0 else 0.0)
  }

  function NdcgAt(r: seq<File>, gold: set<File>, k: nat, w: nat -> real): real {
    if gold == {} then 0.0
    else
      var denom := Dcg(seq(Smaller(|gold|, k), _ => 1.0), w);
      if denom != 0.0 then Dcg(Gains(Top(r, k), gold), w) / denom else 0.0
  }

  function Found(r: seq<File>, gold: set<File>): set<File> {
    set p | p in gold && p in r
  }

  function RecallAt(r: seq<File>, gold: set<File>, k: nat): real {
    if gold == {} then 0.0 else |Found(Top(r, k), gold)| as real / |gold| as real
  }

  function AccuracyAt(r: seq<File>, gold: set<File>, k: nat): real {
    if gold == {} then 0.0 else if forall p :: p in gold ==> p in Top(r, k) then 1.0 else 0.0
  }

  /** Position of the first gold file, counting from 1; 0 when the top k has none. */
  function FirstHit(r: seq<File>, gold: set<File>, k: nat): (p: nat)
    ensures p <= k && p <= |r|
    ensures p > 0 ==> r[p - 1] in gold && Hits(r, gold, p - 1) == 0
    ensures p == 0 <==> Hits(r, gold, k) == 0
  {
    if k == 0 then 0
    else if FirstHit(r, gold, k - 1) > 0 then FirstHit(r, gold, k - 1)
    else if Gain(r, gold, k - 1) == 1 then k
    else 0
  }

  function ReciprocalRank(r: seq<File>, gold: set<File>, k: nat): real {
    var p := FirstHit(r, gold, k);
    if p == 0 then 0.0 else 1.0 / p as real
  }

  method ComputeReciprocalRank(ranking: seq<File>, gold: set<File>, k: nat) returns (rr: real)
    ensures rr == ReciprocalRank(ranking, gold, k)
  {
    var top := Top(ranking, k);
    for i := 0 to |top|
      invariant FirstHit(ranking, gold, i) == 0
    {
      if top[i] in gold {
        FirstHitStays(ranking, gold, i + 1, k);
        return 1.0 / (i + 1) as real;
      }
    }
    NothingBeyondTheEnd(ranking, gold, |top|, k);
    return 0.0;
  }

  lemma {:induction false} FirstHitStays(r: seq<File>, gold: set<File>, i: nat, k: nat)
    requires i <= k && FirstHit(r, gold, i) > 0
    ensures FirstHit(r, gold, k) == FirstHit(r, gold, i)
  {
    if i < k {
      FirstHitStays(r, gold, i, k - 1);
    }
  }

  lemma {:induction false} NothingBeyondTheEnd(r: seq<File>, gold: set<File>, i: nat, k: nat)
    requires i <= k && (i == k || i >= |r|) && FirstHit(r, gold, i) == 0
    ensures FirstHit(r, gold, k) == 0
  {
    if i < k {
      NothingBeyondTheEnd(r, gold, i, k - 1);
    }
  }

  /** Sum of hits-so-far / position over the gold positions among the first `j`. */
  function PrecisionSum(r: seq<File>, gold: set<File>, j: nat): real {
    if j == 0 then 0.0
    else PrecisionSum(r, gold, j - 1) + if Gain(r, gold, j - 1) == 1 then Hits(r, gold, j) as real / j as real else 0.0
  }

  function AveragePrecision(r: seq<File>, gold: set<File>, k: nat): real {
    if gold == {} || k == 0 then 0.0 else PrecisionSum(r, gold, k) / Smaller(|gold|, k) as real
  }

  method ComputeAveragePrecision(ranking: seq<File>, gold: set<File>, k: nat) returns (ap: real)
    ensures ap == AveragePrecision(ranking, gold, k)
  {
    if gold == {} {
      return 0.0;
    }
    var hits, total := 0, 0.0;
    var top := Top(ranking, k);
    for i := 0 to |top|
      invariant hits == Hits(ranking, gold, i) && total == PrecisionSum(ranking, gold, i)
    {
      if top[i] in gold {
        hits := hits + 1;
        total := total + hits as real / (i + 1) as real;
      }
    }
    PrecisionSumStops(ranking, gold, |top|, k);
    var denom := Smaller(|gold|, k);
    return if denom != 0 then total / denom as real else 0.0;
  }

  lemma {:induction false} PrecisionSumStops(r: seq<File>, gold: set<File>, i: nat, k: nat)
    requires i <= k && (i == k || i >= |r|)
    ensures PrecisionSum(r, gold, k) == PrecisionSum(r, gold, i)
  {
    if i < k {
      PrecisionSumStops(r, gold, i, k - 1);
    }
  }

  // ----- summation by parts -----

  /** Sum over i < k of w(i) * (f(i + 1) - f(i)). */
  ghost function Weighted(w: nat -> real, f: nat -> real, k: nat): real {
    if k == 0 then 0.0 else Weighted(w, f, k - 1) + w(k - 1) * (f(k) - f(k - 1))
  }

  lemma Distribute(v: real, p: real, q: real)
    ensures v * p - v * q == v * (p - q)
  {
  }

  lemma PositiveProduct(v: real, x: real)
    requires v > 0.0 && x >= 0.0
    ensures v * x >= 0.0
    ensures x > 0.0 ==> v * x > 0.0
  {
  }

  /** One step of summation by parts, on numbers: `d` is the lead of one sum over
      another and `x` the lead of its count, which becomes `x'`. */
  lemma Step(d: real, v: real, v': real, x: real, x': real)
    requires 0.0 < v' < v && x >= 0.0 && d >= v * x
    ensures d + v' * (x' - x) >= v' * x'
    ensures x > 0.0 || d > v * x ==> d + v' * (x' - x) > v' * x'
  {
    Distribute(v', x', x);
    PositiveProduct(v - v', x);
    assert (v - v') * x == v * x - v' * x;
  }

  ghost predicate SomewhereAhead(f: nat -> real, g: nat -> real, k: nat) {
    exists j :: 0 <= j <= k && f(j) > g(j)
  }

  /** The lead of one discounted sum over another. */
  ghost function Lead(w: nat -> real, f: nat -> real, g: nat -> real, k: nat): real {
    Weighted(w, f, k) - Weighted(w, g, k)
  }

  lemma LeadStep(w: nat -> real, f: nat -> real, g: nat -> real, k: nat)
    requires k > 0
    ensures Lead(w, f, g, k) == Lead(w, f, g, k - 1) + w(k - 1) * ((f(k) - g(k)) - (f(k - 1) - g(k - 1)))
  {
    Distribute(w(k - 1), f(k) - f(k - 1), g(k) - g(k - 1));
    assert (f(k) - f(k - 1)) - (g(k) - g(k - 1)) == (f(k) - g(k)) - (f(k - 1) - g(k - 1));
  }

  lemma {:induction false} AbelGap(w: nat -> real, f: nat -> real, g: nat -> real, k: nat)
    requires Discount(w) && f(0) == g(0) && k > 0 && forall j :: 0 <= j <= k ==> f(j) >= g(j)
    ensures Lead(w, f, g, k) >= w(k - 1) * (f(k) - g(k))
    ensures SomewhereAhead(f, g, k - 1) ==> Lead(w, f, g, k) > w(k - 1) * (f(k) - g(k))
  {
    LeadStep(w, f, g, k);
    var x, x' := f(k - 1) - g(k - 1), f(k) - g(k);
    if k == 1 {
      assert Lead(w, f, g, 0) == 0.0 && x == 0.0;
    } else {
      AbelGap(w, f, g, k - 1);
      Step(Lead(w, f, g, k - 1), w(k - 2), w(k - 1), x, x');
      assert SomewhereAhead(f, g, k - 1) ==> x > 0.0 || SomewhereAhead(f, g, k - 2);
    }
  }

  lemma LeadSign(lead: real, v: real, x: real)
    requires v > 0.0 && x >= 0.0 && lead >= v * x
    ensures lead >= 0.0 && (lead > v * x || x > 0.0 ==> lead > 0.0)
  {
    PositiveProduct(v, x);
  }

  /** Pointwise dominance of partial counts gives dominance of discounted sums;
      strictly when the counts differ somewhere. */
  lemma AbelDominance(w: nat -> real, f: nat -> real, g: nat -> real, k: nat)
    requires Discount(w) && f(0) == g(0) && forall j :: 0 <= j <= k ==> f(j) >= g(j)
    ensures Weighted(w, f, k) >= Weighted(w, g, k)
    ensures SomewhereAhead(f, g, k) ==> Weighted(w, f, k) > Weighted(w, g, k)
  {
    if k > 0 {
      AbelGap(w, f, g, k);
      LeadSign(Lead(w, f, g, k), w(k - 1), f(k) - g(k));
      if SomewhereAhead(f, g, k) && f(k) == g(k) {
        assert SomewhereAhead(f, g, k - 1);
      }
    }
  }

  // ----- the metrics as discounted sums of partial counts -----

  ghost function HitsOf(r: seq<File>, gold: set<File>): nat -> real {
    (j: nat) => Hits(r, gold, j) as real
  }

  /** The partial counts of a ranking that starts with `m` gold files and has no more. */
  ghost function IdealOf(m: nat): nat -> real {
    (j: nat) => Smaller(j, m) as real
  }

  lemma {:induction false} DcgOfGains(r: seq<File>, gold: set<File>, gains: seq<real>, w: nat -> real)
    requires |gains| <= |r| && forall i :: 0 <= i < |gains| ==> gains[i] == if r[i] in gold then 1.0 else 0.0
    ensures Dcg(gains, w) == Weighted(w, HitsOf(r, gold), |gains|)
  {
    if gains != [] {
      DcgOfGains(r, gold, gains[..|gains| - 1], w);
    }
  }

  lemma {:induction false} FlatTail(w: nat -> real, f: nat -> real, i: nat, k: nat)
    requires i <= k && forall j :: i <= j < k ==> f(j + 1) == f(j)
    ensures Weighted(w, f, k) == Weighted(w, f, i)
  {
    if i < k {
      FlatTail(w, f, i, k - 1);
      assert f(k - 1 + 1) == f(k - 1);
      assert w(k - 1) * 0.0 == 0.0;
    }
  }

  lemma {:induction false} DcgOfIdeal(n: nat, m: nat, w: nat -> real)
    requires n <= m
    ensures Dcg(seq(n, _ => 1.0), w) == Weighted(w, IdealOf(m), n)
  {
    if n > 0 {
      DcgOfIdeal(n - 1, m, w);
      assert seq(n, _ => 1.0)[..n - 1] == seq(n - 1, _ => 1.0);
    }
  }

  lemma IdealIsPositive(w: nat -> real, m: nat, k: nat)
    requires Discount(w) && 0 < m <= k
    ensures Weighted(w, IdealOf(m), k) > 0.0
  {
    var none := (j: nat) => 0.0;
    assert IdealOf(m)(k) > none(k) && SomewhereAhead(IdealOf(m), none, k);
    AbelDominance(w, IdealOf(m), none, k);
    FlatTail(w, none, 0, k);
  }

  lemma DcgOfTop(r: seq<File>, gold: set<File>, k: nat, w: nat -> real)
    ensures Dcg(Gains(Top(r, k), gold), w) == Weighted(w, HitsOf(r, gold), k)
  {
    DcgOfGains(r, gold, Gains(Top(r, k), gold), w);
    FlatTail(w, HitsOf(r, gold), |Top(r, k)|, k);
  }

  lemma DcgOfIdealTop(m: nat, k: nat, w: nat -> real)
    requires m <= k
    ensures Dcg(seq(m, _ => 1.0), w) == Weighted(w, IdealOf(m), k)
  {
    DcgOfIdeal(m, m, w);
    FlatTail(w, IdealOf(m), m, k);
  }

  lemma NdcgParts(r: seq<File>, gold: set<File>, k: nat, w: nat -> real)
    requires Discount(w) && gold != {} && k > 0
    ensures Weighted(w, IdealOf(Smaller(|gold|, k)), k) > 0.0
    ensures NdcgAt(r, gold, k, w) == Weighted(w, HitsOf(r, gold), k) / Weighted(w, IdealOf(Smaller(|gold|, k)), k)
  {
    DcgOfTop(r, gold, k, w);
    DcgOfIdealTop(Smaller(|gold|, k), k, w);
    IdealIsPositive(w, Smaller(|gold|, k), k);
  }

  // ----- dominance -----

  lemma FoundGrows(r: seq<File>, gold: set<File>, j: nat)
    requires NoRepeats(r) && j < |r|
    ensures |Found(Top(r, j + 1), gold)| == |Found(Top(r, j), gold)| + Gain(r, gold, j)
  {
    var before, after := Top(r, j), Top(r, j + 1);
    assert after == before + [r[j]];
    if r[j] in gold {
      assert Found(after, gold) == Found(before, gold) + {r[j]};
      assert r[j] !in before;
    } else {
      assert Found(after, gold) == Found(before, gold);
    }
  }

  lemma {:induction false} HitsCount(r: seq<File>, gold: set<File>, j: nat)
    requires NoRepeats(r)
    ensures Hits(r, gold, j) == |Found(Top(r, j), gold)|
    ensures Hits(r, gold, j) <= j && Hits(r, gold, j) <= |gold|
  {
    SubsetSize(Found(Top(r, j), gold), gold);
    if j == 0 {
      assert Found(Top(r, 0), gold) == {};
    } else {
      HitsCount(r, gold, j - 1);
      if j - 1 < |r| {
        FoundGrows(r, gold, j - 1);
      } else {
        assert Top(r, j) == Top(r, j - 1);
      }
    }
  }

  /** In every prefix up to k, `a` has at least as many gold files as `b`. */
  ghost predicate Dominates(a: seq<File>, b: seq<File>, gold: set<File>, k: nat) {
    forall j :: 0 <= j <= k ==> Hits(a, gold, j) >= Hits(b, gold, j)
  }

  lemma NdcgDominance(a: seq<File>, b: seq<File>, gold: set<File>, k: nat, w: nat -> real)
    requires Discount(w) && Dominates(a, b, gold, k)
    ensures NdcgAt(a, gold, k, w) >= NdcgAt(b, gold, k, w)
  {
    if gold != {} && k > 0 {
      NdcgParts(a, gold, k, w);
      NdcgParts(b, gold, k, w);
      AbelDominance(w, HitsOf(a, gold), HitsOf(b, gold), k);
      DivideKeepsOrder(Weighted(w, HitsOf(a, gold), k), Weighted(w, HitsOf(b, gold), k),
        Weighted(w, IdealOf(Smaller(|gold|, k)), k));
    } else if k == 0 {
      assert Smaller(|gold|, k) == 0;
    }
  }

  lemma DivideKeepsOrder(x: real, y: real, d: real)
    requires d > 0.0
    ensures x >= y ==> x / d >= y / d
    ensures x > y ==> x / d > y / d
    ensures x >= 0.0 ==> x / d >= 0.0
  {
    var p, q := x / d, y / d;
    assert p * d == x && q * d == y;
    assert (p - q) * d == x - y;
    assert p < q ==> (p - q) * d < 0.0;
    assert p == q ==> (p - q) * d == 0.0;
    assert p < 0.0 ==> p * d < 0.0;
  }

  // 1 / (i + 1), the weight average precision gives to rank i
  ghost function Inverse(): nat -> real {
    (i: nat) => 1.0 / (i + 1) as real
  }

  lemma InverseIsADiscount()
    ensures Discount(Inverse())
  {
    forall i: nat ensures Inverse()(i) > 0.0 {
      InverseOrder((i + 1) as real, (i + 2) as real);
    }
    forall i: nat, j: nat | i < j ensures Inverse()(j) < Inverse()(i) {
      InverseOrder((i + 1) as real, (j + 1) as real);
    }
  }

  lemma InverseOrder(a: real, b: real)
    requires 0.0 < a < b
    ensures 0.0 < 1.0 / b < 1.0 / a
  {
    var p, q := 1.0 / a, 1.0 / b;
    assert p * a == 1.0 && q * b == 1.0;
    assert p > 0.0 && q > 0.0;
    assert q * a < q * b;
    assert q >= p ==> q * a >= p * a;
  }

  /** 1 + 2 + ... + h */
  function Triangle(h: nat): nat {
    if h == 0 then 0 else Triangle(h - 1) + h
  }

  lemma {:induction false} TriangleGrows(a: nat, b: nat)
    requires a <= b
    ensures Triangle(a) <= Triangle(b)
    ensures a < b ==> Triangle(a) < Triangle(b)
  {
    if a < b {
      TriangleGrows(a, b - 1);
    }
  }

  ghost function TriangleOf(r: seq<File>, gold: set<File>): nat -> real {
    (j: nat) => Triangle(Hits(r, gold, j)) as real
  }

  ghost function IdealTriangle(m: nat): nat -> real {
    (j: nat) => Triangle(Smaller(j, m)) as real
  }

  /** Each hit adds its own number, so the precision sum is a discounted sum of
      triangular numbers. */
  lemma {:induction false} PrecisionSumIsWeighted(r: seq<File>, gold: set<File>, j: nat)
    ensures PrecisionSum(r, gold, j) == Weighted(Inverse(), TriangleOf(r, gold), j)
  {
    if j > 0 {
      PrecisionSumIsWeighted(r, gold, j - 1);
      TriangleStep(r, gold, j - 1);
      WeightedByInverse(TriangleOf(r, gold), j, PrecisionTerm(r, gold, j));
      PrecisionSumStep(r, gold, j);
    }
  }

  function PrecisionTerm(r: seq<File>, gold: set<File>, j: nat): real
    requires j > 0
  {
    if Gain(r, gold, j - 1) == 1 then Hits(r, gold, j) as real else 0.0
  }

  lemma PrecisionSumStep(r: seq<File>, gold: set<File>, j: nat)
    requires j > 0
    ensures PrecisionSum(r, gold, j) == PrecisionSum(r, gold, j - 1) + PrecisionTerm(r, gold, j) / j as real
  {
    ProductIsQuotient(0.0, j as real);
  }

  lemma TriangleStep(r: seq<File>, gold: set<File>, j: nat)
    ensures TriangleOf(r, gold)(j + 1) - TriangleOf(r, gold)(j) ==
      if Gain(r, gold, j) == 1 then Hits(r, gold, j + 1) as real else 0.0
  {
  }

  lemma WeightedByInverse(f: nat -> real, j: nat, x: real)
    requires j > 0 && f(j) - f(j - 1) == x
    ensures Weighted(Inverse(), f, j) == Weighted(Inverse(), f, j - 1) + x / j as real
    ensures x == 0.0 ==> Weighted(Inverse(), f, j) == Weighted(Inverse(), f, j - 1)
    ensures x == j as real ==> Weighted(Inverse(), f, j) == Weighted(Inverse(), f, j - 1) + 1.0
  {
    ProductIsQuotient(x, j as real);
    assert Inverse()(j - 1) == 1.0 / j as real;
  }

  lemma ProductIsQuotient(x: real, d: real)
    requires d > 0.0
    ensures (1.0 / d) * x == x / d
    ensures x == 0.0 ==> x / d == 0.0
    ensures x == d ==> x / d == 1.0
  {
    assert (x / d) * d == x;
    assert ((1.0 / d) * x) * d == x * ((1.0 / d) * d) == x;
    Cancel((1.0 / d) * x, x / d, d);
  }

  lemma Cancel(p: real, q: real, d: real)
    requires d > 0.0 && p * d == q * d
    ensures p == q
  {
    assert (p - q) * d == 0.0;
  }

  lemma {:induction false} IdealPrecisionSum(m: nat, j: nat)
    ensures Weighted(Inverse(), IdealTriangle(m), j) == Smaller(j, m) as real
  {
    if j > 0 {
      IdealPrecisionSum(m, j - 1);
      WeightedByInverse(IdealTriangle(m), j, if j <= m then j as real else 0.0);
    }
  }

  lemma ApDominance(a: seq<File>, b: seq<File>, gold: set<File>, k: nat)
    requires Dominates(a, b, gold, k)
    ensures AveragePrecision(a, gold, k) >= AveragePrecision(b, gold, k)
  {
    if gold != {} && k > 0 {
      PrecisionSumIsWeighted(a, gold, k);
      PrecisionSumIsWeighted(b, gold, k);
      InverseIsADiscount();
      forall j | 0 <= j <= k ensures TriangleOf(a, gold)(j) >= TriangleOf(b, gold)(j) {
        TriangleGrows(Hits(b, gold, j), Hits(a, gold, j));
      }
      AbelDominance(Inverse(), TriangleOf(a, gold), TriangleOf(b, gold), k);
      DivideKeepsOrder(PrecisionSum(a, gold, k), PrecisionSum(b, gold, k), Smaller(|gold|, k) as real);
    }
  }

  lemma RrDominance(a: seq<File>, b: seq<File>, gold: set<File>, k: nat)
    requires Dominates(a, b, gold, k)
    ensures ReciprocalRank(a, gold, k) >= ReciprocalRank(b, gold, k)
  {
    var p, q := FirstHit(a, gold, k), FirstHit(b, gold, k);
    if q > 0 {
      assert Hits(b, gold, q) >= 1;
      assert FirstHit(a, gold, q) > 0;
      FirstHitStays(a, gold, q, k);
      assert 0 < p <= q;
      if p < q {
        InverseOrder(p as real, q as real);
      }
    } else if p > 0 {
      assert 1.0 / p as real > 0.0;
    }
  }

  lemma RecallAndAccuracyDominance(a: seq<File>, b: seq<File>, gold: set<File>, k: nat)
    requires Dominates(a, b, gold, k) && NoRepeats(a) && NoRepeats(b)
    ensures RecallAt(a, gold, k) >= RecallAt(b, gold, k)
    ensures AccuracyAt(a, gold, k) >= AccuracyAt(b, gold, k)
  {
    HitsCount(a, gold, k);
    HitsCount(b, gold, k);
    if gold != {} {
      assert Hits(a, gold, k) >= Hits(b, gold, k);
      DivideKeepsOrder(Hits(a, gold, k) as real, Hits(b, gold, k) as real, |gold| as real);
      if forall p :: p in gold ==> p in Top(b, k) {
        assert Found(Top(b, k), gold) == gold;
        SubsetSize(Found(Top(a, k), gold), gold);
      }
    }
  }

  /** A ranking that has at least as many gold files in every prefix up to k is at
      least as good under every metric, whatever the discount. */
  lemma MetricDominance(a: seq<File>, b: seq<File>, gold: set<File>, k: nat, w: nat -> real)
    requires Discount(w) && NoRepeats(a) && NoRepeats(b) && Dominates(a, b, gold, k)
    ensures NdcgAt(a, gold, k, w) >= NdcgAt(b, gold, k, w)
    ensures AveragePrecision(a, gold, k) >= AveragePrecision(b, gold, k)
    ensures ReciprocalRank(a, gold, k) >= ReciprocalRank(b, gold, k)
    ensures RecallAt(a, gold, k) >= RecallAt(b, gold, k)
    ensures AccuracyAt(a, gold, k) >= AccuracyAt(b, gold, k)
  {
    NdcgDominance(a, b, gold, k, w);
    ApDominance(a, b, gold, k);
    RrDominance(a, b, gold, k);
    RecallAndAccuracyDominance(a, b, gold, k);
  }

  // ----- bounds and perfection -----

  /** The first min(|gold|, k) files exist and are all gold. */
  ghost predicate PerfectHead(r: seq<File>, gold: set<File>, k: nat) {
    Smaller(|gold|, k) <= |r| && forall i :: 0 <= i < Smaller(|gold|, k) ==> r[i] in gold
  }

  lemma HitsBelowIdeal(r: seq<File>, gold: set<File>, k: nat, j: nat)
    requires NoRepeats(r) && j <= k
    ensures Hits(r, gold, j) <= Smaller(j, Smaller(|gold|, k))
  {
    HitsCount(r, gold, j);
  }

  lemma {:induction false} PerfectHits(r: seq<File>, gold: set<File>, k: nat, j: nat)
    requires NoRepeats(r) && PerfectHead(r, gold, k) && j <= k
    ensures Hits(r, gold, j) == Smaller(j, Smaller(|gold|, k))
  {
    HitsBelowIdeal(r, gold, k, j);
    if j > 0 {
      PerfectHits(r, gold, k, j - 1);
    }
  }

  lemma ImperfectHits(r: seq<File>, gold: set<File>, k: nat) returns (j: nat)
    requires NoRepeats(r) && !PerfectHead(r, gold, k)
    ensures j <= k && Hits(r, gold, j) < Smaller(j, Smaller(|gold|, k))
  {
    var m := Smaller(|gold|, k);
    if m > |r| {
      j := m;
      AllHitsMeanGold(r, gold, j, |r|);
    } else {
      var i :| 0 <= i < m && r[i] !in gold;
      j := i + 1;
      AllHitsMeanGold(r, gold, j, i);
    }
  }

  lemma {:induction false} AllHitsMeanGold(r: seq<File>, gold: set<File>, j: nat, i: nat)
    requires i < j && Gain(r, gold, i) == 0
    ensures Hits(r, gold, j) < j
  {
    if i < j - 1 {
      AllHitsMeanGold(r, gold, j - 1, i);
    } else {
      HitsAtMost(r, gold, j - 1);
    }
  }

  lemma {:induction false} HitsAtMost(r: seq<File>, gold: set<File>, j: nat)
    ensures Hits(r, gold, j) <= j
  {
    if j > 0 {
      HitsAtMost(r, gold, j - 1);
    }
  }

  /** nDCG of a duplicate-free ranking lies in [0, 1], and is 1 exactly when the
      first min(|gold|, k) files are all gold. */
  lemma NdcgRange(r: seq<File>, gold: set<File>, k: nat, w: nat -> real)
    requires Discount(w) && NoRepeats(r)
    ensures 0.0 <= NdcgAt(r, gold, k, w) <= 1.0
    ensures gold != {} && k > 0 ==> (NdcgAt(r, gold, k, w) == 1.0 <==> PerfectHead(r, gold, k))
  {
    if gold != {} && k > 0 {
      var m := Smaller(|gold|, k);
      NdcgParts(r, gold, k, w);
      var d, x := Weighted(w, IdealOf(m), k), Weighted(w, HitsOf(r, gold), k);
      WeightedIsNonNegative(r, gold, k, w);
      forall j | 0 <= j <= k ensures IdealOf(m)(j) >= HitsOf(r, gold)(j) {
        HitsBelowIdeal(r, gold, k, j);
      }
      AbelDominance(w, IdealOf(m), HitsOf(r, gold), k);
      RatioRange(x, d);
      if PerfectHead(r, gold, k) {
        forall j | 0 <= j <= k ensures HitsOf(r, gold)(j) >= IdealOf(m)(j) {
          PerfectHits(r, gold, k, j);
        }
        AbelDominance(w, HitsOf(r, gold), IdealOf(m), k);
      } else {
        var j := ImperfectHits(r, gold, k);
        assert IdealOf(m)(j) > HitsOf(r, gold)(j) && SomewhereAhead(IdealOf(m), HitsOf(r, gold), k);
      }
    } else if k == 0 {
      assert Smaller(|gold|, k) == 0;
    }
  }

  lemma WeightedIsNonNegative(r: seq<File>, gold: set<File>, k: nat, w: nat -> real)
    requires Discount(w)
    ensures Weighted(w, HitsOf(r, gold), k) >= 0.0
  {
    var none := (j: nat) => 0.0;
    AbelDominance(w, HitsOf(r, gold), none, k);
    FlatTail(w, none, 0, k);
  }

  lemma RatioRange(x: real, d: real)
    requires d > 0.0 && 0.0 <= x <= d
    ensures 0.0 <= x / d <= 1.0
    ensures x / d == 1.0 <==> x == d
  {
    assert (x / d) * d == x;
    DivideKeepsOrder(d, x, d);
    DivideKeepsOrder(x, x, d);
  }

  /** The same for average precision. */
  lemma ApRange(r: seq<File>, gold: set<File>, k: nat)
    requires NoRepeats(r)
    ensures 0.0 <= AveragePrecision(r, gold, k) <= 1.0
    ensures gold != {} && k > 0 ==> (AveragePrecision(r, gold, k) == 1.0 <==> PerfectHead(r, gold, k))
  {
    if gold != {} && k > 0 {
      var m := Smaller(|gold|, k);
      PrecisionSumIsWeighted(r, gold, k);
      IdealPrecisionSum(m, k);
      InverseIsADiscount();
      forall j | 0 <= j <= k ensures IdealTriangle(m)(j) >= TriangleOf(r, gold)(j) {
        HitsBelowIdeal(r, gold, k, j);
        TriangleGrows(Hits(r, gold, j), Smaller(j, m));
      }
      AbelDominance(Inverse(), IdealTriangle(m), TriangleOf(r, gold), k);
      PrecisionSumIsNonNegative(r, gold, k);
      RatioRange(PrecisionSum(r, gold, k), m as real);
      if PerfectHead(r, gold, k) {
        forall j | 0 <= j <= k ensures TriangleOf(r, gold)(j) >= IdealTriangle(m)(j) {
          PerfectHits(r, gold, k, j);
        }
        AbelDominance(Inverse(), TriangleOf(r, gold), IdealTriangle(m), k);
      } else {
        var j := ImperfectHits(r, gold, k);
        TriangleGrows(Hits(r, gold, j), Smaller(j, m));
        assert IdealTriangle(m)(j) > TriangleOf(r, gold)(j) && SomewhereAhead(IdealTriangle(m), TriangleOf(r, gold), k);
      }
    }
  }

  /** Whatever list of chunk hits a server returns, its scores are proper, and
      perfect exactly for a perfect head of the deduplicated ranking. */
  lemma AnyResultListScoresInRange(results: seq<File>, gold: set<File>, k: nat, w: nat -> real)
    requires Discount(w)
    ensures var r := RankedFiles(results);
      0.0 <= NdcgAt(r, gold, k, w) <= 1.0 && 0.0 <= AveragePrecision(r, gold, k) <= 1.0
    ensures var r := RankedFiles(results); gold != {} && k > 0 ==>
      (NdcgAt(r, gold, k, w) == 1.0 <==> PerfectHead(r, gold, k)) &&
      (AveragePrecision(r, gold, k) == 1.0 <==> PerfectHead(r, gold, k))
  {
    RankedFilesAreDistinct(results);
    NdcgRange(RankedFiles(results), gold, k, w);
    ApRange(RankedFiles(results), gold, k);
  }

  lemma {:induction false} PrecisionSumIsNonNegative(r: seq<File>, gold: set<File>, j: nat)
    ensures PrecisionSum(r, gold, j) >= 0.0
  {
    if j > 0 {
      PrecisionSumIsNonNegative(r, gold, j - 1);
      DivideKeepsOrder(Hits(r, gold, j) as real, 0.0, j as real);
    }
  }

  /** Without the deduplication the bound fails: one gold file returned twice
      scores above 1, for every discount. */
  lemma RepeatsBreakTheBound(w: nat -> real)
    requires Discount(w)
    ensures NdcgAt(["a", "a"], {"a"}, 2, w) > 1.0
  {
    var r: seq<File>, gold := ["a", "a"], {"a"};
    NdcgParts(r, gold, 2, w);
    var d, x := Weighted(w, IdealOf(1), 2), Weighted(w, HitsOf(r, gold), 2);
    RepeatedHits();
    assert HitsOf(r, gold)(2) > IdealOf(1)(2) && SomewhereAhead(HitsOf(r, gold), IdealOf(1), 2);
    AbelDominance(w, HitsOf(r, gold), IdealOf(1), 2);
    DivideKeepsOrder(x, d, d);
    RatioRange(d, d);
  }

  lemma RepeatedHits()
    ensures Hits(["a", "a"], {"a"}, 0) == 0 && Hits(["a", "a"], {"a"}, 1) == 1 && Hits(["a", "a"], {"a"}, 2) == 2
  {
  }

  // ----- the scores, from positions -----

  /** The weights of the gold positions from `i` on, within the first `k`. */
  function GoldWeight(r: seq<File>, gold: set<File>, i: nat, k: nat, w: nat -> real): real
    decreases |r| - i
  {
    if i >= |r| || i >= k then 0.0 else (if r[i] in gold then w(i) else 0.0) + GoldWeight(r, gold, i + 1, k, w)
  }

  /** The weights of the positions from `i` to `m`. */
  function TopWeight(i: nat, m: nat, w: nat -> real): real
    decreases m - i
  {
    if i >= m then 0.0 else w(i) + TopWeight(i + 1, m, w)
  }

  lemma {:induction false} DcgFromPositions(r: seq<File>, gold: set<File>, j: nat, k: nat, w: nat -> real)
    requires j <= k && j <= |r|
    ensures Dcg(Gains(r[..j], gold), w) + GoldWeight(r, gold, j, k, w) == GoldWeight(r, gold, 0, k, w)
  {
    if j > 0 {
      DcgFromPositions(r, gold, j - 1, k, w);
      assert Gains(r[..j], gold)[..j - 1] == Gains(r[..j - 1], gold);
    } else {
      assert Gains(r[..0], gold) == [];
    }
  }

  lemma {:induction false} DcgOfOnes(j: nat, m: nat, w: nat -> real)
    requires j <= m
    ensures Dcg(seq(j, _ => 1.0), w) + TopWeight(j, m, w) == TopWeight(0, m, w)
  {
    if j > 0 {
      DcgOfOnes(j - 1, m, w);
      assert seq(j, _ => 1.0)[..j - 1] == seq(j - 1, _ => 1.0);
    } else {
      assert seq(0, _ => 1.0) == [];
    }
  }

  lemma {:induction false} GoldWeightIs(r: seq<File>, gold: set<File>, k: nat, w: nat -> real)
    ensures Weighted(w, HitsOf(r, gold), k) == GoldWeight(r, gold, 0, k, w)
  {
    var j := Smaller(|r|, k);
    DcgOfTop(r, gold, k, w);
    DcgFromPositions(r, gold, j, k, w);
    assert Top(r, k) == r[..j];
  }

  lemma {:induction false} TopWeightIs(m: nat, k: nat, w: nat -> real)
    requires m <= k
    ensures Weighted(w, IdealOf(m), k) == TopWeight(0, m, w)
  {
    DcgOfIdealTop(m, k, w);
    DcgOfOnes(m, m, w);
  }

  /** nDCG@k is the weight of the gold positions within k, over that of as many top
      positions as there could be: the smaller of k and the gold size. */
  lemma {:induction false} NdcgFromPositions(r: seq<File>, gold: set<File>, k: nat, w: nat -> real)
    requires Discount(w) && gold != {} && k > 0
    ensures var m := if |gold| < k then |gold| else k;
      TopWeight(0, m, w) > 0.0 && NdcgAt(r, gold, k, w) == GoldWeight(r, gold, 0, k, w) / TopWeight(0, m, w)
  {
    var m := Smaller(|gold|, k);
    NdcgParts(r, gold, k, w);
    GoldWeightIs(r, gold, k, w);
    TopWeightIs(m, k, w);
  }

  /** The gold positions before `j`. */
  function GoldPositions(r: seq<File>, gold: set<File>, j: nat): set<nat> {
    set i: nat | i < j && i < |r| && r[i] in gold
  }

  lemma {:induction false} HitsAreGoldPositions(r: seq<File>, gold: set<File>, j: nat)
    ensures Hits(r, gold, j) == |GoldPositions(r, gold, j)|
  {
    if j > 0 {
      HitsAreGoldPositions(r, gold, j - 1);
      var before := GoldPositions(r, gold, j - 1);
      assert GoldPositions(r, gold, j) == if j <= |r| && r[j - 1] in gold then before + {j - 1} else before;
    }
  }

  /** The precisions at the gold positions from `i` on, within the first `k`. */
  function Precisions(r: seq<File>, gold: set<File>, i: nat, k: nat): real
    decreases |r| - i
  {
    if i >= |r| || i >= k then 0.0
    else (if r[i] in gold then |GoldPositions(r, gold, i + 1)| as real / (i + 1) as real else 0.0) + Precisions(r, gold, i + 1, k)
  }

  lemma {:induction false} PrecisionsBefore(r: seq<File>, gold: set<File>, j: nat, k: nat)
    requires j <= k && j <= |r|
    ensures PrecisionSum(r, gold, j) + Precisions(r, gold, j, k) == Precisions(r, gold, 0, k)
  {
    if j > 0 {
      PrecisionsBefore(r, gold, j - 1, k);
      HitsAreGoldPositions(r, gold, j);
    }
  }

  /** AP@k adds, over the gold positions within k, the share of gold among the positions
      up to there, and divides by the smaller of k and the gold size. */
  lemma {:induction false} ApFromPositions(r: seq<File>, gold: set<File>, k: nat)
    requires gold != {} && k > 0
    ensures AveragePrecision(r, gold, k) == Precisions(r, gold, 0, k) / (if |gold| < k then |gold| else k) as real
  {
    var j := Smaller(|r|, k);
    PrecisionsBefore(r, gold, j, k);
    PrecisionSumStops(r, gold, j, k);
  }

  /** A gold file is found within the first `k`. */
  ghost predicate FoundWithin(r: seq<File>, p: File, k: nat) {
    exists i :: 0 <= i < |r| && i < k && r[i] == p
  }

  lemma InTopExactly(r: seq<File>, p: File, k: nat)
    ensures p in Top(r, k) <==> FoundWithin(r, p, k)
  {
    if i :| 0 <= i < |r| && i < k && r[i] == p {
      assert Top(r, k)[i] == p;
    }
  }

  /** Recall@k counts each gold file found once: for a ranking without repeats it is the
      gold files among the first k over all gold files; it is 1 exactly when all are
      found, and accuracy@k is 1 exactly then and 0 otherwise. */
  lemma {:induction false} RecallIsExact(r: seq<File>, gold: set<File>, k: nat)
    requires gold != {}
    ensures 0.0 <= RecallAt(r, gold, k) <= 1.0
    ensures NoRepeats(r) ==> RecallAt(r, gold, k) * |gold| as real == Hits(r, gold, k) as real
    ensures RecallAt(r, gold, k) == 1.0 <==> forall p :: p in gold ==> FoundWithin(r, p, k)
    ensures AccuracyAt(r, gold, k) == if forall p :: p in gold ==> FoundWithin(r, p, k) then 1.0 else 0.0
    ensures RecallAt(r, {}, k) == 0.0 && AccuracyAt(r, {}, k) == 0.0
  {
    var found := Found(Top(r, k), gold);
    SubsetSize(found, gold);
    RatioRange(|found| as real, |gold| as real);
    forall p ensures p in Top(r, k) <==> FoundWithin(r, p, k) {
      InTopExactly(r, p, k);
    }
    if NoRepeats(r) {
      HitsCount(r, gold, k);
    }
    assert (forall p :: p in gold ==> p in Top(r, k)) <==> found == gold;
  }

  /** The reciprocal rank is 1/p exactly for the first gold position p within k, and 0
      exactly when there is none. */
  lemma {:induction false} ReciprocalRankIsExact(r: seq<File>, gold: set<File>, k: nat, p: nat)
    ensures 0 < p <= k && p <= |r| && r[p - 1] in gold && (forall i :: 0 <= i < p - 1 ==> r[i] !in gold) ==>
      ReciprocalRank(r, gold, k) == 1.0 / p as real
    ensures ReciprocalRank(r, gold, k) == 0.0 <==> forall i :: 0 <= i < |r| && i < k ==> r[i] !in gold
  {
    var q := FirstHit(r, gold, k);
    NoHits(r, gold, k);
    if q > 0 {
      NoHits(r, gold, q - 1);
      InverseOrder(0.5, q as real);
    }
  }

  lemma {:induction false} NoHits(r: seq<File>, gold: set<File>, j: nat)
    ensures Hits(r, gold, j) == 0 <==> forall i :: 0 <= i < |r| && i < j ==> r[i] !in gold
  {
    if j > 0 {
      NoHits(r, gold, j - 1);
    }
  }
}
