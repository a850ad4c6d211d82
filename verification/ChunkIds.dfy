/** Chunk identifiers of the fusion harness and the two conversions built on them
    (bench/baselines/fusion.py: `chunk_id`, `to_chunk_run`, `fused_ranking`). */
module ChunkIds {
  import opened Basics

  datatype Span = Span(path: string, start: nat, end: nat)

  datatype Hit = Hit(span: Span, score: real)

  // ----- numbers in decimal -----

  function Digit(d: nat): char
    requires d < 10
  {
    '0' + d as char
  }

  function Decimal(n: nat): (s: string)
    ensures s != "" && (n > 0 ==> s[0] != '0') && (n < 10 ==> |s| == 1)
  {
    if n < 10 then [Digit(n)] else Decimal(n / 10) + [Digit(n % 10)]
  }

  predicate AllDigits(s: string) {
    forall i :: 0 <= i < |s| ==> '0' <= s[i] <= '9'
  }

  /** `int(s)`; None is the ValueError. */
  function ParseDecimal(s: string): Option<nat> {
    if s == "" || !AllDigits(s) then None else Some(DecimalValue(s))
  }

  function DecimalValue(s: string): nat
    requires AllDigits(s)
  {
    if s == "" then 0 else 10 * DecimalValue(s[..|s| - 1]) + (s[|s| - 1] as int - '0' as int)
  }

  lemma {:induction false} DecimalRoundTrip(n: nat)
    ensures AllDigits(Decimal(n)) && ParseDecimal(Decimal(n)) == Some(n)
  {
    if n >= 10 {
      DecimalRoundTrip(n / 10);
      assert Decimal(n)[..|Decimal(n)| - 1] == Decimal(n / 10);
    } else {
      assert Decimal(n)[..|Decimal(n)| - 1] == "";
      assert DecimalValue(Decimal(n)) == n;
    }
  }

  /** Nothing else is the decimal form of the number: no other digits without leading zeros. */
  lemma {:induction false} DecimalIsCanonical(s: string, n: nat)
    requires s != "" && AllDigits(s) && DecimalValue(s) == n && (s[0] == '0' ==> |s| == 1)
    ensures s == Decimal(n)
  {
    var m := |s| - 1;
    if m > 0 {
      PositiveValue(s[..m]);
      DecimalIsCanonical(s[..m], DecimalValue(s[..m]));
      assert n / 10 == DecimalValue(s[..m]) && n % 10 == s[m] as int - '0' as int;
      assert s == s[..m] + [s[m]];
    } else {
      assert s[..0] == "" && DecimalValue(s) == s[0] as int - '0' as int;
    }
  }

  lemma {:induction false} PositiveValue(s: string)
    requires s != "" && AllDigits(s) && s[0] != '0'
    ensures DecimalValue(s) > 0
  {
    var m := |s| - 1;
    if m > 0 {
      PositiveValue(s[..m]);
    } else {
      assert s[..0] == "";
    }
  }

  // ----- the identifier and its parser -----

  function ChunkId(c: Span): string {
    c.path + ":" + Decimal(c.start) + "-" + Decimal(c.end)
  }

  /** `s.rpartition(c)` without the separator: split at the last `c`. */
  function SplitAtLast(s: string, c: char): (string, string) {
    if s == "" then ("", "")
    else if s[|s| - 1] == c then (s[..|s| - 1], "")
    else
      var (head, tail) := SplitAtLast(s[..|s| - 1], c);
      (head, tail + [s[|s| - 1]])
  }

  /** `s.partition(c)` without the separator: split at the first `c`. */
  function SplitAtFirst(s: string, c: char): (string, string) {
    if s == "" then ("", "")
    else if s[0] == c then ("", s[1..])
    else
      var (head, tail) := SplitAtFirst(s[1..], c);
      ([s[0]] + head, tail)
  }

  function ParseChunkId(key: string): Option<Span> {
    var (path, span) := SplitAtLast(key, ':');
    var (start, end) := SplitAtFirst(span, '-');
    match (ParseDecimal(start), ParseDecimal(end))
    case (Some(s), Some(e)) => Some(Span(path, s, e))
    case _ => None
  }

  /** Without a separator the whole text is the tail of the one and the head of the other. */
  lemma {:induction false} SplitNowhere(s: string, c: char)
    requires c !in s
    ensures SplitAtLast(s, c) == ("", s) && SplitAtFirst(s, c) == (s, "")
  {
    if s != "" {
      SplitNowhere(s[..|s| - 1], c);
      SplitNowhere(s[1..], c);
      assert s == s[..|s| - 1] + [s[|s| - 1]] && s == [s[0]] + s[1..];
    }
  }

  /** A key parses exactly when it is a path, the last colon, digits, the first dash after
      it, and digits; a key without a colon has an empty path. */
  lemma ParsesExactly(path: string, start: string, end: string)
    requires ':' !in start && '-' !in start && ':' !in end
    ensures ParseChunkId(path + ":" + start + "-" + end).Some? <==>
      start != "" && end != "" && AllDigits(start) && AllDigits(end)
    ensures ParseChunkId(path + ":" + start + "-" + end).Some? ==>
      ParseChunkId(path + ":" + start + "-" + end).value == Span(path, DecimalValue(start), DecimalValue(end))
    ensures ParseChunkId(path + ":" + start).None? && ParseChunkId(start).None?
  {
    var key := path + ":" + start + "-" + end;
    assert key == path + [':'] + (start + "-" + end);
    SplitAtLastOf(path, ':', start + "-" + end);
    SplitAtFirstOf(start, '-', end);
    assert path + ":" + start == path + [':'] + start;
    SplitAtLastOf(path, ':', start);
    SplitNowhere(start, '-');
    SplitNowhere(start, ':');
  }

  lemma {:induction false} SplitAtLastOf(a: string, c: char, b: string)
    requires c !in b
    ensures SplitAtLast(a + [c] + b, c) == (a, b)
  {
    var s := a + [c] + b;
    if b == "" {
      assert s[..|s| - 1] == a;
    } else {
      assert s[..|s| - 1] == a + [c] + b[..|b| - 1];
      SplitAtLastOf(a, c, b[..|b| - 1]);
      assert b == b[..|b| - 1] + [b[|b| - 1]];
    }
  }

  lemma {:induction false} SplitAtFirstOf(a: string, c: char, b: string)
    requires c !in a
    ensures SplitAtFirst(a + [c] + b, c) == (a, b)
  {
    var s := a + [c] + b;
    if a == "" {
      assert s[1..] == b;
    } else {
      assert s[1..] == a[1..] + [c] + b;
      SplitAtFirstOf(a[1..], c, b);
      assert a == [a[0]] + a[1..];
    }
  }

  /** Whatever the path contains, colons and dashes included, the identifier parses
      back to the same path and lines. */
  lemma ChunkIdRoundTrip(c: Span)
    ensures ParseChunkId(ChunkId(c)) == Some(c)
  {
    var s, e := Decimal(c.start), Decimal(c.end);
    DecimalRoundTrip(c.start);
    DecimalRoundTrip(c.end);
    assert ChunkId(c) == c.path + [':'] + (s + "-" + e);
    SplitAtLastOf(c.path, ':', s + "-" + e);
    SplitAtFirstOf(s, '-', e);
  }

  lemma ChunkIdIsInjective(a: Span, b: Span)
    requires ChunkId(a) == ChunkId(b)
    ensures a == b
  {
    ChunkIdRoundTrip(a);
    ChunkIdRoundTrip(b);
  }

  predicate Reserved(key: string): (r: bool)
    ensures r <==> "__" <= key
  {
    |key| >= 2 && key[0] == '_' && key[1] == '_'
  }

  /** The placeholder test on the identifier is a test on the path. */
  lemma ReservedIsAboutThePath(c: Span)
    ensures Reserved(ChunkId(c)) <==> Reserved(c.path)
  {
    assert ChunkId(c) == c.path + ":" + (Decimal(c.start) + "-" + Decimal(c.end));
    if |c.path| == 0 {
      assert ChunkId(c)[0] == ':';
    } else if |c.path| == 1 {
      assert ChunkId(c)[1] == ':';
    } else {
      assert ChunkId(c)[0] == c.path[0] && ChunkId(c)[1] == c.path[1];
    }
  }

  // ----- one leg's run -----

  /** A posting list in the order its keys were first inserted. */
  type Postings = seq<(string, real)>

  const NOTHING: (string, real) := ("__none__", 0.0)

  function KeyAt(run: Postings, key: string): (k: nat)
    ensures k <= |run|
    ensures k < |run| ==> run[k].0 == key
    ensures forall i :: 0 <= i < k ==> run[i].0 != key
  {
    if run == [] then 0 else if run[0].0 == key then 0 else 1 + KeyAt(run[1..], key)
  }

  predicate DistinctKeys(run: Postings) {
    forall i, j :: 0 <= i < j < |run| ==> run[i].0 != run[j].0
  }

  /** The score kept for `key` is the best any of the hits gives it. */
  ghost predicate BestScore(hits: seq<Hit>, key: string, score: real) {
    (exists i :: 0 <= i < |hits| && ChunkId(hits[i].span) == key && hits[i].score == score) &&
    forall i :: 0 <= i < |hits| && ChunkId(hits[i].span) == key ==> hits[i].score <= score
  }

  ghost predicate IsRunOf(run: Postings, hits: seq<Hit>) {
    DistinctKeys(run) &&
    (forall k :: 0 <= k < |run| ==> BestScore(hits, run[k].0, run[k].1)) &&
    forall i :: 0 <= i < |hits| ==> KeyAt(run, ChunkId(hits[i].span)) < |run|
  }

  /** One hit added to the dictionary. */
  function AddHit(run: Postings, h: Hit): Postings {
    var key := ChunkId(h.span);
    var k := KeyAt(run, key);
    if k == |run| then run + [(key, h.score)]
    else if h.score > run[k].1 then run[k := (key, h.score)]
    else run
  }

  lemma KeyStays(run: Postings, h: Hit, key: string)
    ensures key == ChunkId(h.span) || KeyAt(run, key) < |run| ==> KeyAt(AddHit(run, h), key) < |AddHit(run, h)|
  {
    var after := AddHit(run, h);
    var k := KeyAt(run, key);
    if k < |run| {
      assert after[k].0 == key;
    } else if key == ChunkId(h.span) {
      assert after[|run|].0 == key;
    }
  }

  lemma BestScoreGrows(hits: seq<Hit>, h: Hit, key: string, score: real)
    requires BestScore(hits, key, score)
    ensures key != ChunkId(h.span) || h.score <= score ==> BestScore(hits + [h], key, score)
    ensures key == ChunkId(h.span) && h.score > score ==> BestScore(hits + [h], key, h.score)
  {
    var more := hits + [h];
    var i :| 0 <= i < |hits| && ChunkId(hits[i].span) == key && hits[i].score == score;
    assert more[i] == hits[i] && more[|hits|] == h;
  }

  lemma AddHitKeepsKeysDistinct(run: Postings, h: Hit)
    requires DistinctKeys(run)
    ensures DistinctKeys(AddHit(run, h))
  {
  }

  lemma AddHitKeepsScores(run: Postings, hits: seq<Hit>, h: Hit, k: nat)
    requires IsRunOf(run, hits) && k < |AddHit(run, h)|
    ensures BestScore(hits + [h], AddHit(run, h)[k].0, AddHit(run, h)[k].1)
  {
    var key := ChunkId(h.span);
    if k < |run| {
      BestScoreGrows(hits, h, run[k].0, run[k].1);
      assert k != KeyAt(run, key) ==> run[k].0 != key;
    } else {
      assert (hits + [h])[|hits|] == h;
      forall i | 0 <= i < |hits| ensures ChunkId(hits[i].span) != key {
        assert KeyAt(run, ChunkId(hits[i].span)) < |run|;
      }
    }
  }

  lemma AddHitKeepsRun(run: Postings, hits: seq<Hit>, i: nat)
    requires i < |hits| && IsRunOf(run, hits[..i])
    ensures IsRunOf(AddHit(run, hits[i]), hits[..i + 1])
  {
    var after, more := AddHit(run, hits[i]), hits[..i + 1];
    assert more == hits[..i] + [hits[i]];
    AddHitKeepsKeysDistinct(run, hits[i]);
    forall k | 0 <= k < |after| ensures BestScore(more, after[k].0, after[k].1) {
      AddHitKeepsScores(run, hits[..i], hits[i], k);
    }
    forall j | 0 <= j < |more| ensures KeyAt(after, ChunkId(more[j].span)) < |after| {
      KeyStays(run, hits[i], ChunkId(more[j].span));
    }
  }

  /** Where the hits first name `key`; their number when they never do. */
  function FirstAt(hits: seq<Hit>, key: string): (i: nat)
    ensures i <= |hits|
    ensures i < |hits| ==> ChunkId(hits[i].span) == key
    ensures forall j :: 0 <= j < i ==> ChunkId(hits[j].span) != key
  {
    if hits == [] then 0 else if ChunkId(hits[0].span) == key then 0 else 1 + FirstAt(hits[1..], key)
  }

  lemma {:induction false} FirstAtStays(hits: seq<Hit>, h: Hit, key: string)
    ensures FirstAt(hits, key) < |hits| ==> FirstAt(hits + [h], key) == FirstAt(hits, key)
    ensures FirstAt(hits, key) == |hits| && ChunkId(h.span) == key ==> FirstAt(hits + [h], key) == |hits|
  {
    var more := hits + [h];
    assert forall j :: 0 <= j < |hits| ==> more[j] == hits[j];
    assert more[|hits|] == h;
  }

  /** The keys are in the order in which the hits first name them. */
  ghost predicate InFirstOrder(run: Postings, hits: seq<Hit>) {
    (forall k :: 0 <= k < |run| ==> FirstAt(hits, run[k].0) < |hits|) &&
    forall j, k :: 0 <= j < k < |run| ==> FirstAt(hits, run[j].0) < FirstAt(hits, run[k].0)
  }

  /** Adding a hit keeps every key where it is; a new key goes to the end. */
  lemma {:induction false} AddedKey(run: Postings, h: Hit, k: nat)
    requires k < |AddHit(run, h)|
    ensures |run| <= |AddHit(run, h)| <= |run| + 1
    ensures k < |run| ==> AddHit(run, h)[k].0 == run[k].0
    ensures k == |run| ==> AddHit(run, h)[k].0 == ChunkId(h.span) && KeyAt(run, ChunkId(h.span)) == |run|
  {
  }

  lemma {:induction false} AddedKeyFirst(run: Postings, hits: seq<Hit>, h: Hit, k: nat)
    requires k < |AddHit(run, h)| && (k < |run| ==> FirstAt(hits, run[k].0) < |hits|)
    requires forall i :: 0 <= i < |hits| ==> KeyAt(run, ChunkId(hits[i].span)) < |run|
    ensures FirstAt(hits + [h], AddHit(run, h)[k].0) == if k < |run| then FirstAt(hits, run[k].0) else |hits|
  {
    AddedKey(run, h, k);
    FirstAtStays(hits, h, AddHit(run, h)[k].0);
    if k >= |run| {
      assert forall i :: 0 <= i < |hits| ==> ChunkId(hits[i].span) != ChunkId(h.span);
    }
  }

  lemma {:induction false} AddHitKeepsOrder(run: Postings, hits: seq<Hit>, h: Hit)
    requires InFirstOrder(run, hits)
    requires forall i :: 0 <= i < |hits| ==> KeyAt(run, ChunkId(hits[i].span)) < |run|
    ensures InFirstOrder(AddHit(run, h), hits + [h])
  {
    var after, more := AddHit(run, h), hits + [h];
    forall k | 0 <= k < |after| ensures FirstAt(more, after[k].0) < |more| {
      AddedKeyFirst(run, hits, h, k);
    }
    forall j, k | 0 <= j < k < |after| ensures FirstAt(more, after[j].0) < FirstAt(more, after[k].0) {
      AddedKey(run, h, k);
      AddedKeyFirst(run, hits, h, j);
      AddedKeyFirst(run, hits, h, k);
    }
  }

  /** The dictionary after all hits. */
  function RunOf(hits: seq<Hit>): Postings {
    if hits == [] then [] else AddHit(RunOf(hits[..|hits| - 1]), hits[|hits| - 1])
  }

  lemma {:induction false} RunOfIsARun(hits: seq<Hit>)
    ensures IsRunOf(RunOf(hits), hits) && InFirstOrder(RunOf(hits), hits)
  {
    if hits != [] {
      var m := |hits| - 1;
      RunOfIsARun(hits[..m]);
      assert hits[..m] + [hits[m]] == hits && hits[..m + 1] == hits;
      AddHitKeepsOrder(RunOf(hits[..m]), hits[..m], hits[m]);
      AddHitKeepsRun(RunOf(hits[..m]), hits, m);
    }
  }

  lemma {:induction false} EmptyRunExactly(hits: seq<Hit>)
    ensures RunOf(hits) == [] <==> hits == []
  {
    if hits != [] {
      KeyStays(RunOf(hits[..|hits| - 1]), hits[|hits| - 1], ChunkId(hits[|hits| - 1].span));
    }
  }

  /** `scored or {"__none__": 0.0}` */
  function ChunkRun(hits: seq<Hit>): Postings {
    if hits == [] then [NOTHING] else RunOf(hits)
  }

  /** `to_chunk_run` for one query: the better score of a repeated chunk, in the order
      the chunks first appear, and a placeholder when there is no hit at all. */
  method ToChunkRun(hits: seq<Hit>) returns (run: Postings)
    ensures run == ChunkRun(hits)
    ensures hits == [] ==> run == [("__none__", 0.0)]
    ensures hits != [] ==> IsRunOf(run, hits) && InFirstOrder(run, hits)
  {
    var scored: Postings := [];
    for i := 0 to |hits|
      invariant scored == RunOf(hits[..i])
    {
      assert hits[..i + 1][..i] == hits[..i];
      scored := AddHit(scored, hits[i]);
    }
    assert hits[..|hits|] == hits;
    RunOfIsARun(hits);
    EmptyRunExactly(hits);
    run := if scored == [] then [NOTHING] else scored;
  }

  // ----- back to a ranking -----

  function InsertPosting(sorted: Postings, p: (string, real)): (r: Postings)
    ensures forall x :: x in r <==> x == p || x in sorted
  {
    if sorted == [] then [p]
    else if sorted[0].1 >= p.1 then [sorted[0]] + InsertPosting(sorted[1..], p)
    else [p] + sorted
  }

  /** `sorted(items, key=-score)`: stable, best score first. */
  function ByScore(run: Postings): (r: Postings)
    ensures forall x :: x in r <==> x in run
  {
    if run == [] then []
    else
      assert run == run[..|run| - 1] + [run[|run| - 1]];
      InsertPosting(ByScore(run[..|run| - 1]), run[|run| - 1])
  }

  /** The loop over the ordered postings; None is the ValueError of a key that is
      neither reserved nor an identifier. */
  function ToHits(postings: Postings): Option<seq<Hit>> {
    if postings == [] then Some([])
    else
      var p := postings[|postings| - 1];
      match ToHits(postings[..|postings| - 1])
      case None => None
      case Some(before) =>
        if Reserved(p.0) then Some(before)
        else
          match ParseChunkId(p.0)
          case None => None
          case Some(c) => Some(before + [Hit(c, p.1)])
  }

  method FusedRanking(run: Postings) returns (out: Option<seq<Hit>>)
    ensures out == ToHits(ByScore(run))
  {
    var ordered := ByScore(run);
    var hits: seq<Hit> := [];
    for k := 0 to |ordered|
      invariant ToHits(ordered[..k]) == Some(hits)
    {
      assert ordered[..k + 1][..k] == ordered[..k];
      var (key, score) := ordered[k];
      if !Reserved(key) {
        var c := ParseChunkId(key);
        if c.None? {
          StaysNone(ordered, k + 1);
          return None;
        }
        hits := hits + [Hit(c.value, score)];
      }
    }
    assert ordered[..|ordered|] == ordered;
    out := Some(hits);
  }

  lemma {:induction false} StaysNone(postings: Postings, k: nat)
    requires k <= |postings| && ToHits(postings[..k]).None?
    ensures ToHits(postings).None?
  {
    if k < |postings| {
      assert postings[..|postings| - 1][..k] == postings[..k];
      StaysNone(postings[..|postings| - 1], k);
    } else {
      assert postings[..k] == postings;
    }
  }

  // ----- any posting list -----

  /** Better score first; of equal scores, the earlier posting. */
  predicate Before(run: Postings, a: nat, b: nat)
    requires a < |run| && b < |run|
  {
    run[a].1 > run[b].1 || (run[a].1 == run[b].1 && a < b)
  }

  /** Positions of a posting list in the order a stable sort gives them. */
  ghost predicate InOrder(run: Postings, at: seq<nat>) {
    (forall i :: 0 <= i < |at| ==> at[i] < |run|) &&
    forall i, j :: 0 <= i < j < |at| ==> Before(run, at[i], at[j])
  }

  ghost predicate ListsAt(postings: Postings, run: Postings, at: seq<nat>) {
    |at| == |postings| && InOrder(run, at) && forall i :: 0 <= i < |at| ==> postings[i] == run[at[i]]
  }

  lemma FirstIsBefore(run: Postings, at: seq<nat>, k: nat)
    requires InOrder(run, at) && at != []
    ensures k in at[1..] ==> k < |run| && Before(run, at[0], k)
  {
    if k in at[1..] {
      var i :| 0 <= i < |at[1..]| && at[1..][i] == k;
      assert at[i + 1] == k;
    }
  }

  lemma {:induction false} InsertInOrder(run: Postings, sorted: Postings, at: seq<nat>, m: nat) returns (r: seq<nat>)
    requires ListsAt(sorted, run, at) && m < |run| && forall i :: 0 <= i < |at| ==> at[i] < m
    ensures ListsAt(InsertPosting(sorted, run[m]), run, r)
    ensures forall k :: k in r <==> k == m || k in at
  {
    if sorted == [] {
      r := [m];
    } else if sorted[0].1 >= run[m].1 {
      var rest := InsertInOrder(run, sorted[1..], at[1..], m);
      r := [at[0]] + rest;
      assert at == [at[0]] + at[1..];
      forall j | 0 <= j < |rest| ensures rest[j] < |run| && Before(run, at[0], rest[j]) {
        assert rest[j] in rest;
        FirstIsBefore(run, at, rest[j]);
      }
    } else {
      r := [m] + at;
      forall i | 0 <= i < |at| ensures Before(run, m, at[i]) {
        assert i > 0 ==> Before(run, at[0], at[i]);
      }
    }
  }

  lemma {:induction false} ByScoreInOrder(run: Postings) returns (at: seq<nat>)
    ensures ListsAt(ByScore(run), run, at)
    ensures forall k: nat :: k in at <==> k < |run|
  {
    if run == [] {
      at := [];
    } else {
      var m := |run| - 1;
      var before := ByScoreInOrder(run[..m]);
      forall i | 0 <= i < |before| ensures before[i] < m {
        assert before[i] in before;
      }
      at := InsertInOrder(run, ByScore(run[..m]), before, m);
    }
  }

  predicate Unreadable(key: string) {
    !("__" <= key) && ParseChunkId(key).None?
  }

  lemma {:induction false} ToHitsFails(postings: Postings)
    ensures ToHits(postings).None? <==> exists p :: p in postings && Unreadable(p.0)
  {
    if postings != [] {
      var m := |postings| - 1;
      assert postings == postings[..m] + [postings[m]];
      ToHitsFails(postings[..m]);
    }
  }

  /** The rows are the postings at these positions, parsed, in this order. */
  ghost predicate RowsAt(out: seq<Hit>, run: Postings, at: seq<nat>) {
    |at| == |out| && InOrder(run, at) &&
    forall i :: 0 <= i < |at| ==> ParseChunkId(run[at[i]].0) == Some(out[i].span) && out[i].score == run[at[i]].1
  }

  lemma RowsOneMore(out: seq<Hit>, run: Postings, at: seq<nat>, k: nat, h: Hit)
    requires RowsAt(out, run, at) && k < |run| && forall a :: a in at ==> a < |run| && Before(run, a, k)
    requires ParseChunkId(run[k].0) == Some(h.span) && h.score == run[k].1
    ensures RowsAt(out + [h], run, at + [k])
  {
    forall i | 0 <= i < |at| ensures Before(run, at[i], k) {
      assert at[i] in at;
    }
  }

  lemma {:induction false} ToHitsRows(postings: Postings, run: Postings, at: seq<nat>) returns (kept: seq<nat>)
    requires ListsAt(postings, run, at) && ToHits(postings).Some?
    ensures RowsAt(ToHits(postings).value, run, kept)
    ensures forall k :: k in kept <==> k in at && !("__" <= run[k].0)
  {
    kept := [];
    if postings != [] {
      var m := |postings| - 1;
      assert at == at[..m] + [at[m]];
      kept := ToHitsRows(postings[..m], run, at[..m]);
      if !Reserved(postings[m].0) {
        var h := Hit(ParseChunkId(postings[m].0).value, postings[m].1);
        forall a | a in kept ensures a < |run| && Before(run, a, at[m]) {
          var i :| 0 <= i < m && at[..m][i] == a;
          assert at[i] == a;
        }
        RowsOneMore(ToHits(postings[..m]).value, run, kept, at[m], h);
        kept := kept + [at[m]];
      }
    }
  }

  /** One row for each posting whose key is not reserved, in order. */
  ghost predicate FusedAt(out: seq<Hit>, run: Postings, at: seq<nat>) {
    RowsAt(out, run, at) && forall k: nat :: k in at <==> k < |run| && !("__" <= run[k].0)
  }

  /** What `fused_ranking` answers for any posting list, exactly: it raises when and only
      when a key neither starts with two underscores nor parses; otherwise each posting
      whose key does not start with two underscores gives one row, its parsed key with its
      score, better scores first and of equal scores the earlier posting. */
  lemma FusedExactly(run: Postings)
    ensures ToHits(ByScore(run)).None? <==> exists p :: p in run && Unreadable(p.0)
    ensures ToHits(ByScore(run)).Some? ==> exists at :: FusedAt(ToHits(ByScore(run)).value, run, at)
  {
    ToHitsFails(ByScore(run));
    if ToHits(ByScore(run)).Some? {
      var at := ByScoreInOrder(run);
      var kept := ToHitsRows(ByScore(run), run, at);
      assert FusedAt(ToHits(ByScore(run)).value, run, kept);
    }
  }

  /** Better score first; of equal scores, the chunk the hits named first. */
  ghost predicate Precedes(hits: seq<Hit>, p: (string, real), q: (string, real)) {
    p.1 > q.1 || (p.1 == q.1 && FirstAt(hits, p.0) < FirstAt(hits, q.0))
  }

  ghost predicate InRankOrder(hits: seq<Hit>, run: Postings) {
    forall i, j :: 0 <= i < j < |run| ==> Precedes(hits, run[i], run[j])
  }

  lemma {:induction false} InsertInRankOrder(hits: seq<Hit>, sorted: Postings, p: (string, real))
    requires InRankOrder(hits, sorted)
    requires forall x :: x in sorted ==> FirstAt(hits, x.0) < FirstAt(hits, p.0)
    ensures InRankOrder(hits, InsertPosting(sorted, p))
  {
    if sorted != [] && sorted[0].1 >= p.1 {
      InsertInRankOrder(hits, sorted[1..], p);
      var r := InsertPosting(sorted[1..], p);
      forall j | 0 <= j < |r| ensures Precedes(hits, sorted[0], r[j]) {
        assert r[j] in r;
        assert r[j] == p || r[j] in sorted[1..];
      }
    } else if sorted != [] {
      forall j | 0 <= j < |sorted| ensures Precedes(hits, p, sorted[j]) {
        assert j > 0 ==> Precedes(hits, sorted[0], sorted[j]);
      }
    }
  }

  lemma {:induction false} InsertDistinct(sorted: Postings, p: (string, real))
    requires DistinctKeys(sorted) && forall x :: x in sorted ==> x.0 != p.0
    ensures DistinctKeys(InsertPosting(sorted, p))
  {
    if sorted != [] && sorted[0].1 >= p.1 {
      InsertDistinct(sorted[1..], p);
      var tail := InsertPosting(sorted[1..], p);
      forall j | 0 <= j < |tail| ensures sorted[0].0 != tail[j].0 {
        assert tail[j] in tail;
        assert sorted[0] in sorted;
      }
    }
  }

  lemma {:induction false} ByScoreIsSorted(hits: seq<Hit>, run: Postings)
    requires DistinctKeys(run) && InFirstOrder(run, hits)
    ensures InRankOrder(hits, ByScore(run)) && DistinctKeys(ByScore(run))
  {
    if run != [] {
      var m := |run| - 1;
      ByScoreIsSorted(hits, run[..m]);
      forall x | x in ByScore(run[..m]) ensures x.0 != run[m].0 && FirstAt(hits, x.0) < FirstAt(hits, run[m].0) {
        assert x in run[..m];
      }
      InsertInRankOrder(hits, ByScore(run[..m]), run[m]);
      InsertDistinct(ByScore(run[..m]), run[m]);
    }
  }

  ghost predicate EveryKeyIsAnId(postings: Postings) {
    forall k :: 0 <= k < |postings| ==> exists c :: postings[k].0 == ChunkId(c)
  }

  function PostingOf(h: Hit): (string, real) {
    (ChunkId(h.span), h.score)
  }

  /** A ranking of distinct chunks, best first, and of equal scores the one that
      `source` names first. */
  ghost predicate Ranked(source: seq<Hit>, out: seq<Hit>) {
    (forall i, j :: 0 <= i < j < |out| ==> out[i].span != out[j].span) &&
    forall i, j :: 0 <= i < j < |out| ==> Precedes(source, PostingOf(out[i]), PostingOf(out[j]))
  }

  /** The hit a posting becomes, if its path is not reserved. */
  lemma PostingToHit(p: (string, real), c: Span)
    requires p.0 == ChunkId(c)
    ensures ParseChunkId(p.0) == Some(c) && (Reserved(p.0) <==> Reserved(c.path))
    ensures forall h: Hit :: PostingOf(h) == p <==> h == Hit(c, p.1)
  {
    ChunkIdRoundTrip(c);
    ReservedIsAboutThePath(c);
    forall h: Hit ensures PostingOf(h) == p <==> h == Hit(c, p.1) {
      if PostingOf(h) == p {
        ChunkIdIsInjective(h.span, c);
      }
    }
  }

  /** The hits listed are exactly the postings whose path is not reserved. */
  ghost predicate Lists(hits: seq<Hit>, postings: Postings) {
    forall h: Hit :: h in hits <==> PostingOf(h) in postings && !Reserved(h.span.path)
  }

  lemma ListsOneMore(before: seq<Hit>, init: Postings, p: (string, real), c: Span)
    requires Lists(before, init) && p.0 == ChunkId(c)
    ensures Lists(if Reserved(c.path) then before else before + [Hit(c, p.1)], init + [p])
  {
    PostingToHit(p, c);
    var after := if Reserved(c.path) then before else before + [Hit(c, p.1)];
    forall h: Hit
      ensures h in after <==> PostingOf(h) in init + [p] && !Reserved(h.span.path)
    {
      assert PostingOf(h) in init + [p] <==> PostingOf(h) in init || h == Hit(c, p.1);
    }
  }

  lemma LastIsWorst(source: seq<Hit>, before: seq<Hit>, init: Postings, p: (string, real), c: Span, h: Hit)
    requires Lists(before, init) && InRankOrder(source, init + [p]) && DistinctKeys(init + [p]) && p.0 == ChunkId(c)
    requires h in before
    ensures h.span != c && Precedes(source, PostingOf(h), p)
  {
    var k :| 0 <= k < |init| && init[k] == PostingOf(h);
    assert (init + [p])[k] == init[k] && (init + [p])[|init|] == p;
  }

  lemma RankedOneMore(source: seq<Hit>, before: seq<Hit>, h: Hit)
    requires Ranked(source, before)
    requires forall i :: 0 <= i < |before| ==>
      before[i].span != h.span && Precedes(source, PostingOf(before[i]), PostingOf(h))
    ensures Ranked(source, before + [h])
  {
  }

  lemma OnePostingMore(source: seq<Hit>, init: Postings, p: (string, real))
    requires InRankOrder(source, init + [p]) && DistinctKeys(init + [p]) && exists c :: p.0 == ChunkId(c)
    requires ToHits(init).Some? && Ranked(source, ToHits(init).value) && Lists(ToHits(init).value, init)
    ensures ToHits(init + [p]).Some? && Ranked(source, ToHits(init + [p]).value)
    ensures Lists(ToHits(init + [p]).value, init + [p])
  {
    assert (init + [p])[..|init|] == init;
    var before := ToHits(init).value;
    var c :| p.0 == ChunkId(c);
    PostingToHit(p, c);
    ListsOneMore(before, init, p, c);
    forall i | 0 <= i < |before| ensures before[i].span != c && Precedes(source, PostingOf(before[i]), p) {
      LastIsWorst(source, before, init, p, c, before[i]);
    }
    RankedOneMore(source, before, Hit(c, p.1));
  }

  lemma {:induction false} ToHitsLists(source: seq<Hit>, postings: Postings)
    requires InRankOrder(source, postings) && DistinctKeys(postings) && EveryKeyIsAnId(postings)
    ensures ToHits(postings).Some? && Ranked(source, ToHits(postings).value)
    ensures Lists(ToHits(postings).value, postings)
  {
    if postings != [] {
      var m := |postings| - 1;
      assert postings == postings[..m] + [postings[m]];
      ToHitsLists(source, postings[..m]);
      OnePostingMore(source, postings[..m], postings[m]);
    }
  }

  lemma NothingComesBack()
    ensures ToHits(ByScore([NOTHING])) == Some([])
  {
    var none: Postings := [];
    var run: Postings := [NOTHING];
    assert run[..0] == none;
    assert ByScore(none) == none && InsertPosting(none, NOTHING) == run;
    assert ByScore(run) == run;
    assert NOTHING.0 == "__none__";
    assert Reserved(NOTHING.0);
    assert ToHits(none) == Some([]);
  }

  /** One leg turned into a run and back, the empty leg included: each distinct chunk
      whose path does not start with two underscores exactly once, with its best score;
      better scores first, and of equal scores the chunk that came first; the other
      chunks are dropped. */
  lemma OneLegSurvivesTheRun(hits: seq<Hit>)
    ensures ToHits(ByScore(ChunkRun(hits))).Some? && Ranked(hits, ToHits(ByScore(ChunkRun(hits))).value)
    ensures forall h :: h in ToHits(ByScore(ChunkRun(hits))).value <==>
      BestScore(hits, ChunkId(h.span), h.score) && !("__" <= h.span.path)
  {
    NothingComesBack();
    if hits != [] {
      var run := RunOf(hits);
      RunOfIsARun(hits);
      var ordered := ByScore(run);
      ByScoreIsSorted(hits, run);
      EveryOrderedKeyIsAnId(hits, run);
      ToHitsLists(hits, ordered);
      forall h: Hit ensures PostingOf(h) in ordered <==> BestScore(hits, ChunkId(h.span), h.score) {
        PostingIsBest(hits, run, ChunkId(h.span), h.score);
      }
    }
  }

  lemma EveryOrderedKeyIsAnId(hits: seq<Hit>, run: Postings)
    requires IsRunOf(run, hits)
    ensures EveryKeyIsAnId(ByScore(run))
  {
    var ordered := ByScore(run);
    forall k | 0 <= k < |ordered| ensures exists c :: ordered[k].0 == ChunkId(c) {
      assert ordered[k] in run;
      var q :| 0 <= q < |run| && run[q] == ordered[k];
      var i :| 0 <= i < |hits| && ChunkId(hits[i].span) == run[q].0;
    }
  }

  lemma PostingIsBest(hits: seq<Hit>, run: Postings, key: string, score: real)
    requires IsRunOf(run, hits)
    ensures (key, score) in run <==> BestScore(hits, key, score)
  {
    if BestScore(hits, key, score) {
      var i :| 0 <= i < |hits| && ChunkId(hits[i].span) == key && hits[i].score == score;
      assert KeyAt(run, ChunkId(hits[i].span)) < |run|;
      var k := KeyAt(run, key);
      BestIsUnique(hits, key, score, run[k].1);
      assert run[k] == (key, score);
    }
  }

  lemma BestIsUnique(hits: seq<Hit>, key: string, a: real, b: real)
    requires BestScore(hits, key, a) && BestScore(hits, key, b)
    ensures a == b
  {
  }

  // ----- a ranking that needs no repair comes back unchanged -----

  /** Distinct chunks of unreserved paths, in non-increasing order of score. */
  predicate IsRanking(hits: seq<Hit>) {
    (forall i, j :: 0 <= i < j < |hits| ==> hits[i].span != hits[j].span && hits[i].score >= hits[j].score) &&
    forall i :: 0 <= i < |hits| ==> !Reserved(hits[i].span.path)
  }

  function PostingsOf(hits: seq<Hit>): (r: Postings)
    ensures |r| == |hits| && forall i :: 0 <= i < |r| ==> r[i] == PostingOf(hits[i])
  {
    seq(|hits|, i requires 0 <= i < |hits| => PostingOf(hits[i]))
  }

  lemma {:induction false} NewKey(hits: seq<Hit>, h: Hit)
    requires forall i :: 0 <= i < |hits| ==> hits[i].span != h.span
    ensures KeyAt(PostingsOf(hits), ChunkId(h.span)) == |hits|
  {
    var k := KeyAt(PostingsOf(hits), ChunkId(h.span));
    if k < |hits| {
      assert PostingsOf(hits)[k].0 == ChunkId(hits[k].span);
      ChunkIdIsInjective(hits[k].span, h.span);
    }
  }

  lemma {:induction false} PostingsOfSnoc(hits: seq<Hit>)
    requires hits != []
    ensures PostingsOf(hits) == PostingsOf(hits[..|hits| - 1]) + [PostingOf(hits[|hits| - 1])]
    ensures PostingsOf(hits)[..|hits| - 1] == PostingsOf(hits[..|hits| - 1])
  {
  }

  lemma {:induction false} RunOfDistinct(hits: seq<Hit>)
    requires IsRanking(hits)
    ensures RunOf(hits) == PostingsOf(hits)
  {
    if hits != [] {
      var m := |hits| - 1;
      RunOfDistinct(hits[..m]);
      NewKey(hits[..m], hits[m]);
      PostingsOfSnoc(hits);
    }
  }

  lemma {:induction false} InsertLast(sorted: Postings, p: (string, real))
    requires forall k :: 0 <= k < |sorted| ==> sorted[k].1 >= p.1
    ensures InsertPosting(sorted, p) == sorted + [p]
  {
    if sorted != [] {
      InsertLast(sorted[1..], p);
    }
  }

  lemma {:induction false} ByScoreOfRanking(hits: seq<Hit>)
    requires IsRanking(hits)
    ensures ByScore(PostingsOf(hits)) == PostingsOf(hits)
  {
    if hits != [] {
      var m := |hits| - 1;
      ByScoreOfRanking(hits[..m]);
      PostingsOfSnoc(hits);
      InsertLast(PostingsOf(hits[..m]), PostingOf(hits[m]));
    }
  }

  lemma {:induction false} ToHitsOfRanking(hits: seq<Hit>)
    requires IsRanking(hits)
    ensures ToHits(PostingsOf(hits)) == Some(hits)
  {
    if hits != [] {
      var m := |hits| - 1;
      ToHitsOfRanking(hits[..m]);
      PostingsOfSnoc(hits);
      PostingToHit(PostingOf(hits[m]), hits[m].span);
      assert hits[..m] + [hits[m]] == hits;
    }
  }

  /** Distinct, unreserved chunks in non-increasing order come back as the same list,
      ties included. */
  lemma RankingComesBack(hits: seq<Hit>)
    requires IsRanking(hits)
    ensures ToHits(ByScore(ChunkRun(hits))) == Some(hits)
  {
    NothingComesBack();
    RunOfDistinct(hits);
    ByScoreOfRanking(hits);
    ToHitsOfRanking(hits);
  }
}
