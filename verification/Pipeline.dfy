/** Embedding and upserting a file's chunks (src/embed.rs, `embed_and_upsert`)
    over an unreliable embedder and an unreliable vector store. */
module Pipeline {
  import opened Basics
  import opened Device
  import opened Encoding
  import opened EmbedServer
  import opened EmbedClient

  type Guid = string

  datatype Chunk = Chunk(guid: Guid, code: string)

  datatype Point = Point(guid: Guid, dense: Vector)

  datatype EmbedUpsertError = WasCancelled | EmbedFailed | TimedOut | BadReply | StoreFailed

  datatype EmbedProgress = EmbedProgress(batchChunks: nat, chunksDone: nat, chunksTotal: nat)

  /** A progress report and the number of points the store had acknowledged when it was sent. */
  datatype Report = Report(progress: EmbedProgress, acknowledged: nat)

  // ----- the embedder -----

  /** What the network does with one HTTP call; a call may be lost before or after
      the server has done the work. */
  datatype Wire = Delivered | Lost(error: EncodeError, served: bool)

  /** An implementation of the embedder: the HTTP client in front of the server,
      or anything else, whose replies need not even have one row per text. */
  datatype Backend =
    | Http(model: Model, tokens: string -> nat, limits: Limits, dim: nat, wire: nat -> Wire)
    | Scripted(script: (nat, seq<string>) -> Reply)

  /** A backend that answers every request in full: each reply is delivered, by a server
      whose device recovers and gives rows of the configured width. */
  ghost predicate Reliable(backend: Backend) {
    match backend
    case Http(model, _, _, dim, wire) =>
      (forall c :: wire(c).Delivered?) && Forgiving(model.device) && Wide(model.device, dim)
    case Scripted(script) => forall c, x :: script(c, x).Vectors? && |script(c, x).rows| == |x|
  }

  /** The server's answer, as the reply check passes it on. */
  predicate PassedOn(r: Reply, answer: Response, dim: nat) {
    (r == Refusal(Request) <==> !answer.Rows?) &&
    (r == Refusal(Decode) <==> answer.Rows? && !WideRows(answer.rows, dim)) &&
    (r.Vectors? <==> answer.Rows? && WideRows(answer.rows, dim)) &&
    (r.Vectors? ==> r.rows == answer.rows)
  }

  lemma ReplyIsPassedOn(rows: seq<Vector>, dim: nat)
    ensures PassedOn(Validate(Body(rows), |rows|, dim), Rows(rows), dim)
  {
    var r := Validate(Body(rows), |rows|, dim);
    if WideRows(rows, dim) {
      ReorderingIsUndone(rows, Body(rows), dim);
    }
    if r.Vectors? {
      AcceptsExactlyWellFormed(Body(rows), |rows|, dim);
      AcceptedRowsGoWhereTheyClaim(Body(rows), |rows|, dim);
      forall k | 0 <= k < |rows| ensures |rows[k].values| == dim && r.rows[k] == rows[k] {
        assert Body(rows)[k] == Row(k, rows[k]);
      }
    }
  }

  class Embedder {
    const backend: Backend
    var calls: nat
    // every text asked for, and every row answered, so far
    ghost var asked: seq<string>
    ghost var given: seq<Vector>

    constructor (backend: Backend)
      ensures this.backend == backend && asked == [] && given == []
    {
      this.backend := backend;
      calls := 0;
      asked := [];
      given := [];
    }

    ghost function Footprint(): set<object> {
      {this} + if backend.Http? then {backend.model} else {}
    }

    ghost predicate Valid()
      reads this, Footprint()
    {
      backend.Http? ==> backend.model.weights != []
    }

    /** `answer` is what the server said, when it was asked. */
    method Embed(texts: seq<string>) returns (r: Reply, ghost answer: Option<Response>)
      requires Valid()
      modifies Footprint()
      ensures Valid() && calls == old(calls) + 1
      // which reply
      ensures backend.Scripted? ==> r == backend.script(old(calls), texts)
      ensures backend.Http? && backend.wire(old(calls)).Lost? ==> r == Refusal(backend.wire(old(calls)).error)
      ensures backend.Http? && backend.wire(old(calls)).Delivered? ==> answer.Some? && PassedOn(r, answer.value, backend.dim)
      ensures backend.Http? && answer.Some? ==>
        ServerSays(answer.value, backend.model.device, old(backend.model.clock), old(backend.model.weights),
                   texts, backend.tokens, backend.limits)
      ensures Reliable(backend) && texts != [] ==> r.Vectors? && |r.rows| == |texts|
      // and what it says
      ensures r.Vectors? ==> asked == old(asked) + texts && given == old(given) + r.rows
      ensures r.Refusal? ==> asked == old(asked) && given == old(given)
      ensures backend.Http? && r.Vectors? ==> |r.rows| == |texts|
      ensures backend.Http? && r.Vectors? ==> forall i :: 0 <= i < |texts| ==> Proper(r.rows[i], texts[i])
    {
      answer := None;
      match backend {
        case Scripted(script) =>
          r := script(calls, texts);
        case Http(model, tokens, limits, dim, wire) =>
          var outcome := wire(calls);
          if outcome.Lost? && !outcome.served {
            r := Refusal(outcome.error);
          } else {
            var response;
            response := Ask(model, texts, tokens, limits, dim);
            answer := Some(response);
            if outcome.Lost? {
              r := Refusal(outcome.error);
            } else if response.Rows? {
              r := Validate(Body(response.rows), |texts|, dim);
              ReplyIsPassedOn(response.rows, dim);
            } else {
              r := Refusal(Request);
            }
          }
      }
      calls := calls + 1;
      if r.Vectors? {
        asked := asked + texts;
        given := given + r.rows;
      }
    }
  }

  /** What a server in this state may answer: the outcome of one plan within the limits. */
  ghost predicate ServerSays(
    answer: Response, d: Device, clock: nat, weights: seq<DType>, texts: seq<string>, tokens: string -> nat, limits: Limits)
    requires weights != []
  {
    if texts == [] then answer == Refused(400)
    else exists plan :: IsPlan(plan, |texts|) && WithinLimits(plan, texts, tokens, limits) &&
                        Answers(answer, EncodeAll(d, clock, weights, texts, plan))
  }

  /** The request handler as the client sees it. */
  method Ask(model: Model, texts: seq<string>, tokens: string -> nat, limits: Limits, ghost dim: nat) returns (answer: Response)
    requires model.weights != []
    modifies model
    ensures model.weights != []
    ensures answer.Rows? ==> |answer.rows| == |texts|
    ensures answer.Rows? ==> forall i :: 0 <= i < |texts| ==> Proper(answer.rows[i], texts[i])
    ensures ServerSays(answer, model.device, old(model.clock), old(model.weights), texts, tokens, limits)
    ensures Forgiving(model.device) && texts != [] ==> answer.Rows?
    ensures Wide(model.device, dim) && answer.Rows? ==> WideRows(answer.rows, dim)
  {
    ghost var clock, weights := model.clock, model.weights;
    ghost var plan;
    answer, plan := Embeddings(model, texts, tokens, limits);
    if texts != [] {
      AllGroupsAreWide(model.device, clock, weights, texts, plan, dim);
    }
  }

  // ----- the store -----

  /** One upsert: acknowledged, or failed after an arbitrary part of it took effect. */
  datatype Fate = Acknowledged | Failed(landed: nat -> bool)

  function Put(points: map<Guid, Vector>, batch: seq<Point>): map<Guid, Vector> {
    if batch == [] then points
    else Put(points, batch[..|batch| - 1])[batch[|batch| - 1].guid := batch[|batch| - 1].dense]
  }

  /** The points of a batch that took effect although the call failed. */
  function Landed(batch: seq<Point>, landed: nat -> bool): (r: seq<Point>)
    ensures forall p :: p in r ==> p in batch
  {
    if batch == [] then []
    else
      var m := |batch| - 1;
      Landed(batch[..m], landed) + if landed(m) then [batch[m]] else []
  }

  class Store {
    const fate: nat -> Fate
    var calls: nat
    var points: map<Guid, Vector>
    // points of acknowledged calls, in order
    var acknowledged: seq<Point>

    constructor (fate: nat -> Fate)
      ensures this.fate == fate && points == map[] && acknowledged == []
    {
      this.fate := fate;
      calls := 0;
      points := map[];
      acknowledged := [];
    }

    method InsertBatch(batch: seq<Point>) returns (ok: bool, ghost effect: seq<Point>)
      modifies this
      ensures calls == old(calls) + 1 && (ok <==> fate(old(calls)).Acknowledged?)
      ensures acknowledged == old(acknowledged) + if ok then batch else []
      ensures if ok then effect == batch else forall p :: p in effect ==> p in batch
      ensures points == Put(old(points), effect)
    {
      var f := fate(calls);
      calls := calls + 1;
      ok := f.Acknowledged?;
      var landed := if ok then batch else Landed(batch, f.landed);
      effect := landed;
      points := Put(points, landed);
      acknowledged := acknowledged + if ok then batch else [];
    }
  }

  lemma {:induction false} PutAppend(points: map<Guid, Vector>, a: seq<Point>, b: seq<Point>)
    ensures Put(points, a + b) == Put(Put(points, a), b)
  {
    if b == [] {
      assert a + b == a;
    } else {
      var m := |b| - 1;
      PutAppend(points, a, b[..m]);
      assert (a + b)[..|a + b| - 1] == a + b[..m];
    }
  }

  lemma PutRegrouped(points: map<Guid, Vector>, a: seq<Point>, b: seq<Point>, c: seq<Point>)
    ensures Put(Put(points, a), b + c) == Put(points, (a + b) + c)
    ensures c == [] ==> Put(Put(points, a), b + c) == Put(points, a + b)
  {
    PutAppend(points, a, b + c);
    assert a + (b + c) == (a + b) + c;
    assert c == [] ==> a + (b + c) == a + b;
  }

  // ----- the two loops -----

  function AtLeastOne(n: nat): (r: nat)
    ensures r >= 1 && (n >= 1 ==> r == n) && (n == 0 ==> r == 1)
  {
    if n < 1 then 1 else n
  }

  function Min(a: nat, b: nat): (m: nat)
    ensures m <= a && m <= b && (m == a || m == b)
  {
    if a < b then a else b
  }

  lemma MultipleHasNoRest(q: nat, u: nat, x: nat)
    requires u >= 1 && x == q * u
    ensures x % u == 0
  {
    QuotientIs(q, u, 0, x);
  }

  lemma QuotientIs(q: nat, u: nat, rest: nat, x: nat)
    requires rest < u && x == q * u + rest
    ensures x / u == q && x % u == rest
  {
    var d := q - x / u;
    assert x == u * (x / u) + x % u;
    assert x % u == u * d + rest;
    assert d >= 1 ==> u * d >= u;
    assert d <= -1 ==> u * d <= -1 * u;
  }

  /** Items covered by the first `rounds` batches of `b`. */
  function DoneAfter(rounds: nat, b: nat, n: nat): (r: nat)
    ensures r <= n
  {
    if rounds == 0 then 0 else Min(DoneAfter(rounds - 1, b, n) + b, n)
  }

  lemma {:induction false} DoneAfterIsCapped(rounds: nat, b: nat, n: nat)
    ensures DoneAfter(rounds, b, n) == Min(rounds * b, n)
  {
    if rounds > 0 {
      DoneAfterIsCapped(rounds - 1, b, n);
      assert rounds * b == (rounds - 1) * b + b;
    } else {
      assert rounds * b == 0;
    }
  }

  /** How many batches of `b` it takes to cover `n` items. */
  function BatchesFor(n: nat, b: nat): nat
    requires b >= 1
  {
    if n == 0 then 0 else 1 + BatchesFor(if n <= b then 0 else n - b, b)
  }

  /** n / b, rounded up. */
  lemma {:induction false} BatchesRoundUp(n: nat, b: nat)
    requires b >= 1
    ensures BatchesFor(n, b) == (n + b - 1) / b
  {
    if n == 0 {
      QuotientIs(0, b, b - 1, b - 1);
    } else if n <= b {
      assert BatchesFor(n, b) == 1;
      QuotientIs(1, b, n - 1, n + b - 1);
    } else {
      BatchesRoundUp(n - b, b);
      var q, r := (n - 1) / b, (n - 1) % b;
      assert n - 1 == b * q + r;
      Commute(q, b);
      OneTimesMore(q, b);
      QuotientIs(q + 1, b, r, n + b - 1);
    }
  }

  lemma OneTimesMore(q: nat, b: nat)
    ensures (q + 1) * b == q * b + b
  {
  }

  /** While items are left, fewer batches have been made. */
  lemma BatchesLeft(rounds: nat, b: nat, n: nat)
    requires b >= 1
    ensures DoneAfter(rounds, b, n) < n <==> rounds < BatchesFor(n, b)
  {
    DoneAfterIsCapped(rounds, b, n);
    var q := BatchesFor(n, b);
    BatchesCover(n, b);
    if rounds < q {
      TimesOrder(rounds, q - 1, b);
    } else {
      TimesOrder(q, rounds, b);
    }
  }

  lemma TimesOrder(x: nat, y: nat, b: nat)
    requires x <= y
    ensures x * b <= y * b
  {
  }

  /** The last batch is needed, and with it all are covered. */
  lemma BatchesCover(n: nat, b: nat)
    requires b >= 1
    ensures n <= BatchesFor(n, b) * b && (BatchesFor(n, b) > 0 ==> (BatchesFor(n, b) - 1) * b < n)
  {
    BatchesRoundUp(n, b);
    var q, r := (n + b - 1) / b, (n + b - 1) % b;
    assert n + b - 1 == b * q + r;
    Commute(q, b);
    LessOne(q, b);
  }

  lemma Commute(q: nat, b: nat)
    ensures b * q == q * b
  {
  }

  lemma LessOne(q: nat, b: nat)
    ensures (q - 1) * b == q * b - b
  {
  }

  /** The `count` calls from number `first` on are all acknowledged. */
  ghost predicate AllAcknowledged(fate: nat -> Fate, first: nat, count: nat) {
    forall c: nat :: first <= c < first + count ==> fate(c).Acknowledged?
  }

  /** The points of a batch upserted so far: `k` of them, in `rounds` acknowledged calls. */
  ghost predicate Upserted(
    store: Store, batch: seq<Point>, size: nat, k: nat, rounds: nat,
    calls: nat, acknowledged: seq<Point>, points: map<Guid, Vector>)
    reads store
  {
    k == DoneAfter(rounds, size, |batch|) && k <= |batch| && store.calls == calls + rounds &&
    AllAcknowledged(store.fate, calls, rounds) &&
    store.acknowledged == acknowledged + batch[..k] && store.points == Put(points, batch[..k])
  }

  /** One upsert of the inner loop. */
  method UpsertNext(
    store: Store, batch: seq<Point>, size: nat, k: nat, ghost rounds: nat,
    ghost calls: nat, ghost acknowledged: seq<Point>, ghost points: map<Guid, Vector>)
    returns (ok: bool, next: nat, ghost stray: seq<Point>)
    requires size >= 1 && k < |batch| && Upserted(store, batch, size, k, rounds, calls, acknowledged, points)
    modifies store
    ensures ok <==> store.fate(calls + rounds).Acknowledged?
    ensures ok ==> stray == [] && Upserted(store, batch, size, next, rounds + 1, calls, acknowledged, points)
    ensures !ok ==> next == k && store.calls == calls + rounds + 1 && forall p :: p in stray ==> p in batch
    ensures !ok ==> store.acknowledged == acknowledged + batch[..k] && store.points == Put(points, batch[..k] + stray)
  {
    next := Min(k + size, |batch|);
    ghost var effect;
    ghost var before := batch[..k];
    ok, effect := store.InsertBatch(batch[k..next]);
    PutAppend(points, before, effect);
    stray := [];
    if ok {
      assert batch[..next] == before + batch[k..next];
    } else {
      next := k;
      stray := effect;
    }
  }

  /** The inner loop: one embedded batch, `size` points per upsert. `stray` is
      what a failing call left behind. */
  method UpsertAll(store: Store, batch: seq<Point>, size: nat) returns (ok: bool, k: nat, ghost stray: seq<Point>)
    requires size >= 1
    modifies store
    // exactly when it succeeds, and how many calls that takes
    ensures ok <==> AllAcknowledged(store.fate, old(store.calls), BatchesFor(|batch|, size))
    ensures ok ==> store.calls == old(store.calls) + BatchesFor(|batch|, size)
    ensures !ok ==> old(store.calls) < store.calls && store.fate(store.calls - 1).Failed? &&
                    k == DoneAfter(store.calls - 1 - old(store.calls), size, |batch|)
    // what it did
    ensures k <= |batch| && (if ok then k == |batch| && stray == [] else k < |batch| && k % size == 0)
    ensures forall p :: p in stray ==> p in batch
    ensures store.acknowledged == old(store.acknowledged) + batch[..k]
    ensures store.points == Put(old(store.points), batch[..k] + stray)
  {
    ghost var calls, acknowledged, points := store.calls, store.acknowledged, store.points;
    ghost var rounds := 0;
    k, ok, stray := 0, true, [];
    assert batch[..0] == [];
    while k < |batch|
      invariant ok && stray == [] && Upserted(store, batch, size, k, rounds, calls, acknowledged, points)
      invariant rounds > 0 ==> DoneAfter(rounds - 1, size, |batch|) < |batch|
    {
      BatchesLeft(rounds, size, |batch|);
      ok, k, stray := UpsertNext(store, batch, size, k, rounds, calls, acknowledged, points);
      if !ok {
        WholeBatches(rounds, size, |batch|);
        return;
      }
      rounds := rounds + 1;
    }
    UpsertsNeeded(rounds, size, |batch|);
    assert batch[..k] + [] == batch[..k];
  }

  lemma WholeBatches(rounds: nat, b: nat, n: nat)
    requires b >= 1 && DoneAfter(rounds, b, n) < n
    ensures DoneAfter(rounds, b, n) % b == 0
  {
    DoneAfterIsCapped(rounds, b, n);
    MultipleHasNoRest(rounds, b, rounds * b);
  }

  lemma UpsertsNeeded(rounds: nat, b: nat, n: nat)
    requires b >= 1 && DoneAfter(rounds, b, n) == n && (rounds > 0 ==> DoneAfter(rounds - 1, b, n) < n)
    ensures rounds == BatchesFor(n, b)
  {
    BatchesLeft(rounds, b, n);
    if rounds > 0 {
      BatchesLeft(rounds - 1, b, n);
    }
  }

  function Codes(chunks: seq<Chunk>): (r: seq<string>)
    ensures |r| == |chunks| && forall i :: 0 <= i < |r| ==> r[i] == chunks[i].code
  {
    seq(|chunks|, i requires 0 <= i < |chunks| => chunks[i].code)
  }

  /** `zip` of the chunks' guids and the rows, which the length check made equally long. */
  function Zip(chunks: seq<Chunk>, rows: seq<Vector>): (r: seq<Point>)
    requires |rows| == |chunks|
    ensures |r| == |chunks| && forall i :: 0 <= i < |r| ==> r[i] == Point(chunks[i].guid, rows[i])
  {
    seq(|chunks|, i requires 0 <= i < |chunks| => Point(chunks[i].guid, rows[i]))
  }

  /** A point some chunk of the call accounts for. */
  ghost predicate Owned(p: Point, chunks: seq<Chunk>) {
    exists i :: 0 <= i < |chunks| && p.guid == chunks[i].guid
  }

  /** A point that is the finite vector of a chunk with its guid. */
  ghost predicate Truthful(p: Point, chunks: seq<Chunk>) {
    exists i :: 0 <= i < |chunks| && p.guid == chunks[i].guid && Proper(p.dense, chunks[i].code)
  }

  /** How far a call got: `rounds` complete embed batches, and `sent` points acknowledged. */
  predicate StoppedAt(e: Option<EmbedUpsertError>, rounds: nat, sent: nat, b: nat, n: nat) {
    match e
    case None => sent == n == DoneAfter(rounds, b, n) && (rounds > 0 ==> DoneAfter(rounds - 1, b, n) < n)
    case Some(StoreFailed) => DoneAfter(rounds, b, n) <= sent < Min(DoneAfter(rounds, b, n) + b, n)
    case Some(_) => sent == DoneAfter(rounds, b, n) < n
  }

  /** The same in numbers: success takes one batch per `b` chunks, rounded up; a
      failure stops short, after as many whole batches as were acknowledged, and
      exactly at a batch boundary unless the store failed. */
  lemma StoppedAtInNumbers(e: Option<EmbedUpsertError>, rounds: nat, sent: nat, b: nat, n: nat)
    requires b >= 1 && StoppedAt(e, rounds, sent, b, n)
    ensures e.None? ==> sent == n && rounds == (n + b - 1) / b
    ensures e.Some? ==> sent < n && rounds == sent / b
    ensures e.Some? && e != Some(StoreFailed) ==> sent % b == 0
  {
    DoneAfterIsCapped(rounds, b, n);
    if e.None? {
      if rounds > 0 {
        DoneAfterIsCapped(rounds - 1, b, n);
        assert rounds * b == (rounds - 1) * b + b;
      } else {
        assert rounds * b == 0;
      }
      QuotientIs(rounds, b, n + b - 1 - rounds * b, n + b - 1);
    } else {
      QuotientIs(rounds, b, sent - rounds * b, sent);
    }
  }

  /** Report j is the j-th embed batch, cumulative, sent when exactly that many
      points had been acknowledged. */
  predicate ReportIs(r: Report, j: nat, b: nat, n: nat) {
    var done := DoneAfter(j + 1, b, n);
    r.progress.chunksDone == done && r.progress.chunksTotal == n && r.acknowledged == done &&
    r.progress.batchChunks + DoneAfter(j, b, n) == done
  }

  predicate Reported(reports: seq<Report>, count: nat, b: nat, n: nat) {
    |reports| == count && forall j :: 0 <= j < count ==> ReportIs(reports[j], j, b, n)
  }

  /** Each outcome of one embed batch of `n` chunks has exactly one cause: the kind of the
      refusal, a wrong number of rows, an upsert that failed, or none of these. */
  predicate CausedBy(e: Option<EmbedUpsertError>, reply: Reply, n: nat, upserted: bool) {
    (e == Some(WasCancelled) <==> reply == Refusal(Cancelled)) &&
    (e == Some(EmbedFailed) <==> reply == Refusal(Request)) &&
    (e == Some(TimedOut) <==> reply == Refusal(Timeout)) &&
    (e == Some(BadReply) <==> reply == Refusal(Decode) || (reply.Vectors? && |reply.rows| != n)) &&
    (e == Some(StoreFailed) <==> reply.Vectors? && |reply.rows| == n && !upserted) &&
    (e.None? <==> reply.Vectors? && |reply.rows| == n && upserted)
  }

  function ErrorOf(e: EncodeError): EmbedUpsertError {
    match e
    case Cancelled => WasCancelled
    case Request => EmbedFailed
    case Timeout => TimedOut
    case Decode => BadReply
  }

  /** What one call did: points acknowledged, points a failing upsert left
      behind, and the texts and rows of its successful embed calls, in order. */
  datatype Trail = Trail(sent: seq<Point>, stray: seq<Point>, texts: seq<string>, rows: seq<Vector>)

  /** The acknowledged points are the first chunks, each with the row answered for
      its own code; over HTTP that row is a finite vector of that code. */
  ghost predicate Matched(sent: seq<Point>, chunks: seq<Chunk>, texts: seq<string>, rows: seq<Vector>, http: bool) {
    |sent| <= |chunks| && |sent| <= |rows| && |sent| <= |texts| &&
    forall i {:trigger sent[i]} :: 0 <= i < |sent| ==>
      sent[i] == Point(chunks[i].guid, rows[i]) && texts[i] == chunks[i].code &&
      (http ==> Proper(sent[i].dense, chunks[i].code))
  }

  /** Points left by a failing upsert never misplace a vector. */
  ghost predicate Harmless(stray: seq<Point>, chunks: seq<Chunk>, http: bool) {
    forall p :: p in stray ==> Owned(p, chunks) && (http ==> Truthful(p, chunks))
  }

  lemma MatchedAppend(
    sent: seq<Point>, more: seq<Point>, chunks: seq<Chunk>, hi: nat,
    texts: seq<string>, texts': seq<string>, rows: seq<Vector>, rows': seq<Vector>, http: bool)
    requires Matched(sent, chunks, texts, rows, http)
    requires |sent| == |rows| == |texts| <= hi <= |chunks|
    requires Matched(more, chunks[|sent|..hi], texts', rows', http)
    ensures Matched(sent + more, chunks, texts + texts', rows + rows', http)
  {
    var part := chunks[|sent|..hi];
    forall i | |sent| <= i < |sent + more| ensures chunks[i] == part[i - |sent|] {
    }
  }

  lemma HarmlessInAll(stray: seq<Point>, chunks: seq<Chunk>, lo: nat, hi: nat, http: bool)
    requires lo <= hi <= |chunks| && Harmless(stray, chunks[lo..hi], http)
    ensures Harmless(stray, chunks, http)
  {
    forall p | p in stray ensures Owned(p, chunks) && (http ==> Truthful(p, chunks)) {
      OwnedByAll(p, chunks, lo, hi);
    }
  }

  lemma OwnedByAll(p: Point, chunks: seq<Chunk>, lo: nat, hi: nat)
    requires lo <= hi <= |chunks|
    ensures Owned(p, chunks[lo..hi]) ==> Owned(p, chunks)
    ensures Truthful(p, chunks[lo..hi]) ==> Truthful(p, chunks)
  {
    var part := chunks[lo..hi];
    if i :| 0 <= i < |part| && p.guid == part[i].guid && Proper(p.dense, part[i].code) {
      assert chunks[lo + i] == part[i];
    }
    if i :| 0 <= i < |part| && p.guid == part[i].guid {
      assert chunks[lo + i] == part[i];
    }
  }

  lemma StrayIsHarmless(batch: seq<Chunk>, rows: seq<Vector>, stray: seq<Point>, http: bool)
    requires |rows| == |batch| && forall p :: p in stray ==> p in Zip(batch, rows)
    requires http ==> forall i :: 0 <= i < |batch| ==> Proper(rows[i], batch[i].code)
    ensures Harmless(stray, batch, http)
  {
    forall p | p in stray ensures Owned(p, batch) && (http ==> Truthful(p, batch)) {
      var i :| 0 <= i < |batch| && Zip(batch, rows)[i] == p;
      assert p == Point(batch[i].guid, rows[i]);
    }
  }

  /** The body of the outer loop: one embed call, the row-count check, the upserts. */
  method EmbedBatch(embedder: Embedder, store: Store, batch: seq<Chunk>, size: nat)
    returns (e: Option<EmbedUpsertError>, ghost t: Trail, ghost reply: Reply)
    requires embedder.Valid() && size >= 1 && batch != []
    modifies store, embedder.Footprint()
    ensures embedder.Valid()
    // why it ended as it did
    ensures embedder.calls == old(embedder.calls) + 1
    ensures embedder.backend.Scripted? ==> reply == embedder.backend.script(old(embedder.calls), Codes(batch))
    ensures CausedBy(e, reply, |batch|, AllAcknowledged(store.fate, old(store.calls), BatchesFor(|batch|, size)))
    ensures Reliable(embedder.backend) ==> reply.Vectors? && |reply.rows| == |batch|
    ensures e.None? ==> store.calls == old(store.calls) + BatchesFor(|batch|, size)
    // what it did
    ensures Accounted(Snapshot(embedder, store), old(Snapshot(embedder, store)), t, batch, embedder.backend.Http?)
    ensures e.None? ==> |t.sent| == |t.texts| == |t.rows| == |batch|
    ensures e.Some? ==> |t.sent| < |batch|
    ensures e != Some(StoreFailed) ==> t.stray == []
    ensures e.Some? && e != Some(StoreFailed) ==> t.sent == []
  {
    var got;
    ghost var answer;
    got, answer := embedder.Embed(Codes(batch));
    reply := got;
    if got.Refusal? {
      return Some(ErrorOf(got.error)), Trail([], [], [], []), reply;
    }
    if |got.rows| != |batch| {
      return Some(BadReply), Trail([], [], Codes(batch), got.rows), reply;
    }
    var points := Zip(batch, got.rows);
    ghost var stray;
    var ok, k;
    ok, k, stray := UpsertAll(store, points, size);
    StrayIsHarmless(batch, got.rows, stray, embedder.backend.Http?);
    e := if ok then None else Some(StoreFailed);
    t := Trail(points[..k], stray, Codes(batch), got.rows);
  }

  /** What has been asked, answered and stored so far. */
  datatype Log = Log(
    acknowledged: seq<Point>, points: map<Guid, Vector>, asked: seq<string>, given: seq<Vector>, embeds: nat, upserts: nat)

  ghost function Snapshot(embedder: Embedder, store: Store): Log
    reads embedder, store
  {
    Log(store.acknowledged, store.points, embedder.asked, embedder.given, embedder.calls, store.calls)
  }

  /** The trail accounts for everything that changed since `o`, and matches the chunks. */
  ghost predicate Accounted(now: Log, o: Log, t: Trail, chunks: seq<Chunk>, http: bool) {
    now.acknowledged == o.acknowledged + t.sent &&
    now.points == Put(o.points, t.sent + t.stray) &&
    now.asked == o.asked + t.texts && now.given == o.given + t.rows &&
    Matched(t.sent, chunks, t.texts, t.rows, http) &&
    Harmless(t.stray, chunks, http)
  }

  lemma Regrouped(o: Log, t: Trail, more: Trail)
    ensures o.acknowledged + t.sent + more.sent == o.acknowledged + (t.sent + more.sent)
    ensures o.asked + t.texts + more.texts == o.asked + (t.texts + more.texts)
    ensures o.given + t.rows + more.rows == o.given + (t.rows + more.rows)
  {
  }

  /** Chunks in embed batch number `rounds`. */
  function BatchSize(rounds: nat, b: nat, n: nat): nat {
    Min(b, n - DoneAfter(rounds, b, n))
  }

  /** Upserts of the first `rounds` embed batches. */
  function UpsertCalls(rounds: nat, b: nat, n: nat, u: nat): nat
    requires u >= 1
  {
    if rounds == 0 then 0 else UpsertCalls(rounds - 1, b, n, u) + BatchesFor(BatchSize(rounds - 1, b, n), u)
  }

  /** `rounds` complete batches since `o`, and nothing else. */
  ghost predicate InProgress(
    now: Log, o: Log, chunks: seq<Chunk>, http: bool, b: nat, u: nat, rounds: nat, done: nat, t: Trail)
    requires u >= 1
  {
    Accounted(now, o, t, chunks, http) && t.stray == [] &&
    done == |t.sent| == |t.texts| == |t.rows| && done == DoneAfter(rounds, b, |chunks|) &&
    (rounds > 0 ==> DoneAfter(rounds - 1, b, |chunks|) < |chunks|) &&
    now.embeds == o.embeds + rounds && now.upserts == o.upserts + UpsertCalls(rounds, b, |chunks|, u)
  }

  /** The batch after `rounds` complete ones failed, for its own cause: see what was
      answered, and what the upserts it would have taken were to meet. */
  ghost predicate StoppedBy(
    e: Option<EmbedUpsertError>, reply: Reply, fate: nat -> Fate, now: Log, o: Log, rounds: nat, b: nat, n: nat, u: nat)
    requires u >= 1
  {
    var size := BatchSize(rounds, b, n);
    now.embeds == o.embeds + rounds + 1 &&
    CausedBy(e, reply, size, AllAcknowledged(fate, o.upserts + UpsertCalls(rounds, b, n, u), BatchesFor(size, u)))
  }

  /** What one embed batch did, seen from the start of the call. */
  lemma OneBatchMore(
    was: Log, now: Log, o: Log, t: Trail, more: Trail, chunks: seq<Chunk>, next: nat, http: bool)
    requires Accounted(was, o, t, chunks, http) && t.stray == []
    requires |t.sent| == |t.texts| == |t.rows| <= next <= |chunks|
    requires Accounted(now, was, more, chunks[|t.sent|..next], http)
    ensures Accounted(now, o, Joined(t, more), chunks, http)
  {
    assert t.sent + [] == t.sent;
    PutRegrouped(o.points, t.sent, more.sent, more.stray);
    Regrouped(o, t, more);
    MatchedAppend(t.sent, more.sent, chunks, next, t.texts, more.texts, t.rows, more.rows, http);
    HarmlessInAll(more.stray, chunks, |t.sent|, next, http);
  }

  lemma NextNumbers(rounds: nat, b: nat, n: nat, u: nat, done: nat, next: nat)
    requires b >= 1 && u >= 1 && done == DoneAfter(rounds, b, n) < n && next == Min(done + b, n)
    ensures next == DoneAfter(rounds + 1, b, n) && next - done == BatchSize(rounds, b, n) > 0
    ensures UpsertCalls(rounds + 1, b, n, u) == UpsertCalls(rounds, b, n, u) + BatchesFor(next - done, u)
  {
  }

  function Joined(t: Trail, more: Trail): Trail {
    Trail(t.sent + more.sent, more.stray, t.texts + more.texts, t.rows + more.rows)
  }

  /** A batch that succeeded. */
  lemma RoundDone(
    was: Log, now: Log, o: Log, t: Trail, more: Trail, chunks: seq<Chunk>, http: bool, b: nat, u: nat, rounds: nat, done: nat, next: nat)
    requires b >= 1 && u >= 1 && done < |chunks| && next == Min(done + b, |chunks|)
    requires InProgress(was, o, chunks, http, b, u, rounds, done, t)
    requires Accounted(now, was, more, chunks[done..next], http) && now.embeds == was.embeds + 1
    requires |more.sent| == |more.texts| == |more.rows| == next - done && more.stray == []
    requires now.upserts == was.upserts + BatchesFor(next - done, u)
    ensures InProgress(now, o, chunks, http, b, u, rounds + 1, next, Joined(t, more))
  {
    NextNumbers(rounds, b, |chunks|, u, done, next);
    OneBatchMore(was, now, o, t, more, chunks, next, http);
  }

  /** A batch that failed. */
  lemma RoundFailed(
    was: Log, now: Log, o: Log, t: Trail, more: Trail, chunks: seq<Chunk>, http: bool, b: nat, u: nat, rounds: nat, done: nat, next: nat,
    e: Option<EmbedUpsertError>, reply: Reply, fate: nat -> Fate)
    requires b >= 1 && u >= 1 && done < |chunks| && next == Min(done + b, |chunks|)
    requires InProgress(was, o, chunks, http, b, u, rounds, done, t)
    requires Accounted(now, was, more, chunks[done..next], http) && now.embeds == was.embeds + 1
    requires CausedBy(e, reply, next - done, AllAcknowledged(fate, was.upserts, BatchesFor(next - done, u)))
    requires e.Some? && |more.sent| < next - done && (e != Some(StoreFailed) ==> more.sent == [])
    ensures Accounted(now, o, Joined(t, more), chunks, http)
    ensures StoppedAt(e, rounds, |Joined(t, more).sent|, b, |chunks|)
    ensures StoppedBy(e, reply, fate, now, o, rounds, b, |chunks|, u)
  {
    NextNumbers(rounds, b, |chunks|, u, done, next);
    OneBatchMore(was, now, o, t, more, chunks, next, http);
  }

  /** A call that ended in an error, after `rounds` complete batches. */
  ghost predicate FailedAfter(
    e: Option<EmbedUpsertError>, last: Option<Reply>, fate: nat -> Fate,
    now: Log, o: Log, chunks: seq<Chunk>, http: bool, b: nat, u: nat, rounds: nat, t: Trail)
    requires u >= 1
  {
    e.Some? && last.Some? && Accounted(now, o, t, chunks, http) && (e != Some(StoreFailed) ==> t.stray == []) &&
    StoppedAt(e, rounds, |t.sent|, b, |chunks|) && StoppedBy(e, last.value, fate, now, o, rounds, b, |chunks|, u)
  }

  /** One round of the outer loop. */
  method Advance(
    embedder: Embedder, store: Store, chunks: seq<Chunk>, done: nat, b: nat, u: nat,
    ghost rounds: nat, ghost o: Log, ghost t: Trail)
    returns (e: Option<EmbedUpsertError>, next: nat, progress: EmbedProgress, ghost t': Trail, ghost reply: Reply)
    requires embedder.Valid() && b >= 1 && u >= 1 && done < |chunks|
    requires InProgress(Snapshot(embedder, store), o, chunks, embedder.backend.Http?, b, u, rounds, done, t)
    modifies store, embedder.Footprint()
    ensures embedder.Valid()
    ensures e.None? ==>
      InProgress(Snapshot(embedder, store), o, chunks, embedder.backend.Http?, b, u, rounds + 1, next, t')
    ensures e.None? ==> ReportIs(Report(progress, |t'.sent|), rounds, b, |chunks|)
    ensures e.Some? ==>
      FailedAfter(e, Some(reply), store.fate, Snapshot(embedder, store), o, chunks, embedder.backend.Http?, b, u, rounds, t')
    ensures Reliable(embedder.backend) && (forall c :: store.fate(c).Acknowledged?) ==> e.None?
    ensures |store.acknowledged| == |o.acknowledged| + |t'.sent|
  {
    next := Min(done + b, |chunks|);
    progress := EmbedProgress(next - done, next, |chunks|);
    ghost var was := Snapshot(embedder, store);
    ghost var more: Trail;
    e, more, reply := EmbedBatch(embedder, store, chunks[done..next], u);
    t' := Joined(t, more);
    ghost var now, http := Snapshot(embedder, store), embedder.backend.Http?;
    NextNumbers(rounds, b, |chunks|, u, done, next);
    if e.None? {
      RoundDone(was, now, o, t, more, chunks, http, b, u, rounds, done, next);
    } else {
      RoundFailed(was, now, o, t, more, chunks, http, b, u, rounds, done, next, e, reply, store.fate);
    }
  }

  method EmbedAndUpsert(
    embedder: Embedder, store: Store, chunks: seq<Chunk>, embedBatch: nat, upsertBatch: nat, wanted: bool)
    returns (e: Option<EmbedUpsertError>, reports: seq<Report>, ghost t: Trail, ghost rounds: nat, ghost last: Option<Reply>)
    requires embedder.Valid()
    modifies store, embedder.Footprint()
    ensures embedder.Valid()
    // it succeeds when the embedder answers and the store acknowledges
    ensures Reliable(embedder.backend) && (forall c :: store.fate(c).Acknowledged?) ==> e.None?
    // and otherwise ends at the first batch that does not, for that batch's own cause
    ensures e.Some? ==>
      FailedAfter(e, last, store.fate, Snapshot(embedder, store), old(Snapshot(embedder, store)), chunks, embedder.backend.Http?,
                  AtLeastOne(embedBatch), AtLeastOne(upsertBatch), rounds, t)
    // what was acknowledged, which rows it came from, and what else took effect
    ensures Accounted(Snapshot(embedder, store), old(Snapshot(embedder, store)), t, chunks, embedder.backend.Http?)
    ensures e != Some(StoreFailed) ==> t.stray == []
    // how much, by outcome, and in how many calls
    ensures StoppedAt(e, rounds, |t.sent|, AtLeastOne(embedBatch), |chunks|)
    ensures e.None? ==> embedder.calls == old(embedder.calls) + rounds
    ensures e.None? ==>
      store.calls == old(store.calls) + UpsertCalls(rounds, AtLeastOne(embedBatch), |chunks|, AtLeastOne(upsertBatch))
    // end to end: success through the HTTP client and the server stores every chunk
    ensures e.None? && embedder.backend.Http? ==> EveryChunkStored(store.points, chunks)
    // the reports
    ensures Reported(reports, if wanted then rounds else 0, AtLeastOne(embedBatch), |chunks|)
  {
    var b, u, before, done := AtLeastOne(embedBatch), AtLeastOne(upsertBatch), |store.acknowledged|, 0;
    ghost var o, http := Snapshot(embedder, store), embedder.backend.Http?;
    e, reports, t, rounds, last := None, [], Trail([], [], [], []), 0, None;
    NothingYet(o, chunks, http, b, u);
    while done < |chunks|
      invariant embedder.Valid() && e.None? && done <= |chunks|
      invariant InProgress(Snapshot(embedder, store), o, chunks, http, b, u, rounds, done, t)
      invariant Reported(reports, if wanted then rounds else 0, b, |chunks|)
    {
      var progress;
      ghost var reply;
      e, done, progress, t, reply := Advance(embedder, store, chunks, done, b, u, rounds, o, t);
      if e.Some? {
        last := Some(reply);
        return;
      }
      if wanted {
        reports := ReportedOneMore(reports, Report(progress, |store.acknowledged| - before), rounds, b, |chunks|);
      }
      rounds := rounds + 1;
    }
    AllDone(Snapshot(embedder, store), o, chunks, http, b, u, rounds, done, t);
  }

  lemma NothingYet(o: Log, chunks: seq<Chunk>, http: bool, b: nat, u: nat)
    requires u >= 1
    ensures InProgress(o, o, chunks, http, b, u, 0, 0, Trail([], [], [], []))
  {
  }

  /** `progress(...)`, recorded. */
  function ReportedOneMore(reports: seq<Report>, r: Report, ghost rounds: nat, ghost b: nat, ghost n: nat): (more: seq<Report>)
    requires Reported(reports, rounds, b, n) && ReportIs(r, rounds, b, n)
    ensures Reported(more, rounds + 1, b, n)
  {
    reports + [r]
  }

  /** All chunks in: what that means. */
  lemma AllDone(now: Log, o: Log, chunks: seq<Chunk>, http: bool, b: nat, u: nat, rounds: nat, done: nat, t: Trail)
    requires u >= 1 && InProgress(now, o, chunks, http, b, u, rounds, done, t) && done == |chunks|
    ensures StoppedAt(None, rounds, |t.sent|, b, |chunks|)
    ensures http ==> EveryChunkStored(now.points, chunks)
  {
    if http {
      SuccessStoresEveryChunk(now, o, t, chunks);
    }
  }

  // ----- what success means, and why retrying converges -----

  ghost predicate Names(batch: seq<Point>, g: Guid) {
    exists i :: 0 <= i < |batch| && batch[i].guid == g
  }

  /** A guid the batch names gets its value from the batch alone; any other keeps its own. */
  lemma {:induction false} PutLookup(p: map<Guid, Vector>, q: map<Guid, Vector>, batch: seq<Point>, g: Guid)
    ensures Names(batch, g) ==> g in Put(p, batch) && g in Put(q, batch) && Put(p, batch)[g] == Put(q, batch)[g]
    ensures !Names(batch, g) ==> (g in Put(p, batch) <==> g in p)
    ensures !Names(batch, g) && g in p ==> Put(p, batch)[g] == p[g]
  {
    if batch != [] {
      var m := |batch| - 1;
      PutLookup(p, q, batch[..m], g);
      if i :| 0 <= i < m && batch[..m][i].guid == g {
        assert batch[i].guid == g;
      }
      if i :| 0 <= i < |batch| && batch[i].guid == g && batch[m].guid != g {
        assert batch[..m][i].guid == g;
      }
    }
  }

  /** No later entry of the batch has the guid of entry `i`. */
  ghost predicate LastOfItsGuid(batch: seq<Point>, i: nat) {
    i < |batch| && forall j :: i < j < |batch| ==> batch[j].guid != batch[i].guid
  }

  lemma {:induction false} LastEntryWins(points: map<Guid, Vector>, batch: seq<Point>, i: nat)
    requires LastOfItsGuid(batch, i)
    ensures batch[i].guid in Put(points, batch) && Put(points, batch)[batch[i].guid] == batch[i].dense
  {
    var m := |batch| - 1;
    if i < m {
      LastEntryWins(points, batch[..m], i);
      assert batch[m].guid != batch[i].guid;
    }
  }

  /** The store holds, for every chunk, a finite vector of that chunk's own code;
      of several chunks with one guid the last one counts. */
  ghost predicate EveryChunkStored(points: map<Guid, Vector>, chunks: seq<Chunk>) {
    forall i :: 0 <= i < |chunks| && (forall j :: i < j < |chunks| ==> chunks[j].guid != chunks[i].guid) ==>
      chunks[i].guid in points && Proper(points[chunks[i].guid], chunks[i].code)
  }

  /** End to end: a successful call through the HTTP client and the server leaves
      every chunk stored under its own guid, whatever the batch sizes, the
      grouping, the lost replies before it and the device's faults during it. */
  lemma SuccessStoresEveryChunk(now: Log, o: Log, t: Trail, chunks: seq<Chunk>)
    requires Accounted(now, o, t, chunks, true)
    requires |t.sent| == |chunks| && t.stray == []
    ensures EveryChunkStored(now.points, chunks)
  {
    assert t.sent + t.stray == t.sent;
    forall i | 0 <= i < |chunks| && (forall j :: i < j < |chunks| ==> chunks[j].guid != chunks[i].guid)
      ensures chunks[i].guid in now.points && Proper(now.points[chunks[i].guid], chunks[i].code)
    {
      assert t.sent[i].guid == chunks[i].guid;
      LastEntryWins(o.points, t.sent, i);
    }
  }

  ghost predicate HasGuid(chunks: seq<Chunk>, g: Guid) {
    exists i :: 0 <= i < |chunks| && chunks[i].guid == g
  }

  /** Every point of a trail carries the guid of one of the call's chunks, and over
      HTTP is a finite vector of a chunk with that guid. */
  lemma TrailPoint(t: Trail, chunks: seq<Chunk>, http: bool, i: nat)
    requires Matched(t.sent, chunks, t.texts, t.rows, http) && Harmless(t.stray, chunks, http)
    requires i < |t.sent + t.stray|
    ensures HasGuid(chunks, (t.sent + t.stray)[i].guid)
    ensures http ==> Truthful((t.sent + t.stray)[i], chunks)
  {
    var p := (t.sent + t.stray)[i];
    if i < |t.sent| {
      assert t.sent[i].guid == chunks[i].guid;
    } else {
      assert t.stray[i - |t.sent|] in t.stray;
      assert Owned(p, chunks);
      var k :| 0 <= k < |chunks| && p.guid == chunks[k].guid;
    }
  }

  lemma {:induction false} WrittenByAnEntry(points: map<Guid, Vector>, batch: seq<Point>, g: Guid) returns (i: nat)
    requires Names(batch, g)
    ensures i < |batch| && g in Put(points, batch) && batch[i] == Point(g, Put(points, batch)[g])
  {
    var m := |batch| - 1;
    if batch[m].guid == g {
      i := m;
    } else {
      var k :| 0 <= k < |batch| && batch[k].guid == g;
      assert batch[..m][k].guid == g;
      i := WrittenByAnEntry(points, batch[..m], g);
    }
  }

  /** Any call, failed or not, leaves each guid as it was or, if it is one of the
      call's own, over HTTP, with a finite vector of a chunk that has that guid. */
  lemma NoCallMisplacesAVector(now: Log, o: Log, t: Trail, chunks: seq<Chunk>, http: bool, g: Guid)
    requires Accounted(now, o, t, chunks, http)
    ensures !HasGuid(chunks, g) ==> (g in now.points <==> g in o.points)
    ensures !HasGuid(chunks, g) && g in o.points ==> now.points[g] == o.points[g]
    ensures http && g in now.points ==>
      (g in o.points && now.points[g] == o.points[g]) || Truthful(Point(g, now.points[g]), chunks)
  {
    var all := t.sent + t.stray;
    PutLookup(o.points, o.points, all, g);
    if Names(all, g) {
      var i := WrittenByAnEntry(o.points, all, g);
      TrailPoint(t, chunks, http, i);
    }
  }

  /** The store after several calls, each given by the points that took effect. */
  function PutAll(points: map<Guid, Vector>, attempts: seq<seq<Point>>): map<Guid, Vector> {
    if attempts == [] then points
    else Put(PutAll(points, attempts[..|attempts| - 1]), attempts[|attempts| - 1])
  }

  lemma {:induction false} AttemptsKeepOthers(points: map<Guid, Vector>, attempts: seq<seq<Point>>, g: Guid)
    requires forall k :: 0 <= k < |attempts| ==> !Names(attempts[k], g)
    ensures g in PutAll(points, attempts) <==> g in points
    ensures g in points ==> PutAll(points, attempts)[g] == points[g]
  {
    if attempts != [] {
      var m := |attempts| - 1;
      AttemptsKeepOthers(points, attempts[..m], g);
      PutLookup(PutAll(points, attempts[..m]), points, attempts[m], g);
    }
  }

  /** Any number of failed attempts at a set of chunks, then a success: the store is
      as if the success had been the first attempt. */
  lemma RetriesConverge(points: map<Guid, Vector>, attempts: seq<seq<Point>>, success: seq<Point>)
    requires forall k, g :: 0 <= k < |attempts| && Names(attempts[k], g) ==> Names(success, g)
    ensures Put(PutAll(points, attempts), success) == Put(points, success)
  {
    var after := PutAll(points, attempts);
    forall g
      ensures g in Put(after, success) <==> g in Put(points, success)
      ensures g in Put(points, success) ==> Put(after, success)[g] == Put(points, success)[g]
    {
      PutLookup(after, points, success, g);
      PutLookup(points, points, success, g);
      if !Names(success, g) {
        AttemptsKeepOthers(points, attempts, g);
      }
    }
  }

  /** The attempts this pipeline makes are of the kind the previous lemma allows. */
  lemma AttemptsNameOnlyTheChunks(now: Log, o: Log, t: Trail, chunks: seq<Chunk>, success: seq<Point>, http: bool, g: Guid)
    requires Accounted(now, o, t, chunks, http)
    requires |success| == |chunks| && forall i :: 0 <= i < |chunks| ==> success[i].guid == chunks[i].guid
    ensures now.points == Put(o.points, t.sent + t.stray)
    ensures Names(t.sent + t.stray, g) ==> Names(success, g)
  {
    if i :| 0 <= i < |t.sent + t.stray| && (t.sent + t.stray)[i].guid == g {
      TrailPoint(t, chunks, http, i);
      var k :| 0 <= k < |chunks| && chunks[k].guid == g;
      assert success[k].guid == g;
    }
  }

  /** One point for each chunk, in order. */
  ghost predicate IsFor(points: seq<Point>, chunks: seq<Chunk>) {
    |points| == |chunks| && forall i :: 0 <= i < |points| ==> points[i].guid == chunks[i].guid
  }

  /** No attempt touches a guid that is not one of the chunks'. */
  ghost predicate OnlyThese(attempts: seq<seq<Point>>, chunks: seq<Chunk>) {
    forall k, g :: 0 <= k < |attempts| && Names(attempts[k], g) ==> HasGuid(chunks, g)
  }

  lemma OneMoreAttempt(t: Trail, attempts: seq<seq<Point>>, chunks: seq<Chunk>, http: bool)
    requires Matched(t.sent, chunks, t.texts, t.rows, http) && Harmless(t.stray, chunks, http)
    requires OnlyThese(attempts, chunks)
    ensures OnlyThese(attempts + [t.sent + t.stray], chunks)
  {
    var more := attempts + [t.sent + t.stray];
    forall k, g | 0 <= k < |more| && Names(more[k], g) ensures HasGuid(chunks, g) {
      if k == |attempts| {
        var i :| 0 <= i < |more[k]| && more[k][i].guid == g;
        TrailPoint(t, chunks, http, i);
      }
    }
  }

  lemma OthersAreKept(points: map<Guid, Vector>, attempts: seq<seq<Point>>, chunks: seq<Chunk>)
    requires OnlyThese(attempts, chunks)
    ensures forall g :: !HasGuid(chunks, g) ==> (g in PutAll(points, attempts) <==> g in points)
    ensures forall g :: !HasGuid(chunks, g) && g in points ==> PutAll(points, attempts)[g] == points[g]
  {
    forall g | !HasGuid(chunks, g)
      ensures g in PutAll(points, attempts) <==> g in points
      ensures g in points ==> PutAll(points, attempts)[g] == points[g]
    {
      AttemptsKeepOthers(points, attempts, g);
    }
  }

  lemma LastAttemptDecides(points: map<Guid, Vector>, attempts: seq<seq<Point>>, success: seq<Point>, chunks: seq<Chunk>)
    requires OnlyThese(attempts, chunks) && IsFor(success, chunks)
    ensures PutAll(points, attempts + [success]) == Put(points, success)
  {
    forall k, g | 0 <= k < |attempts| && Names(attempts[k], g) ensures Names(success, g) {
      assert HasGuid(chunks, g);
      var i :| 0 <= i < |chunks| && chunks[i].guid == g;
      assert success[i].guid == g;
    }
    RetriesConverge(points, attempts, success);
    assert (attempts + [success])[..|attempts|] == attempts;
  }

  /** The calls for one file until one succeeds or the budget is spent: one call and at
      most `retries` more. On success the store is what the last call alone would have
      made of the store before the first, whatever the failed ones left behind, and
      over HTTP every chunk is stored; in any case no other guid is touched. */
  method EmbedWithRetries(
    embedder: Embedder, store: Store, chunks: seq<Chunk>, embedBatch: nat, upsertBatch: nat, retries: nat)
    returns (done: bool, ghost attempts: seq<seq<Point>>, ghost outcomes: seq<Option<EmbedUpsertError>>)
    requires embedder.Valid()
    modifies store, embedder.Footprint()
    ensures embedder.Valid() && 0 < |attempts| <= retries + 1 && (!done ==> |attempts| == retries + 1)
    // every call but the last failed, and the last decides
    ensures |outcomes| == |attempts| && forall k :: 0 <= k < |outcomes| - 1 ==> outcomes[k].Some?
    ensures done <==> outcomes[|outcomes| - 1].None?
    ensures Reliable(embedder.backend) && (forall c :: store.fate(c).Acknowledged?) ==> done && |attempts| == 1
    // the store
    ensures store.points == PutAll(old(store.points), attempts)
    ensures done ==> IsFor(attempts[|attempts| - 1], chunks) && store.points == Put(old(store.points), attempts[|attempts| - 1])
    ensures done && embedder.backend.Http? ==> EveryChunkStored(store.points, chunks)
    ensures forall g :: !HasGuid(chunks, g) ==> (g in store.points <==> g in old(store.points))
    ensures forall g :: !HasGuid(chunks, g) && g in old(store.points) ==> store.points[g] == old(store.points)[g]
  {
    ghost var before := store.points;
    var tries := 0;
    done, attempts, outcomes := false, [], [];
    while !done && tries <= retries
      invariant embedder.Valid() && |attempts| == tries <= retries + 1 && (!done ==> tries <= retries + 1) && (done ==> tries > 0)
      invariant store.points == PutAll(before, attempts) && OnlyThese(attempts, chunks)
      invariant done ==> IsFor(attempts[tries - 1], chunks) && store.points == Put(before, attempts[tries - 1])
      invariant done && embedder.backend.Http? ==> EveryChunkStored(store.points, chunks)
      invariant |outcomes| == tries && forall k :: 0 <= k < tries - 1 ==> outcomes[k].Some?
      invariant tries > 0 ==> (done <==> outcomes[tries - 1].None?)
      invariant Reliable(embedder.backend) && (forall c :: store.fate(c).Acknowledged?) ==> tries == if done then 1 else 0
      decreases !done, retries + 1 - tries
    {
      var e, reports;
      ghost var t, rounds;
      ghost var last;
      e, reports, t, rounds, last := EmbedAndUpsert(embedder, store, chunks, embedBatch, upsertBatch, false);
      outcomes := outcomes + [e];
      done := e.None?;
      OneMoreAttempt(t, attempts, chunks, embedder.backend.Http?);
      if done {
        assert t.sent + t.stray == t.sent && IsFor(t.sent, chunks);
        LastAttemptDecides(before, attempts, t.sent, chunks);
      }
      assert (attempts + [t.sent + t.stray])[..tries] == attempts;
      attempts := attempts + [t.sent + t.stray];
      tries := tries + 1;
    }
    OthersAreKept(before, attempts, chunks);
  }
}
