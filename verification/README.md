# Verification of mindex's core logic

A Dafny model of the parts of mindex whose correctness is not visible from any single
function, with proofs about them. The files are verified together, by
`dafny verify dfyconfig.toml`.

| file | what it models |
|---|---|
| `Grouping.dfy`, `Device.dfy`, `Encoding.dfy`, `EmbedServer.dfy`, `DeviceLock.dfy`, `LockRuns.dfy`, `Progress.dfy`, `Refinement.dfy` | the embedding server: how texts are packed into forward passes, one request with its recovery from memory exhaustion and non-finite output, concurrent requests taking turns on one model, that they all end, and one request as a run of the concurrent machine |
| `EmbedClient.dfy`, `Pipeline.dfy` | the client's check of a reply, and embedding and upserting a file's chunks, composed with the server |
| `Uuids.dfy`, `Claims.dfy`, `Base64Url.dfy`, `Tokens.dfy`, `KeyRotation.dfy`, `Scope.dfy` | bearer tokens: delegation, the signed form, key rotation, and what a token lets a caller see |
| `Metrics.dfy`, `Randomization.dfy`, `DrawnTest.dfy`, `Fusion.dfy`, `ChunkIds.dfy` | the benchmark's metrics, its significance test, the fusion weight grid, and chunk identifiers |
| `Migrations.dfy` | schema startup over all histories of restarts |
| `Resolver.dfy`, `QueryText.dfy` | from a documented name to the file that defines it, and removing the answer key from a documentation section |
| `Basics.dfy`, `Text.dfy` | options, finite sets, splitting and joining strings |

## How the outside is modelled

- The device (torch and the card) is an arbitrary function of time, texts, batch size and
  weights: it may run out of memory, raise, return non-finite numbers, or raise in the middle
  of a cast. A vector carries the text it was computed from, which is what alignment is
  stated about.
- The wire and the vector store are arbitrary functions too: a call may be lost before or after
  the server has done the work, an upsert may fail after any part of it took effect.
- SQL is any function from contents to contents that may fail.
- JSON and HMAC-SHA256 are parameters. JSON is assumed to read back what it wrote, and a MAC
  to be 32 bytes long; nothing else is assumed of either.
- The clock, random draws, the tokenizer and the walk over the source tree are parameters.
- Scores and statistics are exact reals, and `1 / log2(i + 2)` is any positive, strictly
  decreasing weight.

## What turned out to need a condition

- The recompute casts every weight back to the precision of the first one. On a model
  loaded in one precision that restores it; on a mixed one it leaves all weights in the
  precision of the first for good, and this happens exactly when they were not all alike.
- The restoring cast may itself raise, and then the lock is released with the model still
  cast. `LockRuns` proves that, besides the mixed case above, this is the only step that
  breaks the promise, and gives the run.
- Delegation never widens from the second of the minting on. Over all seconds it widens
  exactly when the minter's `nbf` lies after both the new token's `nbf` and the leeway, since
  the leeway applies to each separately; only a clock that runs back reaches those seconds,
  and only the first token of a chain can be widened.
- A chunk whose path starts with two underscores is dropped by `fused_ranking`, since the
  placeholder test looks at the whole identifier.
- `apply_pending_migrations` is documented to stamp the highest version; it stamps the last. A
  second start is idle exactly when the two agree (or nothing was pending), as on the
  ascending lists that the history theorems assume.
- `resolve` documents an outcome `not_defined` that no branch returns, and has a `qualname`
  branch that can never be taken, because a file that defines `C.m` always defines `C`.
- Of two files with one dotted name (`a.py` and `a/__init__.py`), the index keeps the later
  one in sorted order.
- `strip_for_query` is documented to remove doctest lines; one that ends in `::` is taken for
  the introduction of a literal block first, and reaches the query.

## Model

| member | source | states |
|---|---|---|
| `Grouping.Groups` | deploy/embedder/server.py:256-275 | The loop returns a packing cut from the longest-first order in which every pass is admissible (one row, or rows × longest within the budget and at most the row cap) and no pass but the last could have taken the next text; and no admissible split of the same texts, into arbitrary subsets, uses fewer passes. |
| `Grouping.GreedyUsesFewestPasses` | deploy/embedder/server.py:256-275 | Optimality, for every budget and row cap, zero and negative ones included: any assignment of texts to passes that meets the limits uses at least as many passes as the greedy packing. |
| `Grouping.GreedyStaysAhead` | deploy/embedder/server.py:265-274 | The exchange argument: the passes any split opens among the first x texts of the sorted order hold no more texts than the same number of greedy passes. |
| `Grouping.PassesPartitionTheTexts` | deploy/embedder/server.py:256-275 | Every text index is in some pass, nothing else is, and no index is listed twice. |
| `Grouping.LongestFirstIsOrdered` | deploy/embedder/server.py:264-264 | The visiting order lists every index once, longest first, equal lengths in request order. |
| `EmbedServer.EncodeInto` | deploy/embedder/server.py:307-389 | Under any device faults it terminates; only slots of the group change, and only to finite vectors of their own texts; on normal return all of them do. Unless a restore raised, the weights are as on entry when no recompute was needed and otherwise all in the precision of the first one, so as on entry if and only if no recompute ran or all had one precision. On a device where single texts fit and full precision is finite it always succeeds. And it computes the effect that the refinement below relates to the concurrent machine. |
| `EmbedServer.RecomputeInFp32` | deploy/embedder/server.py:370-387 | The recompute returns finite rows, one per text of the group, or an error; on every exit but a raising restore every weight is in the precision of the first one, so the weights are those on entry if and only if all had one precision. |
| `EmbedServer.WriteRows` | deploy/embedder/server.py:388-389 | Row k goes to slot group[k], in order, and no other slot changes. |
| `EmbedServer.Embeddings` | deploy/embedder/server.py:392-436 | 503 without a model, 400 exactly on an empty input. Otherwise the passes cover the texts, each of more than one row within the row cap and with rows × tokens (cut at max_seq) of every member within the budget, and no admissible split of those counts has fewer; on success row i is a finite vector of text i, whatever the faults; unless a restore raised, the weights are as before or all in the precision of the first one; never a failure on a forgiving device; and nothing else happens than those passes, in order. |
| `EmbedServer.EncodeGroups` | deploy/embedder/server.py:402-405 | The loop over the groups stops at the first exception and has then the effect of the groups before it and of that one. |
| `EmbedServer.GroupsArePlan` | deploy/embedder/server.py:256-275 | The batching divides the texts into non-empty groups that cover them. |
| `EmbedServer.Model.To` | deploy/embedder/server.py:374-383 | A cast converts the weights one by one; if it raises, exactly those before that point are converted and the others are as they were. |
| `Device.RecomputeRestoresExactly` | deploy/embedder/server.py:372-383 | Unless the restore raises, the recompute restores the weights if and only if they were all in one precision: `original` is read off the first one. |
| `Encoding.EncodingAligns` | deploy/embedder/server.py:307-389 | Alignment of one group under every fault, halving by halving. |
| `Encoding.EncodingWeights` | deploy/embedder/server.py:307-389 | The weights after a group: as before without a recompute, otherwise all in the precision of the first one, unless a restore raised. |
| `Encoding.EncodingSucceeds` | deploy/embedder/server.py:331-387 | On a forgiving device the halving and the recompute together always succeed, whatever the weights. |
| `Encoding.AllGroupsAlign` | deploy/embedder/server.py:401-405 | After a loop without an exception every slot that some group lists holds a finite vector of its own text. |
| `Encoding.AllGroupsWeights` | deploy/embedder/server.py:402-405 | The weights after the whole loop, and success on a forgiving device. |
| `Encoding.AllGroupsAreWide` | deploy/embedder/server.py:402-405 | On a device whose vectors all have one width, so has every vector that is answered. |
| `DeviceLock.StepKeepsInvariantExactly` | deploy/embedder/server.py:307-405 | A step of any request keeps the invariant (only the lock holder is inside, the weights are as its phase says and as at the start of its recompute when the lock is free, every written slot belongs to its text) if and only if it does not end a recompute with other weights than those it began with. |
| `DeviceLock.RestoreIsExact` | deploy/embedder/server.py:372-383 | A restore that completes leaves every weight in the precision of the first one, so the invariant is kept with the same weights if and only if all had one precision. |
| `LockRuns.StepStaysSoundExactly` | deploy/embedder/server.py:372-383 | On a model loaded in any mix of precisions, a step keeps the weights to come back to among those loaded and those with every weight in the precision of the first, if and only if it is not a restore that raises with the weights at neither. |
| `LockRuns.NoPassOnAModelCastByAnother` | deploy/embedder/server.py:402-405 | After any interleaving of any number of requests without such a step, on a model loaded in any mix of precisions, whoever starts an ordinary pass holds the lock and sees the weights as loaded or all in the precision of the first one, which on a model of one precision are the same; whoever starts a recompute sees full precision. |
| `LockRuns.EveryAnswerIsAligned` | deploy/embedder/server.py:397-405 | After any run at all, from any weights, leaking restores included, an answered request has a finite vector of its own text in every slot. |
| `LockRuns.NeverStuck` | deploy/embedder/server.py:402-405 | After any run at all, raising restores included, either every request has ended and the lock is free, or some request can make a step that is not an exception in a cast: every exit drops the lock. |
| `Progress.EveryRunEnds` | deploy/embedder/server.py:307-389 | No schedule goes on for ever: halvings and recomputes use up a measure, whatever the faults and the interleaving. |
| `Progress.EveryRequestEnds` | deploy/embedder/server.py:402-405 | Under any schedule that steps whenever some request can, every request is answered or ends in an error and the lock is free again. |
| `LockRuns.RaisingRestoreLeaksTheCast` | deploy/embedder/server.py:382-383 | The exception is real: a concrete run in which the restore raises, the lock is released, and the next request may start a pass on the cast model. |
| `Refinement.GroupSteps` | deploy/embedder/server.py:307-389 | One group encoded by the request handler, halvings and recomputes included, is a run of that request in the machine, to the same slots, weights and error. |
| `Refinement.RequestIsARun` | deploy/embedder/server.py:396-405 | The effect of a whole request served alone is reached by the request's own steps from a free lock back to a free lock, for every device and every plan. |
| `Refinement.ServeAlone` | deploy/embedder/server.py:392-405 | Calling the request handler does what a request of the machine does: it answers with that request's slots or fails with its error and leaves the same weights. |
| `EmbedClient.AcceptsExactlyWellFormed` | src/models/embedder.rs:186-226 | A reply is accepted if and only if its indices are 0..n-1 once each and every row has the expected dimension. |
| `EmbedClient.AcceptedRowsGoWhereTheyClaim` | src/models/embedder.rs:199-225 | Position i of the accepted rows is the row that claimed index i. |
| `EmbedClient.ReorderingIsUndone` | src/models/embedder.rs:199-225 | Any permutation of the server's body gives back the server's rows in order. |
| `Pipeline.Embedder.Embed` | src/models/embedder.rs:302-390 | One call through the wire, the server and the reply check, with the exact cause of each outcome: a lost call is the refusal the wire gives, a delivered one passes on the server's answer, which is the outcome of one plan within its limits, and is accepted if and only if that is one row of the expected width per text; accepted means one finite vector per text, in order. A reliable embedder always answers. |
| `Pipeline.EmbedAndUpsert` | src/embed.rs:67-130 | It succeeds whenever the embedder is reliable and the store acknowledges, and otherwise ends at the first batch that does not, for that batch's own cause. Every change to the store is accounted for by acknowledged points, which are the first chunks each with the row answered for its own code, and by what a failing upsert left behind; how far it got and in how many calls, for each outcome; report j is cumulative and sent when exactly that many points were acknowledged; and success over the HTTP client and the server leaves every chunk's guid mapped to a finite vector of its own code. |
| `Pipeline.EmbedBatch` | src/embed.rs:78-117 | One outer round: it succeeds if and only if the embed call answered one row per text and every upsert was acknowledged, and each error has exactly its own cause (the refusal as it was, a wrong row count, a failed upsert). Nothing is stored unless there is one row per text; acknowledged points are a prefix of the batch; nothing stray is left except by a store failure. |
| `Pipeline.UpsertAll` | src/embed.rs:112-117 | It succeeds if and only if each of its ⌈n/size⌉ calls is acknowledged; otherwise it stops at the first that is not, with the calls before it acknowledged. |
| `Pipeline.StoppedAtInNumbers` | src/embed.rs:78-127 | Success takes exactly ⌈n/batch⌉ rounds; a failure acknowledged fewer than n points, in ⌊sent/batch⌋ whole rounds, and stopped at a batch boundary unless the store failed. |
| `Pipeline.SuccessStoresEveryChunk` | src/embed.rs:58-130 | The step from what a successful call accounts for to every chunk being stored (the last one, of chunks that share a guid). |
| `Pipeline.NoCallMisplacesAVector` | src/embed.rs:67-130 | Any call, failed or not, changes no other guid, and maps its own only to a finite vector of a chunk with that guid. |
| `Pipeline.RetriesConverge` | src/embed.rs:112-117 | Any number of failed attempts, each touching only guids of the success, followed by the success leaves the same map as that success alone. |
| `Pipeline.EmbedWithRetries` | src/worker/retry.rs:445-493 | Calls of the pipeline until one succeeds or the retry budget is spent: the last call decides and all before it failed; one call is enough when the embedder is reliable and the store acknowledges. On success the store is what the last call alone would have made of the store before the first, and over HTTP every chunk is stored; in any case no other guid is touched. |
| `Pipeline.AttemptsNameOnlyTheChunks` | src/embed.rs:67-130 | Every call of this pipeline, failed or not, is an attempt of the kind the convergence result allows. |
| `Uuids.SimpleRoundTrip` | src/backend/auth.rs:794-806 | The stored form of a project parses back to the project. |
| `Uuids.HyphenatedRoundTrip` | src/backend/auth.rs:785-806 | The dashed, braced and URN spellings parse to the same project. |
| `Uuids.ParseIsExact` | src/backend/auth.rs:794-806 | A text names a project if and only if it is its 32 digits in either case, the dashed 8-4-4-4-12 form, that in braces, or that after `urn:uuid:`. |
| `Uuids.ParseAnyCase` | src/backend/auth.rs:284-293 | Any text equal to the stored form up to ASCII case names that project. |
| `Uuids.SimpleIsInjective` | src/backend/auth.rs:284-293 | Stored forms that agree up to case name one project. |
| `Claims.PermittedMintGainsNothing` | src/backend/auth.rs:305-363 | When `may_mint` allows it and the minter was live when it asked, no (project, action, second) from the minting on is accepted for the new token and not for the minter, leeway and saturation included. |
| `Claims.MayMintIsTransitive` | src/backend/auth.rs:312-363 | `may_mint` is transitive. |
| `Claims.ChainNeverWidens` | src/backend/auth.rs:312-363 | Along any chain of mintings with a clock that does not run back, whatever the last token is accepted for at a second since it was minted, every ancestor is accepted for at that second. |
| `Claims.GainsExactlyFrom` | src/backend/auth.rs:967-980 | Exactly when a permitted minting gains something at or after a second t: when the new token opens, at t or later, at a second the minter has not reached, leeway and saturation included. |
| `Claims.WidensExactly` | src/backend/auth.rs:967-980 | Over all seconds, those before the minting included, a permitted minting gains something if and only if the minter's `nbf` lies after both the new token's and the leeway. |
| `Claims.ChainWidensExactly` | src/backend/auth.rs:967-980 | The same for every ancestor along any chain of mintings. |
| `Claims.MintedAncestorsAreNeverWidened` | src/backend/auth.rs:967-980 | Over an ancestor that was itself minted along the chain the last token gains nothing at any second whatever. |
| `Claims.ClockRunningBackWidens` | src/backend/auth.rs:967-980 | A minting that does widen, and only before its own second. |
| `Claims.MayMintIsExact` | src/backend/auth.rs:312-363 | For normalised, non-empty claims and a minter whose expiry plus leeway does not saturate, minting is allowed if and only if `mint` is held and nothing would be gained. |
| `Claims.RefusalIsExact` | src/backend/auth.rs:312-363 | Which refusal `may_mint` gives: the first reason in the order of its checks, naming the first entry that falls short. |
| `Claims.LiveIsExact` | src/backend/auth.rs:967-980 | In plain numbers: a token is live if and only if now is at most its expiry plus the leeway and its `nbf` at most now plus the leeway; saturation makes no difference. |
| `Claims.NormalizedEntryReaches` | src/backend/auth.rs:785-806 | A normalised entry reaches exactly the project its raw spelling names, or all. |
| `Claims.MintedTokenReachesWhatWasAsked` | src/backend/auth.rs:827-864 | The claims of a minted token cover a project if and only if one of the requested spellings names it or is the wildcard. |
| `Claims.IssuedIsAStep` | src/backend/v0/handlers.rs:8197-8230 | What the mint endpoint issues is a one-step chain extension that expires within the ceiling. |
| `Claims.EndpointIsExact` | src/backend/v0/handlers.rs:8197-8230 | It refuses a well-spelled, non-empty request exactly when `mint` is missing or something would be gained. What it issues and its earlier refusals are the two rows below. |
| `Claims.IssuedIsWhatWasAsked` | src/backend/v0/handlers.rs:8197-8230 | An issued token permits exactly the requested actions, covers exactly the projects the requested spellings name, carries each requested audience once, the given subject, identifier and second, and expires exactly min(days, ceiling) days later. |
| `Claims.EndpointRefusals` | src/backend/v0/handlers.rs:8197-8230 | Zero days are refused exactly as such, and otherwise an unreadable project exactly as such. |
| `Claims.MintedIsWhatWasAsked` | src/backend/auth.rs:836-862 | The same for what minting itself returns, where zero days mean no expiry. |
| `Base64Url.DecodeOfEncode` | src/backend/auth.rs:884-896 | decode ∘ encode is the identity; n bytes give ⌈4n/3⌉ characters, none of them a dot. |
| `Base64Url.EncodeOfDecode` | src/backend/auth.rs:931-944 | Every accepted text is the only encoding of what it decodes to: no second spelling passes. |
| `Base64Url.EncodesByTheTable` | src/backend/auth.rs:884-896 | Character j of the encoding is the symbol of table 2 of RFC 4648, written out, at the number formed by bits 6j to 6j + 5 of the bytes, zero-padded at the end. |
| `Base64Url.DecodesByTheTable` | src/backend/auth.rs:931-944 | A text decodes to given bytes if and only if it has that length and those characters. |
| `Text.TrimIsExact` | src/backend/auth.rs:794-796 | Trimming takes white space off both ends and leaves none there. |
| `Text.SplitOfJoin` | src/backend/auth.rs:922-929 | Parts free of the separator come back from splitting their join. |
| `Tokens.AcceptsExactlyGenuine` | src/backend/auth.rs:917-983 | A token is accepted with these claims if and only if it is at most 8192 long and is the compact form of an HS256 header and a payload of this issuer, with the MAC of the key its header names, and live. |
| `Tokens.TokenRoundTrip` | src/backend/auth.rs:872-983 | A token signed for claims of this issuer verifies to exactly those claims if and only if they are live and the computed length is within the limit, as long as the ring holds the signing key. |
| `Tokens.SignedTokenLength` | src/backend/auth.rs:872-898 | The length of the compact form: ⌈4n/3⌉ for header and payload, 43 for the MAC, two dots. |
| `Tokens.SignedParts` | src/backend/auth.rs:872-898 | Signing refuses exactly an unknown key; otherwise the three parts decode to the HS256 header naming the key, the claims, and the MAC under that key of the first two parts with their dot. |
| `Tokens.RefusedUnread` | src/backend/auth.rs:917-950 | When a token is too long, not three parts, under an unknown key, with an undecodable or with a wrong signature: each exactly. |
| `Tokens.RefusedByTheClock` | src/backend/auth.rs:952-983 | Expired, not yet valid, or accepted: each exactly by the clock, and only for a token properly signed for this issuer. |
| `Tokens.VerdictDependsOnlyOnNamedKey` | src/backend/auth.rs:937-950 | Two rings that agree on the key a token names give it the same verdict, error included. |
| `KeyRotation.Load` | src/backend/auth.rs:480-537 | The key file loads exactly when the active id is present and every secret decodes to at least 16 bytes, and then to those secrets; otherwise the error names what is wrong. |
| `KeyRotation.LoadableIsExact` | src/backend/auth.rs:496-536 | A file loads if and only if its active id is one of its keys and every secret is the base64url text of at least 16 bytes, which are then the ring's. |
| `KeyRotation.KeyFileOnDisk.AddKey` | src/backend/auth.rs:569-644 | Refuses a blank or existing id and changes nothing; otherwise adds exactly that entry. |
| `KeyRotation.AddKeepsTheFileLoadable` | src/backend/auth.rs:601-608 | Adding keeps the file loadable and the active id, and the ring then holds the drawn secret. |
| `KeyRotation.AddChangesNoOtherKey` | src/backend/auth.rs:591-608 | It changes no key already there and adds no other. |
| `KeyRotation.RemoveKeepsTheFileLoadableExactly` | src/backend/auth.rs:503-511 | Deleting an entry keeps the file loadable if and only if it is not the active one. |
| `KeyRotation.RemovalConcernsOnlyItsKey` | src/backend/auth.rs:937-950 | After a deletion every token naming that key is refused as naming an unknown one and every other token gets the verdict it got before. |
| `KeyRotation.RotationLeavesOtherTokensAlone` | src/backend/auth.rs:480-644 | Over any history of additions and deletions, a token under a key never deleted is judged the same at the end as at the start. |
| `KeyRotation.HistoryLoadableExactly` | src/backend/auth.rs:480-644 | A history leaves a loadable file loadable if and only if the last operation on the active id, if any, put it there. |
| `Scope.ListedIsCovered` | src/backend/extract.rs:115-125 | The listing's filter shows exactly the projects the path extractors let through. |
| `Scope.CoversTextIsCovered` | src/backend/extract.rs:127-139 | The textual check agrees with both for every spelling, and fails closed on text that names no project. |
| `Scope.RepliesAreExact` | src/backend/extract.rs:207-332 | For every request: not found exactly for a path project out of scope; an action is named as missing exactly when the token lacks it, a path project then being in scope; served exactly otherwise. |
| `Scope.ServedIsExact` | src/backend/extract.rs:207-332 | A served path request runs its handler on its project and stores just what that returns; a drift check sees the project exactly when in scope; the listing has one row for each covered project there is; nothing else changes. |
| `Scope.MissingActionIsToldOnlyInScope` | src/backend/extract.rs:219-237 | The not-found answer is given exactly when the project is out of scope; a missing action is named exactly to callers that cover the project. |
| `Scope.HandleKeepsAgreement` | src/backend/extract.rs:207-305 | One request through any extractor: equal replies and agreeing states from agreeing states. |
| `Scope.ScopeNoninterference` | src/backend/extract.rs:109-305 | Any sequence of a token's requests, with arbitrary handlers over one project's state, gets identical replies from two servers that agree on what the token covers, which still agree afterwards. |
| `Scope.OutOfScopeLooksUnknown` | src/backend/v0/handlers.rs:2182-2191 | Replies are as on a server where every out-of-scope project had never existed; drift included. |
| `Scope.OtherCallersAreInvisible` | src/backend/extract.rs:207-305 | Deleting from a run all calls of callers that share no project with a token changes nothing the token sees. |
| `Metrics.RankFiles` | bench/score.py:46-55 | The loop keeps each file once, at its first occurrence. |
| `Metrics.TruncationIsAPrefix` | bench/score.py:46-55 | Ranking a truncated hit list gives a prefix of ranking the full one. |
| `Metrics.ComputeReciprocalRank` | bench/score.py:84-88 | The loop returns the inverse of the first gold position within k, or zero. |
| `Metrics.ComputeAveragePrecision` | bench/score.py:91-106 | The loop returns the truncated, average precision normalised by the smaller of k and the gold size. |
| `Metrics.AbelDominance` | bench/score.py:58-59 | Summation by parts for any positive decreasing discount: pointwise larger partial counts give a larger discounted sum, strictly so if somewhere strictly larger. |
| `Metrics.MetricDominance` | bench/score.py:58-118 | A ranking with at least as many gold files in every prefix up to k is at least as good by nDCG, AP, RR, recall and accuracy at k. |
| `Metrics.NdcgRange` | bench/score.py:62-75 | nDCG@k of a duplicate-free ranking lies in [0, 1] and, for non-empty gold and k ≥ 1, is 1 exactly when the first files, as many as the smaller of k and the gold size, are all gold. |
| `Metrics.NdcgFromPositions` | bench/score.py:62-75 | nDCG@k is the weight of the gold positions within k over the weight of as many top positions as the smaller of k and the gold size. |
| `Metrics.ApRange` | bench/score.py:91-106 | The same for AP@k. |
| `Metrics.ApFromPositions` | bench/score.py:91-106 | AP@k adds, over the gold positions within k, the share of gold among the positions up to there, and divides by the smaller of k and the gold size. |
| `Metrics.RecallIsExact` | bench/score.py:78-81 | Recall@k times the gold size is the number of gold files within k of a ranking without repeats; it is 1, and accuracy@k too, exactly when every gold file is found there. |
| `Metrics.ReciprocalRankIsExact` | bench/score.py:84-88 | 1/p exactly for the first gold position p within k, and 0 exactly when there is none. |
| `Metrics.AnyResultListScoresInRange` | bench/score.py:46-106 | Both for `ranked_files` of any hit list at all. |
| `Metrics.RepeatsBreakTheBound` | bench/score.py:8-15 | The deduplication is what bounds the score: with a repeated gold file nDCG exceeds 1. |
| `Randomization.PermutationP` | bench/stats.py:84-96 | The loop returns the add-one fraction of draws whose statistic reaches the observed one up to the tolerance; an empty sample is an error. |
| `Randomization.StatisticIsTwoSided` | bench/stats.py:86-93 | The statistic bounds the mean on both sides, and turning every sign around leaves it as it was. |
| `Randomization.AddOnePIsValid` | bench/stats.py:95-96 | Of any b + 1 statistics at most m, taken as the observed one, give p ≤ m / (b + 1). |
| `Randomization.ExactPIsValid` | bench/stats.py:84-96 | For any differences, at most m of the 2^n sign patterns have exact p ≤ m / 2^n. |
| `Randomization.FlippedDataCountsTheSameGroup` | bench/stats.py:84-94 | Had any sign pattern been the observed one, the test on that data counts the same arrangements: the null hypothesis makes the patterns exchangeable. |
| `Randomization.SlackIsConservative` | bench/stats.py:93-94 | The tolerance can only raise the p-value. |
| `Randomization.AllFlips` | bench/stats.py:91-92 | The sign group holds exactly the patterns of length n, 2^n of them. |
| `DrawnTest.FirstIsSeldomSmall` | bench/stats.py:93-96 | For any statistic on any finite set: of all tuples of n members at most the share m / n has a first entry with p ≤ m / n. |
| `DrawnTest.DrawnTestIsValid` | bench/stats.py:84-96 | The test as it is run: over all tuples of the signs the data came with and b drawn patterns, the share for which it reports p ≤ m / (b + 1) is at most m / (b + 1). |
| `DrawnTest.ReportedIsReturned` | bench/stats.py:84-96 | The reported value of the previous row is what the loop returns on that data with those draws. |
| `Fusion.WeightGrid` | bench/baselines/fusion.py:174-187 | The loop returns the product filtered by its sum and scaled, in order; a step that rounds to zero ticks is the division error, unless there is no leg. |
| `Fusion.GridIsTheSimplex` | bench/baselines/fusion.py:174-187 | Exactly the natural vectors with sum t, strictly increasing lexicographically, C(t+n-1, n-1) of them. |
| `Fusion.WeightsSumToOne` | bench/baselines/fusion.py:186-186 | Every grid point is non-negative and sums to one. |
| `Fusion.RescalingKeepsTheOrdering` | bench/baselines/fusion.py:175-180 | A positive rescaling of the weights ranks every two chunks alike. |
| `Fusion.NoTwoPointsOfOneRatio` | bench/baselines/fusion.py:175-180 | No two grid points are rescalings of one another. |
| `ChunkIds.ChunkIdRoundTrip` | bench/baselines/fusion.py:78-85 | For every path, colons and dashes included, and all natural spans, parsing the identifier gives back the triple. |
| `ChunkIds.ParsesExactly` | bench/baselines/fusion.py:124-131 | Which texts parse and to what: the path before the last colon, and two plain numbers around the first dash after it. |
| `ChunkIds.ReservedIsAboutThePath` | bench/baselines/fusion.py:122-123 | The placeholder test on the identifier holds exactly for paths that start with two underscores. |
| `ChunkIds.ToChunkRun` | bench/baselines/fusion.py:88-111 | Each distinct chunk once, with the best score any hit gives it, in the order the chunks first appear; the placeholder exactly when there is no hit. |
| `ChunkIds.FusedRanking` | bench/baselines/fusion.py:114-134 | The loop skips reserved keys and parses the rest in score order, raising on a key that does not parse. |
| `ChunkIds.FusedExactly` | bench/baselines/fusion.py:114-134 | For any posting list: it raises if and only if a key neither starts with two underscores nor parses; otherwise each other posting gives one row, its parsed key with its score, better scores first and of equal scores the earlier posting. |
| `ChunkIds.OneLegSurvivesTheRun` | bench/baselines/fusion.py:88-134 | One leg there and back, the empty one included: exactly the distinct chunks whose path does not start with two underscores, with their best scores; better scores first, and of equal scores the chunk that came first. |
| `ChunkIds.RankingComesBack` | bench/baselines/fusion.py:88-134 | Distinct, unreserved chunks in non-increasing order come back as the same list, ties included. |
| `Migrations.Connection.ApplyMigrationsFrom` | src/main.rs:214-253 | The loop runs the pending batches in order, refuses dangling references and stamps the last version. |
| `Migrations.Connection.Start` | src/main.rs:503-514 | One startup in one transaction: committed only if the lineage check, the migrations and the registry check all succeed. |
| `Migrations.HistoriesStayConsistent` | src/main.rs:198-253 | Over any history of newer and older binaries, failing batches, refusals and kills, the contents are the in-order fold of exactly the migrations up to `user_version`, and those are the ones that ran. |
| `Migrations.VersionNeverDecreases` | src/main.rs:214-253 | `user_version` never goes back along such a history. |
| `Migrations.EachMigrationRanOnce` | src/main.rs:198-253 | The versions that ran are strictly ascending and are exactly those at or below `user_version`. |
| `Migrations.RegistryCheckIsEquality` | src/main.rs:148-196 | The check passes if and only if the table and the registry are the same map from id to dimension. |
| `Migrations.RegistryRefusals` | src/main.rs:148-196 | It blames the first row it cannot account for, as unknown or as of another dimension, and failing that the first model without a row. |
| `Migrations.StartupIsExact` | src/main.rs:117-253 | The outcome of a start, exactly, in the order of the checks: the old lineage if and only if the application id differs and the version is positive; then a failing batch, dangling references, the registry; success otherwise. |
| `Migrations.StartIsAllOrNothing` | src/main.rs:503-514 | A start that fails or is killed changes nothing; one that succeeds has no dangling reference after applying and a table equal to the registry. |
| `Migrations.RunsAgainExactly` | src/main.rs:218-252 | For every list: the migrations a second start of the same binary would run are those that ran in the first and lie above the one that ran last. |
| `Migrations.SecondStartIsIdleExactly` | src/main.rs:214-253 | A second start of the same binary leaves the database alone if and only if none was pending or the migration applied last is the highest of the list. |
| `Migrations.AscendingEndsHighest` | src/main.rs:214-253 | An ascending list meets that condition from every version. |
| `Migrations.OutOfOrderListRunsTwice` | src/main.rs:198-201 | A list that does not meet it: the stamp is the last version, not the highest as documented, and a migration runs again. |
| `Resolver.SymbolIndex.Build` | bench/sphinx_docs.py:208-223 | The walk builds exactly the specified index: test files skipped, unparsable files modules without symbols, later files replacing earlier ones of the same dotted name. |
| `Resolver.SymbolIndex.Collect` | bench/sphinx_docs.py:225-235 | The walk over the top-level nodes records classes, functions and the methods of classes. |
| `Resolver.SymbolIndex.ResolveTarget` | bench/sphinx_docs.py:268-331 | The loop from the longest proper prefix down agrees with the specification that picks the longest prefix naming a module. |
| `Resolver.OwnersAreExact` | bench/sphinx_docs.py:225-230 | A file is recorded for a name if and only if it is a non-test file with a top-level class or function of that name. |
| `Resolver.ModulesAreExact` | bench/sphinx_docs.py:210-216 | A dotted name is a module if and only if some non-test file has it, and it stands for the last such file. |
| `Resolver.IndexIsCoherent` | bench/sphinx_docs.py:225-235 | Defining files are exactly those recorded under some name, and a file recorded for `C.m` is recorded for `C`. |
| `Resolver.MethodOwnersAreExact` | bench/sphinx_docs.py:230-235 | A file is recorded for `C.m` if and only if it is a non-test file whose top-level class `C` defines `m`. |
| `Resolver.TestPathsExactly` | bench/sphinx_docs.py:158-181 | A test path has a component `tests`, or a file name that starts with `test_` or ends in `_test`, with or without a final `.py`. |
| `Resolver.DottedNames` | bench/sphinx_docs.py:214-215 | The components joined by dots, without the `.py` and without a last `.__init__`. |
| `Resolver.DirectoriesExactly` | bench/sphinx_docs.py:257-258 | The directory of a path is everything up to its last slash; a path without one gets a slash of its own. |
| `Resolver.ResolveIsExact` | bench/sphinx_docs.py:268-331 | `symbol` with a file is answered exactly when that file is the named module, or the only definition under its directory, or the only one; `ambiguous` exactly when two candidates remain; the fallbacks exactly when nothing defines the name; `qualname` never. |
| `Resolver.WholeModulesAnswer` | bench/sphinx_docs.py:276-279 | A target that is itself a module is answered with its file, or as an empty module, whatever the context. |
| `Resolver.AnswersAreDefiningFiles` | bench/sphinx_docs.py:198-203 | Whatever the target and context, a returned file is a non-test file that defines a class or function. |
| `Resolver.SymbolsAreDefinedThere` | bench/sphinx_docs.py:290-297 | With outcome `symbol` it defines the very name referred to. |
| `Resolver.LongestModuleDecides` | bench/sphinx_docs.py:281-303 | The longest proper prefix naming a module decides alone: no other module and no module context changes the answer. |
| `Resolver.FullNamesLeadBack` | bench/sphinx_docs.py:268-292 | Every definition is found under its full dotted name, in any context, if and only if that name is not itself a module. |
| `QueryText.StripForQuery` | bench/sphinx_docs.py:446-483 | For every input the loop ends and emits, in order, exactly the lines that no directive, link target or literal introduction hides at any depth and that are not doctest lines. |
| `QueryText.DirectiveLines` | bench/sphinx_docs.py:63-94 | A directive or link target, by its stripped text: two dots, white space, and a name with two colons, or an underscore and a name up to one final colon. |
| `QueryText.LiteralIntroLines` | bench/sphinx_docs.py:467-467 | A literal introduction ends, stripped, in two colons and is neither of those. |
| `QueryText.DoctestLines` | bench/sphinx_docs.py:479-479 | A doctest line starts, stripped, with its prompt or its continuation. |
| `QueryText.EmittedExactly` | bench/sphinx_docs.py:467-469 | A kept line comes out as it is; a literal introduction stripped, less its two colons and the white space before them. |
| `QueryText.BlankAndIndentExactly` | bench/sphinx_docs.py:455-462 | A line is blank exactly when all white space; its indent is the number of white space characters it starts with. |
| `QueryText.NothingHiddenGetsOut` | bench/sphinx_docs.py:446-483 | Each emitted line comes from an input line of its own, at ascending positions, none of them hidden, and no kept line is lost. |
| `QueryText.DoctestGetsOutExactlyWhen` | bench/sphinx_docs.py:467-481 | Line i of a doctest is among the lines of the loop's output if and only if it ends in `::` and no run hides it. |
| `QueryText.SkipRun` | bench/sphinx_docs.py:457-465 | The inner loops stop at the first line that is neither blank nor deeper. |
| `QueryText.RunsNest` | bench/sphinx_docs.py:453-478 | What lies under an opening line that is itself in a run lies in that run. |
| `QueryText.HiddenByTheOutermost` | bench/sphinx_docs.py:453-478 | So whatever is hidden at some depth is hidden by an outermost line: skipping only at those, as the loop does, hides exactly what all of them together hide. |
| `QueryText.RunsEndTogether` | bench/sphinx_docs.py:453-478 | At the line after a skipped run every run opened before it, inside or outside, has ended. |
| `QueryText.DoctestThatGetsOut` | bench/sphinx_docs.py:467-481 | A text whose only line is a doctest line, and whose output is that line less its colons. |

## Left out

- Floating-point rounding in metrics, p-values and weights; the discount is abstract, see above.
- `bca_ci`, `_ppf`, `_cdf` and `compare` (bench/stats.py): approximate numerics and reporting.
- `fuse` and its score normalisations, and the legs that feed it: calls into ranx.
- The retry, back-off and timeout loop of the HTTP client (src/models/embedder.rs): one call is one arbitrary outcome.
- Cancellation tokens: a cancelled call is one of the outcomes the wire may give.
- `TRIM_MIB`, `_empty_cache`, health and model endpoints, loading the model: no effect on the answer.
- EmbedServer.Embeddings: the answer to a single string is the list of one; the model is assumed to have at least one weight, without which `next(parameters())` raises.
- Progress.EveryRequestEnds: assumes of the schedule only that it steps when some request can; that no single request is overtaken for ever would need a fair lock.
- Pipeline.EmbedAndUpsert: the trait objects are one class with two kinds of backend (the HTTP client in front of the server, or any script), and the end-to-end results are about the first.
- Pipeline.EmbedWithRetries: the sweep that picks files, their status rows and the pauses between attempts are not modelled, nor what others write to the store in between.
- Pipeline.RetriesConverge: states convergence to the vectors of the final success; that two runs get equal vectors would be a property of the neural model.
- Claims.IssuedIsWhatWasAsked: a ceiling of zero days, which the configuration refuses (src/config.rs:2402), would make the token one that never expires; the expiry is stated while it stays within 64 bits.
- Claims.EndpointIsExact: assumes that now plus the ceiling stays within 64 bits, since the expiry is a wrapping addition in a release build; the unknown-key error of signing comes before the containment check and is not part of the outcome.
- Claims.MayMintIsExact: the minter's project list is assumed shorter than the number of identifiers, 2^128.
- Parsing of action and audience names, the `sub` and `jti` fields beyond carrying them, and the extraction of the bearer header.
- Tokens.AcceptsExactlyGenuine: characters stand for bytes, so the length limit is exact for ASCII tokens; unforgeability is a property of HMAC and is not stated.
- KeyRotation.Load: file permissions, reading the file and parsing TOML.
- KeyRotation.KeyFileOnDisk.AddKey: the temporary file and the rename, and the note stored beside a secret.
- Scope.ScopeNoninterference: the project-less operator surfaces and the live research registry, which are global by design, are not requests of this model; neither are timing and logs.
- Migrations.Connection.Start: the connection pool, metrics, and the foreign-key pragma around the transaction.
- ChunkIds.FusedRanking: Python's `int` also reads signs, spaces and underscores; only plain digits are read here, which is all `chunk_id` writes.
- Fusion.WeightGrid: starts from the number of ticks, after `round(1.0 / step)`; a negative number of ticks, from a negative step, is not modelled.
- QueryText.StripForQuery: the substitutions of role, literal and link markup after the line loop, and whitespace beyond ASCII.
- Claims.NormalizedEntryReaches: trimming knows ASCII whitespace only.
- `split_sections`, `code_refs`, `shorten` and the overlap measure (bench/sphinx_docs.py): parsing and reporting around the two functions modelled.
- HTTP routing, TLS, streaming, configuration checks, the metrics collectors, the editor extension, and the benchmark's orchestration scripts: input and output around the core.
