/** From claims to access decisions (src/backend/extract.rs: the project-scoped
    extractors, `DriftScope`, `ListProjectsScope`; src/backend/v0/handlers.rs:
    the project listing and `post_drift`).

    What a handler does inside one project is an arbitrary function, so the
    results below are about the extractors and the listing filter alone. */
module Scope {
  import opened Basics
  import opened Uuids
  import opened Claims

  /** What the caller proved; None on a server with authorization off. */
  type Authorization = Option<Claims>

  predicate AuthCovers(auth: Authorization, u: Uuid) {
    auth.None? || auth.value.Covers(u)
  }

  /** `visible_projects`: None means every project. */
  function VisibleProjects(auth: Authorization): Option<seq<string>> {
    match auth
    case None => None
    case Some(c) => if c.IsWildcard() then None else Some(c.prj)
  }

  /** The listing's filter. */
  predicate Listed(auth: Authorization, u: Uuid) {
    match VisibleProjects(auth)
    case None => true
    case Some(v) => exists k :: 0 <= k < |v| && EqIgnoreCase(v[k], Simple(u))
  }

  /** `covers_guid_str`, for a project carried as text. */
  predicate CoversText(auth: Authorization, text: string) {
    match Parse(text)
    case Some(u) => AuthCovers(auth, u)
    case None => auth.None?
  }

  /** The listing shows exactly the projects the path extractors let through. */
  lemma ListedIsCovered(auth: Authorization, u: Uuid)
    ensures Listed(auth, u) <==> AuthCovers(auth, u)
  {
    if auth.Some? && auth.value.IsWildcard() {
      var k :| 0 <= k < |auth.value.prj| && auth.value.prj[k] == WILDCARD;
    }
  }

  /** So does the textual check, for every spelling of the project, and it fails
      closed on text that names none. */
  lemma CoversTextIsCovered(auth: Authorization, text: string)
    ensures Parse(text).Some? ==> (CoversText(auth, text) <==> AuthCovers(auth, Parse(text).value))
    ensures Parse(text).None? && auth.Some? ==> !CoversText(auth, text)
    ensures forall u :: CoversText(auth, Simple(u)) <==> Listed(auth, u)
  {
    forall u ensures CoversText(auth, Simple(u)) <==> Listed(auth, u) {
      SimpleRoundTrip(u);
      ListedIsCovered(auth, u);
    }
  }

  // ----- one request -----

  /** The server's state: project data of an arbitrary type. */
  type State<!P> = map<Uuid, P>

  datatype Request<!P, !R> =
      // search, research, index, delete: may read, create, change or drop its project
    | Scoped(action: Action, guid: Uuid, handler: Option<P> -> (R, Option<P>))
      // the drift check: reads its project
    | Drift(guid: Uuid, check: Option<P> -> R)
      // the project listing: one row per visible project
    | ListProjects(row: (Uuid, P) -> R)

  datatype Reply<R> = NotFound | NotPermitted(action: Action) | Done(result: R) | Listing(rows: map<Uuid, R>)

  function Lookup<P>(s: State<P>, u: Uuid): Option<P> {
    if u in s then Some(s[u]) else None
  }

  function Store<P>(s: State<P>, u: Uuid, p: Option<P>): State<P> {
    if p.Some? then s[u := p.value] else s - {u}
  }

  function Handle<P, R>(auth: Authorization, s: State<P>, req: Request<P, R>): (Reply<R>, State<P>) {
    match req
    case Scoped(action, guid, handler) =>
      if auth.Some? && !auth.value.Covers(guid) then (NotFound, s)
      else if auth.Some? && !auth.value.Permits(action) then (NotPermitted(action), s)
      else
        var (result, after) := handler(Lookup(s, guid));
        (Done(result), Store(s, guid, after))
    case Drift(guid, check) =>
      if auth.Some? && !auth.value.Permits(Search) then (NotPermitted(Search), s)
      else (Done(check(if AuthCovers(auth, guid) then Lookup(s, guid) else None)), s)
    case ListProjects(row) =>
      if auth.Some? && !auth.value.Permits(Search) then (NotPermitted(Search), s)
      else (Listing(map u | u in s && Listed(auth, u) :: row(u, s[u])), s)
  }

  /** Only a caller that covers the project is told which action it lacks; to any
      other the answer is the one for a project that never existed. */
  lemma MissingActionIsToldOnlyInScope<P, R>(auth: Authorization, s: State<P>, action: Action, guid: Uuid, h: Option<P> -> (R, Option<P>))
    ensures Handle(auth, s, Scoped(action, guid, h)).0.NotFound? <==> !AuthCovers(auth, guid)
    ensures Handle(auth, s, Scoped(action, guid, h)).0.NotPermitted? <==>
      AuthCovers(auth, guid) && auth.Some? && !auth.value.Permits(action)
  {
  }

  /** Every answer, exactly. Not found: a request for one project, out of scope. Not
      permitted: an action the token lacks, told of a project in scope, or of a request
      that names none. Served: otherwise. */
  lemma RepliesAreExact<P, R>(auth: Authorization, s: State<P>, req: Request<P, R>)
    ensures Handle(auth, s, req).0.NotFound? <==> req.Scoped? && auth.Some? && !auth.value.Covers(req.guid)
    ensures forall a :: Handle(auth, s, req).0 == NotPermitted(a) <==>
      auth.Some? && a !in auth.value.act &&
      match req {
        case Scoped(action, guid, _) => a == action && auth.value.Covers(guid)
        case Drift(_, _) => a == Search
        case ListProjects(_) => a == Search
      }
    ensures Handle(auth, s, req).0.Done? || Handle(auth, s, req).0.Listing? <==>
      (auth.None? ||
       match req {
         case Scoped(action, guid, _) => auth.value.Covers(guid) && action in auth.value.act
         case Drift(_, _) => Search in auth.value.act
         case ListProjects(_) => Search in auth.value.act
       })
  {
  }

  /** What a served request does: a scoped one runs its handler on its own project and
      stores what that returns, and nothing else; a drift check sees the project exactly
      when it is in scope; the listing has one row for each covered project there is. */
  lemma ServedIsExact<P, R>(auth: Authorization, s: State<P>, req: Request<P, R>)
    ensures var (reply, after) := Handle(auth, s, req);
      match req {
        case Scoped(_, guid, handler) =>
          reply.Done? ==>
            (var found := if guid in s then Some(s[guid]) else None;
             reply == Done(handler(found).0) &&
             (if handler(found).1.Some? then guid in after && after[guid] == handler(found).1.value else guid !in after) &&
             forall u :: u != guid ==> (u in after <==> u in s) && (u in s ==> after[u] == s[u]))
        case Drift(guid, check) =>
          after == s &&
          (reply.Done? ==>
            reply == Done(check(if guid in s && (auth.None? || auth.value.Covers(guid)) then Some(s[guid]) else None)))
        case ListProjects(row) =>
          after == s &&
          (reply.Listing? ==>
            (forall u :: u in reply.rows <==> u in s && (auth.None? || auth.value.Covers(u))) &&
            forall u :: u in reply.rows ==> reply.rows[u] == row(u, s[u]))
      }
    ensures !Handle(auth, s, req).0.Done? ==> Handle(auth, s, req).1 == s
    ensures Handle(auth, s, req).0.Listing? ==> req.ListProjects?
    ensures Handle(auth, s, req).0.Done? ==> !req.ListProjects?
  {
    forall u ensures Listed(auth, u) <==> AuthCovers(auth, u) {
      ListedIsCovered(auth, u);
    }
  }

  // ----- noninterference -----

  /** The two states are the same on every project the caller covers. */
  ghost predicate Agree<P(!new)>(auth: Authorization, s: State<P>, t: State<P>) {
    forall u :: AuthCovers(auth, u) ==> Lookup(s, u) == Lookup(t, u)
  }

  lemma ListingsAgree<P(!new), R(!new)>(auth: Authorization, s: State<P>, t: State<P>, row: (Uuid, P) -> R)
    requires Agree(auth, s, t)
    ensures (map u | u in s && Listed(auth, u) :: row(u, s[u])) == (map u | u in t && Listed(auth, u) :: row(u, t[u]))
  {
    forall u | Listed(auth, u) ensures Lookup(s, u) == Lookup(t, u) {
      ListedIsCovered(auth, u);
    }
  }

  lemma {:induction false} HandleKeepsAgreement<P(!new), R(!new)>(auth: Authorization, s: State<P>, t: State<P>, req: Request<P, R>)
    requires Agree(auth, s, t)
    ensures Handle(auth, s, req).0 == Handle(auth, t, req).0
    ensures Agree(auth, Handle(auth, s, req).1, Handle(auth, t, req).1)
  {
    match req {
      case Scoped(action, guid, handler) =>
        if AuthCovers(auth, guid) {
          assert Lookup(s, guid) == Lookup(t, guid);
        }
      case Drift(guid, check) =>
        if AuthCovers(auth, guid) {
          assert Lookup(s, guid) == Lookup(t, guid);
        }
      case ListProjects(row) =>
        ListingsAgree(auth, s, t, row);
    }
  }

  /** A request changes no project its caller does not cover. */
  lemma HandleChangesOnlyCovered<P(!new), R(!new)>(auth: Authorization, s: State<P>, req: Request<P, R>, u: Uuid)
    requires !AuthCovers(auth, u)
    ensures Lookup(Handle(auth, s, req).1, u) == Lookup(s, u)
  {
  }

  function HandleAll<P, R>(auth: Authorization, s: State<P>, reqs: seq<Request<P, R>>): (seq<Reply<R>>, State<P>) {
    if reqs == [] then ([], s)
    else
      var (replies, before) := HandleAll(auth, s, reqs[..|reqs| - 1]);
      var (reply, after) := Handle(auth, before, reqs[|reqs| - 1]);
      (replies + [reply], after)
  }

  /** Two servers that agree on everything a token covers answer any sequence of
      its requests identically, and still agree afterwards. */
  lemma {:induction false} ScopeNoninterference<P(!new), R(!new)>(
    auth: Authorization, s: State<P>, t: State<P>, reqs: seq<Request<P, R>>)
    requires Agree(auth, s, t)
    ensures HandleAll(auth, s, reqs).0 == HandleAll(auth, t, reqs).0
    ensures Agree(auth, HandleAll(auth, s, reqs).1, HandleAll(auth, t, reqs).1)
  {
    if reqs != [] {
      var m := |reqs| - 1;
      ScopeNoninterference(auth, s, t, reqs[..m]);
      HandleKeepsAgreement(auth, HandleAll(auth, s, reqs[..m]).1, HandleAll(auth, t, reqs[..m]).1, reqs[m]);
    }
  }

  /** In particular, a project out of scope might as well not exist. */
  lemma OutOfScopeLooksUnknown<P(!new), R(!new)>(auth: Authorization, s: State<P>, reqs: seq<Request<P, R>>)
    ensures HandleAll(auth, s, reqs).0 == HandleAll(auth, map u | u in s && Listed(auth, u) :: s[u], reqs).0
  {
    var t := map u | u in s && Listed(auth, u) :: s[u];
    forall u | AuthCovers(auth, u) ensures Lookup(s, u) == Lookup(t, u) {
      ListedIsCovered(auth, u);
    }
    ScopeNoninterference(auth, s, t, reqs);
  }

  // ----- several callers -----

  /** A request and who sent it. */
  datatype Call<!P, !R> = Call(auth: Authorization, req: Request<P, R>)

  function Serve<P, R>(s: State<P>, calls: seq<Call<P, R>>): State<P> {
    if calls == [] then s
    else Handle(calls[|calls| - 1].auth, Serve(s, calls[..|calls| - 1]), calls[|calls| - 1].req).1
  }

  ghost predicate NoSharedProject(a: Authorization, b: Authorization) {
    forall u :: !(AuthCovers(a, u) && AuthCovers(b, u))
  }

  /** The calls with everybody else's left out. */
  function Purge<P, R>(mine: set<nat>, calls: seq<Call<P, R>>): seq<Call<P, R>> {
    if calls == [] then []
    else
      var m := |calls| - 1;
      Purge(mine, calls[..m]) + if m in mine then [calls[m]] else []
  }

  /** Whatever callers that share no project with a token do in between, the state
      it sees, and so every reply it gets, is as if they had never called. */
  lemma {:induction false} OtherCallersAreInvisible<P(!new), R(!new)>(
    auth: Authorization, s: State<P>, calls: seq<Call<P, R>>, mine: set<nat>, next: Request<P, R>)
    requires forall i :: 0 <= i < |calls| ==>
      if i in mine then calls[i].auth == auth else NoSharedProject(auth, calls[i].auth)
    ensures Agree(auth, Serve(s, calls), Serve(s, Purge(mine, calls)))
    ensures Handle(auth, Serve(s, calls), next).0 == Handle(auth, Serve(s, Purge(mine, calls)), next).0
  {
    if calls != [] {
      var m := |calls| - 1;
      OtherCallersAreInvisible(auth, s, calls[..m], mine, next);
      var before, quiet := Serve(s, calls[..m]), Serve(s, Purge(mine, calls[..m]));
      if m in mine {
        HandleKeepsAgreement(auth, before, quiet, calls[m].req);
        assert Purge(mine, calls)[..|Purge(mine, calls)| - 1] == Purge(mine, calls[..m]);
      } else {
        assert Purge(mine, calls) == Purge(mine, calls[..m]);
        forall u | AuthCovers(auth, u) ensures Lookup(Serve(s, calls), u) == Lookup(quiet, u) {
          HandleChangesOnlyCovered(calls[m].auth, before, calls[m].req, u);
        }
      }
    }
    HandleKeepsAgreement(auth, Serve(s, calls), Serve(s, Purge(mine, calls)), next);
  }
}
