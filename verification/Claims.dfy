/** What a token says and what it may hand on (src/backend/auth.rs, `Claims`,
    `may_mint`, `normalize_project`, `mint_with_key`; src/backend/v0/handlers.rs,
    `post_auth_tokens`). */
module Claims {
  import opened Basics
  import opened Uuids
  import opened Text

  const U64_MAX: nat := 0xFFFF_FFFF_FFFF_FFFF

  type u64 = n: nat | n <= U64_MAX

  /** `u64::saturating_add` */
  function SatAdd(a: u64, b: u64): u64 {
    if a + b <= U64_MAX then a + b else U64_MAX
  }

  datatype Action = Search | Research | Index | Delete | Admin | MintAction

  datatype Audience = Cli | Vscode | Agent

  datatype Claims = Claims(
    iss: string, sub: string, jti: string, iat: u64, nbf: u64, exp: Option<u64>,
    prj: seq<string>, act: seq<Action>, aud: seq<Audience>)
  {
    predicate Covers(u: Uuid) {
      exists k :: 0 <= k < |prj| && (prj[k] == WILDCARD || EqIgnoreCase(prj[k], Simple(u)))
    }

    predicate Permits(a: Action) {
      a in act
    }

    predicate IsWildcard() {
      WILDCARD in prj
    }

    /** The clock checks of `verify`: not past `exp` plus leeway, not before `nbf` minus leeway. */
    predicate Live(leeway: u64, now: u64) {
      (exp.Some? ==> SatAdd(exp.value, leeway) >= now) && nbf <= SatAdd(now, leeway)
    }
  }

  const WILDCARD: string := "*"

  const ISSUER: string := "mindex"

  /** Why `may_mint` says no. */
  datatype Refusal =
    | MintNotHeld
    | ActionNotHeld(action: Action)
    | WildcardNotHeld
    | ProjectNotHeld(project: string)
    | ForeverNotHeld
    | LaterThanMinter

  function FirstNotPermitted(minter: Claims, acts: seq<Action>): (r: Option<Action>)
    ensures r.Some? ==> r.value in acts && !minter.Permits(r.value)
    ensures r.None? ==> forall a :: a in acts ==> minter.Permits(a)
  {
    if acts == [] then None
    else if !minter.Permits(acts[0]) then Some(acts[0])
    else FirstNotPermitted(minter, acts[1..])
  }

  predicate Holds(prj: seq<string>, p: string) {
    exists k :: 0 <= k < |prj| && EqIgnoreCase(prj[k], p)
  }

  function FirstNotHeld(minter: Claims, prj: seq<string>): (r: Option<string>)
    ensures r.Some? ==> r.value in prj && !Holds(minter.prj, r.value)
    ensures r.None? ==> forall p :: p in prj ==> Holds(minter.prj, p)
  {
    if prj == [] then None
    else if !Holds(minter.prj, prj[0]) then Some(prj[0])
    else FirstNotHeld(minter, prj[1..])
  }

  /** `Claims::may_mint`; None is `Ok(())`. */
  function MayMint(minter: Claims, wanted: Claims): Option<Refusal> {
    if !minter.Permits(MintAction) then Some(MintNotHeld)
    else
      var a := FirstNotPermitted(minter, wanted.act);
      if a.Some? then Some(ActionNotHeld(a.value))
      else if !minter.IsWildcard() && wanted.IsWildcard() then Some(WildcardNotHeld)
      else
        var p := if minter.IsWildcard() then None else FirstNotHeld(minter, wanted.prj);
        if p.Some? then Some(ProjectNotHeld(p.value))
        else
          match (minter.exp, wanted.exp)
          case (None, _) => None
          case (Some(_), None) => Some(ForeverNotHeld)
          case (Some(mine), Some(w)) => if w > mine then Some(LaterThanMinter) else None
  }

  /** What a token is accepted for at second `now`. */
  predicate Accepted(c: Claims, leeway: u64, now: u64, u: Uuid, a: Action) {
    c.Live(leeway, now) && c.Covers(u) && c.Permits(a)
  }

  /** `wanted` is accepted for something, at or after second `t`, that `minter` is not. */
  ghost predicate GainsSomething(minter: Claims, wanted: Claims, leeway: u64, t: u64) {
    exists u, a, s: u64 :: s >= t && Accepted(wanted, leeway, s, u, a) && !Accepted(minter, leeway, s, u, a)
  }

  /** In plain numbers: saturation never matters, since `now` fits. */
  lemma LiveIsExact(c: Claims, leeway: u64, now: u64)
    ensures c.Live(leeway, now) <==>
      (c.exp.Some? ==> now <= c.exp.value + leeway) && c.nbf <= now + leeway
  {
  }

  // ----- delegation never widens -----

  lemma CoverageIsContained(minter: Claims, wanted: Claims, u: Uuid)
    requires MayMint(minter, wanted).None? && wanted.Covers(u)
    ensures minter.Covers(u)
  {
    if minter.IsWildcard() {
      var k :| 0 <= k < |minter.prj| && minter.prj[k] == WILDCARD;
    } else {
      var k :| 0 <= k < |wanted.prj| && (wanted.prj[k] == WILDCARD || EqIgnoreCase(wanted.prj[k], Simple(u)));
      assert wanted.prj[k] in wanted.prj;
      assert Holds(minter.prj, wanted.prj[k]);
      var h :| 0 <= h < |minter.prj| && EqIgnoreCase(minter.prj[h], wanted.prj[k]);
      EqIgnoreCaseTransitive(minter.prj[h], wanted.prj[k], Simple(u));
    }
  }

  /** One permitted minting: the minter was live when it asked, so from the moment
      of minting on the new token is accepted for nothing the minter is not. */
  lemma PermittedMintGainsNothing(minter: Claims, wanted: Claims, leeway: u64, asked: u64)
    requires MayMint(minter, wanted).None? && minter.Live(leeway, asked) && asked <= wanted.nbf
    ensures !GainsSomething(minter, wanted, leeway, wanted.nbf)
  {
    forall u, a, s: u64 | s >= wanted.nbf && Accepted(wanted, leeway, s, u, a)
      ensures Accepted(minter, leeway, s, u, a)
    {
      CoverageIsContained(minter, wanted, u);
    }
  }

  /** `may_mint` is transitive. */
  lemma MayMintIsTransitive(a: Claims, b: Claims, c: Claims)
    requires MayMint(a, b).None? && MayMint(b, c).None?
    ensures MayMint(a, c).None?
  {
    forall x | x in c.act ensures a.Permits(x) {
      assert b.Permits(x);
    }
    if !a.IsWildcard() {
      assert !b.IsWildcard() && !c.IsWildcard();
      forall p | p in c.prj ensures Holds(a.prj, p) {
        assert Holds(b.prj, p);
        var k :| 0 <= k < |b.prj| && EqIgnoreCase(b.prj[k], p);
        assert b.prj[k] in b.prj && Holds(a.prj, b.prj[k]);
        var h :| 0 <= h < |a.prj| && EqIgnoreCase(a.prj[h], b.prj[k]);
        EqIgnoreCaseTransitive(a.prj[h], b.prj[k], p);
      }
    }
  }

  /** A chain of mintings: each token was minted by the one before it, which was
      live when it asked, at a second no earlier than the minting before. */
  ghost predicate Chain(tokens: seq<Claims>, asked: seq<u64>, leeway: u64) {
    |tokens| == |asked| + 1 &&
    (forall k :: 0 <= k < |asked| ==> Minted(tokens[k], tokens[k + 1], asked[k], leeway)) &&
    forall k :: 0 < k < |asked| ==> tokens[k].nbf <= asked[k]
  }

  ghost predicate Minted(minter: Claims, token: Claims, asked: u64, leeway: u64) {
    minter.Live(leeway, asked) && MayMint(minter, token).None? && asked <= token.nbf
  }

  /** Along any chain, whatever the last token is accepted for at a second since it
      was minted, every ancestor is accepted for at that second. */
  lemma {:induction false} ChainNeverWidens(
    tokens: seq<Claims>, asked: seq<u64>, leeway: u64, i: nat, s: u64, u: Uuid, a: Action)
    requires Chain(tokens, asked, leeway) && i < |tokens|
    requires |asked| > 0 ==> s >= tokens[|asked|].nbf
    requires Accepted(tokens[|asked|], leeway, s, u, a)
    ensures Accepted(tokens[i], leeway, s, u, a)
  {
    var n := |asked|;
    if i < n {
      assert Minted(tokens[n - 1], tokens[n], asked[n - 1], leeway);
      PermittedMintGainsNothing(tokens[n - 1], tokens[n], leeway, asked[n - 1]);
      assert n - 1 > 0 ==> tokens[n - 1].nbf <= asked[n - 1];
      ChainNeverWidens(tokens[..n], asked[..n - 1], leeway, i, s, u, a);
    }
  }

  // ----- and refuses only what would -----

  /** Every entry is the wildcard or a stored project form, and there is at least one. */
  ghost predicate Normalised(prj: seq<string>) {
    prj != [] && forall k :: 0 <= k < |prj| ==> NormalEntry(prj[k])
  }

  ghost predicate NormalEntry(p: string) {
    p == WILDCARD || exists u: Uuid :: p == Simple(u)
  }

  lemma CoversSomething(c: Claims) returns (u: Uuid)
    requires Normalised(c.prj)
    ensures c.Covers(u)
  {
    assert NormalEntry(c.prj[0]);
    if c.prj[0] == WILDCARD {
      u := seq(32, _ => 0);
    } else {
      var v: Uuid :| c.prj[0] == Simple(v);
      EqIgnoreCaseReflexive(c.prj[0]);
      u := v;
    }
  }

  lemma WildcardGains(minter: Claims, wanted: Claims) returns (u: Uuid)
    requires !minter.IsWildcard() && wanted.IsWildcard() && |minter.prj| < Pow16(32)
    ensures wanted.Covers(u) && !minter.Covers(u)
  {
    u := SomeUuidIsNotSpelled(minter.prj);
    var k :| 0 <= k < |wanted.prj| && wanted.prj[k] == WILDCARD;
  }

  lemma ProjectGains(minter: Claims, wanted: Claims, p: string) returns (u: Uuid)
    requires !minter.IsWildcard() && !wanted.IsWildcard() && Normalised(wanted.prj)
    requires p in wanted.prj && !Holds(minter.prj, p)
    ensures wanted.Covers(u) && !minter.Covers(u)
  {
    var k :| 0 <= k < |wanted.prj| && wanted.prj[k] == p;
    assert NormalEntry(wanted.prj[k]);
    u :| p == Simple(u);
    EqIgnoreCaseReflexive(p);
  }

  /** A request as the mint endpoint builds it, from a minter whose own expiry plus
      leeway does not saturate. */
  ghost predicate WellFormedRequest(minter: Claims, wanted: Claims, leeway: u64, asked: u64) {
    minter.Live(leeway, asked) && asked <= wanted.nbf &&
    wanted.act != [] && Normalised(wanted.prj) && |minter.prj| < Pow16(32) &&
    (wanted.exp.Some? ==> wanted.exp.value >= wanted.nbf) &&
    (minter.exp.Some? ==> minter.exp.value + leeway < U64_MAX)
  }

  lemma GainAt(minter: Claims, wanted: Claims, leeway: u64, s: u64, u: Uuid, a: Action)
    requires s >= wanted.nbf && Accepted(wanted, leeway, s, u, a) && !Accepted(minter, leeway, s, u, a)
    ensures GainsSomething(minter, wanted, leeway, wanted.nbf)
  {
  }

  /** For a well-formed request the rule is exact: minting is allowed if and only if
      the minter holds `mint` and the new token would never be accepted for
      anything the minter is not. */
  lemma MayMintIsExact(minter: Claims, wanted: Claims, leeway: u64, asked: u64)
    requires WellFormedRequest(minter, wanted, leeway, asked)
    ensures MayMint(minter, wanted).None? <==>
      minter.Permits(MintAction) && !GainsSomething(minter, wanted, leeway, wanted.nbf)
  {
    var t := wanted.nbf;
    match MayMint(minter, wanted) {
      case None =>
        PermittedMintGainsNothing(minter, wanted, leeway, asked);
      case Some(MintNotHeld) =>
      case Some(ActionNotHeld(a)) =>
        var u := CoversSomething(wanted);
        GainAt(minter, wanted, leeway, t, u, a);
      case Some(WildcardNotHeld) =>
        var u := WildcardGains(minter, wanted);
        GainAt(minter, wanted, leeway, t, u, wanted.act[0]);
      case Some(ProjectNotHeld(p)) =>
        var u := ProjectGains(minter, wanted, p);
        GainAt(minter, wanted, leeway, t, u, wanted.act[0]);
      case Some(_) =>
        var u := CoversSomething(wanted);
        var late := minter.exp.value + leeway + 1;
        GainAt(minter, wanted, leeway, if late > t then late else t, u, wanted.act[0]);
    }
  }

  // ----- and before the minting second -----

  function Later(a: u64, b: u64): u64 {
    if a > b then a else b
  }

  /** The first second from `t` on at which `c` has begun, leeway included. */
  function Opens(c: Claims, leeway: u64, t: u64): u64 {
    Later(t, if c.nbf > leeway then c.nbf - leeway else 0)
  }

  /** A minter that has begun by the time the new token opens never gains it anything. */
  lemma NoGainOnceBegun(minter: Claims, wanted: Claims, leeway: u64, t: u64)
    requires MayMint(minter, wanted).None?
    requires wanted.Live(leeway, Opens(wanted, leeway, t)) ==> minter.nbf <= SatAdd(Opens(wanted, leeway, t), leeway)
    ensures !GainsSomething(minter, wanted, leeway, t)
  {
    forall u, a, s: u64 | s >= t && Accepted(wanted, leeway, s, u, a)
      ensures Accepted(minter, leeway, s, u, a)
    {
      CoverageIsContained(minter, wanted, u);
      assert Opens(wanted, leeway, t) <= s;
    }
  }

  /** Exactly when a permitted minting gains something from second `t` on: when the new
      token opens, at `t` or later, at a second the minter has not reached. */
  lemma GainsExactlyFrom(minter: Claims, wanted: Claims, leeway: u64, t: u64)
    requires MayMint(minter, wanted).None? && wanted.act != [] && Normalised(wanted.prj)
    ensures GainsSomething(minter, wanted, leeway, t) <==>
      wanted.Live(leeway, Opens(wanted, leeway, t)) && minter.nbf > SatAdd(Opens(wanted, leeway, t), leeway)
  {
    var s := Opens(wanted, leeway, t);
    if wanted.Live(leeway, s) && minter.nbf > SatAdd(s, leeway) {
      var u := CoversSomething(wanted);
      assert Accepted(wanted, leeway, s, u, wanted.act[0]) && !Accepted(minter, leeway, s, u, wanted.act[0]);
    } else {
      NoGainOnceBegun(minter, wanted, leeway, t);
    }
  }

  /** Over all seconds, those before the minting included, a permitted minting gains
      something if and only if the minter begins after the new token, and after the
      leeway: the leeway is applied to each `nbf` separately. */
  lemma WidensExactly(minter: Claims, wanted: Claims, leeway: u64)
    requires MayMint(minter, wanted).None? && wanted.act != [] && Normalised(wanted.prj)
    requires wanted.exp.Some? ==> wanted.exp.value >= wanted.nbf
    ensures GainsSomething(minter, wanted, leeway, 0) <==> minter.nbf > Later(wanted.nbf, leeway)
  {
    GainsExactlyFrom(minter, wanted, leeway, 0);
  }

  lemma {:induction false} ChainMayMint(tokens: seq<Claims>, asked: seq<u64>, leeway: u64, i: nat)
    requires Chain(tokens, asked, leeway) && i < |asked|
    ensures MayMint(tokens[i], tokens[|asked|]).None?
    ensures i > 0 ==> tokens[i].nbf <= tokens[|asked|].nbf
  {
    var n := |asked|;
    assert Minted(tokens[n - 1], tokens[n], asked[n - 1], leeway);
    assert n - 1 > 0 ==> tokens[n - 1].nbf <= asked[n - 1];
    if i < n - 1 {
      ChainMayMint(tokens[..n], asked[..n - 1], leeway, i);
      MayMintIsTransitive(tokens[i], tokens[n - 1], tokens[n]);
    }
  }

  /** The same along a chain: over all seconds the last token gains something over an
      ancestor if and only if that ancestor begins after it, and after the leeway. */
  lemma ChainWidensExactly(tokens: seq<Claims>, asked: seq<u64>, leeway: u64, i: nat)
    requires Chain(tokens, asked, leeway) && i < |asked|
    requires tokens[|asked|].act != [] && Normalised(tokens[|asked|].prj)
    requires tokens[|asked|].exp.Some? ==> tokens[|asked|].exp.value >= tokens[|asked|].nbf
    ensures GainsSomething(tokens[i], tokens[|asked|], leeway, 0) <==> tokens[i].nbf > Later(tokens[|asked|].nbf, leeway)
  {
    ChainMayMint(tokens, asked, leeway, i);
    WidensExactly(tokens[i], tokens[|asked|], leeway);
  }

  /** So only the first token of a chain can be widened: over an ancestor that was itself
      minted along the chain the last token gains nothing at any second whatever. */
  lemma MintedAncestorsAreNeverWidened(tokens: seq<Claims>, asked: seq<u64>, leeway: u64, i: nat)
    requires Chain(tokens, asked, leeway) && 0 < i < |asked|
    ensures !GainsSomething(tokens[i], tokens[|asked|], leeway, 0)
  {
    ChainMayMint(tokens, asked, leeway, i);
    NoGainOnceBegun(tokens[i], tokens[|asked|], leeway, 0);
  }

  /** A minting that does widen, at a second before it, which only a clock that ran
      back can reach. */
  lemma ClockRunningBackWidens() returns (minter: Claims, token: Claims)
    ensures Minted(minter, token, 1000, 60)
    ensures GainsSomething(minter, token, 60, 0) && !GainsSomething(minter, token, 60, token.nbf)
  {
    minter := Claims(ISSUER, "", "", 1060, 1060, None, [WILDCARD], [Search, MintAction], []);
    token := Claims(ISSUER, "", "", 1000, 1000, None, [WILDCARD], [Search], []);
    WidensExactly(minter, token, 60);
    PermittedMintGainsNothing(minter, token, 60, 1000);
  }

  // ----- minting -----

  function NormalizeProject(raw: string): Option<string> {
    if Trim(raw) == WILDCARD then Some(WILDCARD)
    else
      match Parse(Trim(raw))
      case None => None
      case Some(u) => Some(Simple(u))
  }

  /** A normalised entry reaches exactly the project the raw spelling names, or all. */
  lemma NormalizedEntryReaches(raw: string, u: Uuid)
    requires NormalizeProject(raw).Some?
    ensures NormalEntry(NormalizeProject(raw).value)
    ensures var e := NormalizeProject(raw).value;
      (e == WILDCARD || EqIgnoreCase(e, Simple(u))) <==> (Trim(raw) == WILDCARD || Parse(Trim(raw)) == Some(u))
  {
    if Trim(raw) != WILDCARD {
      var v := Parse(Trim(raw)).value;
      if EqIgnoreCase(Simple(v), Simple(u)) {
        SimpleIsInjective(v, u);
      }
      EqIgnoreCaseReflexive(Simple(v));
    }
  }

  /** `collect::<Result<Vec<_>, _>>()`: all or nothing. */
  function NormalizeAll(raws: seq<string>): (r: Option<seq<string>>)
    ensures r.Some? ==> |r.value| == |raws| && forall k :: 0 <= k < |raws| ==> NormalizeProject(raws[k]) == Some(r.value[k])
    ensures r.None? ==> exists k :: 0 <= k < |raws| && NormalizeProject(raws[k]).None?
  {
    if raws == [] then Some([])
    else
      match (NormalizeProject(raws[0]), NormalizeAll(raws[1..]))
      case (Some(e), Some(rest)) => Some([e] + rest)
      case (None, _) => None
      case (Some(_), None) =>
        assert exists k :: 0 <= k < |raws[1..]| && NormalizeProject(raws[1..][k]).None? && raws[1..][k] == raws[k + 1];
        None
  }

  /** `now + days.saturating_mul(86_400)`: the addition itself wraps in a release build. */
  function Expiry(now: u64, days: u64): u64 {
    var span := if days * 86_400 <= U64_MAX then days * 86_400 else U64_MAX;
    (now + span) % (U64_MAX + 1)
  }

  /** Sorted and without duplicates. */
  function Audiences(aud: seq<Audience>): seq<Audience> {
    (if Cli in aud then [Cli] else []) + (if Vscode in aud then [Vscode] else []) + if Agent in aud then [Agent] else []
  }

  /** The claims of `mint_with_key`; None is a project that is neither a GUID nor the wildcard. */
  function MintClaims(
    now: u64, sub: string, jti: string, projects: seq<string>, actions: seq<Action>, audiences: seq<Audience>, days: u64)
    : Option<Claims>
  {
    match NormalizeAll(projects)
    case None => None
    case Some(prj) =>
      var exp := if days > 0 then Some(Expiry(now, days)) else None;
      Some(Claims(ISSUER, sub, jti, now, now, exp, prj, actions, Audiences(audiences)))
  }

  /** A minted token reaches exactly the projects it was asked for, in whatever
      accepted spelling they were written. */
  lemma MintedTokenReachesWhatWasAsked(
    now: u64, sub: string, jti: string, projects: seq<string>, actions: seq<Action>, audiences: seq<Audience>, days: u64, u: Uuid)
    requires MintClaims(now, sub, jti, projects, actions, audiences, days).Some?
    ensures MintClaims(now, sub, jti, projects, actions, audiences, days).value.Covers(u) <==>
      exists k :: 0 <= k < |projects| && (Trim(projects[k]) == WILDCARD || Parse(Trim(projects[k])) == Some(u))
  {
    var c := MintClaims(now, sub, jti, projects, actions, audiences, days).value;
    forall k | 0 <= k < |projects|
      ensures (c.prj[k] == WILDCARD || EqIgnoreCase(c.prj[k], Simple(u))) <==>
        (Trim(projects[k]) == WILDCARD || Parse(Trim(projects[k])) == Some(u))
    {
      NormalizedEntryReaches(projects[k], u);
    }
  }

  datatype MintOutcome = Issued(claims: Claims) | NoDays | BadProject | TooMuch(why: Refusal)

  /** `POST /auth/tokens` once the payload's names have been parsed. */
  function PostAuthTokens(
    minter: Claims, now: u64, maxDays: u64, sub: string, jti: string,
    projects: seq<string>, actions: seq<Action>, audiences: seq<Audience>, days: u64): MintOutcome
  {
    if days == 0 then NoDays
    else
      match MintClaims(now, sub, jti, projects, actions, audiences, Granted(days, maxDays))
      case None => BadProject
      case Some(c) => if MayMint(minter, c).Some? then TooMuch(MayMint(minter, c).value) else Issued(c)
  }

  lemma ExpiryWithin(now: u64, days: u64, maxDays: u64)
    requires 1 <= days <= maxDays && now + maxDays * 86_400 <= U64_MAX
    ensures now < Expiry(now, days) <= now + maxDays * 86_400
  {
    assert days * 86_400 <= maxDays * 86_400;
  }

  /** The days the endpoint grants. */
  function Granted(days: u64, maxDays: u64): u64 {
    if days < maxDays then days else maxDays
  }

  /** What the endpoint issues is one step of a chain and expires within the ceiling. */
  lemma IssuedIsAStep(
    minter: Claims, asked: u64, now: u64, maxDays: u64, leeway: u64, sub: string, jti: string,
    projects: seq<string>, actions: seq<Action>, audiences: seq<Audience>, days: u64)
    requires minter.Live(leeway, asked) && asked <= now && 1 <= maxDays && now + maxDays * 86_400 <= U64_MAX
    ensures var r := PostAuthTokens(minter, now, maxDays, sub, jti, projects, actions, audiences, days);
      r.Issued? ==>
        (Minted(minter, r.claims, asked, leeway) && r.claims.exp.Some? &&
         now < r.claims.exp.value <= now + maxDays * 86_400)
  {
    if days > 0 {
      ExpiryWithin(now, Granted(days, maxDays), maxDays);
    }
  }

  lemma MintedClaimsAreNormalised(
    now: u64, sub: string, jti: string, projects: seq<string>, actions: seq<Action>, audiences: seq<Audience>, days: u64)
    requires projects != [] && MintClaims(now, sub, jti, projects, actions, audiences, days).Some?
    ensures Normalised(MintClaims(now, sub, jti, projects, actions, audiences, days).value.prj)
  {
    var c := MintClaims(now, sub, jti, projects, actions, audiences, days).value;
    forall k | 0 <= k < |c.prj| ensures NormalEntry(c.prj[k]) {
      NormalizedEntryReaches(projects[k], seq(32, _ => 0));
    }
  }

  /** The endpoint refuses a well-spelled, non-empty grant exactly when `mint` is
      missing or the grant would gain something. */
  lemma EndpointIsExact(
    minter: Claims, asked: u64, now: u64, maxDays: u64, leeway: u64, sub: string, jti: string,
    projects: seq<string>, actions: seq<Action>, audiences: seq<Audience>, days: u64)
    requires minter.Live(leeway, asked) && asked <= now && 1 <= maxDays && now + maxDays * 86_400 <= U64_MAX
    requires |minter.prj| < Pow16(32) && (minter.exp.Some? ==> minter.exp.value + leeway < U64_MAX)
    requires days > 0 && NormalizeAll(projects).Some? && projects != [] && actions != []
    ensures var c := MintClaims(now, sub, jti, projects, actions, audiences, Granted(days, maxDays)).value;
      PostAuthTokens(minter, now, maxDays, sub, jti, projects, actions, audiences, days).Issued? <==>
      minter.Permits(MintAction) && !GainsSomething(minter, c, leeway, now)
  {
    var d := Granted(days, maxDays);
    ExpiryWithin(now, d, maxDays);
    MintedClaimsAreNormalised(now, sub, jti, projects, actions, audiences, d);
    MayMintIsExact(minter, MintClaims(now, sub, jti, projects, actions, audiences, d).value, leeway, asked);
  }

  // ----- what is issued, in the terms of the request -----

  /** Whether one requested entry reaches project `u`. */
  ghost predicate EntryNames(raw: string, u: Uuid) {
    Trim(raw) == "*" || Spells(Trim(raw), u)
  }

  lemma MintedProjectsAreThoseAsked(
    now: u64, sub: string, jti: string, projects: seq<string>, actions: seq<Action>, audiences: seq<Audience>, days: u64, u: Uuid)
    requires MintClaims(now, sub, jti, projects, actions, audiences, days).Some?
    ensures MintClaims(now, sub, jti, projects, actions, audiences, days).value.Covers(u) <==>
      exists k :: 0 <= k < |projects| && EntryNames(projects[k], u)
  {
    MintedTokenReachesWhatWasAsked(now, sub, jti, projects, actions, audiences, days, u);
    forall k | 0 <= k < |projects|
      ensures EntryNames(projects[k], u) <==> Trim(projects[k]) == WILDCARD || Parse(Trim(projects[k])) == Some(u)
    {
      ParseIsExact(Trim(projects[k]), u);
    }
  }

  /** The expiry in plain numbers, where nothing overflows. */
  lemma ExpiryIsExact(now: u64, days: u64)
    requires now + days * 86_400 <= U64_MAX
    ensures Expiry(now, days) == now + days * 86_400
  {
  }

  /** A minted token says what was asked for and no more: exactly the actions and the
      projects requested, each requested audience once, the subject, the identifier and
      the second given, and an expiry that many days later, or none for zero days. */
  lemma MintedIsWhatWasAsked(
    now: u64, sub: string, jti: string, projects: seq<string>, actions: seq<Action>, audiences: seq<Audience>, days: u64)
    requires MintClaims(now, sub, jti, projects, actions, audiences, days).Some?
    ensures var c := MintClaims(now, sub, jti, projects, actions, audiences, days).value;
      && c.iss == "mindex" && c.sub == sub && c.jti == jti && c.iat == now && c.nbf == now
      && c.act == actions && (forall a :: c.Permits(a) <==> a in actions)
      && (forall u :: c.Covers(u) <==> exists k :: 0 <= k < |projects| && EntryNames(projects[k], u))
      && (forall x :: x in c.aud <==> x in audiences)
      && (forall i, j :: 0 <= i < j < |c.aud| ==> Rank(c.aud[i]) < Rank(c.aud[j]))
      && (c.exp.None? <==> days == 0)
      && (days > 0 && now + days * 86_400 <= U64_MAX ==> c.exp.Some? && c.exp.value == now + days * 86_400)
  {
    var c := MintClaims(now, sub, jti, projects, actions, audiences, days).value;
    forall u ensures c.Covers(u) <==> exists k :: 0 <= k < |projects| && EntryNames(projects[k], u) {
      MintedProjectsAreThoseAsked(now, sub, jti, projects, actions, audiences, days, u);
    }
    AudiencesAreThoseAsked(audiences);
    if now as int + days as int * 86_400 <= U64_MAX {
      ExpiryIsExact(now, days);
    }
  }

  /** So does a token the endpoint issues, with the requested days up to the ceiling. A
      ceiling of zero days would make it a token that never expires. */
  lemma IssuedIsWhatWasAsked(
    minter: Claims, now: u64, maxDays: u64, sub: string, jti: string,
    projects: seq<string>, actions: seq<Action>, audiences: seq<Audience>, days: u64)
    requires PostAuthTokens(minter, now, maxDays, sub, jti, projects, actions, audiences, days).Issued?
    ensures var c := PostAuthTokens(minter, now, maxDays, sub, jti, projects, actions, audiences, days).claims;
      && c.iss == "mindex" && c.sub == sub && c.jti == jti && c.iat == now && c.nbf == now
      && c.act == actions && (forall a :: c.Permits(a) <==> a in actions)
      && (forall u :: c.Covers(u) <==> exists k :: 0 <= k < |projects| && EntryNames(projects[k], u))
      && (forall x :: x in c.aud <==> x in audiences)
      && (forall i, j :: 0 <= i < j < |c.aud| ==> Rank(c.aud[i]) < Rank(c.aud[j]))
    ensures var c := PostAuthTokens(minter, now, maxDays, sub, jti, projects, actions, audiences, days).claims;
      var granted: nat := if days < maxDays then days else maxDays;
      && days > 0 && (c.exp.None? <==> maxDays == 0)
      && (maxDays > 0 && now + granted * 86_400 <= U64_MAX ==> c.exp.Some? && c.exp.value == now + granted * 86_400)
  {
    MintedIsWhatWasAsked(now, sub, jti, projects, actions, audiences, Granted(days, maxDays));
  }

  /** The declared order of the audiences. */
  function Rank(a: Audience): nat {
    match a
    case Cli => 0
    case Vscode => 1
    case Agent => 2
  }

  /** Sorting and removing duplicates: each requested audience once, in declared order. */
  lemma AudiencesAreThoseAsked(aud: seq<Audience>)
    ensures forall x :: x in Audiences(aud) <==> x in aud
    ensures forall i, j :: 0 <= i < j < |Audiences(aud)| ==> Rank(Audiences(aud)[i]) < Rank(Audiences(aud)[j])
  {
    forall x ensures x in Audiences(aud) <==> x in aud {
      match x {
        case Cli =>
        case Vscode =>
        case Agent =>
      }
    }
  }

  // ----- and why not -----

  /** A requested entry is the wildcard or one of the spellings of a project. */
  ghost predicate NamesSomething(raw: string) {
    Trim(raw) == "*" || exists u :: Spells(Trim(raw), u)
  }

  lemma NormalizesExactly(raw: string)
    ensures NormalizeProject(raw).Some? <==> NamesSomething(raw)
  {
    if Parse(Trim(raw)).Some? {
      ParseIsExact(Trim(raw), Parse(Trim(raw)).value);
    }
    if u :| Spells(Trim(raw), u) {
      ParseIsExact(Trim(raw), u);
    }
  }

  /** The endpoint's refusals before the containment rule. */
  lemma EndpointRefusals(
    minter: Claims, now: u64, maxDays: u64, sub: string, jti: string,
    projects: seq<string>, actions: seq<Action>, audiences: seq<Audience>, days: u64)
    ensures var r := PostAuthTokens(minter, now, maxDays, sub, jti, projects, actions, audiences, days);
      && (r == NoDays <==> days == 0)
      && (r == BadProject <==> days > 0 && exists k :: 0 <= k < |projects| && !NamesSomething(projects[k]))
  {
    forall k | 0 <= k < |projects| ensures NormalizeProject(projects[k]).Some? <==> NamesSomething(projects[k]) {
      NormalizesExactly(projects[k]);
    }
  }

  predicate ActionsHeld(minter: Claims, acts: seq<Action>) {
    forall k :: 0 <= k < |acts| ==> acts[k] in minter.act
  }

  /** The first entry of `s` for which the minter falls short. */
  ghost predicate FirstShort<T>(s: seq<T>, x: T, held: T -> bool) {
    exists k :: 0 <= k < |s| && s[k] == x && !held(x) && forall j :: 0 <= j < k ==> held(s[j])
  }

  lemma {:induction false} FirstNotPermittedIs(minter: Claims, acts: seq<Action>, a: Action)
    ensures FirstNotPermitted(minter, acts) == Some(a) <==> FirstShort(acts, a, (x: Action) => x in minter.act)
    ensures FirstNotPermitted(minter, acts).None? <==> ActionsHeld(minter, acts)
  {
    var held := (x: Action) => x in minter.act;
    if acts != [] && minter.Permits(acts[0]) {
      FirstNotPermittedIs(minter, acts[1..], a);
      FirstShortTail(acts, a, held);
    } else if acts != [] {
      assert acts[0] in acts;
    }
  }

  lemma {:induction false} FirstNotHeldIs(minter: Claims, prj: seq<string>, p: string)
    ensures FirstNotHeld(minter, prj) == Some(p) <==> FirstShort(prj, p, (x: string) => Holds(minter.prj, x))
    ensures FirstNotHeld(minter, prj).None? <==> forall k :: 0 <= k < |prj| ==> Holds(minter.prj, prj[k])
  {
    var held := (x: string) => Holds(minter.prj, x);
    if prj != [] && Holds(minter.prj, prj[0]) {
      FirstNotHeldIs(minter, prj[1..], p);
      FirstShortTail(prj, p, held);
    } else if prj != [] {
      assert prj[0] in prj;
    }
  }

  lemma {:induction false} FirstShortTail<T>(s: seq<T>, x: T, held: T -> bool)
    requires s != [] && held(s[0])
    ensures FirstShort(s, x, held) <==> FirstShort(s[1..], x, held)
  {
    if k :| 0 <= k < |s| && s[k] == x && !held(x) && forall j :: 0 <= j < k ==> held(s[j]) {
      assert s[1..][k - 1] == x;
      assert forall j :: 0 <= j < k - 1 ==> s[1..][j] == s[j + 1];
    }
    if k :| 0 <= k < |s[1..]| && s[1..][k] == x && !held(x) && forall j :: 0 <= j < k ==> held(s[1..][j]) {
      assert s[k + 1] == x;
      assert forall j :: 0 < j < k + 1 ==> s[j] == s[1..][j - 1];
    }
  }

  /** Nothing but the expiry stands in the way. */
  ghost predicate WithinReach(minter: Claims, wanted: Claims) {
    MintAction in minter.act && ActionsHeld(minter, wanted.act) &&
    ("*" in minter.prj || ("*" !in wanted.prj && forall k :: 0 <= k < |wanted.prj| ==> Holds(minter.prj, wanted.prj[k])))
  }

  /** Each refusal of `may_mint`, exactly: the first reason in the order of the checks,
      and within one check the first entry that falls short. */
  lemma RefusalIsExact(minter: Claims, wanted: Claims)
    ensures MayMint(minter, wanted) == Some(MintNotHeld) <==> MintAction !in minter.act
    ensures forall a :: MayMint(minter, wanted) == Some(ActionNotHeld(a)) <==>
      MintAction in minter.act && FirstShort(wanted.act, a, (x: Action) => x in minter.act)
    ensures MayMint(minter, wanted) == Some(WildcardNotHeld) <==>
      MintAction in minter.act && ActionsHeld(minter, wanted.act) && "*" in wanted.prj && "*" !in minter.prj
    ensures forall p :: MayMint(minter, wanted) == Some(ProjectNotHeld(p)) <==>
      MintAction in minter.act && ActionsHeld(minter, wanted.act) && "*" !in wanted.prj && "*" !in minter.prj &&
      FirstShort(wanted.prj, p, (x: string) => Holds(minter.prj, x))
    ensures MayMint(minter, wanted) == Some(ForeverNotHeld) <==>
      WithinReach(minter, wanted) && minter.exp.Some? && wanted.exp.None?
    ensures MayMint(minter, wanted) == Some(LaterThanMinter) <==>
      WithinReach(minter, wanted) && minter.exp.Some? && wanted.exp.Some? && wanted.exp.value > minter.exp.value
  {
    forall a ensures FirstNotPermitted(minter, wanted.act) == Some(a) <==> FirstShort(wanted.act, a, (x: Action) => x in minter.act) {
      FirstNotPermittedIs(minter, wanted.act, a);
    }
    forall p ensures FirstNotHeld(minter, wanted.prj) == Some(p) <==> FirstShort(wanted.prj, p, (x: string) => Holds(minter.prj, x)) {
      FirstNotHeldIs(minter, wanted.prj, p);
    }
    FirstNotPermittedIs(minter, wanted.act, Search);
    FirstNotHeldIs(minter, wanted.prj, "");
  }
}
