/**
 Runs of a token handler with an in-memory blocklist: each public call is one step, and time passes between steps.
 `revoke_token` reads any claims without verifying a signature, so a step may revoke anything.
 */
module TokenRuns {
  import opened Wrappers
  import opened Tokens

  // A token and the login it descends from.
  datatype Issue = Issue(token: Claims, login: nat)

  datatype World = World(
    now: Ticks,
    entries: Entries,
    issued: seq<Issue>,
    logins: seq<Claims>,   // the claims each login was made with
    jtis: set<string>,     // every identifier handed out so far
    spent: seq<string>)    // the refresh tokens that yielded a pair, once per pair

  // Verified tokens are named by their position among those issued; only those carry a valid signature.
  datatype Event =
    | Tick(ticks: Ticks)
    | Login(claims: Claims, accessJti: string, refreshJti: string)
    | Mint(claims: Claims, kind: TokenKind, jti: string)
    | Verify(token: nat, expected: Option<TokenKind>)
    | Revoke(claims: Claims)
    | RefreshWith(token: nat, accessJti: string, refreshJti: string)
    | Unblock(jti: string)
    | Cleanup

  ghost predicate Enabled(w: World, e: Event) {
    match e
    case Login(_, a, r) => a !in w.jtis && r !in w.jtis && a != r
    case Mint(_, kind, j) => kind != Service && j !in w.jtis
    case Verify(t, _) => t < |w.issued|
    case RefreshWith(t, a, r) => t < |w.issued| && a !in w.jtis && r !in w.jtis && a != r
    case _ => true
  }

  ghost predicate Accepted(c: Config, w: World, t: Claims, expected: Option<TokenKind>) {
    VerifiedAsync(c, w.entries, t, expected, w.now).Ok?
  }

  function Issues(pair: Pair, login: nat): seq<Issue> {
    [Issue(pair.access, login), Issue(pair.refresh, login)]
  }

  ghost function Step(c: Config, w: World, e: Event): World
    requires Enabled(w, e)
  {
    match e
    case Tick(d) => w.(now := w.now + d)
    case Login(base, a, r) =>
      w.(issued := w.issued + Issues(MintedPair(c, base, w.now, a, r), |w.logins|), logins := w.logins + [base],
         jtis := w.jtis + {a, r})
    case Mint(base, kind, j) =>
      w.(issued := w.issued + [Issue(Minted(c, base, kind, w.now, j), |w.logins|)], logins := w.logins + [base],
         jtis := w.jtis + {j})
    case Verify(_, _) => w
    case Revoke(claims) => w.(entries := RevokedEntries(w.entries, claims, w.now).0)
    case RefreshWith(t, a, r) =>
      var used := w.issued[t];
      if !Accepted(c, w, used.token, Some(Refresh)) then w
      else
        w.(entries := RevokedEntries(w.entries, used.token, w.now).0,
           issued := w.issued + Issues(Refreshed(c, used.token, w.now, a, r), used.login),
           jtis := w.jtis + {a, r},
           spent := w.spent + [used.token.jti.GetOr("")])
    case Unblock(j) => w.(entries := w.entries - {j})
    case Cleanup => w.(entries := Unexpired(w.entries, w.now))
  }

  // An access and a refresh token are added for a login, both of this identity.
  ghost predicate IssuesPair(c: Config, w: World, w': World, login: nat, base: Claims, a: string, r: string) {
    && |w'.issued| == |w.issued| + 2 && w'.issued[..|w.issued|] == w.issued
    && w'.jtis == w.jtis + {a, r} && w'.now == w.now
    && (var access, refresh := w'.issued[|w.issued|], w'.issued[|w.issued| + 1];
        && access.login == login && IssuedFor(c, access.token, Access, c.accessDuration, w.now, a)
        && refresh.login == login && IssuedFor(c, refresh.token, Refresh, c.refreshDuration, w.now, r)
        && SameIdentity(access.token, base) && SameIdentity(refresh.token, base))
  }

  // What each kind of step does to the world.
  lemma StepMeans(c: Config, w: World, e: Event)
    requires Enabled(w, e)
    ensures var w' := Step(c, w, e);
      match e
      case Tick(d) => w' == w.(now := w.now + d)
      case Login(base, a, r) =>
        && IssuesPair(c, w, w', |w.logins|, base, a, r)
        && w'.logins == w.logins + [base] && w'.entries == w.entries && w'.spent == w.spent
      case Mint(base, kind, j) =>
        && |w'.issued| == |w.issued| + 1 && w'.issued[..|w.issued|] == w.issued
        && (var duration := if kind == Refresh then c.refreshDuration else c.accessDuration;
            IssuedFor(c, w'.issued[|w.issued|].token, kind, duration, w.now, j))
        && SameIdentity(w'.issued[|w.issued|].token, base) && w'.issued[|w.issued|].login == |w.logins|
        && w'.logins == w.logins + [base] && w'.jtis == w.jtis + {j}
        && w'.now == w.now && w'.entries == w.entries && w'.spent == w.spent
      case Verify(_, _) => w' == w
      case Revoke(claims) =>
        RevokesTo(w.entries, claims, w.now, w'.entries) && w' == w.(entries := w'.entries)
      case RefreshWith(t, a, r) =>
        var used := w.issued[t];
        if !Accepted(c, w, used.token, Some(Refresh)) then w' == w
        else
          && IssuesPair(c, w, w', used.login, used.token, a, r)
          && RevokesTo(w.entries, used.token, w.now, w'.entries)
          && w'.logins == w.logins && w'.spent == w.spent + [used.token.jti.GetOr("")]
      case Unblock(j) => w' == w.(entries := w.entries - {j})
      case Cleanup =>
        && w' == w.(entries := w'.entries)
        && (forall j :: j in w'.entries <==> Blocked(w.entries, j, w.now))
        && (forall j <- w'.entries :: w'.entries[j] == w.entries[j])
  {
  }

  ghost predicate ValidRun(c: Config, w: World, events: seq<Event>)
    decreases |events|
  {
    events == [] || (Enabled(w, events[0]) && ValidRun(c, Step(c, w, events[0]), events[1..]))
  }

  ghost function After(c: Config, w: World, events: seq<Event>): World
    requires ValidRun(c, w, events)
    decreases |events|
  {
    if events == [] then w else After(c, Step(c, w, events[0]), events[1..])
  }

  // What callers stick to, judged before each step.
  type Policy = (World, Event) -> bool

  ghost predicate Obeys(c: Config, w: World, events: seq<Event>, policy: Policy)
    requires ValidRun(c, w, events)
    decreases |events|
  {
    events == [] || (policy(w, events[0]) && Obeys(c, Step(c, w, events[0]), events[1..], policy))
  }

  function Start(now: Ticks): World {
    World(now, map[], [], [], {}, [])
  }

  ghost predicate Reachable(c: Config, w: World, policy: Policy) {
    exists start, events ::
      ValidRun(c, Start(start), events) && Obeys(c, Start(start), events, policy) && After(c, Start(start), events) == w
  }

  predicate Anything(w: World, e: Event) {
    true
  }

  // ---------------------------------------------------------------- the invariant of every run

  // What the handler sets on every token it mints.
  ghost predicate Branded(c: Config, t: Claims) {
    t.exp.Some? && t.jti.Some? && t.iss == Some(c.issuer) && t.aud == Some(c.audience)
  }

  // Identifiers are fresh, every token carries its login's identity, and expiry is set by the handler.
  ghost predicate WellIssued(c: Config, w: World) {
    && (forall i :: 0 <= i < |w.issued| ==>
          && Branded(c, w.issued[i].token)
          && w.issued[i].token.jti.value in w.jtis
          && w.issued[i].login < |w.logins|
          && SameIdentity(w.issued[i].token, w.logins[w.issued[i].login]))
    && (forall i, j :: 0 <= i < j < |w.issued| ==> w.issued[i].token.jti != w.issued[j].token.jti)
    && (forall s <- w.spent :: s in w.jtis)
  }

  lemma StepWellIssued(c: Config, w: World, e: Event)
    requires WellIssued(c, w) && Enabled(w, e)
    ensures WellIssued(c, Step(c, w, e))
  {
    match e
    case Login(base, a, r) =>
      IssuePairWell(w, w.(logins := w.logins + [base]), c, base, a, r, |w.logins|);
    case Mint(base, kind, j) =>
      IssueWell(c, w, w.(logins := w.logins + [base]), Issue(Minted(c, base, kind, w.now, j), |w.logins|), j);
    case RefreshWith(t, a, r) =>
      IssuePairWell(w, w, c, Carried(w.issued[t].token), a, r, w.issued[t].login);
    case _ =>
  }

  // Issuing a token under a fresh identifier, for an existing login of the same identity.
  lemma IssueWell(c: Config, w: World, w': World, x: Issue, j: string)
    requires WellIssued(c, w)
    requires w'.issued == w.issued && w'.jtis == w.jtis && w'.spent == w.spent && w.logins <= w'.logins
    requires j !in w.jtis && x.token.jti == Some(j) && Branded(c, x.token)
    requires x.login < |w'.logins| && SameIdentity(x.token, w'.logins[x.login])
    ensures WellIssued(c, w'.(issued := w.issued + [x], jtis := w.jtis + {j}))
  {
  }

  lemma IssuePairWell(w: World, w': World, c: Config, base: Claims, a: string, r: string, login: nat)
    requires WellIssued(c, w)
    requires w'.issued == w.issued && w'.jtis == w.jtis && w'.spent == w.spent && w.logins <= w'.logins
    requires a !in w.jtis && r !in w.jtis && a != r && login < |w'.logins| && SameIdentity(base, w'.logins[login])
    ensures WellIssued(c, w'.(issued := w.issued + Issues(MintedPair(c, base, w.now, a, r), login),
                              jtis := w.jtis + {a, r}))
  {
    var xs := Issues(MintedPair(c, base, w.now, a, r), login);
    var w1 := w'.(issued := w.issued + [xs[0]], jtis := w.jtis + {a});
    IssueWell(c, w, w', xs[0], a);
    IssueWell(c, w1, w1, xs[1], r);
    assert w.issued + [xs[0]] + [xs[1]] == w.issued + xs && w.jtis + {a} + {r} == w.jtis + {a, r};
  }

  lemma {:induction false} RunWellIssued(c: Config, w: World, events: seq<Event>)
    requires WellIssued(c, w) && ValidRun(c, w, events)
    ensures WellIssued(c, After(c, w, events))
    decreases |events|
  {
    if events != [] {
      StepWellIssued(c, w, events[0]);
      RunWellIssued(c, Step(c, w, events[0]), events[1..]);
    }
  }

  lemma ReachableWellIssued(c: Config, w: World, policy: Policy)
    requires Reachable(c, w, policy)
    ensures WellIssued(c, w)
  {
    var start, events :|
      ValidRun(c, Start(start), events) && Obeys(c, Start(start), events, policy) &&
      After(c, Start(start), events) == w;
    RunWellIssued(c, Start(start), events);
  }

  // Whatever the configuration and whatever is revoked, every token of a family has the subject, tenant, roles, groups
  // and permissions of the login it descends from.
  lemma IdentityPreserved(c: Config, w: World, i: nat)
    requires Reachable(c, w, Anything) && i < |w.issued|
    ensures w.issued[i].login < |w.logins| && SameIdentity(w.issued[i].token, w.logins[w.issued[i].login])
  {
    ReachableWellIssued(c, w, Anything);
  }

  lemma ReachableStart(c: Config, now: Ticks, policy: Policy)
    ensures Reachable(c, Start(now), policy)
  {
    assert ValidRun(c, Start(now), []) && Obeys(c, Start(now), [], policy) && After(c, Start(now), []) == Start(now);
  }

  lemma ReachableStep(c: Config, w: World, e: Event, policy: Policy)
    requires Reachable(c, w, policy) && Enabled(w, e) && policy(w, e)
    ensures Reachable(c, Step(c, w, e), policy)
  {
    var start, events :|
      ValidRun(c, Start(start), events) && Obeys(c, Start(start), events, policy) &&
      After(c, Start(start), events) == w;
    RunExtend(c, Start(start), events, e, policy);
  }

  lemma {:induction false} RunExtend(c: Config, w: World, events: seq<Event>, e: Event, policy: Policy)
    requires ValidRun(c, w, events) && Obeys(c, w, events, policy)
    requires Enabled(After(c, w, events), e) && policy(After(c, w, events), e)
    ensures ValidRun(c, w, events + [e]) && Obeys(c, w, events + [e], policy)
    ensures After(c, w, events + [e]) == Step(c, After(c, w, events), e)
    decreases |events|
  {
    var all := events + [e];
    if events == [] {
      assert all[1..] == [];
    } else {
      assert all[1..] == events[1..] + [e];
      RunExtend(c, Step(c, w, events[0]), events[1..], e, policy);
    }
  }

  // ---------------------------------------------------------------- dead tokens

  predicate Strict(c: Config) {
    c.verifyExp && c.leeway == 0 && !c.acceptsAtExpiry
  }

  // Expired, or blocked for at least as long as it has left to live.
  ghost predicate Dead(w: World, t: Claims) {
    && t.exp.Some? && t.jti.Some?
    && (|| Seconds(w.now) >= t.exp.value
        || (t.jti.value in w.entries &&
            (w.entries[t.jti.value].None? || w.entries[t.jti.value].value >= t.exp.value * TICKS_PER_SECOND)))
  }

  function Waited(w: World, wait: Ticks): World {
    w.(now := w.now + wait)
  }

  // Waiting is all it takes for the token to be accepted.
  ghost predicate Returns(c: Config, w: World, t: Claims) {
    exists wait: Ticks :: Accepted(c, Waited(w, wait), t, Some(t.kind))
  }

  // Before its expiry a dead token is blocked, whatever the configuration.
  lemma DeadInForceIsRejected(c: Config, w: World, t: Claims, expected: Option<TokenKind>)
    requires Dead(w, t)
    ensures Seconds(w.now) < t.exp.value ==> !Accepted(c, w, t, expected)
  {
    if Seconds(w.now) < t.exp.value {
      assert w.now < t.exp.value * TICKS_PER_SECOND;
    }
  }

  lemma DeadIsRejected(c: Config, w: World, t: Claims, expected: Option<TokenKind>)
    requires Strict(c) && Dead(w, t)
    ensures !Accepted(c, w, t, expected)
  {
    DeadInForceIsRejected(c, w, t, expected);
  }

  // The dead are exactly those that waiting does not bring back.
  lemma DeadIff(c: Config, w: World, t: Claims)
    requires Strict(c) && Branded(c, t)
    ensures Dead(w, t) <==> !Returns(c, w, t)
  {
    if Dead(w, t) {
      forall wait: Ticks ensures !Accepted(c, Waited(w, wait), t, Some(t.kind)) {
        assert Seconds(w.now) <= Seconds(w.now + wait);
        DeadIsRejected(c, Waited(w, wait), t, Some(t.kind));
      }
    } else {
      var end := if t.jti.value in w.entries then w.entries[t.jti.value].value else 0;
      var wait := if end > w.now then end - w.now else 0;
      assert Seconds(w.now + wait) < t.exp.value;
      assert Accepted(c, Waited(w, wait), t, Some(t.kind));
    }
  }

  // A revocation that is reported done leaves the token dead, whatever was blocked before.
  lemma RevokeKills(w: World, t: Claims)
    requires t.exp.Some? && t.jti.Some?
    ensures RevokedEntries(w.entries, t, w.now).1
    ensures Dead(w.(entries := RevokedEntries(w.entries, t, w.now).0), t)
  {
    var remaining := t.exp.value - Seconds(w.now);
    assert Seconds(w.now) * TICKS_PER_SECOND <= w.now;
    if remaining > 0 {
      assert w.now + remaining * TICKS_PER_SECOND >= t.exp.value * TICKS_PER_SECOND;
    }
  }

  // A block is taken back early: by lifting it, or by revoking claims with the same identifier whose expiry is still
  // ahead but comes before the token's.
  ghost predicate Reopens(w: World, e: Event, t: Claims) {
    && t.exp.Some? && t.jti.Some?
    && match e
       case Revoke(f) => f.jti == t.jti && f.exp.Some? && Seconds(w.now) < f.exp.value < t.exp.value
       case Unblock(j) => t.jti.value == j && Seconds(w.now) < t.exp.value
       case _ => false
  }

  // Such a step, and no other, brings a dead token back.
  lemma DeadForever(c: Config, w: World, e: Event, i: nat)
    requires WellIssued(c, w) && Enabled(w, e) && i < |w.issued| && Dead(w, w.issued[i].token)
    ensures i < |Step(c, w, e).issued| && Step(c, w, e).issued[i] == w.issued[i]
    ensures Dead(Step(c, w, e), w.issued[i].token) <==> !Reopens(w, e, w.issued[i].token)
  {
    var t := w.issued[i].token;
    match e
    case Tick(d) => assert Seconds(w.now) <= Seconds(w.now + d);
    case Revoke(f) => RevokeKeepsDeadIff(w, f, t);
    case RefreshWith(j, _, _) =>
      assert i != j ==> w.issued[j].token.jti != t.jti;
      RevokeKeepsDeadIff(w, w.issued[j].token, t);
    case Cleanup =>
      if Seconds(w.now) < t.exp.value {
        assert w.now < t.exp.value * TICKS_PER_SECOND;
      }
    case _ =>
  }

  lemma RevokeKeepsDeadIff(w: World, f: Claims, t: Claims)
    requires Dead(w, t)
    ensures Dead(w.(entries := RevokedEntries(w.entries, f, w.now).0), t) <==> !Reopens(w, Revoke(f), t)
  {
    if f.jti == t.jti && f.exp.Some? && Seconds(w.now) < f.exp.value {
      BlockLength(w.now, f.exp.value, t.exp.value);
    }
  }

  // A block is dated from sub-second time, but it ends within the second of the expiry it was made for.
  lemma BlockLength(now: Ticks, exp: int, other: int)
    requires Seconds(now) < exp
    ensures now + (exp - Seconds(now)) * TICKS_PER_SECOND >= other * TICKS_PER_SECOND <==> exp >= other
  {
    var part := now - Seconds(now) * TICKS_PER_SECOND;
    assert 0 <= part < TICKS_PER_SECOND;
    assert now + (exp - Seconds(now)) * TICKS_PER_SECOND == exp * TICKS_PER_SECOND + part;
  }
}
