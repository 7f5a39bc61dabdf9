/**
 What revocation and refresh rotation guarantee over whole runs, what callers must do for it, and what fails otherwise.
 */
module TokenSafety {
  import opened Wrappers
  import opened Tokens
  import opened TokenRuns

  // ---------------------------------------------------------------- revocation is final

  ghost function Sparing(t: Claims): Policy {
    (w, e) => !Reopens(w, e, t)
  }

  ghost predicate NeverReturns(c: Config, w: World, events: seq<Event>, t: Claims)
    requires ValidRun(c, w, events)
    decreases |events|
  {
    !Returns(c, w, t) && (events != [] ==> NeverReturns(c, Step(c, w, events[0]), events[1..], t))
  }

  lemma {:induction false} DeadThroughoutIff(c: Config, w: World, events: seq<Event>, i: nat)
    requires WellIssued(c, w) && ValidRun(c, w, events) && i < |w.issued| && Dead(w, w.issued[i].token)
    ensures Obeys(c, w, events, Sparing(w.issued[i].token)) ==> Dead(After(c, w, events), w.issued[i].token)
    ensures Strict(c) ==>
      (NeverReturns(c, w, events, w.issued[i].token) <==> Obeys(c, w, events, Sparing(w.issued[i].token)))
    decreases |events|
  {
    var t := w.issued[i].token;
    if Strict(c) {
      DeadIff(c, w, t);
    }
    if events != [] {
      var w' := Step(c, w, events[0]);
      DeadForever(c, w, events[0], i);
      if !Reopens(w, events[0], t) {
        StepWellIssued(c, w, events[0]);
        DeadThroughoutIff(c, w', events[1..], i);
      } else if Strict(c) {
        DeadIff(c, w', t);
      }
    }
  }

  ghost function Revoked(c: Config, w: World, i: nat): World
    requires i < |w.issued|
  {
    Step(c, w, Revoke(w.issued[i].token))
  }

  lemma RevokedIsDead(c: Config, w: World, i: nat)
    requires Reachable(c, w, Anything) && i < |w.issued|
    ensures WellIssued(c, Revoked(c, w, i)) && Revoked(c, w, i).issued == w.issued
    ensures Dead(Revoked(c, w, i), w.issued[i].token)
  {
    ReachableWellIssued(c, w, Anything);
    RevokeKills(w, w.issued[i].token);
    StepWellIssued(c, w, Revoke(w.issued[i].token));
  }

  // For a strict verifier: in a run after its revocation, whatever happened before, a token stays out for good exactly
  // when no step takes its block back early.
  lemma RevocationHoldsIff(c: Config, w: World, i: nat, later: seq<Event>)
    requires Strict(c) && Reachable(c, w, Anything) && i < |w.issued| && ValidRun(c, Revoked(c, w, i), later)
    ensures NeverReturns(c, Revoked(c, w, i), later, w.issued[i].token) <==>
            Obeys(c, Revoked(c, w, i), later, Sparing(w.issued[i].token))
  {
    RevokedIsDead(c, w, i);
    DeadThroughoutIff(c, Revoked(c, w, i), later, i);
  }

  // Revoked tokens are rejected in every run that takes no block back early.
  ghost predicate RevocationFinal(c: Config) {
    forall w, i: nat, later, expected ::
      Reachable(c, w, Anything) && i < |w.issued| && ValidRun(c, Revoked(c, w, i), later) &&
      Obeys(c, Revoked(c, w, i), later, Sparing(w.issued[i].token)) ==>
      !Accepted(c, After(c, Revoked(c, w, i), later), w.issued[i].token, expected)
  }

  const NOBODY: Claims := Claims("", None, None, None, None, None, None, "", [], [], [], Access, None, None)

  // A token that is at its expiry, when tokens at their expiry are still accepted.
  lemma Overdue(c: Config, kind: TokenKind, jti: string, policy: Policy) returns (w: World)
    requires !Strict(c) && kind != Service
    requires forall v: World, e: Event :: !e.Revoke? && !e.Unblock? ==> policy(v, e)
    ensures Reachable(c, w, policy)
    ensures w.issued == [Issue(Minted(c, NOBODY, kind, 0, jti), 0)]
    ensures w.entries == map[] && w.spent == [] && w.jtis == {jti}
    ensures Remaining(w.issued[0].token, w.now) == Some(0)
    ensures forall expected :: expected in {None, Some(kind)} ==> Accepted(c, w, w.issued[0].token, expected)
  {
    var duration := if kind == Refresh then c.refreshDuration else c.accessDuration;
    var w1 := Step(c, Start(0), Mint(NOBODY, kind, jti));
    w := Step(c, w1, Tick(duration));
    ReachableStart(c, 0, policy);
    ReachableStep(c, Start(0), Mint(NOBODY, kind, jti), policy);
    ReachableStep(c, w1, Tick(duration), policy);
  }

  // Such runs keep revoked tokens out exactly when expiry is checked, without leeway and without grace.
  lemma RevocationFinalIff(c: Config)
    ensures RevocationFinal(c) <==> Strict(c)
  {
    if Strict(c) {
      forall w, i: nat, later, expected |
        Reachable(c, w, Anything) && i < |w.issued| && ValidRun(c, Revoked(c, w, i), later) &&
        Obeys(c, Revoked(c, w, i), later, Sparing(w.issued[i].token))
        ensures !Accepted(c, After(c, Revoked(c, w, i), later), w.issued[i].token, expected)
      {
        RevokedIsDead(c, w, i);
        DeadThroughoutIff(c, Revoked(c, w, i), later, i);
        DeadIsRejected(c, After(c, Revoked(c, w, i), later), w.issued[i].token, expected);
      }
    } else {
      var w := Overdue(c, Access, "", Anything);
      var w' := Revoked(c, w, 0);
      assert w' == w && ValidRun(c, w', []) && After(c, w', []) == w && Obeys(c, w', [], Sparing(w.issued[0].token));
      assert Accepted(c, After(c, w', []), w.issued[0].token, None);
    }
  }

  // Under any configuration a revoked token whose block is not taken back can be accepted only once it is past its
  // expiry, and with expiry checked only until leeway and grace are over.
  lemma RevivedOnlyInLeeway(c: Config, w: World, i: nat, later: seq<Event>, expected: Option<TokenKind>)
    requires Reachable(c, w, Anything) && i < |w.issued| && ValidRun(c, Revoked(c, w, i), later)
    requires Obeys(c, Revoked(c, w, i), later, Sparing(w.issued[i].token))
    requires Accepted(c, After(c, Revoked(c, w, i), later), w.issued[i].token, expected)
    ensures var now := After(c, Revoked(c, w, i), later).now;
      && w.issued[i].token.exp.Some? && w.issued[i].token.exp.value <= Seconds(now)
      && (c.verifyExp ==> Seconds(now) < w.issued[i].token.exp.value + c.leeway + Grace(c))
  {
    RevokedIsDead(c, w, i);
    DeadThroughoutIff(c, Revoked(c, w, i), later, i);
    DeadInForceIsRejected(c, After(c, Revoked(c, w, i), later), w.issued[i].token, expected);
  }

  // ---------------------------------------------------------------- refresh rotation

  ghost predicate RefreshSiblings(w: World, i: int, j: int) {
    && 0 <= i < j < |w.issued|
    && w.issued[i].login == w.issued[j].login
    && w.issued[i].token.kind == Refresh && w.issued[j].token.kind == Refresh
  }

  ghost predicate Spent(w: World, i: int) {
    0 <= i < |w.issued| && w.issued[i].token.jti.GetOr("") in w.spent
  }

  ghost predicate NoRepeats(s: seq<string>) {
    forall i, j :: 0 <= i < j < |s| ==> s[i] != s[j]
  }

  // Of a login's refresh tokens all but the newest are spent; the spent are dead, and each was spent once.
  ghost predicate Rotated(w: World) {
    && (forall i, j :: RefreshSiblings(w, i, j) ==> Spent(w, i))
    && (forall i :: Spent(w, i) ==> Dead(w, w.issued[i].token))
    && NoRepeats(w.spent)
  }

  ghost predicate SparingSpent(w: World, e: Event) {
    forall i :: Spent(w, i) ==> !Reopens(w, e, w.issued[i].token)
  }

  lemma StepRotated(c: Config, w: World, e: Event)
    requires Strict(c) && WellIssued(c, w) && Rotated(w) && Enabled(w, e) && SparingSpent(w, e)
    ensures Rotated(Step(c, w, e))
  {
    var w' := Step(c, w, e);
    forall i | Spent(w, i) ensures Dead(w', w.issued[i].token) {
      DeadForever(c, w, e, i);
    }
    match e
    case RefreshWith(t, a, r) => RefreshRotates(c, w, t, a, r);
    case _ =>
      forall i, j | RefreshSiblings(w', i, j) ensures Spent(w', i) {
        assert RefreshSiblings(w, i, j);
      }
  }

  // The used token was its login's newest; it is spent and dies as its successor is made.
  lemma RefreshRotates(c: Config, w: World, t: nat, a: string, r: string)
    requires Strict(c) && WellIssued(c, w) && Rotated(w) && Enabled(w, RefreshWith(t, a, r))
    requires forall i :: Spent(w, i) ==> Dead(Step(c, w, RefreshWith(t, a, r)), w.issued[i].token)
    ensures Rotated(Step(c, w, RefreshWith(t, a, r)))
  {
    var w', n, used := Step(c, w, RefreshWith(t, a, r)), |w.issued|, w.issued[t].token;
    if Accepted(c, w, used, Some(Refresh)) {
      if Spent(w, t) {
        DeadIsRejected(c, w, used, Some(Refresh));
      }
      RevokeKills(w, used);
      forall i, j | RefreshSiblings(w', i, j) ensures Spent(w', i) {
        assert j < n ==> RefreshSiblings(w, i, j);
        assert j >= n && i < t ==> RefreshSiblings(w, i, t);
        assert j >= n && t < i < n ==> RefreshSiblings(w, t, i);
      }
      forall i | Spent(w', i) ensures Dead(w', w'.issued[i].token) {
        assert i < n;
        assert i != t ==> w.issued[i].token.jti != used.jti && Spent(w, i);
      }
    }
  }

  lemma {:induction false} RunRotated(c: Config, w: World, events: seq<Event>)
    requires Strict(c) && WellIssued(c, w) && Rotated(w) && ValidRun(c, w, events)
    requires Obeys(c, w, events, SparingSpent)
    ensures Rotated(After(c, w, events))
    decreases |events|
  {
    if events != [] {
      StepWellIssued(c, w, events[0]);
      StepRotated(c, w, events[0]);
      RunRotated(c, Step(c, w, events[0]), events[1..]);
    }
  }

  // No refresh token that has yielded a pair comes back.
  ghost predicate NoneReturns(c: Config, w: World) {
    forall i :: Spent(w, i) ==> !Returns(c, w, w.issued[i].token)
  }

  ghost predicate NoneEverReturns(c: Config, w: World, events: seq<Event>)
    requires ValidRun(c, w, events)
    decreases |events|
  {
    NoneReturns(c, w) && (events != [] ==> NoneEverReturns(c, Step(c, w, events[0]), events[1..]))
  }

  // For a strict verifier: spent refresh tokens stay out throughout a run exactly when no step takes the block of a
  // spent token back early.
  lemma {:induction false} RotationHoldsIff(c: Config, w: World, events: seq<Event>)
    requires Strict(c) && WellIssued(c, w) && Rotated(w) && ValidRun(c, w, events)
    ensures NoneEverReturns(c, w, events) <==> Obeys(c, w, events, SparingSpent)
    decreases |events|
  {
    forall i | Spent(w, i) ensures !Returns(c, w, w.issued[i].token) {
      DeadIff(c, w, w.issued[i].token);
    }
    if events != [] {
      var e, w' := events[0], Step(c, w, events[0]);
      StepWellIssued(c, w, e);
      if SparingSpent(w, e) {
        StepRotated(c, w, e);
        RotationHoldsIff(c, w', events[1..]);
      } else {
        var i :| Spent(w, i) && Reopens(w, e, w.issued[i].token);
        DeadForever(c, w, e, i);
        DeadIff(c, w', w'.issued[i].token);
        assert Spent(w', i);
      }
    }
  }

  lemma RotationHoldsFromStartIff(c: Config, start: Ticks, events: seq<Event>)
    requires Strict(c) && ValidRun(c, Start(start), events)
    ensures NoneEverReturns(c, Start(start), events) <==> Obeys(c, Start(start), events, SparingSpent)
  {
    RotationHoldsIff(c, Start(start), events);
  }

  ghost predicate OneLiveRefresh(c: Config, w: World) {
    forall i, j :: RefreshSiblings(w, i, j) ==>
      !(Accepted(c, w, w.issued[i].token, Some(Refresh)) && Accepted(c, w, w.issued[j].token, Some(Refresh)))
  }

  // In every run that takes no spent token's block back early, two refresh tokens of one login are never both accepted,
  // and no refresh token yields a second pair.
  ghost predicate RotationSafe(c: Config) {
    forall w :: Reachable(c, w, SparingSpent) ==> OneLiveRefresh(c, w) && NoRepeats(w.spent)
  }

  lemma RotationSafeIff(c: Config)
    ensures RotationSafe(c) <==> Strict(c)
  {
    if Strict(c) {
      forall w | Reachable(c, w, SparingSpent) ensures OneLiveRefresh(c, w) && NoRepeats(w.spent) {
        var start, events :|
          ValidRun(c, Start(start), events) && Obeys(c, Start(start), events, SparingSpent) &&
          After(c, Start(start), events) == w;
        RunRotated(c, Start(start), events);
        forall i, j | RefreshSiblings(w, i, j)
          ensures !Accepted(c, w, w.issued[i].token, Some(Refresh))
        {
          DeadIsRejected(c, w, w.issued[i].token, Some(Refresh));
        }
      }
    } else {
      var w := Overdue(c, Refresh, "", SparingSpent);
      var w1 := Step(c, w, RefreshWith(0, "a", "b"));
      var w2 := Step(c, w1, RefreshWith(0, "c", "d"));
      ReachableStep(c, w, RefreshWith(0, "a", "b"), SparingSpent);
      ReachableStep(c, w1, RefreshWith(0, "c", "d"), SparingSpent);
      assert w2.spent == ["", ""] && w2.spent[0] == w2.spent[1];
    }
  }

  // ---------------------------------------------------------------- what callers must do, and what fails otherwise

  // Callers revoke only what they have verified, that is, tokens the handler issued, and lift no block.
  ghost predicate OnlyVerified(w: World, e: Event) {
    match e
    case Revoke(f) => exists i :: 0 <= i < |w.issued| && w.issued[i].token == f
    case Unblock(_) => false
    case _ => true
  }

  // Then no block is ever taken back early.
  lemma {:induction false} VerifiedSpares(c: Config, w: World, events: seq<Event>)
    requires WellIssued(c, w) && ValidRun(c, w, events) && Obeys(c, w, events, OnlyVerified)
    ensures Obeys(c, w, events, SparingSpent)
    ensures forall i :: 0 <= i < |w.issued| ==> Obeys(c, w, events, Sparing(w.issued[i].token))
    decreases |events|
  {
    if events != [] {
      var e, w' := events[0], Step(c, w, events[0]);
      StepWellIssued(c, w, e);
      VerifiedSpares(c, w', events[1..]);
      forall i | 0 <= i < |w.issued|
        ensures !Reopens(w, e, w.issued[i].token) && Obeys(c, w, events, Sparing(w.issued[i].token))
      {
        VerifiedSparesEach(c, w, e, i);
        assert w'.issued[i] == w.issued[i];
      }
    }
  }

  lemma VerifiedSparesEach(c: Config, w: World, e: Event, i: nat)
    requires WellIssued(c, w) && OnlyVerified(w, e) && i < |w.issued|
    ensures !Reopens(w, e, w.issued[i].token)
  {
    if e.Revoke? {
      var j :| 0 <= j < |w.issued| && w.issued[j].token == e.claims;
      assert i != j ==> w.issued[i].token.jti != w.issued[j].token.jti;
    }
  }

  // A strict verifier whose callers do so rejects every revoked token for good.
  lemma GuardedRevocationFinal(c: Config, w: World, i: nat, later: seq<Event>, expected: Option<TokenKind>)
    requires Strict(c) && Reachable(c, w, Anything) && i < |w.issued| && ValidRun(c, Revoked(c, w, i), later)
    requires Obeys(c, Revoked(c, w, i), later, OnlyVerified)
    ensures !Accepted(c, After(c, Revoked(c, w, i), later), w.issued[i].token, expected)
  {
    RevokedIsDead(c, w, i);
    VerifiedSpares(c, Revoked(c, w, i), later);
    DeadThroughoutIff(c, Revoked(c, w, i), later, i);
    DeadIsRejected(c, After(c, Revoked(c, w, i), later), w.issued[i].token, expected);
  }

  // ... and so keeps one live refresh token a login, each used once.
  lemma GuardedRotationSafe(c: Config, w: World)
    requires Strict(c) && Reachable(c, w, OnlyVerified)
    ensures OneLiveRefresh(c, w) && NoRepeats(w.spent)
  {
    var start, events :|
      ValidRun(c, Start(start), events) && Obeys(c, Start(start), events, OnlyVerified) &&
      After(c, Start(start), events) == w;
    VerifiedSpares(c, Start(start), events);
    RotationSafeIff(c);
    assert Reachable(c, w, SparingSpent);
  }

  // Claims of the same identifier that expire within a second.
  function Unverified(w: World, i: nat): Claims
    requires i < |w.issued|
  {
    NOBODY.(jti := w.issued[i].token.jti, exp := Some(Seconds(w.now) + 1))
  }

  // Revoking such claims, whatever was blocked, leaves any token that lives longer to be accepted a second later.
  lemma Revived(c: Config, w: World, i: nat)
    requires WellIssued(c, w) && i < |w.issued|
    requires w.issued[i].token.exp.value >= Seconds(w.now) + 2
    ensures RevokedEntries(w.entries, Unverified(w, i), w.now).1
    ensures var w' := Waited(Step(c, w, Revoke(Unverified(w, i))), TICKS_PER_SECOND);
      Accepted(c, w', w.issued[i].token, Some(w.issued[i].token.kind))
  {
    var t, jti := w.issued[i].token, w.issued[i].token.jti.value;
    var after := Step(c, w, Revoke(Unverified(w, i))).entries;
    assert after[jti] == Some(w.now + TICKS_PER_SECOND);
    NextSecond(w.now);
  }

  lemma NextSecond(t: Ticks)
    ensures Seconds(t + TICKS_PER_SECOND) == Seconds(t) + 1
  {
  }

  // Without verification even a strict verifier fails: in any reachable state, claims with the identifier of a revoked
  // token and a nearer expiry are revoked with success, and a second later the token is accepted again.
  lemma UnverifiedRevocationRevives(c: Config, w: World, i: nat) returns (unverified: Claims, later: seq<Event>)
    requires Reachable(c, w, Anything) && i < |w.issued|
    requires w.issued[i].token.exp.Some? && w.issued[i].token.exp.value >= Seconds(w.now) + 2
    ensures later == [Revoke(unverified), Tick(TICKS_PER_SECOND)] && ValidRun(c, Revoked(c, w, i), later)
    ensures RevokedEntries(Revoked(c, w, i).entries, unverified, w.now).1
    ensures Accepted(c, After(c, Revoked(c, w, i), later), w.issued[i].token, Some(w.issued[i].token.kind))
  {
    var w1 := Revoked(c, w, i);
    RevokedIsDead(c, w, i);
    unverified := Unverified(w1, i);
    later := [Revoke(unverified), Tick(TICKS_PER_SECOND)];
    TwoSteps(c, w1, Revoke(unverified), Tick(TICKS_PER_SECOND));
    Revived(c, w1, i);
  }

  lemma TwoSteps(c: Config, w: World, e: Event, f: Event)
    requires Enabled(w, e) && Enabled(Step(c, w, e), f)
    ensures ValidRun(c, w, [e, f]) && After(c, w, [e, f]) == Step(c, Step(c, w, e), f)
  {
    var w1, w2 := Step(c, w, e), Step(c, Step(c, w, e), f);
    assert [e, f][1..] == [f] && [f][1..] == [];
    assert ValidRun(c, w2, []) && After(c, w2, []) == w2;
    assert ValidRun(c, w1, [f]) && After(c, w1, [f]) == w2;
  }

  // So a refresh token that is accepted and lives on for a while yields two pairs.
  lemma UnverifiedRevocationRespends(
    c: Config, w: World, i: nat, a: string, r: string, b: string, s: string) returns (w': World)
    requires Reachable(c, w, Anything) && i < |w.issued| && {a, r, b, s} !! w.jtis
    requires a != r && b != s && {a, r} !! {b, s}
    requires Accepted(c, w, w.issued[i].token, Some(Refresh))
    requires w.issued[i].token.exp.value >= Seconds(w.now) + 2
    ensures Reachable(c, w', Anything)
    ensures w'.spent == w.spent + [w.issued[i].token.jti.GetOr(""), w.issued[i].token.jti.GetOr("")]
  {
    ReachableWellIssued(c, w, Anything);
    var w1 := Forward(c, w, RefreshWith(i, a, r));
    ReachableWellIssued(c, w1, Anything);
    var w2 := Forward(c, w1, Revoke(Unverified(w1, i)));
    var w3 := Forward(c, w2, Tick(TICKS_PER_SECOND));
    Revived(c, w1, i);
    w' := Forward(c, w3, RefreshWith(i, b, s));
  }

  lemma Forward(c: Config, w: World, e: Event) returns (w': World)
    requires Reachable(c, w, Anything) && Enabled(w, e)
    ensures w' == Step(c, w, e) && Reachable(c, w', Anything)
  {
    ReachableStep(c, w, e, Anything);
    w' := Step(c, w, e);
  }

  // A verifier that accepts at the moment of expiry is one with a second more of leeway, so it never has either.
  lemma GraceIsLeeway(c: Config, t: Claims, expected: Option<TokenKind>, now: Ticks)
    requires c.acceptsAtExpiry
    ensures Verified(c, t, expected, now) ==
            Verified(c.(acceptsAtExpiry := false, leeway := c.leeway + 1), t, expected, now)
    ensures !RevocationFinal(c) && !RotationSafe(c)
  {
    RevocationFinalIff(c);
    RotationSafeIff(c);
  }
}
