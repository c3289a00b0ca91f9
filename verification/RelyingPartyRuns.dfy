/** All interleavings of the relying party's handlers over either store. Each handler is cut where it
    touches the store; between its steps other handlers run, with their own clock values. */
module RelyingPartyRuns {
  import opened Wrappers
  import opened Bytes
  import opened TransLog
  import opened Keys
  import opened Token
  import opened Verifier
  import opened PendingStores
  import opened RelyingParty

  /** A handler that has swept: about to store a challenge, about to pop, or about to verify. */
  datatype Stage =
    | Making(scope: int, now: int)
    | Redeeming(wire: Bytes, now: int)
    | Deciding(wire: Bytes, now: int, found: Result<Option<Challenge>, FormatError>)

  /** A redemption answered as verified, with the keyset and clock value it was verified with. */
  datatype Redemption = Redemption(c: Challenge, wire: Bytes, trusted: seq<ScopeKeyRecord>, now: int, scope: int)

  /** The store, the handlers under way, and what has been issued, verified and answered. */
  datatype State = State(store: Store, handlers: map<nat, Stage>, issued: seq<Challenge>, verified: seq<Redemption>,
                         answers: seq<Answer>)

  /** `at` is the clock of the shared server when the step reaches it. */
  datatype Step =
    | ChallengeStart(handler: nat, scope: int, now: int)
    | ChallengePut(handler: nat, logHead: Option<Bytes>, nonce: Bytes, at: int)
    | RedeemStart(handler: nat, wire: Bytes, now: int)
    | RedeemPop(handler: nat, at: int)
    | RedeemVerify(handler: nat, trusted: seq<ScopeKeyRecord>)

  function Without(handlers: map<nat, Stage>, h: nat): map<nat, Stage> {
    handlers - {h}
  }

  function Answered(s: State, a: Answer): State {
    s.(answers := s.answers + [a])
  }

  function AfterChallengeStart(s: State, h: nat, scope: int, now: int): State {
    if h in s.handlers then s
    else if scope !in SCOPES then Answered(s, BadScope)
    else s.(store := s.store.Swept(now), handlers := s.handlers[h := Making(scope, now)])
  }

  function AfterChallengePut(rpId: Bytes, s: State, h: nat, logHead: Option<Bytes>, nonce: Bytes, at: int): State {
    if h !in s.handlers || !s.handlers[h].Making? then s
    else
      var c := MakeChallenge(rpId, s.handlers[h].scope, s.handlers[h].now, DEFAULT_CHALLENGE_TTL, logHead, nonce);
      var rest := s.(handlers := Without(s.handlers, h));
      if c.Err? then Answered(rest, ServerError)
      else Answered(rest.(store := s.store.With(c.value, at), issued := s.issued + [c.value]),
                    Challenged(ToDict(c.value)))
  }

  function AfterRedeemStart(s: State, h: nat, wire: Bytes, now: int): State {
    if h in s.handlers then s
    else
      var swept := s.(store := s.store.Swept(now));
      if ParseToken(wire).Err? then Answered(swept, InvalidOrUnknown)
      else swept.(handlers := s.handlers[h := Redeeming(wire, now)])
  }

  function AfterRedeemPop(s: State, h: nat, at: int): State {
    if h !in s.handlers || !s.handlers[h].Redeeming? || ParseToken(s.handlers[h].wire).Err? then s
    else
      var Redeeming(wire, now) := s.handlers[h];
      var nonce := ParseToken(wire).value.nonce;
      s.(store := s.store.Without(nonce), handlers := s.handlers[h := Deciding(wire, now, s.store.Popped(nonce, at))])
  }

  /** What is answered once the challenge has been taken, or was not there. */
  function Decided(x: Crypto, wire: Bytes, now: int, found: Result<Option<Challenge>, FormatError>,
                   trusted: seq<ScopeKeyRecord>): Answer
  {
    if found.Err? then ServerError
    else if found.value.None? then InvalidOrUnknown
    else
      var v := VerifyToken(x, wire, trusted, found.value.value, now);
      if v.Err? then ServerError else if v.value.decision == OK then Verified(v.value.scope) else InvalidOrUnknown
  }

  function AfterRedeemVerify(x: Crypto, s: State, h: nat, trusted: seq<ScopeKeyRecord>): State {
    if h !in s.handlers || !s.handlers[h].Deciding? then s
    else
      var Deciding(wire, now, found) := s.handlers[h];
      var answer := Decided(x, wire, now, found, trusted);
      var rest := Answered(s.(handlers := Without(s.handlers, h)), answer);
      if answer.Verified? && answer.scope.Some?
      then rest.(verified := s.verified + [Redemption(found.value.value, wire, trusted, now, answer.scope.value)])
      else rest
  }

  /** One step; a step of a handler that is not at that point does nothing. */
  function Next(x: Crypto, rpId: Bytes, s: State, step: Step): State {
    match step
    case ChallengeStart(h, scope, now) => AfterChallengeStart(s, h, scope, now)
    case ChallengePut(h, logHead, nonce, at) => AfterChallengePut(rpId, s, h, logHead, nonce, at)
    case RedeemStart(h, wire, now) => AfterRedeemStart(s, h, wire, now)
    case RedeemPop(h, at) => AfterRedeemPop(s, h, at)
    case RedeemVerify(h, trusted) => AfterRedeemVerify(x, s, h, trusted)
  }

  function Run(x: Crypto, rpId: Bytes, start: Store, steps: seq<Step>): State {
    if steps == [] then State(start, map[], [], [], [])
    else Next(x, rpId, Run(x, rpId, start, steps[..|steps| - 1]), steps[|steps| - 1])
  }

  /** A challenge handler that is not interrupted answers and leaves the store as the sequential one does. */
  lemma ChallengeStepsCompose(rpId: Bytes, s: State, h: nat, scope: int, logHead: Option<Bytes>, nonce: Bytes, now: int)
    requires h !in s.handlers
    ensures var end := AfterChallengePut(rpId, AfterChallengeStart(s, h, scope, now), h, logHead, nonce, now);
      var o := ChallengeOutcome(rpId, s.store, scope, logHead, nonce, now);
      end.store == o.store && end.answers == s.answers + [o.answer]
  {
  }

  /** So does a redemption. */
  lemma RedeemStepsCompose(x: Crypto, s: State, h: nat, wire: Bytes, trusted: seq<ScopeKeyRecord>, now: int)
    requires h !in s.handlers
    ensures var end := AfterRedeemVerify(x, AfterRedeemPop(AfterRedeemStart(s, h, wire, now), h, now), h, trusted);
      var o := RedeemOutcome(x, s.store, Some(wire), trusted, now);
      end.store == o.store && end.answers == s.answers + [o.answer]
  {
  }

  // ---------------------------------------------------------------- at most one redemption per challenge

  /** How often a challenge was issued. */
  function Issues(issued: seq<Challenge>, c: Challenge): nat {
    if issued == [] then 0
    else Issues(issued[..|issued| - 1], c) + if issued[|issued| - 1] == c then 1 else 0
  }

  /** How often a challenge was answered as verified. */
  function Redemptions(verified: seq<Redemption>, c: Challenge): nat {
    if verified == [] then 0
    else Redemptions(verified[..|verified| - 1], c) + if verified[|verified| - 1].c == c then 1 else 0
  }

  /** The handlers that have taken this challenge and not yet decided. */
  function Holders(handlers: map<nat, Stage>, c: Challenge): set<nat> {
    set h | h in handlers && handlers[h].Deciding? && handlers[h].found == Ok(Some(c))
  }

  /** Every issue of a challenge is spent at most once: it is in the store, in one handler, or verified. */
  ghost predicate Balanced(s: State, c: Challenge) {
    && s.store.WellKeyed()
    && Redemptions(s.verified, c) + |Holders(s.handlers, c)| + (if s.store.Holds(c) then 1 else 0)
       <= Issues(s.issued, c)
  }

  lemma OneMoreIssue(issued: seq<Challenge>, more: Challenge, c: Challenge)
    ensures Issues(issued + [more], c) == Issues(issued, c) + if more == c then 1 else 0
  {
    assert (issued + [more])[..|issued|] == issued;
  }

  lemma OneMoreRedemption(verified: seq<Redemption>, more: Redemption, c: Challenge)
    ensures Redemptions(verified + [more], c) == Redemptions(verified, c) + if more.c == c then 1 else 0
  {
    assert (verified + [more])[..|verified|] == verified;
  }

  /** Handlers that have taken nothing do not count. */
  lemma NoHolder(handlers: map<nat, Stage>, h: nat, stage: Stage, c: Challenge)
    requires h in handlers ==> !handlers[h].Deciding?
    ensures Holders(Without(handlers, h), c) == Holders(handlers, c)
    ensures !stage.Deciding? ==> Holders(handlers[h := stage], c) == Holders(handlers, c)
  {
  }

  lemma ChallengeBalanced(rpId: Bytes, s: State, h: nat, logHead: Option<Bytes>, nonce: Bytes, at: int, c: Challenge)
    requires Balanced(s, c)
    ensures Balanced(AfterChallengePut(rpId, s, h, logHead, nonce, at), c)
  {
    if h in s.handlers && s.handlers[h].Making? {
      var made := MakeChallenge(rpId, s.handlers[h].scope, s.handlers[h].now, DEFAULT_CHALLENGE_TTL, logHead, nonce);
      NoHolder(s.handlers, h, s.handlers[h], c);
      if made.Ok? {
        PutKeepsKeying(s.store, made.value, at);
        PutAddsOne(s.store, made.value, at, c);
        OneMoreIssue(s.issued, made.value, c);
      }
    }
  }

  /** Starting a handler sweeps, which takes nothing in. */
  lemma StartBalanced(s: State, h: nat, stage: Stage, now: int, c: Challenge)
    requires Balanced(s, c) && h !in s.handlers && !stage.Deciding?
    ensures Balanced(s.(store := s.store.Swept(now)), c)
    ensures Balanced(s.(store := s.store.Swept(now), handlers := s.handlers[h := stage]), c)
  {
    PutKeepsKeying(s.store, c, now);
    PutAddsOne(s.store, c, now, c);
    SweepAddsNone(s.store, now, c);
    NoHolder(s.handlers, h, stage, c);
  }

  lemma SweepAddsNone(s: Store, now: int, c: Challenge)
    ensures s.Swept(now).Holds(c) ==> s.Holds(c)
  {
  }

  lemma PopBalanced(s: State, h: nat, at: int, c: Challenge)
    requires Balanced(s, c)
    ensures Balanced(AfterRedeemPop(s, h, at), c)
  {
    if h in s.handlers && s.handlers[h].Redeeming? && ParseToken(s.handlers[h].wire).Ok? {
      var Redeeming(wire, now) := s.handlers[h];
      var nonce := ParseToken(wire).value.nonce;
      TakeKeepsKeying(s.store, nonce);
      PopTakes(s.store, nonce, at, c);
      NewHolder(s.handlers, h, wire, now, s.store.Popped(nonce, at), c);
    }
  }

  lemma TakeKeepsKeying(s: Store, nonce: Bytes)
    requires s.WellKeyed()
    ensures s.Without(nonce).WellKeyed()
  {
  }

  lemma NewHolder(handlers: map<nat, Stage>, h: nat, wire: Bytes, now: int,
                  found: Result<Option<Challenge>, FormatError>, c: Challenge)
    requires h in handlers && !handlers[h].Deciding?
    ensures |Holders(handlers[h := Deciding(wire, now, found)], c)|
         == |Holders(handlers, c)| + if found == Ok(Some(c)) then 1 else 0
  {
    var after := Holders(handlers[h := Deciding(wire, now, found)], c);
    assert after == if found == Ok(Some(c)) then Holders(handlers, c) + {h} else Holders(handlers, c);
  }

  lemma HolderReleased(handlers: map<nat, Stage>, h: nat, c: Challenge)
    requires h in handlers && handlers[h].Deciding?
    ensures |Holders(Without(handlers, h), c)| + (if handlers[h].found == Ok(Some(c)) then 1 else 0)
         == |Holders(handlers, c)|
  {
    assert Holders(Without(handlers, h), c) == Holders(handlers, c) - {h};
    assert h in Holders(handlers, c) <==> handlers[h].found == Ok(Some(c));
  }

  /** Deciding records at most one redemption, and only of the challenge that the handler took. */
  lemma VerifyEffect(x: Crypto, s: State, h: nat, trusted: seq<ScopeKeyRecord>, c: Challenge)
    requires h in s.handlers && s.handlers[h].Deciding?
    ensures var next := AfterRedeemVerify(x, s, h, trusted);
      && next.store == s.store && next.issued == s.issued && next.handlers == Without(s.handlers, h)
      && Redemptions(next.verified, c)
         <= Redemptions(s.verified, c) + if s.handlers[h].found == Ok(Some(c)) then 1 else 0
  {
    var Deciding(wire, now, found) := s.handlers[h];
    var answer := Decided(x, wire, now, found, trusted);
    if answer.Verified? && answer.scope.Some? {
      OneMoreRedemption(s.verified, Redemption(found.value.value, wire, trusted, now, answer.scope.value), c);
    }
  }

  lemma VerifyBalanced(x: Crypto, s: State, h: nat, trusted: seq<ScopeKeyRecord>, c: Challenge)
    requires Balanced(s, c)
    ensures Balanced(AfterRedeemVerify(x, s, h, trusted), c)
  {
    if h in s.handlers && s.handlers[h].Deciding? {
      VerifyEffect(x, s, h, trusted, c);
      HolderReleased(s.handlers, h, c);
    }
  }

  lemma BalanceKept(x: Crypto, rpId: Bytes, s: State, step: Step, c: Challenge)
    requires Balanced(s, c)
    ensures Balanced(Next(x, rpId, s, step), c)
  {
    match step
    case ChallengeStart(h, scope, now) =>
      if h !in s.handlers { StartBalanced(s, h, Making(scope, now), now, c); }
    case ChallengePut(h, logHead, nonce, at) => ChallengeBalanced(rpId, s, h, logHead, nonce, at, c);
    case RedeemStart(h, wire, now) =>
      if h !in s.handlers { StartBalanced(s, h, Redeeming(wire, now), now, c); }
    case RedeemPop(h, at) => PopBalanced(s, h, at, c);
    case RedeemVerify(h, trusted) => VerifyBalanced(x, s, h, trusted, c);
  }

  lemma {:induction false} RunBalanced(x: Crypto, rpId: Bytes, start: Store, steps: seq<Step>, c: Challenge)
    requires start == EMPTY_MEMORY || start == EMPTY_REDIS
    ensures Balanced(Run(x, rpId, start, steps), c)
  {
    if steps != [] {
      RunBalanced(x, rpId, start, steps[..|steps| - 1], c);
      BalanceKept(x, rpId, Run(x, rpId, start, steps[..|steps| - 1]), steps[|steps| - 1], c);
    } else {
      assert Holders(map[], c) == {};
    }
  }

  /** Single redemption, on every interleaving and over either store: a challenge is answered as
      verified at most as often as it was issued. */
  lemma SingleRedemption(x: Crypto, rpId: Bytes, start: Store, steps: seq<Step>, c: Challenge)
    requires start == EMPTY_MEMORY || start == EMPTY_REDIS
    ensures var s := Run(x, rpId, start, steps);
      Redemptions(s.verified, c) <= Issues(s.issued, c)
  {
    RunBalanced(x, rpId, start, steps, c);
  }

  // ---------------------------------------------------------------- with unrepeated nonces

  predicate FreshNonces(issued: seq<Challenge>) {
    forall i, j :: 0 <= i < j < |issued| ==> issued[i].nonce != issued[j].nonce
  }

  lemma {:induction false} IssuesAtMostOne(issued: seq<Challenge>, c: Challenge)
    requires FreshNonces(issued)
    ensures Issues(issued, c) <= 1
    ensures Issues(issued, c) == 1 <==> c in issued
  {
    if issued != [] {
      var before, last := issued[..|issued| - 1], issued[|issued| - 1];
      IssuesAtMostOne(before, c);
      assert issued == before + [last];
    }
  }

  lemma {:induction false} IssuedWhenCounted(issued: seq<Challenge>, c: Challenge)
    ensures Issues(issued, c) > 0 ==> c in issued
  {
    if issued != [] { IssuedWhenCounted(issued[..|issued| - 1], c); }
  }

  lemma {:induction false} RedemptionCounted(verified: seq<Redemption>, i: nat)
    requires i < |verified|
    ensures Redemptions(verified, verified[i].c) >= 1
  {
    if i < |verified| - 1 { RedemptionCounted(verified[..|verified| - 1], i); }
  }

  lemma {:induction false} TwoRedemptionsCounted(verified: seq<Redemption>, i: nat, j: nat)
    requires i < j < |verified| && verified[i].c == verified[j].c
    ensures Redemptions(verified, verified[i].c) >= 2
  {
    if j < |verified| - 1 {
      TwoRedemptionsCounted(verified[..|verified| - 1], i, j);
    } else {
      RedemptionCounted(verified[..|verified| - 1], i);
    }
  }

  /** What a verified answer has behind it. */
  ghost predicate Sound(x: Crypto, r: Redemption) {
    Accepted(x, r.wire, r.trusted, r.c, r.now) && r.scope == r.c.scope
  }

  ghost predicate AllSound(x: Crypto, verified: seq<Redemption>) {
    forall i :: 0 <= i < |verified| ==> Sound(x, verified[i])
  }

  lemma {:induction false} RunSound(x: Crypto, rpId: Bytes, start: Store, steps: seq<Step>)
    ensures AllSound(x, Run(x, rpId, start, steps).verified)
  {
    if steps != [] {
      var before := Run(x, rpId, start, steps[..|steps| - 1]);
      RunSound(x, rpId, start, steps[..|steps| - 1]);
      SoundKept(x, rpId, before, steps[|steps| - 1]);
    }
  }

  lemma SoundKept(x: Crypto, rpId: Bytes, s: State, step: Step)
    requires AllSound(x, s.verified)
    ensures AllSound(x, Next(x, rpId, s, step).verified)
  {
    if step.RedeemVerify? && step.handler in s.handlers {
      match s.handlers[step.handler]
      case Deciding(wire, now, Ok(Some(c))) => ScopeOnlyWhenOk(x, wire, step.trusted, c, now);
      case _ =>
    }
  }

  /** Every verified answer is for a challenge this relying party issued, for its own scope, read the
      clock before its expiry, and carries a token that verification accepts. */
  lemma RedemptionSound(x: Crypto, rpId: Bytes, start: Store, steps: seq<Step>, i: nat)
    requires (start == EMPTY_MEMORY || start == EMPTY_REDIS) && i < |Run(x, rpId, start, steps).verified|
    ensures var s := Run(x, rpId, start, steps);
      var r := s.verified[i];
      && r.c in s.issued && r.scope == r.c.scope && r.now < r.c.expiresAt
      && VerifyToken(x, r.wire, r.trusted, r.c, r.now) == Ok(Verdict(OK, Some(r.scope)))
  {
    var s := Run(x, rpId, start, steps);
    var r := s.verified[i];
    RunSound(x, rpId, start, steps);
    RedemptionCounted(s.verified, i);
    SingleRedemption(x, rpId, start, steps, r.c);
    IssuedWhenCounted(s.issued, r.c);
    ScopeOnlyWhenOk(x, r.wire, r.trusted, r.c, r.now);
    AcceptanceWindow(x, r.wire, r.trusted, r.c, r.now, r.now);
  }

  /** With unrepeated nonces, no two verified answers share a nonce, and so none share a token. */
  lemma NoDoubleSpend(x: Crypto, rpId: Bytes, start: Store, steps: seq<Step>, i: nat, j: nat)
    requires start == EMPTY_MEMORY || start == EMPTY_REDIS
    requires FreshNonces(Run(x, rpId, start, steps).issued) && i < j < |Run(x, rpId, start, steps).verified|
    ensures var v := Run(x, rpId, start, steps).verified;
      v[i].c.nonce != v[j].c.nonce && v[i].wire != v[j].wire
  {
    var s := Run(x, rpId, start, steps);
    var a, b := s.verified[i], s.verified[j];
    RedemptionSound(x, rpId, start, steps, i);
    RedemptionSound(x, rpId, start, steps, j);
    if a.c.nonce == b.c.nonce {
      var k :| 0 <= k < |s.issued| && s.issued[k] == a.c;
      var l :| 0 <= l < |s.issued| && s.issued[l] == b.c;
      assert k == l;
      TwoRedemptionsCounted(s.verified, i, j);
      SingleRedemption(x, rpId, start, steps, a.c);
      IssuesAtMostOne(s.issued, a.c);
    }
  }
}
