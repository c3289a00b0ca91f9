/** When the two pending stores can be exchanged under interleaved handlers: exactly when no handler is
    overtaken between reading the clock and reaching the store. */
module StoreInterchange {
  import opened Wrappers
  import opened Bytes
  import opened TransLog
  import opened Keys
  import opened Token
  import opened Verifier
  import opened PendingStores
  import opened RelyingParty
  import opened RelyingPartyRuns

  // ---------------------------------------------------------------- what an undisturbed run is

  predicate ReadableSteps(steps: seq<Step>) {
    forall i :: 0 <= i < |steps| && steps[i].ChallengePut? ==> ReadableHead(steps[i].logHead)
  }

  /** This step does not sweep with a clock value above `t`. */
  predicate SweepsUpTo(step: Step, t: int) {
    match step
    case ChallengeStart(_, scope, now) => scope in SCOPES ==> now <= t
    case RedeemStart(_, _, now) => now <= t
    case _ => true
  }

  predicate SweptUpTo(steps: seq<Step>, t: int) {
    forall i :: 0 <= i < |steps| ==> SweepsUpTo(steps[i], t)
  }

  /** The pop of a redemption that read the clock at `s.handlers[step.handler].now`. */
  predicate Pops(s: State, step: Step) {
    step.RedeemPop? && step.handler in s.handlers && s.handlers[step.handler].Redeeming?
  }

  /** No handler with a later clock value has swept before this pop, which reaches the store within the
      time of grace. */
  predicate PromptPop(s: State, before: seq<Step>, step: Step) {
    Pops(s, step) ==>
      SweptUpTo(before, s.handlers[step.handler].now) && step.at <= s.handlers[step.handler].now + TTL_GRACE
  }

  predicate Undisturbed(x: Crypto, rpId: Bytes, steps: seq<Step>) {
    forall i :: 0 <= i < |steps| ==> PromptPop(Run(x, rpId, EMPTY_MEMORY, steps[..i]), steps[..i], steps[i])
  }

  // ---------------------------------------------------------------- the relation between the two runs

  /** A find that is answered as invalid or unknown whatever the keyset. */
  predicate Refused(found: Result<Option<Challenge>, FormatError>, now: int) {
    match found
    case Err(_) => false
    case Ok(None) => true
    case Ok(Some(c)) => c.InSpec() && c.expiresAt <= now
  }

  /** The same stage, or two redemptions that are both going to be refused. */
  predicate StageAlike(a: Stage, b: Stage) {
    || a == b
    || (a.Deciding? && b.Deciding? && a.wire == b.wire && a.now == b.now
        && Refused(a.found, a.now) && Refused(b.found, b.now))
  }

  ghost predicate Alike(m: State, r: State) {
    && m.store.Memory? && ReadableKeys(r.store)
    && m.handlers.Keys == r.handlers.Keys
    && (forall h :: h in m.handlers ==> StageAlike(m.handlers[h], r.handlers[h]))
    && m.answers == r.answers
  }

  lemma RefusedAnswer(x: Crypto, wire: Bytes, now: int, found: Result<Option<Challenge>, FormatError>,
                      trusted: seq<ScopeKeyRecord>)
    requires Refused(found, now)
    ensures Decided(x, wire, now, found, trusted) == InvalidOrUnknown
  {
    match found
    case Ok(None) =>
    case Ok(Some(c)) => ExpiredRefused(x, wire, trusted, c, now);
  }

  lemma VerifyAlike(x: Crypto, m: State, r: State, h: nat, trusted: seq<ScopeKeyRecord>)
    requires Alike(m, r)
    ensures Alike(AfterRedeemVerify(x, m, h, trusted), AfterRedeemVerify(x, r, h, trusted))
  {
    if h in m.handlers && m.handlers[h].Deciding? && m.handlers[h] != r.handlers[h] {
      var Deciding(wire, now, found) := m.handlers[h];
      RefusedAnswer(x, wire, now, found, trusted);
      RefusedAnswer(x, wire, now, r.handlers[h].found, trusted);
    }
  }

  /** What an undisturbed pop finds is alike in both stores. */
  lemma FoundAlike(m: State, r: State, nonce: Bytes, now: int, at: int)
    requires Alike(m, r) && Mirrored(m.store.pending, r.store.keys, now) && at <= now + TTL_GRACE
    ensures var a, b := m.store.Popped(nonce, at), r.store.Popped(nonce, at);
      a == b || (Refused(a, now) && Refused(b, now))
  {
    PopAlike(m.store.pending, r.store.keys, nonce, now, at);
  }

  lemma PopStepAlike(m: State, r: State, h: nat, at: int)
    requires Alike(m, r)
    requires h in m.handlers && m.handlers[h].Redeeming? ==>
      at <= m.handlers[h].now + TTL_GRACE && Mirrored(m.store.pending, r.store.keys, m.handlers[h].now)
    ensures Alike(AfterRedeemPop(m, h, at), AfterRedeemPop(r, h, at))
  {
    if h in m.handlers && m.handlers[h].Redeeming? && ParseToken(m.handlers[h].wire).Ok? {
      FoundAlike(m, r, ParseToken(m.handlers[h].wire).value.nonce, m.handlers[h].now, at);
    }
  }

  lemma StartAlike(x: Crypto, rpId: Bytes, m: State, r: State, step: Step)
    requires Alike(m, r) && !step.RedeemPop? && !step.RedeemVerify?
    requires step.ChallengePut? ==> ReadableHead(step.logHead)
    ensures Alike(Next(x, rpId, m, step), Next(x, rpId, r, step))
  {
  }

  /** The stores mirror each other after a step that sweeps no further than `t`. */
  lemma StepMirrored(x: Crypto, rpId: Bytes, m: State, r: State, step: Step, t: int)
    requires Alike(m, r) && Mirrored(m.store.pending, r.store.keys, t) && SweepsUpTo(step, t)
    ensures var m', r' := Next(x, rpId, m, step).store, Next(x, rpId, r, step).store;
      m'.Memory? && r'.Redis? && Mirrored(m'.pending, r'.keys, t)
  {
    match step
    case ChallengePut(h, logHead, nonce, at) => PutStepMirrored(rpId, m, r, h, logHead, nonce, at, t);
    case RedeemPop(h, at) => PopStepMirrored(m, r, h, at, t);
    case RedeemVerify(h, trusted) => VerifyStepMirrored(x, m, r, h, trusted);
    case _ => StartStepMirrored(x, rpId, m, r, step, t);
  }

  lemma StartStepMirrored(x: Crypto, rpId: Bytes, m: State, r: State, step: Step, t: int)
    requires Alike(m, r) && Mirrored(m.store.pending, r.store.keys, t) && SweepsUpTo(step, t)
    requires step.ChallengeStart? || step.RedeemStart?
    ensures var m', r' := Next(x, rpId, m, step).store, Next(x, rpId, r, step).store;
      m'.Memory? && r'.Redis? && Mirrored(m'.pending, r'.keys, t)
  {
    StartStore(x, rpId, m, step);
    StartStore(x, rpId, r, step);
    if step.now <= t { SweepUpToMirrored(m.store.pending, r.store.keys, step.now, t); }
  }

  /** Whether the first step of a handler sweeps. */
  predicate Sweeps(s: State, step: Step) {
    step.handler !in s.handlers && (step.ChallengeStart? ==> step.scope in SCOPES)
  }

  lemma StartStore(x: Crypto, rpId: Bytes, s: State, step: Step)
    requires step.ChallengeStart? || step.RedeemStart?
    ensures Next(x, rpId, s, step).store == if Sweeps(s, step) then s.store.Swept(step.now) else s.store
  {
  }

  lemma VerifyStepMirrored(x: Crypto, m: State, r: State, h: nat, trusted: seq<ScopeKeyRecord>)
    ensures AfterRedeemVerify(x, m, h, trusted).store == m.store && AfterRedeemVerify(x, r, h, trusted).store == r.store
  {
  }

  lemma SweepUpToMirrored(pending: Pending, keys: KeySpace, now: int, t: int)
    requires Mirrored(pending, keys, t) && now <= t
    ensures Mirrored(Unexpired(pending, now), keys, t)
  {
  }

  lemma PutStepMirrored(rpId: Bytes, m: State, r: State, h: nat, logHead: Option<Bytes>, nonce: Bytes, at: int, t: int)
    requires Alike(m, r) && Mirrored(m.store.pending, r.store.keys, t)
    ensures var m' := AfterChallengePut(rpId, m, h, logHead, nonce, at).store;
      var r' := AfterChallengePut(rpId, r, h, logHead, nonce, at).store;
      m'.Memory? && r'.Redis? && Mirrored(m'.pending, r'.keys, t)
  {
    if h in m.handlers && m.handlers[h].Making? {
      var c := MakeChallenge(rpId, m.handlers[h].scope, m.handlers[h].now, DEFAULT_CHALLENGE_TTL, logHead, nonce);
      if c.Ok? { PutMirrored(m.store.pending, r.store.keys, c.value, at, t); }
    }
  }

  lemma PopStepMirrored(m: State, r: State, h: nat, at: int, t: int)
    requires Alike(m, r) && Mirrored(m.store.pending, r.store.keys, t)
    ensures var m', r' := AfterRedeemPop(m, h, at).store, AfterRedeemPop(r, h, at).store;
      m'.Memory? && r'.Redis? && Mirrored(m'.pending, r'.keys, t)
  {
    PopStore(m, h, at);
    PopStore(r, h, at);
    assert Taken(m, h) == Taken(r, h);
    if Taken(m, h).Some? { TakeMirrored(m.store.pending, r.store.keys, Taken(m, h).value, t); }
  }

  /** The nonce that the next step of a redemption takes. */
  function Taken(s: State, h: nat): Option<Bytes> {
    if h !in s.handlers || !s.handlers[h].Redeeming? then None
    else
      var parsed := ParseToken(s.handlers[h].wire);
      if parsed.Err? then None else Some(parsed.value.nonce)
  }

  lemma PopStore(s: State, h: nat, at: int)
    ensures AfterRedeemPop(s, h, at).store == if Taken(s, h).None? then s.store else s.store.Without(Taken(s, h).value)
  {
  }

  // ---------------------------------------------------------------- undisturbed runs are answered alike

  lemma PrefixUndisturbed(x: Crypto, rpId: Bytes, steps: seq<Step>)
    requires steps != [] && Undisturbed(x, rpId, steps)
    ensures Undisturbed(x, rpId, steps[..|steps| - 1])
  {
    var before := steps[..|steps| - 1];
    forall i | 0 <= i < |before|
      ensures PromptPop(Run(x, rpId, EMPTY_MEMORY, before[..i]), before[..i], before[i])
    {
      assert before[..i] == steps[..i];
    }
  }

  lemma {:induction false} RunAlike(x: Crypto, rpId: Bytes, steps: seq<Step>)
    requires Undisturbed(x, rpId, steps) && ReadableSteps(steps)
    ensures Alike(Run(x, rpId, EMPTY_MEMORY, steps), Run(x, rpId, EMPTY_REDIS, steps))
    decreases |steps|, 1
  {
    if steps != [] {
      var before, step := steps[..|steps| - 1], steps[|steps| - 1];
      PrefixUndisturbed(x, rpId, steps);
      RunAlike(x, rpId, before);
      var m, r := Run(x, rpId, EMPTY_MEMORY, before), Run(x, rpId, EMPTY_REDIS, before);
      match step
      case RedeemPop(h, at) =>
        if Pops(m, step) {
          assert PromptPop(m, before, step);
          RunMirrors(x, rpId, before, m.handlers[h].now);
        }
        PopStepAlike(m, r, h, at);
      case RedeemVerify(h, trusted) => VerifyAlike(x, m, r, h, trusted);
      case _ => StartAlike(x, rpId, m, r, step);
    }
  }

  lemma {:induction false} RunMirrors(x: Crypto, rpId: Bytes, steps: seq<Step>, t: int)
    requires Undisturbed(x, rpId, steps) && ReadableSteps(steps) && SweptUpTo(steps, t)
    ensures var m, r := Run(x, rpId, EMPTY_MEMORY, steps).store, Run(x, rpId, EMPTY_REDIS, steps).store;
      m.Memory? && r.Redis? && Mirrored(m.pending, r.keys, t)
    decreases |steps|, 0
  {
    if steps != [] {
      var before := steps[..|steps| - 1];
      PrefixUndisturbed(x, rpId, steps);
      RunAlike(x, rpId, before);
      RunMirrors(x, rpId, before, t);
      StepMirrored(x, rpId, Run(x, rpId, EMPTY_MEMORY, before), Run(x, rpId, EMPTY_REDIS, before), steps[|steps| - 1],
                   t);
    }
  }

  /** On every interleaving in which no redemption is overtaken between reading the clock and popping,
      the two stores give the same answers in the same order. */
  lemma UndisturbedAlike(x: Crypto, rpId: Bytes, steps: seq<Step>)
    requires Undisturbed(x, rpId, steps) && ReadableSteps(steps)
    ensures Run(x, rpId, EMPTY_MEMORY, steps).answers == Run(x, rpId, EMPTY_REDIS, steps).answers
  {
    RunAlike(x, rpId, steps);
  }

  // ---------------------------------------------------------------- an overtaken redemption

  /** A redemption that reads the clock in the last second of a challenge's life and is overtaken,
      before it pops, by a handler that sweeps at the expiry. */
  function OvertakenRun(c: Challenge, wire: Bytes, trusted: seq<ScopeKeyRecord>): seq<Step> {
    var t0 := c.expiresAt - DEFAULT_CHALLENGE_TTL;
    [ChallengeStart(0, c.scope, t0), ChallengePut(0, c.logHead, c.nonce, t0), RedeemStart(1, wire, c.expiresAt - 1),
     ChallengeStart(2, c.scope, c.expiresAt), RedeemPop(1, c.expiresAt), RedeemVerify(1, trusted)]
  }

  /** The states after two, three and four of its steps. */
  function OvertakenState(start: Store, c: Challenge, wire: Bytes, n: nat): State
    requires 2 <= n <= 4
  {
    var t0 := c.expiresAt - DEFAULT_CHALLENGE_TTL;
    var issued := State(start.Swept(t0).With(c, t0), map[], [c], [], [Challenged(ToDict(c))]);
    var reading := issued.(store := issued.store.Swept(c.expiresAt - 1),
                           handlers := map[1 := Redeeming(wire, c.expiresAt - 1)]);
    if n == 2 then issued
    else if n == 3 then reading
    else
      reading.(store := reading.store.Swept(c.expiresAt),
               handlers := reading.handlers[2 := Making(c.scope, c.expiresAt)])
  }

  lemma RunStep(x: Crypto, rpId: Bytes, start: Store, steps: seq<Step>, n: nat)
    requires n < |steps|
    ensures Run(x, rpId, start, steps[..n + 1]) == Next(x, rpId, Run(x, rpId, start, steps[..n]), steps[n])
  {
    assert steps[..n + 1][..n] == steps[..n];
  }

  lemma OvertakenIssued(x: Crypto, start: Store, c: Challenge, wire: Bytes, trusted: seq<ScopeKeyRecord>)
    requires c.InSpec()
    ensures Run(x, c.rpId, start, OvertakenRun(c, wire, trusted)[..2]) == OvertakenState(start, c, wire, 2)
  {
    var run := OvertakenRun(c, wire, trusted);
    assert run[..0] == [];
    RunStep(x, c.rpId, start, run, 0);
    RunStep(x, c.rpId, start, run, 1);
    assert Without(map[0 := Making(c.scope, c.expiresAt - DEFAULT_CHALLENGE_TTL)], 0) == map[];
    assert [] + [c] == [c] && [] + [Challenged(ToDict(c))] == [Challenged(ToDict(c))];
  }

  lemma OvertakenReads(x: Crypto, start: Store, c: Challenge, wire: Bytes, trusted: seq<ScopeKeyRecord>)
    requires c.InSpec() && ParseToken(wire).Ok?
    ensures Run(x, c.rpId, start, OvertakenRun(c, wire, trusted)[..3]) == OvertakenState(start, c, wire, 3)
  {
    OvertakenIssued(x, start, c, wire, trusted);
    RunStep(x, c.rpId, start, OvertakenRun(c, wire, trusted), 2);
    ReadsNext(start, c, wire);
  }

  lemma ReadsNext(start: Store, c: Challenge, wire: Bytes)
    requires ParseToken(wire).Ok?
    ensures AfterRedeemStart(OvertakenState(start, c, wire, 2), 1, wire, c.expiresAt - 1)
        == OvertakenState(start, c, wire, 3)
  {
  }

  lemma OvertakenSwept(x: Crypto, start: Store, c: Challenge, wire: Bytes, trusted: seq<ScopeKeyRecord>)
    requires c.InSpec() && ParseToken(wire).Ok?
    ensures Run(x, c.rpId, start, OvertakenRun(c, wire, trusted)[..4]) == OvertakenState(start, c, wire, 4)
  {
    OvertakenReads(x, start, c, wire, trusted);
    RunStep(x, c.rpId, start, OvertakenRun(c, wire, trusted), 3);
    SweepsNext(start, c, wire);
  }

  lemma SweepsNext(start: Store, c: Challenge, wire: Bytes)
    requires c.InSpec()
    ensures AfterChallengeStart(OvertakenState(start, c, wire, 3), 2, c.scope, c.expiresAt)
        == OvertakenState(start, c, wire, 4)
  {
  }

  lemma OvertakenEnds(x: Crypto, start: Store, c: Challenge, wire: Bytes, trusted: seq<ScopeKeyRecord>)
    requires c.InSpec() && ParseToken(wire).Ok?
    ensures Run(x, c.rpId, start, OvertakenRun(c, wire, trusted))
         == AfterRedeemVerify(x, AfterRedeemPop(OvertakenState(start, c, wire, 4), 1, c.expiresAt), 1, trusted)
  {
    var run := OvertakenRun(c, wire, trusted);
    OvertakenSwept(x, start, c, wire, trusted);
    RunStep(x, c.rpId, start, run, 4);
    RunStep(x, c.rpId, start, run, 5);
    assert run[..6] == run;
  }

  lemma OvertakenAnswers(x: Crypto, start: Store, c: Challenge, wire: Bytes, trusted: seq<ScopeKeyRecord>)
    requires c.InSpec() && ParseToken(wire).Ok? && ParseToken(wire).value.nonce == c.nonce
    ensures var found := OvertakenState(start, c, wire, 4).store.Popped(c.nonce, c.expiresAt);
      Run(x, c.rpId, start, OvertakenRun(c, wire, trusted)).answers
      == [Challenged(ToDict(c)), Decided(x, wire, c.expiresAt - 1, found, trusted)]
  {
    OvertakenEnds(x, start, c, wire, trusted);
    PopsNext(start, c, wire);
  }

  lemma PopsNext(start: Store, c: Challenge, wire: Bytes)
    requires ParseToken(wire).Ok? && ParseToken(wire).value.nonce == c.nonce
    ensures var s := OvertakenState(start, c, wire, 4);
      var next := AfterRedeemPop(s, 1, c.expiresAt);
      && next.answers == s.answers == [Challenged(ToDict(c))] && 1 in next.handlers
      && next.handlers[1] == Deciding(wire, c.expiresAt - 1, s.store.Popped(c.nonce, c.expiresAt))
  {
  }

  /** Interleaved, the two stores can differ: a token that verifies is refused in the overtaken run by
      the memory store, which has swept its challenge, and verified by the shared one, which still
      shows it. */
  lemma OvertakenDiffers(x: Crypto, c: Challenge, wire: Bytes, trusted: seq<ScopeKeyRecord>)
    requires c.InSpec() && ReadableHead(c.logHead) && Accepted(x, wire, trusted, c, c.expiresAt - 1)
    ensures var run := OvertakenRun(c, wire, trusted);
      && Run(x, c.rpId, EMPTY_MEMORY, run).answers == [Challenged(ToDict(c)), InvalidOrUnknown]
      && Run(x, c.rpId, EMPTY_REDIS, run).answers == [Challenged(ToDict(c)), Verified(Some(c.scope))]
  {
    OvertakenAnswers(x, EMPTY_MEMORY, c, wire, trusted);
    OvertakenAnswers(x, EMPTY_REDIS, c, wire, trusted);
    ScopeOnlyWhenOk(x, wire, trusted, c, c.expiresAt - 1);
    OvertakenFinds(c, wire);
  }

  lemma OvertakenFinds(c: Challenge, wire: Bytes)
    requires c.InSpec() && ReadableHead(c.logHead)
    ensures OvertakenState(EMPTY_MEMORY, c, wire, 4).store.Popped(c.nonce, c.expiresAt) == Ok(None)
    ensures OvertakenState(EMPTY_REDIS, c, wire, 4).store.Popped(c.nonce, c.expiresAt) == Ok(Some(c))
  {
  }

  // ---------------------------------------------------------------- the exact condition

  /** When a step reaches the stores; verification touches neither. */
  function TimeOf(step: Step): Option<int> {
    match step
    case ChallengeStart(_, _, now) => Some(now)
    case ChallengePut(_, _, _, at) => Some(at)
    case RedeemStart(_, _, now) => Some(now)
    case RedeemPop(_, at) => Some(at)
    case RedeemVerify(_, _) => None
  }

  predicate NotAfter(a: Step, b: Step) {
    TimeOf(a).Some? && TimeOf(b).Some? ==> TimeOf(a).value <= TimeOf(b).value
  }

  /** All steps read one clock that does not run backwards. */
  predicate SharedClock(steps: seq<Step>) {
    forall i, j :: 0 <= i < j < |steps| ==> NotAfter(steps[i], steps[j])
  }

  /** Every redemption pops at most `lag` seconds after it read the clock. */
  predicate WithinLag(x: Crypto, rpId: Bytes, steps: seq<Step>, lag: nat) {
    forall i :: 0 <= i < |steps| ==>
      var s := Run(x, rpId, EMPTY_MEMORY, steps[..i]);
      Pops(s, steps[i]) ==> steps[i].at <= s.handlers[steps[i].handler].now + lag
  }

  ghost predicate Interchangeable(x: Crypto, rpId: Bytes, lag: nat) {
    forall steps: seq<Step> :: SharedClock(steps) && WithinLag(x, rpId, steps, lag) && ReadableSteps(steps) ==>
      Run(x, rpId, EMPTY_MEMORY, steps).answers == Run(x, rpId, EMPTY_REDIS, steps).answers
  }

  lemma NoLagUndisturbed(x: Crypto, rpId: Bytes, steps: seq<Step>)
    requires SharedClock(steps) && WithinLag(x, rpId, steps, 0)
    ensures Undisturbed(x, rpId, steps)
  {
    forall i | 0 <= i < |steps|
      ensures PromptPop(Run(x, rpId, EMPTY_MEMORY, steps[..i]), steps[..i], steps[i])
    {
      NoLagPrompt(Run(x, rpId, EMPTY_MEMORY, steps[..i]), steps, i);
    }
  }

  lemma NoLagPrompt(s: State, steps: seq<Step>, i: nat)
    requires SharedClock(steps) && i < |steps|
    requires Pops(s, steps[i]) ==> steps[i].at <= s.handlers[steps[i].handler].now
    ensures PromptPop(s, steps[..i], steps[i])
  {
    assert forall j :: 0 <= j < i ==> NotAfter(steps[j], steps[i]);
  }

  lemma OvertakenWithinLag(x: Crypto, c: Challenge, wire: Bytes, trusted: seq<ScopeKeyRecord>, lag: nat)
    requires c.InSpec() && ParseToken(wire).Ok? && lag > 0
    ensures SharedClock(OvertakenRun(c, wire, trusted)) && WithinLag(x, c.rpId, OvertakenRun(c, wire, trusted), lag)
  {
    OvertakenSwept(x, EMPTY_MEMORY, c, wire, trusted);
  }

  /** The exact condition, for any relying party that has one valid token: the stores are
      interchangeable on all interleavings if and only if every redemption pops in the very second in
      which it read the clock. */
  lemma LagExact(x: Crypto, c: Challenge, wire: Bytes, trusted: seq<ScopeKeyRecord>, lag: nat)
    requires c.InSpec() && ReadableHead(c.logHead) && Accepted(x, wire, trusted, c, c.expiresAt - 1)
    ensures Interchangeable(x, c.rpId, lag) <==> lag == 0
  {
    if lag == 0 {
      forall steps: seq<Step> | SharedClock(steps) && WithinLag(x, c.rpId, steps, lag) && ReadableSteps(steps)
        ensures Run(x, c.rpId, EMPTY_MEMORY, steps).answers == Run(x, c.rpId, EMPTY_REDIS, steps).answers
      {
        NoLagUndisturbed(x, c.rpId, steps);
        UndisturbedAlike(x, c.rpId, steps);
      }
    } else {
      var run := OvertakenRun(c, wire, trusted);
      OvertakenWithinLag(x, c, wire, trusted, lag);
      OvertakenDiffers(x, c, wire, trusted);
      assert ReadableSteps(run);
    }
  }
}
