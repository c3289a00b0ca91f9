/** The relying party's two handlers over either pending store: issue a challenge, and redeem a token
    by taking the pending challenge out of the store before anything is verified. */
module RelyingParty {
  import opened Wrappers
  import opened Modular
  import opened Bytes
  import opened TransLog
  import opened Keys
  import opened Token
  import opened Verifier
  import opened PendingStores
  import Rsabssa

  /** What a client sees; every refused redemption looks the same. */
  datatype Answer =
    | BadScope
    | Challenged(c: ChallengeDict)
    | Verified(scope: Option<int>)
    | InvalidOrUnknown
    | ServerError

  /** One handler run: the answer, what goes to the internal decision log, and the store afterwards. */
  datatype Outcome = Outcome(answer: Answer, logged: seq<Decision>, store: Store)

  datatype Request =
    | ChallengeRequest(scope: int, logHead: Option<Bytes>, nonce: Bytes, now: int)
    | RedeemRequest(token: Option<Bytes>, trusted: seq<ScopeKeyRecord>, now: int)

  /** The challenge handler, with the nonce it draws. */
  function ChallengeOutcome(rpId: Bytes, store: Store, scope: int, logHead: Option<Bytes>, nonce: Bytes,
                            now: int): Outcome
  {
    if scope !in SCOPES then Outcome(BadScope, [], store)
    else
      var c := MakeChallenge(rpId, scope, now, DEFAULT_CHALLENGE_TTL, logHead, nonce);
      if c.Err? then Outcome(ServerError, [], store.Swept(now))
      else Outcome(Challenged(ToDict(c.value)), [], store.Swept(now).With(c.value, now))
  }

  /** The redemption handler; a token that is not even base64 is `None`. */
  function RedeemOutcome(x: Crypto, store: Store, token: Option<Bytes>, trusted: seq<ScopeKeyRecord>,
                         now: int): Outcome
  {
    var swept := store.Swept(now);
    if token.None? || ParseToken(token.value).Err? then Outcome(InvalidOrUnknown, [Malformed], swept)
    else
      var nonce := ParseToken(token.value).value.nonce;
      var popped := swept.Popped(nonce, now);
      var rest := swept.Without(nonce);
      if popped.Err? then Outcome(ServerError, [], rest)
      else if popped.value.None? then Outcome(InvalidOrUnknown, [ChallengeMismatch], rest)
      else
        var v := VerifyToken(x, token.value, trusted, popped.value.value, now);
        if v.Err? then Outcome(ServerError, [], rest)
        else
          var answer := if v.value.decision == OK then Verified(v.value.scope) else InvalidOrUnknown;
          Outcome(answer, [v.value.decision], rest)
  }

  function Respond(x: Crypto, rpId: Bytes, store: Store, req: Request): Outcome {
    match req
    case ChallengeRequest(scope, logHead, nonce, now) => ChallengeOutcome(rpId, store, scope, logHead, nonce, now)
    case RedeemRequest(token, trusted, now) => RedeemOutcome(x, store, token, trusted, now)
  }

  /** A challenge is made for every known scope, with the handler's clock value and 300 seconds to live, and
      answered as it is stored; if it cannot be made, nothing is stored but the sweep has happened. */
  lemma ChallengeExact(rpId: Bytes, store: Store, scope: int, logHead: Option<Bytes>, nonce: Bytes, now: int)
    ensures var o := ChallengeOutcome(rpId, store, scope, logHead, nonce, now);
      var made := Challenge(rpId, scope, nonce, now + 300, logHead);
      if scope !in {13, 16, 18, 21} then o.answer == BadScope && o.store == store
      else if 1 <= |rpId| <= 65535 && |nonce| == 32 && Unsigned(now + 300, 8)
      then o.answer == Challenged(ToDict(made)) && o.store == store.Swept(now).With(made, now)
      else o.answer == ServerError && o.store == store.Swept(now)
  {
    MakeExact(rpId, scope, now, 300, logHead, nonce);
  }

  /** What one redemption answers and logs: one decision, unless reading the challenge or comparing with it
      raises. The token is accepted, for the challenged scope, exactly when that decision is OK; every other
      decision is answered alike. */
  lemma RedeemExact(x: Crypto, store: Store, wire: Bytes, trusted: seq<ScopeKeyRecord>, now: int)
    requires ParseToken(wire).Ok?
    ensures var o, nonce := RedeemOutcome(x, store, Some(wire), trusted, now), ParseToken(wire).value.nonce;
      var found := store.Swept(now).Popped(nonce, now);
      && o.store == store.Swept(now).Without(nonce)
      && (found.Err? ==> o.answer == ServerError && o.logged == [])
      && (found == Ok(None) ==> o.answer == InvalidOrUnknown && o.logged == [ChallengeMismatch])
      && (found.Ok? && found.value.Some? ==>
            var c, v := found.value.value, VerifyToken(x, wire, trusted, found.value.value, now);
            && (c.InSpec() ==> v.Ok?)
            && (v.Err? ==> o.answer == ServerError && o.logged == [])
            && (v.Ok? ==> o.logged == [v.value.decision]
                          && o.answer == if v.value.decision == OK then Verified(Some(c.scope)) else InvalidOrUnknown))
  {
    match store.Swept(now).Popped(ParseToken(wire).value.nonce, now)
    case Ok(Some(c)) => ScopeOnlyWhenOk(x, wire, trusted, c, now);
    case _ =>
  }

  /** A token that does not parse is refused before anything is taken out of the store. */
  lemma MalformedExact(x: Crypto, store: Store, token: Option<Bytes>, trusted: seq<ScopeKeyRecord>, now: int)
    requires token.None? || ParseToken(token.value).Err?
    ensures RedeemOutcome(x, store, token, trusted, now) == Outcome(InvalidOrUnknown, [Malformed], store.Swept(now))
  {
  }

  /** The store the application was given. */
  datatype AnyStore = Local(memory: PendingChallengeStore) | Shared(redis: RedisPendingChallengeStore) {
    ghost function Repr(): object {
      match this case Local(memory) => memory case Shared(redis) => redis.client
    }

    ghost function Contents(): Store
      reads Repr()
    {
      match this case Local(memory) => Memory(memory.pending) case Shared(redis) => Redis(redis.client.keys)
    }

    method Sweep(now: int)
      modifies Repr()
      ensures Contents() == old(Contents()).Swept(now)
    {
      match this {
        case Local(memory) => var _ := memory.Sweep(now);
        case Shared(_) =>
      }
    }

    method Put(c: Challenge, now: int)
      modifies Repr()
      ensures Contents() == old(Contents()).With(c, now)
    {
      match this {
        case Local(memory) => memory.Put(c);
        case Shared(redis) => redis.Put(c, now);
      }
    }

    method Pop(nonce: Bytes, now: int) returns (c: Result<Option<Challenge>, FormatError>)
      modifies Repr()
      ensures c == old(Contents()).Popped(nonce, now)
      ensures Contents() == old(Contents()).Without(nonce)
    {
      match this {
        case Local(memory) => var found := memory.Pop(nonce); c := Ok(found);
        case Shared(redis) => c := redis.Pop(nonce, now);
      }
    }
  }

  class RpApp {
    const x: Crypto
    const rpId: Bytes
    const store: AnyStore
    var decisions: seq<Decision>

    constructor (x: Crypto, rpId: Bytes, store: AnyStore)
      ensures this.x == x && this.rpId == rpId && this.store == store && decisions == []
    {
      this.x, this.rpId, this.store, decisions := x, rpId, store, [];
    }

    method Challenge(scope: int, logHead: Option<Bytes>, nonce: Bytes, now: int) returns (a: Answer)
      modifies store.Repr()
      ensures var o := ChallengeOutcome(rpId, old(store.Contents()), scope, logHead, nonce, now);
        a == o.answer && store.Contents() == o.store
    {
      if scope !in SCOPES {
        return BadScope;
      }
      store.Sweep(now);
      var made := MakeChallenge(rpId, scope, now, DEFAULT_CHALLENGE_TTL, logHead, nonce);
      if made.Err? {
        return ServerError;
      }
      store.Put(made.value, now);
      a := Challenged(ToDict(made.value));
    }

    method Redeem(token: Option<Bytes>, trusted: seq<ScopeKeyRecord>, now: int) returns (a: Answer)
      requires store.Repr() != this
      modifies this, store.Repr()
      ensures var o := RedeemOutcome(x, old(store.Contents()), token, trusted, now);
        a == o.answer && store.Contents() == o.store && decisions == old(decisions) + o.logged
    {
      store.Sweep(now);
      if token.None? || ParseToken(token.value).Err? {
        decisions := decisions + [Malformed];
        return InvalidOrUnknown;
      }
      var nonce := ParseToken(token.value).value.nonce;
      var pending := store.Pop(nonce, now);
      if pending.Err? {
        return ServerError;
      }
      if pending.value.None? {
        decisions := decisions + [ChallengeMismatch];
        return InvalidOrUnknown;
      }
      var result := VerifyToken(x, token.value, trusted, pending.value.value, now);
      if result.Err? {
        return ServerError;
      }
      decisions := decisions + [result.value.decision];
      a := if result.value.decision == OK then Verified(result.value.scope) else InvalidOrUnknown;
    }
  }

  // ---------------------------------------------------------------- both stores answer alike

  /** Every memory entry is on the server too, which shows it until a time of grace after it expires. */
  ghost predicate MemoryMirrored(pending: Pending, keys: KeySpace) {
    forall n :: n in pending ==>
      && pending[n].nonce == n && pending[n].InSpec()
      && KeyOf(n) in keys && keys[KeyOf(n)].value == ToDict(pending[n])
      && keys[KeyOf(n)].deadline >= pending[n].expiresAt + TTL_GRACE
  }

  /** Every server entry holds a challenge that was made, and is in memory unless it expired at `swept`. */
  ghost predicate ServerMirrored(pending: Pending, keys: KeySpace, swept: int) {
    forall k :: k in keys ==>
      var d := keys[k].value;
      && k == KeyOf(d.nonce) && d.version == 1 && Challenge(d.rpId, d.scope, d.nonce, d.expiresAt, d.logHead).InSpec()
      && (d.expiresAt > swept ==> d.nonce in pending && ToDict(pending[d.nonce]) == d)
  }

  /** The two stores, when no sweep has used a clock value above `swept`. */
  ghost predicate Mirrored(pending: Pending, keys: KeySpace, swept: int) {
    MemoryMirrored(pending, keys) && ServerMirrored(pending, keys, swept)
  }

  /** This request takes an entry out of the shared store whose log head cannot be read back. */
  predicate TakesUnreadable(keys: KeySpace, req: Request) {
    && req.RedeemRequest? && req.token.Some? && ParseToken(req.token.value).Ok?
    && var shown := Shown(keys, KeyOf(ParseToken(req.token.value).value.nonce), req.now);
       shown.Some? && !ReadableHead(shown.value.logHead)
  }

  lemma LaterMirrored(pending: Pending, keys: KeySpace, clock: int, now: int)
    requires Mirrored(pending, keys, clock) && clock <= now
    ensures Mirrored(pending, keys, now)
  {
  }

  lemma SweepMirrored(pending: Pending, keys: KeySpace, now: int)
    requires Mirrored(pending, keys, now)
    ensures Mirrored(Unexpired(pending, now), keys, now)
  {
  }

  lemma PutMirrored(pending: Pending, keys: KeySpace, c: Challenge, at: int, swept: int)
    requires Mirrored(pending, keys, swept) && c.InSpec()
    ensures Mirrored(pending[c.nonce := c], Stored(keys, c, at), swept)
  {
    forall n: Bytes
      ensures KeyOf(n) == KeyOf(c.nonce) <==> n == c.nonce
    {
      KeyInjective(n, c.nonce);
    }
  }

  lemma TakeMirrored(pending: Pending, keys: KeySpace, nonce: Bytes, now: int)
    requires Mirrored(pending, keys, now)
    ensures Mirrored(pending - {nonce}, keys - {KeyOf(nonce)}, now)
  {
    forall n: Bytes
      ensures KeyOf(n) == KeyOf(nonce) <==> n == nonce
    {
      KeyInjective(n, nonce);
    }
  }

  lemma ChallengeAlike(rpId: Bytes, pending: Pending, keys: KeySpace, scope: int, logHead: Option<Bytes>, nonce: Bytes,
                       now: int)
    requires Mirrored(pending, keys, now)
    ensures var m, r := ChallengeOutcome(rpId, Memory(pending), scope, logHead, nonce, now),
                        ChallengeOutcome(rpId, Redis(keys), scope, logHead, nonce, now);
      m.answer == r.answer && m.store.Memory? && r.store.Redis? && Mirrored(m.store.pending, r.store.keys, now)
  {
    if scope in SCOPES {
      SweepMirrored(pending, keys, now);
      var c := MakeChallenge(rpId, scope, now, DEFAULT_CHALLENGE_TTL, logHead, nonce);
      if c.Ok? {
        PutMirrored(Unexpired(pending, now), keys, c.value, now, now);
      }
    }
  }

  /** What a handler that read the clock at `now` finds when its pop reaches the stores at `at`: the same
      unexpired challenge in both, or in neither any that has not expired. */
  lemma PopAlike(pending: Pending, keys: KeySpace, nonce: Bytes, now: int, at: int)
    requires Mirrored(pending, keys, now) && at <= now + TTL_GRACE
    ensures var shown := Shown(keys, KeyOf(nonce), at);
      if nonce in pending && pending[nonce].expiresAt > now then shown == Some(ToDict(pending[nonce]))
      else shown.Some? ==> shown.value.expiresAt <= now
  {
    if KeyOf(nonce) in keys {
      KeyInjective(keys[KeyOf(nonce)].value.nonce, nonce);
    }
  }

  /** An expired challenge verifies nothing. */
  lemma ExpiredRefused(x: Crypto, wire: Bytes, trusted: seq<ScopeKeyRecord>, c: Challenge, now: int)
    requires c.InSpec() && c.expiresAt <= now
    ensures VerifyToken(x, wire, trusted, c, now).Ok? && !Accepted(x, wire, trusted, c, now)
  {
    ScopeOnlyWhenOk(x, wire, trusted, c, now);
  }

  lemma RedeemAlike(x: Crypto, pending: Pending, keys: KeySpace, token: Option<Bytes>, trusted: seq<ScopeKeyRecord>,
                    now: int)
    requires Mirrored(pending, keys, now)
    ensures var m := RedeemOutcome(x, Memory(pending), token, trusted, now);
      var r := RedeemOutcome(x, Redis(keys), token, trusted, now);
      && (m.answer == r.answer <==> !TakesUnreadable(keys, RedeemRequest(token, trusted, now)))
      && m.store.Memory? && r.store.Redis? && Mirrored(m.store.pending, r.store.keys, now)
  {
    SweepMirrored(pending, keys, now);
    if token.Some? && ParseToken(token.value).Ok? {
      RedeemStores(x, pending, keys, token.value, trusted, now);
      RedeemAnswers(x, pending, keys, token.value, trusted, now);
    }
  }

  lemma RedeemStores(x: Crypto, pending: Pending, keys: KeySpace, wire: Bytes, trusted: seq<ScopeKeyRecord>, now: int)
    requires Mirrored(Unexpired(pending, now), keys, now) && ParseToken(wire).Ok?
    ensures var m := RedeemOutcome(x, Memory(pending), Some(wire), trusted, now).store;
      var r := RedeemOutcome(x, Redis(keys), Some(wire), trusted, now).store;
      m.Memory? && r.Redis? && Mirrored(m.pending, r.keys, now)
  {
    RedeemStore(x, Memory(pending), wire, trusted, now);
    RedeemStore(x, Redis(keys), wire, trusted, now);
    TakeMirrored(Unexpired(pending, now), keys, ParseToken(wire).value.nonce, now);
  }

  lemma RedeemStore(x: Crypto, store: Store, wire: Bytes, trusted: seq<ScopeKeyRecord>, now: int)
    requires ParseToken(wire).Ok?
    ensures RedeemOutcome(x, store, Some(wire), trusted, now).store
        == store.Swept(now).Without(ParseToken(wire).value.nonce)
  {
  }

  lemma RedeemAnswers(x: Crypto, pending: Pending, keys: KeySpace, wire: Bytes, trusted: seq<ScopeKeyRecord>, now: int)
    requires Mirrored(Unexpired(pending, now), keys, now) && ParseToken(wire).Ok?
    ensures var m := RedeemOutcome(x, Memory(pending), Some(wire), trusted, now).answer;
      var r := RedeemOutcome(x, Redis(keys), Some(wire), trusted, now).answer;
      m == r <==> !TakesUnreadable(keys, RedeemRequest(Some(wire), trusted, now))
  {
    var nonce, swept := ParseToken(wire).value.nonce, Unexpired(pending, now);
    PopAlike(swept, keys, nonce, now, now);
    if nonce in swept {
      ScopeOnlyWhenOk(x, wire, trusted, swept[nonce], now);
    } else {
      match Shown(keys, KeyOf(nonce), now)
      case None =>
      case Some(d) =>
        ExpiredRefused(x, wire, trusted, Challenge(d.rpId, d.scope, d.nonce, d.expiresAt, d.logHead), now);
    }
  }

  // ---------------------------------------------------------------- runs of requests

  function StoreAfter(x: Crypto, rpId: Bytes, start: Store, reqs: seq<Request>): Store {
    if reqs == [] then start
    else Respond(x, rpId, StoreAfter(x, rpId, start, reqs[..|reqs| - 1]), reqs[|reqs| - 1]).store
  }

  function AnswerAt(x: Crypto, rpId: Bytes, start: Store, reqs: seq<Request>, i: nat): Answer
    requires i < |reqs|
  {
    Respond(x, rpId, StoreAfter(x, rpId, start, reqs[..i]), reqs[i]).answer
  }

  /** One shared clock that does not run backwards. */
  predicate ClockAscends(reqs: seq<Request>) {
    forall i, j :: 0 <= i < j < |reqs| ==> reqs[i].now <= reqs[j].now
  }

  lemma RespondAlike(x: Crypto, rpId: Bytes, pending: Pending, keys: KeySpace, req: Request)
    requires Mirrored(pending, keys, req.now)
    ensures var m, r := Respond(x, rpId, Memory(pending), req), Respond(x, rpId, Redis(keys), req);
      && (m.answer == r.answer <==> !TakesUnreadable(keys, req))
      && m.store.Memory? && r.store.Redis? && Mirrored(m.store.pending, r.store.keys, req.now)
  {
    match req
    case ChallengeRequest(scope, logHead, nonce, now) =>
      ChallengeAlike(rpId, pending, keys, scope, logHead, nonce, now);
    case RedeemRequest(token, trusted, now) => RedeemAlike(x, pending, keys, token, trusted, now);
  }

  lemma {:induction false} RunMirrored(x: Crypto, rpId: Bytes, reqs: seq<Request>, now: int)
    requires ClockAscends(reqs) && forall i :: 0 <= i < |reqs| ==> reqs[i].now <= now
    ensures var m, r := StoreAfter(x, rpId, EMPTY_MEMORY, reqs), StoreAfter(x, rpId, EMPTY_REDIS, reqs);
      m.Memory? && r.Redis? && Mirrored(m.pending, r.keys, now)
  {
    if reqs != [] {
      var before, last := reqs[..|reqs| - 1], reqs[|reqs| - 1];
      RunMirrored(x, rpId, before, last.now);
      var m, r := StoreAfter(x, rpId, EMPTY_MEMORY, before).pending, StoreAfter(x, rpId, EMPTY_REDIS, before).keys;
      RespondAlike(x, rpId, m, r, last);
      LaterMirrored(Respond(x, rpId, Memory(m), last).store.pending, Respond(x, rpId, Redis(r), last).store.keys,
                    last.now, now);
    }
  }

  /** On every run with a shared clock, each request is answered alike by the two stores, except when
      it takes a challenge out of the shared store whose log head has the wrong length: then, and only
      then, the answers differ. Nonces need not be unique. */
  lemma AnswersAlikeExactly(x: Crypto, rpId: Bytes, reqs: seq<Request>, i: nat)
    requires ClockAscends(reqs) && i < |reqs|
    ensures var r := StoreAfter(x, rpId, EMPTY_REDIS, reqs[..i]);
      r.Redis?
      && (AnswerAt(x, rpId, EMPTY_MEMORY, reqs, i) == AnswerAt(x, rpId, EMPTY_REDIS, reqs, i)
          <==> !TakesUnreadable(r.keys, reqs[i]))
  {
    RunMirrored(x, rpId, reqs[..i], reqs[i].now);
    var m, r := StoreAfter(x, rpId, EMPTY_MEMORY, reqs[..i]), StoreAfter(x, rpId, EMPTY_REDIS, reqs[..i]);
    RespondAlike(x, rpId, m.pending, r.keys, reqs[i]);
  }

  // ---------------------------------------------------------------- which log heads keep them alike

  predicate ReadableHeads(reqs: seq<Request>) {
    forall i :: 0 <= i < |reqs| && reqs[i].ChallengeRequest? ==> ReadableHead(reqs[i].logHead)
  }

  ghost predicate ReadableKeys(s: Store) {
    s.Redis? && forall k :: k in s.keys ==> ReadableHead(s.keys[k].value.logHead)
  }

  lemma {:induction false} RunReadable(x: Crypto, rpId: Bytes, reqs: seq<Request>)
    requires ReadableHeads(reqs)
    ensures ReadableKeys(StoreAfter(x, rpId, EMPTY_REDIS, reqs))
  {
    if reqs != [] {
      RunReadable(x, rpId, reqs[..|reqs| - 1]);
    }
  }

  /** With readable log heads the two stores cannot be told apart from outside. */
  lemma StoresAlike(x: Crypto, rpId: Bytes, reqs: seq<Request>, i: nat)
    requires ClockAscends(reqs) && ReadableHeads(reqs) && i < |reqs|
    ensures AnswerAt(x, rpId, EMPTY_MEMORY, reqs, i) == AnswerAt(x, rpId, EMPTY_REDIS, reqs, i)
  {
    AnswersAlikeExactly(x, rpId, reqs, i);
    RunReadable(x, rpId, reqs[..i]);
  }

  /** The run that tells the stores apart: a challenge with this log head, then any token for its nonce. */
  function TellingRun(head: Option<Bytes>, nonce: Bytes, wire: Bytes): seq<Request> {
    [ChallengeRequest(18, head, nonce, 0), RedeemRequest(Some(wire), [], 0)]
  }

  lemma FitsTtl()
    ensures Unsigned(DEFAULT_CHALLENGE_TTL, 8)
  {
    TwoBytes();
    PowMonotone(256, 2, 8);
  }

  lemma UnreadableHeadTells(x: Crypto, rpId: Bytes, head: Option<Bytes>, wire: Bytes)
    requires 0 < |rpId| <= 0xFFFF && !ReadableHead(head)
    requires ParseToken(wire).Ok? && |ParseToken(wire).value.nonce| == NONCE_LEN
    ensures var run := TellingRun(head, ParseToken(wire).value.nonce, wire);
      && ClockAscends(run)
      && AnswerAt(x, rpId, EMPTY_MEMORY, run, 1) != AnswerAt(x, rpId, EMPTY_REDIS, run, 1)
  {
    var nonce := ParseToken(wire).value.nonce;
    var run := TellingRun(head, nonce, wire);
    AnswersAlikeExactly(x, rpId, run, 1);
    assert run[..1] == [run[0]] && run[..1][..0] == [];
    var c := Challenge(rpId, 18, nonce, DEFAULT_CHALLENGE_TTL, head);
    FitsTtl();
    assert MakeChallenge(rpId, 18, 0, DEFAULT_CHALLENGE_TTL, head, nonce) == Ok(c);
    assert StoreAfter(x, rpId, EMPTY_REDIS, run[..1]) == EMPTY_REDIS.With(c, 0);
  }

  /** A wire that parses, whatever it is worth. */
  function SomeWire(): (wire: Bytes)
    ensures ParseToken(wire).Ok? && |ParseToken(wire).value.nonce| == NONCE_LEN
  {
    FitsTtl();
    assert Unsigned(0, 8);
    EncodeThenParse(Zeros(Rsabssa.PREFIX_LEN), 18, Zeros(KEY_ID_LEN), Zeros(DIGEST_LEN), Zeros(NONCE_LEN), 0, [0]);
    Zeros(Rsabssa.PREFIX_LEN) + TokenBytes(18, Zeros(KEY_ID_LEN), Zeros(DIGEST_LEN), Zeros(NONCE_LEN), 0) + [0]
  }

  /** The log head provider always answers with this head. */
  predicate UsesHead(reqs: seq<Request>, head: Option<Bytes>) {
    forall i :: 0 <= i < |reqs| && reqs[i].ChallengeRequest? ==> reqs[i].logHead == head
  }

  ghost predicate NeverToldApart(x: Crypto, rpId: Bytes, head: Option<Bytes>) {
    forall reqs: seq<Request>, i: nat :: ClockAscends(reqs) && UsesHead(reqs, head) && i < |reqs| ==>
      AnswerAt(x, rpId, EMPTY_MEMORY, reqs, i) == AnswerAt(x, rpId, EMPTY_REDIS, reqs, i)
  }

  /** The exact condition on the log head: the stores cannot be told apart on any run if and only if
      the head is absent or has the length of a digest. */
  lemma HeadExact(x: Crypto, rpId: Bytes, head: Option<Bytes>)
    requires 0 < |rpId| <= 0xFFFF
    ensures NeverToldApart(x, rpId, head) <==> ReadableHead(head)
  {
    if ReadableHead(head) {
      forall reqs: seq<Request>, i: nat | ClockAscends(reqs) && UsesHead(reqs, head) && i < |reqs|
        ensures AnswerAt(x, rpId, EMPTY_MEMORY, reqs, i) == AnswerAt(x, rpId, EMPTY_REDIS, reqs, i)
      {
        StoresAlike(x, rpId, reqs, i);
      }
    } else {
      var wire := SomeWire();
      var run := TellingRun(head, ParseToken(wire).value.nonce, wire);
      UnreadableHeadTells(x, rpId, head, wire);
      assert UsesHead(run, head);
    }
  }
}
