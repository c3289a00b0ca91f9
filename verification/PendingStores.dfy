/** The two stores of pending challenges: a dictionary in process memory, and a shared Redis key space
    whose entries expire by themselves. */
module PendingStores {
  import opened Wrappers
  import opened Bytes
  import opened Token

  type Pending = map<Bytes, Challenge>

  // ---------------------------------------------------------------- in process memory

  function Unexpired(pending: Pending, now: int): Pending {
    pending - (set n | n in pending && pending[n].expiresAt <= now)
  }

  function Find(pending: Pending, nonce: Bytes): Option<Challenge> {
    if nonce in pending then Some(pending[nonce]) else None
  }

  class PendingChallengeStore {
    var pending: Pending

    constructor ()
      ensures pending == map[]
    {
      pending := map[];
    }

    /** A challenge goes under its nonce, in place of whatever was there. */
    method Put(c: Challenge)
      modifies this
      ensures pending == old(pending)[c.nonce := c]
    {
      pending := pending[c.nonce := c];
    }

    /** Take what lies under a nonce. */
    method Pop(nonce: Bytes) returns (c: Option<Challenge>)
      modifies this
      ensures c == Find(old(pending), nonce)
      ensures pending == old(pending) - {nonce}
    {
      c := Find(pending, nonce);
      pending := pending - {nonce};
    }

    /** Clear out what has expired by `now`, and count it. */
    method Sweep(now: int) returns (removed: nat)
      modifies this
      ensures pending == Unexpired(old(pending), now)
      ensures removed == |old(pending)| - |pending|
    {
      ghost var was := pending;
      var expired := set n | n in pending && pending[n].expiresAt <= now;
      removed := |expired|;
      ghost var gone := {};
      while expired != {}
        invariant gone + expired == ExpiredIn(was, now) && gone !! expired
        invariant pending == was - gone
        decreases |expired|
      {
        var nonce :| nonce in expired;
        RemoveOneMore(was, gone, nonce);
        pending := pending - {nonce};
        expired, gone := expired - {nonce}, gone + {nonce};
      }
      RemovingExpired(was, now);
    }
  }

  ghost function ExpiredIn(pending: Pending, now: int): set<Bytes> {
    set n | n in pending && pending[n].expiresAt <= now
  }

  lemma RemoveOneMore(m: Pending, gone: set<Bytes>, n: Bytes)
    ensures m - gone - {n} == m - (gone + {n})
  {
  }

  /** Deleting the expired nonces one by one leaves the unexpired challenges. */
  lemma RemovingExpired(m: Pending, now: int)
    ensures m - ExpiredIn(m, now) == Unexpired(m, now)
    ensures |Unexpired(m, now)| == |m| - |ExpiredIn(m, now)|
  {
    assert (m - ExpiredIn(m, now)).Keys == m.Keys - ExpiredIn(m, now);
  }

  /** Sweeping leaves exactly the challenges that expire after the clock value. */
  lemma SweptExact(m: Pending, now: int, n: Bytes)
    ensures Find(Unexpired(m, now), n) == if n in m && m[n].expiresAt > now then Some(m[n]) else None
  {
  }

  // ---------------------------------------------------------------- the shared key space

  const KEY_PREFIX := "zkage:pending:"

  /** How long, in seconds, a challenge can still be popped after it expired. */
  const TTL_GRACE := 60

  function HexDigit(d: int): char
    requires 0 <= d < 16
  {
    "0123456789abcdef"[d]
  }

  /** `nonce.hex()`. */
  function Hex(s: Bytes): (r: string)
    ensures |r| == 2 * |s|
  {
    if s == [] then "" else [HexDigit(s[0] / 16), HexDigit(s[0] % 16)] + Hex(s[1..])
  }

  /** Two digits for each byte, the high half first. */
  lemma {:induction false} HexAt(s: Bytes, i: nat)
    requires i < |s|
    ensures Hex(s)[2 * i..2 * i + 2] == ["0123456789abcdef"[s[i] / 16], "0123456789abcdef"[s[i] % 16]]
  {
    HexParts(s);
    if i > 0 {
      HexAt(s[1..], i - 1);
      SuffixSlice(Hex(s), 2 * i);
    } else {
      assert Hex(s)[0..2] == [Hex(s)[0], Hex(s)[1]];
    }
  }

  lemma SuffixSlice(t: string, k: nat)
    requires 2 <= k <= |t| - 2
    ensures t[2..][k - 2..k] == t[k..k + 2]
  {
  }

  function KeyOf(nonce: Bytes): string { KEY_PREFIX + Hex(nonce) }

  lemma HexDigitInjective(c: int, d: int)
    requires 0 <= c < 16 && 0 <= d < 16 && HexDigit(c) == HexDigit(d)
    ensures c == d
  {
    var digits := "0123456789abcdef";
    assert forall i, j :: 0 <= i < j < 16 ==> digits[i] != digits[j];
  }

  lemma HexParts(s: Bytes)
    requires s != []
    ensures Hex(s)[0] == HexDigit(s[0] / 16) && Hex(s)[1] == HexDigit(s[0] % 16) && Hex(s)[2..] == Hex(s[1..])
  {
    var digits := [HexDigit(s[0] / 16), HexDigit(s[0] % 16)];
    assert Hex(s) == digits + Hex(s[1..]);
  }

  lemma {:induction false} HexInjective(a: Bytes, b: Bytes)
    requires Hex(a) == Hex(b)
    ensures a == b
  {
    assert |a| == |b|;
    if a != [] {
      HexParts(a);
      HexParts(b);
      HexDigitInjective(a[0] / 16, b[0] / 16);
      HexDigitInjective(a[0] % 16, b[0] % 16);
      HexInjective(a[1..], b[1..]);
      assert a == [a[0]] + a[1..] && b == [b[0]] + b[1..];
    }
  }

  /** Different nonces have different keys. */
  lemma KeyInjective(a: Bytes, b: Bytes)
    ensures KeyOf(a) == KeyOf(b) <==> a == b
  {
    if KeyOf(a) == KeyOf(b) {
      assert Hex(a) == KeyOf(a)[|KEY_PREFIX|..] && Hex(b) == KeyOf(b)[|KEY_PREFIX|..];
      HexInjective(a, b);
    }
  }

  /** A stored value and the clock value from which on the server no longer shows it. */
  datatype Entry = Entry(value: ChallengeDict, deadline: int)

  type KeySpace = map<string, Entry>

  function Ttl(c: Challenge, now: int): (ttl: int)
    ensures ttl >= 1
  {
    var wanted := c.expiresAt - now + TTL_GRACE;
    if wanted >= 1 then wanted else 1
  }

  function Stored(keys: KeySpace, c: Challenge, now: int): KeySpace {
    keys[KeyOf(c.nonce) := Entry(ToDict(c), now + Ttl(c, now))]
  }

  /** What the server shows under a name. */
  function Shown(keys: KeySpace, name: string, now: int): Option<ChallengeDict> {
    if name in keys && now < keys[name].deadline then Some(keys[name].value) else None
  }

  /** How long the server shows a stored challenge: until a minute after its expiry, and for a second at least;
      it shows the other entries as before. */
  lemma ShownExact(keys: KeySpace, c: Challenge, put: int, at: int, nonce: Bytes)
    ensures Shown(Stored(keys, c, put), KeyOf(nonce), at)
         == if nonce == c.nonce then if at < c.expiresAt + 60 || at < put + 1 then Some(ToDict(c)) else None
            else Shown(keys, KeyOf(nonce), at)
  {
    KeyInjective(nonce, c.nonce);
  }

  /** What the client makes of an answer; an unreadable challenge raises. */
  function Decoded(raw: Option<ChallengeDict>): Result<Option<Challenge>, FormatError> {
    match raw
    case None => Ok(None)
    case Some(d) =>
      var c := FromDict(d);
      if c.Err? then Err(c.error) else Ok(Some(c.value))
  }

  /** The foreign server: a key space shared by all nodes, with its clock. */
  class RedisServer {
    var keys: KeySpace

    constructor ()
      ensures keys == map[]
    {
      keys := map[];
    }

    /** `SET name value EX ex`. */
    method Set(name: string, value: ChallengeDict, ex: int, now: int)
      modifies this
      ensures keys == old(keys)[name := Entry(value, now + ex)]
    {
      keys := keys[name := Entry(value, now + ex)];
    }

    /** `GETDEL name`. */
    method GetDel(name: string, now: int) returns (raw: Option<ChallengeDict>)
      modifies this
      ensures raw == Shown(old(keys), name, now)
      ensures keys == old(keys) - {name}
    {
      raw := Shown(keys, name, now);
      keys := keys - {name};
    }
  }

  class RedisPendingChallengeStore {
    const client: RedisServer

    constructor (client: RedisServer)
      ensures this.client == client
    {
      this.client := client;
    }

    method Put(c: Challenge, now: int)
      modifies client
      ensures client.keys == Stored(old(client.keys), c, now)
    {
      var wanted := c.expiresAt - now + TTL_GRACE;
      var ttl := if 1 >= wanted then 1 else wanted;
      client.Set(KeyOf(c.nonce), ToDict(c), ttl, now);
    }

    method Pop(nonce: Bytes, now: int) returns (c: Result<Option<Challenge>, FormatError>)
      modifies client
      ensures c == Decoded(Shown(old(client.keys), KeyOf(nonce), now))
      ensures client.keys == old(client.keys) - {KeyOf(nonce)}
    {
      var raw := client.GetDel(KeyOf(nonce), now);
      c := Decoded(raw);
    }
  }

  // ---------------------------------------------------------------- either store

  /** The contents of one of the two stores. */
  datatype Store = Memory(pending: Pending) | Redis(keys: KeySpace) {
    /** Sweeping does nothing on the shared store. */
    function Swept(now: int): Store {
      match this case Memory(pending) => Memory(Unexpired(pending, now)) case Redis(_) => this
    }

    function With(c: Challenge, now: int): Store {
      match this case Memory(pending) => Memory(pending[c.nonce := c]) case Redis(keys) => Redis(Stored(keys, c, now))
    }

    function Popped(nonce: Bytes, now: int): Result<Option<Challenge>, FormatError> {
      match this
      case Memory(pending) => Ok(Find(pending, nonce))
      case Redis(keys) => Decoded(Shown(keys, KeyOf(nonce), now))
    }

    function Without(nonce: Bytes): Store {
      match this case Memory(pending) => Memory(pending - {nonce}) case Redis(keys) => Redis(keys - {KeyOf(nonce)})
    }

    /** This very challenge is in the store. */
    predicate Holds(c: Challenge) {
      match this
      case Memory(pending) => c.nonce in pending && pending[c.nonce] == c
      case Redis(keys) => KeyOf(c.nonce) in keys && keys[KeyOf(c.nonce)].value == ToDict(c)
    }

    /** Every entry lies under its own nonce. */
    ghost predicate WellKeyed() {
      match this
      case Memory(pending) => forall n :: n in pending ==> pending[n].nonce == n
      case Redis(keys) => forall k :: k in keys ==> k == KeyOf(keys[k].value.nonce)
    }
  }

  const EMPTY_MEMORY := Memory(map[])
  const EMPTY_REDIS := Redis(map[])

  lemma PutKeepsKeying(s: Store, c: Challenge, now: int)
    requires s.WellKeyed()
    ensures s.With(c, now).WellKeyed() && s.Swept(now).WellKeyed() && s.Without(c.nonce).WellKeyed()
  {
  }

  /** A popped challenge was in the store under the nonce asked for, and is there no longer; every
      challenge with another nonce stays. */
  lemma PopTakes(s: Store, nonce: Bytes, now: int, c: Challenge)
    requires s.WellKeyed()
    ensures s.Popped(nonce, now) == Ok(Some(c)) ==> c.nonce == nonce && s.Holds(c)
    ensures s.Without(nonce).Holds(c) <==> s.Holds(c) && c.nonce != nonce
  {
    KeyInjective(c.nonce, nonce);
    if s.Redis? && s.Popped(nonce, now) == Ok(Some(c)) {
      KeyInjective(s.keys[KeyOf(nonce)].value.nonce, nonce);
    }
  }

  /** Putting makes room for one challenge only: no other challenge appears. */
  lemma PutAddsOne(s: Store, c: Challenge, now: int, other: Challenge)
    ensures s.With(c, now).Holds(c)
    ensures other != c && s.With(c, now).Holds(other) ==> s.Holds(other)
    ensures s.Swept(now).Holds(other) ==> s.Holds(other)
  {
    KeyInjective(c.nonce, other.nonce);
  }
}
