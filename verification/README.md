# zkage: a verified model

zkage lets a person prove an age threshold to a relying party without revealing who they are. An
issuer enrols a device, checks an attestation once, and later blind-signs short-lived tokens; a user
agent obtains such a token for a relying party's challenge; the relying party verifies it offline
against a pinned keyset and accepts it once. The issuer's keys are rotated and revoked in public, in a
hash-chained transparency log. This project models the four parts in which a mistake would matter
most, and proves what each of them, and their combination, guarantees.

## How the model is organised

Arithmetic and bytes: `Modular` (powers, extended Euclid, inverses), `NumberTheory` (Fermat's little
theorem, prime powers and residues modulo two primes), `Bytes` (big-endian integers, bit lengths,
exclusive or), `Wrappers` (optional values and results).

1. Blind signing. `Rsa` says what the two exponents of a key do to every residue, `Pss` is the
   message encoding and its verification (sections 9.1.1 and 9.1.2 and appendix B.2.1 of RFC 8017),
   `Rsabssa` is Prepare, Blind, BlindSign, Finalize and Verify of RFC 9474 (sections 4.1 to 4.5, with
   the signer-side blinding of section 7.1), `Threshold` is the two-out-of-three variant.
2. Keys in public. `TransLog` is the hash chain, `LogSync` the user agent's pin and its gossip check,
   `ActiveKeys` the choice of a scope's key, `Keys` the key policy, `Federation` the writes of
   initialise, rotate and revoke, `Lifecycle` and `LifecycleRuns` what all runs of them keep,
   `Operations` what each of the three answers and logs, `PublicFiles` what the head file and the keyset
   file hold beside the log, `HonestLog` an issuer and a user agent together.
3. Issuer. `RateLimit` is the token bucket with its daily cap, `DeviceKey` the signed request layout,
   `IssuerTables` the two database tables, `Issuer` the two handlers, `IssuerRuns`, `IssuerReplay`,
   `IssuerDays` and `IssuerScopes` all interleavings of them, `IssuerScenarios` two runs in which a
   promise fails.
4. Relying party. `Token` is the wire format, `Verifier` the decision function, `PendingStores` the
   two stores of pending challenges, `RelyingParty` the two handlers, `RelyingPartyRuns` all their
   interleavings, `StoreInterchange` when one store can replace the other.

`EndToEnd`, `Trust` and `Flow` join the parts: from a challenge to an accepted token, under every
history of keys, and through the runs of issuer and relying party.

Objects that the program updates in place are classes (`RateLimit.RateLimiter`,
`IssuerTables.IssuerStore`, `Issuer.IssuerApp`, `Federation.StateDir`,
`PendingStores.PendingChallengeStore`, `PendingStores.RedisPendingChallengeStore`,
`RelyingParty.RpApp`), and each of their methods is tied by its contract to a function of the old
state. Loops of the program are loops here (`Pss.Mgf1Blocks`, `Pss.XorMasked`, `Rsabssa.BlindSign`,
`Threshold.SplitPairs`, `TransLog.VerifyChain`, `ActiveKeys.FindActiveRecord`,
`Federation.StateDir.WriteSetupFiles`, `Federation.StateDir.WriteScopeKeys`,
`PendingStores.PendingChallengeStore.Sweep`). Everything the
program computes without changing anything is a function. Runs and interleavings are sequences of
steps, and the claims about them are proved for every sequence.

## Conventions

- SHA-256 and SHA-384 are arbitrary functions to 32 and to 48 bytes. Nothing assumes that they are
  injective, which no function to a fixed length is: where a claim depends on a hash, it says that the
  inputs are equal *or* that two named inputs collide.
- Ed25519 verification and DER encoding and decoding are arbitrary functions; that a key's encoding
  decodes to the key again is a hypothesis where it is used.
- `pow(x, k, n)` and `pow(x, -1, n)` have their mathematical meaning; OpenSSL's signature check is
  RSASSA-PSS-VERIFY of section 8.1.2 of RFC 8017. A valid key pair is one whose primes are different
  primes and whose exponents are inverse to each other modulo the least common multiple of the two
  primes less one; `Rsa.SmallKey` shows that there are such pairs.
- Random values (blinding factors, salts, prefixes, shares, nonces, identifiers) and clock values are
  inputs, and the claims hold for all of them.
- The limiter's floats are reals.
- Exceptions are error results. Where nothing depends on which exception is raised, as in
  `EndToEnd.Request`, the result is an optional value.

## Findings

- `verify_chain` does not look at the length of a key id, and without it the canonical bytes of a
  record are ambiguous: `TransLog.AmbiguousWithoutKeyIdLength` gives, for every hash, two different
  logs of one record with the same head. `TransLog.SameHeadExact` shows that equally long key ids are
  exactly what is missing, and `TransLog.ExtensionExact` what that means for pins. The results about
  whole runs and gossip therefore carry the condition that key ids have 32 bytes, which `append_record`
  enforces, so that every log the issuer publishes meets it (`LifecycleRuns.PublishedLogsExtend`).
- `verify_chain` documents one exception, but a record with a number that does not fit its field raises
  another, out of the conversion to bytes; `TransLog.VerifyChain` tells the two apart.
- `blind_sign_thresholded` accepts messages of any length whose value is in range, while `blind_sign`
  insists on modulus length: the two agree exactly on messages of modulus length
  (`Threshold.ThresholdRefinesBlindSign`).
- `_publish` replaces the head file, the keyset file and the log in this order, and the relying party
  reads the first two. (a) A rotation or revocation that stops after the head file leaves a head that no
  synchronised user agent accepts: it aborts with a split-view error until a later publication finishes
  (`PublicFiles.StoppedAfterHead`). On every run from the empty directory the head file is accepted
  exactly when it is not longer than the log, as far as heads can be told apart
  (`PublicFiles.HeadFileExact`). (b) A rotation that stops between the keyset file and the log leaves an
  issuer that signs with a key that the file no longer has. `Trust.FileTrustExact` shows that honest
  tokens of a scope are accepted under the file exactly when the file is there and no rotation or
  revocation of that scope has torn it from the log. (c) A rotation that stops there after a revocation
  leaves a key in the file that the log does not have (`Trust.RevokedFileExact`).
- `sync_log` asks for the signed head and for the log in two requests. When a rotation or revocation
  finishes in between, the user agent of an honest issuer is refused; `HonestLog.SyncExact` shows that
  this is the only way.
- The scope of a signature is checked against the account version that the handler read at its start,
  not against the account at the moment of issuance. On every interleaving the version is one that the
  table held at the very moment of the read (`IssuerRuns.GrantsAuthorised`), but a renewal can overtake
  the issuance: in the run of `IssuerScenarios.RenewalOvertakes`, with its clock in order, scope 21 is
  signed for an account that by then allows 13. `IssuerRuns.ScopeAtAdmission` says exactly when the
  scope is still within the account: when it has not been renewed since the read, or the last renewal
  since then covers the scope.
- The rate bound does not need an ordered clock (`RateLimit.RateBound`), but the daily cap does: it is
  kept under all limits if and only if the call times do not come back to a day they had left
  (`RateLimit.CapExact`). One second of disorder around midnight is enough (`RateLimit.CapNeedsOrder`),
  and two handlers that overtake each other bring it about although each reads the clock in order
  (`IssuerScenarios.CapOvertaken`).
- When a request is refused by the daily cap at a time that is not a whole second, the advertised wait
  can end just before midnight; `RateLimit.CapWaitExact` says exactly when.
- A replayed request is refused although the issuer forgets request ids, because the retention of 600
  seconds is more than twice the timestamp window of 60 seconds; `IssuerTables.RetentionExact` gives
  the exact bound, with the clock disorder it tolerates.
- Reading a challenge back from the Redis store raises `ChallengeFormatError`, which the store does not
  catch, when the challenge carries a log head whose length is not 32 bytes. `make_challenge` does not
  check that length. The in-memory store answers such redemptions normally
  (`RelyingParty.AnswersAlikeExactly`, `RelyingParty.HeadExact`).
- Between handlers that overlap, the in-memory store and the Redis store can differ: a redemption that
  read the clock before the expiry and is overtaken by a later sweep is refused by the first and
  accepted by the second (`StoreInterchange.OvertakenDiffers`). They never differ when a redemption
  reaches the store in the second in which it read the clock, and can at every longer delay
  (`StoreInterchange.LagExact`).

## Model

| member | source | states |
|---|---|---|
| Modular.ModInv | packages/zkage-core/src/zkage_core/rsabssa.py:261-266 | an inverse exists exactly for arguments coprime to the modulus, lies strictly between zero and the modulus, and times its argument is one |
| Bytes.I2ospOfOs2ip | packages/zkage-core/src/zkage_core/rsabssa.py:98-103 | reading bytes as an integer and writing it at the same length gives the bytes back |
| Bytes.Os2ipOfI2osp | packages/zkage-core/src/zkage_core/rsabssa.py:98-103 | writing an integer that fits and reading it gives the integer back |
| Bytes.BitLenExact | packages/zkage-core/src/zkage_core/rsabssa.py:202 | the bit length is the one number of bits that is just enough |
| Bytes.XorBitwise | packages/zkage-core/src/zkage_core/rsabssa.py:138 | each bit of the result is one exactly when the two bits differ |
| Rsa.LambdaCycle | packages/zkage-core/src/zkage_core/rsabssa.py:267-269 | an exponent one above a multiple of lambda is the identity on every residue, coprime to the modulus or not |
| Rsa.ExponentsInverse | packages/zkage-core/src/zkage_core/rsabssa.py:267-269 | raising to e and to d undo each other, in both orders, on every residue |
| Rsa.RootUnique | packages/zkage-core/src/zkage_core/rsabssa.py:267-271 | the e-th root of a residue is exactly its d-th power |
| Pss.Mgf1Blocks | packages/zkage-core/src/zkage_core/rsabssa.py:106-111 | the loop over hash blocks yields, byte for byte, the mask of appendix B.2.1 of RFC 8017, and overflows exactly when the four-byte counter does |
| Pss.EmsaPssEncode | packages/zkage-core/src/zkage_core/rsabssa.py:114-142 | the in-place encoder computes the specified encoding and raises exactly its errors |
| Pss.XorMasked | packages/zkage-core/src/zkage_core/rsabssa.py:138-141 | every byte is combined with the mask, and then the excess high bits of the first byte alone are cleared |
| Pss.MaskingIsInvolution | packages/zkage-core/src/zkage_core/rsabssa.py:137-141 | masking twice restores a block whose first byte has no excess bits, and the masked block has none either |
| Pss.EncodeThenVerify | packages/zkage-core/src/zkage_core/rsabssa.py:114-142 | every encoding has the promised length, is below two to the width, and verifies with its own salt recovered |
| Pss.VerifyThenEncode | packages/zkage-core/src/zkage_core/rsabssa.py:308-333 | whatever passes verification with a salt length is the encoding with the recovered salt |
| Pss.EncodeExact | packages/zkage-core/src/zkage_core/rsabssa.py:128-142 | an encoding exists exactly when 48 bytes of hash, the salt and two more bytes fit and the mask counter does not overflow |
| Pss.CounterBytes | packages/zkage-core/src/zkage_core/rsabssa.py:108-110 | the block number of a mask stands in the last byte of a four-byte counter, so that every mask byte the layout names is spelled out |
| Pss.EncodingLayout | packages/zkage-core/src/zkage_core/rsabssa.py:128-142 | byte by byte: the trailer 0xbc, the hash of eight zero bytes, message hash and salt, and the data block of zeros, a one and the salt, each byte under its mask byte, with the excess bits cleared |
| Pss.EncodingBinds | packages/zkage-core/src/zkage_core/rsabssa.py:128-134 | no encoding verifies for two messages, unless two named hash inputs collide |
| Rsabssa.EncodingBelowModulus | packages/zkage-core/src/zkage_core/rsabssa.py:209-210 | the message representative is always below the modulus |
| Rsabssa.BlindExact | packages/zkage-core/src/zkage_core/rsabssa.py:173-229 | blinding succeeds exactly for a right salt length, an encoding that is a unit and an invertible factor in range; what is returned beside the message is the injected inverse or that of the drawn factor, and its e-th power takes the blinding off again |
| Rsabssa.BlindErrors | packages/zkage-core/src/zkage_core/rsabssa.py:205-229 | which of salt length, encoding, unit and factor is reported when blinding fails |
| Rsabssa.DrawnIsInjected | packages/zkage-core/src/zkage_core/rsabssa.py:214-226 | drawing a factor gives what injecting its inverse gives, so that the results about injected inverses hold for drawn factors |
| Rsabssa.BlindSignTotal | packages/zkage-core/src/zkage_core/rsabssa.py:232-271 | for every message and every invertible signer blinding, the signer returns exactly the d-th power or the length or range error; its self-check never fails |
| Rsabssa.SignedIsRoot | packages/zkage-core/src/zkage_core/rsabssa.py:267-271 | under any key, valid or not, a returned signature is a root of the message |
| Rsabssa.BlindSign | packages/zkage-core/src/zkage_core/rsabssa.py:232-271 | the retry loop stops at the first invertible draw, and for a valid key its result does not depend on the draws |
| Rsabssa.VerifyExact | packages/zkage-core/src/zkage_core/rsabssa.py:308-333 | a signature verifies if and only if it is the root of the encoding with some salt of the variant's length |
| Rsabssa.UnblindRoot | packages/zkage-core/src/zkage_core/rsabssa.py:297-305 | multiplying the root of the blinded representative by the blinding inverse gives the root of the representative |
| Rsabssa.RoundTrip | packages/zkage-core/src/zkage_core/rsabssa.py:173-305 | blinding, signing and finalizing never fail once representative and factor are units, and yield the root of the encoding whatever the two blinding factors are |
| Rsabssa.UniqueExplanation | packages/zkage-core/src/zkage_core/rsabssa.py:209-229 | an injected blinding inverse sends a message as a given transcript if and only if it is one particular residue |
| Rsabssa.PerfectBlindness | packages/zkage-core/src/zkage_core/rsabssa.py:209-305 | every transcript and every message are joined by exactly one blinding inverse, and unblinding the signer's answer with it gives that message's signature |
| Rsabssa.EncodingWidth | packages/zkage-core/src/zkage_core/rsabssa.py:209 | the encoding for a key is one bit narrower than its modulus |
| Rsabssa.PrepareExact | packages/zkage-core/src/zkage_core/rsabssa.py:145-170 | a prepared message is a prefix of 32 bytes and the message, or the message as it is in the deterministic variant |
| Rsabssa.FinalizeExact | packages/zkage-core/src/zkage_core/rsabssa.py:297-305 | finalising returns the unblinded product at modulus length exactly if that verifies, and otherwise which error |
| Rsabssa.SignatureBinds | packages/zkage-core/src/zkage_core/rsabssa.py:308-333 | no signature verifies for two prepared messages under one key, unless two named hash inputs collide |
| Threshold.Deal | packages/zkage-threshold/src/zkage_threshold/threshold.py:112-159 | dealing succeeds exactly for two of three differently named parties, with the error otherwise; then every pair holds a split of the exponent, the first the drawn value, which does not depend on the key, and the second what completes it |
| Threshold.SplitPairs | packages/zkage-threshold/src/zkage_threshold/threshold.py:141-148 | the loop gives shares to exactly the three pairs, each from its own draw |
| Threshold.SplitSums | packages/zkage-threshold/src/zkage_threshold/threshold.py:141-146 | the two shares of a pair sum to the exponent, or to the exponent plus lambda |
| Threshold.DealerExponent | packages/zkage-threshold/src/zkage_threshold/threshold.py:138-139 | the dealer's recomputed exponent is the key's own modulo lambda |
| Threshold.PartialIsPower | packages/zkage-threshold/src/zkage_threshold/threshold.py:85-94 | an operator's partial is the representative to the power of its share, whatever its blinding draw |
| Threshold.ThresholdSigns | packages/zkage-threshold/src/zkage_threshold/threshold.py:184-195 | any two operators, in either order and with any draws, return the root of any representative in range and fail only out of range |
| Threshold.ThresholdRefinesBlindSign | packages/zkage-threshold/src/zkage_threshold/threshold.py:162-195 | for byte messages in range the quorum always signs; the plain signer does so exactly at modulus length, and then with the same bytes |
| Threshold.QuorumExact | packages/zkage-threshold/src/zkage_threshold/threshold.py:175-183 | a quorum is refused as such exactly when it is not two different parties of the deal |
| Threshold.CombineIsSound | packages/zkage-threshold/src/zkage_threshold/threshold.py:189-195 | whatever integers two operators return, the combiner answers with the honest signature or with an error |
| TransLog.CanonicalLayout | packages/zkage-core/src/zkage_core/translog.py:60-73 | each field of the canonical bytes lies at its offset, those after the key id relative to its end, with status codes one, two and three |
| TransLog.EncodableExact | packages/zkage-core/src/zkage_core/translog.py:60-73 | the ranges of the fields that can be written |
| TransLog.CanonicalInjective | packages/zkage-core/src/zkage_core/translog.py:60-73 | equal canonical bytes mean equal position, and equal records exactly when the key ids are equally long |
| TransLog.VerifyChain | packages/zkage-core/src/zkage_core/translog.py:172-193 | the loop accepts exactly the valid chains, returns their head, and otherwise stops at the first bad record and tells a field that cannot be written as bytes from a broken record |
| TransLog.ChainExact | packages/zkage-core/src/zkage_core/translog.py:172-193 | a chain is valid exactly when each record has its number, a known status, writable fields, the hash of its predecessor or 32 zero bytes, and the hash of that and its own bytes |
| TransLog.AppendExact | packages/zkage-core/src/zkage_core/translog.py:128-169 | which records can be appended, the error of the others, and how a new record is chained |
| TransLog.AppendKeepsChain | packages/zkage-core/src/zkage_core/translog.py:128-169 | a valid chain with an appended record is a valid chain |
| TransLog.CheckExtension | packages/zkage-core/src/zkage_core/translog.py:196-218 | the pin check passes exactly for valid chains that carry the pinned hash at the pinned size; it tells rollback from fork and passes on what is wrong with a broken chain |
| TransLog.SameHeadExact | packages/zkage-core/src/zkage_core/translog.py:172-218 | without a collision, two verified logs with one hash at a position agree up to it exactly when their key ids are equally long |
| TransLog.ExtensionExact | packages/zkage-core/src/zkage_core/translog.py:196-218 | a log that passes the pin check of an earlier log has it as a prefix if and only if their key ids are equally long position by position, or the two exhibit a collision |
| TransLog.PrefixExtends | packages/zkage-core/src/zkage_core/translog.py:196-218 | every valid log passes the pin check of each of its prefixes |
| TransLog.ShiftedKeyId | packages/zkage-core/src/zkage_core/translog.py:60-73 | moving bytes between a longer key id and the key can leave the canonical bytes unchanged |
| TransLog.AmbiguousWithoutKeyIdLength | packages/zkage-core/src/zkage_core/translog.py:172-193 | for every hash there are two different one-record logs that verify with the same head |
| LogSync.HeadBytesInjective | packages/zkage-core/src/zkage_core/translog.py:251-252 | the signed head bytes determine size, hash and time, and conversely, whatever the length of the hash |
| LogSync.HeadLayout | packages/zkage-core/src/zkage_core/translog.py:251-252 | tag, size, hash and time of the signed head bytes lie at their offsets |
| LogSync.AcceptsExact | packages/zkage-ua/src/zkage_ua/client.py:74-103 | a user agent takes over exactly valid logs that carry its pin, under a head for their size and last hash signed with the log key that it knows |
| LogSync.SyncLog | packages/zkage-ua/src/zkage_ua/client.py:63-103 | a served log is taken over exactly when log key, head signature, extension and head all check; otherwise the pin stays and the first of the four that fails is reported |
| LogSync.AppendOnly | packages/zkage-ua/src/zkage_ua/client.py:91-103 | over every run of synchronisations, of any two accepted logs with 32-byte key ids the earlier is a prefix of the later, or two neighbours between them collide |
| LogSync.GossipExact | packages/zkage-ua/src/zkage_ua/client.py:216-226 | barring a collision or a record hash of zero, the other party's head is accepted exactly when its log is empty or a prefix at most fifteen records behind |
| LogSync.GossipToleratesLag | packages/zkage-core/src/zkage_core/translog.py:30-35 | a prefix at most fifteen behind, and the empty log, are accepted with no assumption on the hash |
| PublicFiles.OpExact | packages/zkage-issuer/src/zkage_issuer/federation.py:84-97 | after a rotation or revocation stopped at any write, each of head file, keyset file and log is the new one exactly when its write was reached; it is done exactly when all three were, and stopped exactly when not |
| PublicFiles.HeadFileExact | packages/zkage-rp/src/zkage_rp/app.py:140-147 | after every run from the empty directory a head file names the log or a valid extension of it, and a synchronised user agent accepts it if and only if it is not longer than the log, as far as heads can be told apart |
| PublicFiles.StoppedAfterHead | packages/zkage-issuer/src/zkage_issuer/federation.py:91-95 | an operation that stops after the head file and before the log leaves the log as it was and a head file that a synchronised user agent refuses, as far as heads can be told apart |
| HonestLog.SyncExact | packages/zkage-ua/src/zkage_ua/client.py:74-103 | after any session with an honest issuer, with operations stopped at any write and synchronisations refused or not, a log fetched after the head is accepted if and only if no key operation has finished between the two requests |
| HonestLog.NeverRefused | packages/zkage-ua/src/zkage_ua/client.py:74-103 | the case in which nothing happens between the two requests: after any such session it is accepted |
| HonestLog.HonestGossip | packages/zkage-ua/src/zkage_ua/client.py:216-226 | in such a session the head of a log that was on disk at any earlier moment passes the gossip check when at most fifteen records behind and, as far as heads can be told apart, only then |
| HonestLog.FileGossip | packages/zkage-ua/src/zkage_ua/client.py:216-226 | the head file of any earlier moment, also between two writes, names a valid log, and passes the gossip check when that log is by now a prefix at most fifteen records behind and, as far as heads can be told apart, only then |
| ActiveKeys.FindActiveRecord | packages/zkage-core/src/zkage_core/translog.py:274-290 | the loop over the log computes the specified active record |
| ActiveKeys.LatestExact | packages/zkage-core/src/zkage_core/translog.py:281-284 | the dictionary of latest records holds exactly the last record of each key of the scope |
| ActiveKeys.ActiveRecordExact | packages/zkage-core/src/zkage_core/translog.py:274-290 | the answer is none exactly when no key is usable, and otherwise a usable key's last record with the highest epoch |
| ActiveKeys.TieExact | packages/zkage-core/src/zkage_core/translog.py:281-290 | of usable keys with the same highest epoch, the one that came into the log first |
| Federation.StateDir.RotateScopeKey | packages/zkage-issuer/src/zkage_issuer/federation.py:110-174 | stopped after any number of writes, the directory holds exactly that many writes of the rotation's plan; a modulus size outside the policy is refused before any write; the answer of a finished rotation, and of no other, is the new key's record |
| Federation.StateDir.RevokeScopeKey | packages/zkage-issuer/src/zkage_issuer/federation.py:177-207 | the same for a revocation |
| Federation.StateDir.InitState | packages/zkage-issuer/src/zkage_issuer/federation.py:210-268 | the same for an initialisation, which refuses an initialised directory and writes the log and attester keys first |
| Federation.StateDir.WriteSetupFiles | packages/zkage-issuer/src/zkage_issuer/federation.py:229-243 | the four files of the log key and the attester key are written one by one |
| Federation.StateDir.WriteScopeKeys | packages/zkage-issuer/src/zkage_issuer/federation.py:245-262 | the loop over the scopes writes one key file each and builds the first log |
| Federation.StateDir.PublishFiles | packages/zkage-issuer/src/zkage_issuer/federation.py:84-95 | head, keyset and log are replaced in this order, one by one |
| Lifecycle.RotateEffect | packages/zkage-issuer/src/zkage_issuer/federation.py:132-174 | a rotation that does not finish leaves the log as it was and at most adds its key file under the next epoch |
| Lifecycle.RotateGood | packages/zkage-issuer/src/zkage_issuer/federation.py:132-174 | a finished rotation keeps the log good, and the new key is the only live one of its scope |
| Lifecycle.RevokeGood | packages/zkage-issuer/src/zkage_issuer/federation.py:188-207 | a finished revocation keeps the log good and leaves its scope no live key |
| LifecycleRuns.RunKeepsInv | packages/zkage-issuer/src/zkage_issuer/federation.py:110-268 | every run, with operations stopping between any two writes, keeps chain, epochs and key files in order and only appends to the log |
| LifecycleRuns.ReachableInv | packages/zkage-issuer/src/zkage_issuer/federation.py:110-268 | every state that a run from the empty directory reaches satisfies the invariant of the results below |
| LifecycleRuns.RunKeyUnique | packages/zkage-issuer/src/zkage_issuer/federation.py:132-207 | on every run from the empty directory each scope has at most one usable key, now and at every later time |
| LifecycleRuns.RotationTakesOver | packages/zkage-issuer/src/zkage_issuer/federation.py:138-173 | after a rotation the new key is the scope's key until it expires, and then there is none |
| LifecycleRuns.RotationLasts | packages/zkage-issuer/src/zkage_issuer/federation.py:132-207 | this stays so through every later run that does not touch the scope to the end |
| LifecycleRuns.RevocationLasts | packages/zkage-issuer/src/zkage_issuer/federation.py:177-207 | from a revocation until the next rotation the scope has no key |
| LifecycleRuns.RunEpochsAscend | packages/zkage-issuer/src/zkage_issuer/federation.py:155 | on every run from the empty directory epochs strictly ascend across the keys of a scope in log order |
| LifecycleRuns.RunSignerMatches | packages/zkage-issuer/src/zkage_issuer/federation.py:343-357 | on every run from the empty directory the issuer can sign for a scope exactly when the keyset has an entry for it, and signs with the key of that entry |
| LifecycleRuns.ActiveKeyExact | packages/zkage-issuer/src/zkage_issuer/federation.py:343-357 | on any log and key files, the record and key that the issuer signs with: never a key other than the one logged; and the error in each other case |
| LifecycleRuns.PublishedLogsExtend | packages/zkage-issuer/src/zkage_issuer/federation.py:84-95 | every log on disk verifies, passes every earlier pin, and has 32-byte key ids |
| LifecycleRuns.KeysetOrdered | packages/zkage-issuer/src/zkage_issuer/federation.py:60-67 | the entries of a projected keyset are in the order of the scopes |
| Lifecycle.MaxEpochExact | packages/zkage-issuer/src/zkage_issuer/federation.py:134 | the largest epoch of a scope is attained by one of its records, and exists exactly when there is one |
| Operations.InitAnswer | packages/zkage-issuer/src/zkage_issuer/federation.py:210-268 | every outcome of an initialisation with its exact condition, stopped at any write |
| Operations.InitTakesOver | packages/zkage-issuer/src/zkage_issuer/federation.py:245-262 | from an initialisation on the issuer signs for each scope with the key made for it until its validity ends, and then not at all, over every later run that leaves the scope alone; with all fields of the record |
| Operations.ReadyExact | packages/zkage-issuer/src/zkage_issuer/federation.py:130-153 | the errors of a rotation before its key is generated, in their order |
| Operations.RotateAnswer | packages/zkage-issuer/src/zkage_issuer/federation.py:110-174 | every further outcome of a rotation with its exact condition, stopped at any write |
| Operations.RotationSigns | packages/zkage-issuer/src/zkage_issuer/federation.py:138-173 | a finished rotation logs the retirement of the current key, ending its validity at once, and the new key one epoch above the largest; from then on the issuer signs with that until it expires, over every later run that leaves the scope alone |
| Operations.RevokeAnswer | packages/zkage-issuer/src/zkage_issuer/federation.py:177-207 | every outcome of a revocation with its exact condition, stopped at any write |
| Operations.RevokeLogs | packages/zkage-issuer/src/zkage_issuer/federation.py:188-207 | a finished revocation adds one record, which gives the current key the status revoked and leaves its validity |
| RateLimit.RateLimiter.Check | packages/zkage-issuer/src/zkage_issuer/ratelimit.py:41-75 | the answer and the new bucket are those of the specification, and no other key's bucket changes |
| RateLimit.AskExact | packages/zkage-issuer/src/zkage_issuer/ratelimit.py:68-75 | a grant names no wait and a refusal names at least one second |
| RateLimit.BurstExact | packages/zkage-issuer/src/zkage_issuer/ratelimit.py:41-75 | of any number of calls of a new key at one moment exactly the first are granted, as many as capacity and daily cap allow |
| RateLimit.RateBound | packages/zkage-issuer/src/zkage_issuer/ratelimit.py:52-75 | for any call times, ordered or not, and a capacity that is not negative, the grants of a key in an interval number at most the capacity plus its length over the refill time |
| RateLimit.DailyCap | packages/zkage-issuer/src/zkage_issuer/ratelimit.py:63-75 | with an ordered clock the grants of a key on one day number at most the daily cap |
| RateLimit.CapHolds | packages/zkage-issuer/src/zkage_issuer/ratelimit.py:63-75 | the same as long as the call times do not come back to a day they had left |
| RateLimit.CapExact | packages/zkage-issuer/src/zkage_issuer/ratelimit.py:63-75 | that condition is exact: on any other call times some limits are exceeded |
| RateLimit.CapNeedsOrder | packages/zkage-issuer/src/zkage_issuer/ratelimit.py:63-66 | three calls within two seconds around midnight, out of order, exceed a daily cap of one under an ordinary burst and refill |
| RateLimit.TokensInRange | packages/zkage-issuer/src/zkage_issuer/ratelimit.py:58-61 | with an ordered clock the tokens stay between zero and the capacity |
| RateLimit.CounterExact | packages/zkage-issuer/src/zkage_issuer/ratelimit.py:63-74 | as long as no day is come back to, the day counter is the number of grants on the current day |
| RateLimit.RefusedCallsInvisible | packages/zkage-issuer/src/zkage_issuer/ratelimit.py:52-75 | deleting refused calls of a key and any calls of other keys changes no remaining answer |
| RateLimit.TokenWaitExact | packages/zkage-issuer/src/zkage_issuer/ratelimit.py:70-71 | waiting out a token refusal is granted, and no shorter positive whole number of seconds is |
| RateLimit.CapWaitExact | packages/zkage-issuer/src/zkage_issuer/ratelimit.py:68-69 | when exactly waiting out a cap refusal reaches the next day; always on a whole-second clock |
| RateLimit.NewDayClearsCap | packages/zkage-issuer/src/zkage_issuer/ratelimit.py:63-66 | once the day has changed, the cap does not refuse |
| DeviceKey.PayloadLayout | packages/zkage-core/src/zkage_core/devicekey.py:73-96 | the signed bytes are 91, with the spelled-out tag and each field at its offset |
| DeviceKey.FitsExact | packages/zkage-core/src/zkage_core/devicekey.py:82-88 | the lengths and ranges of the fields that can be signed |
| DeviceKey.PayloadBinds | packages/zkage-core/src/zkage_core/devicekey.py:68-96 | equal signed bytes mean equal account, scope, timestamp and request id, and blinded messages that are equal or collide |
| IssuerTables.IssuerStore.AddAccount | packages/zkage-issuer/src/zkage_issuer/store.py:58-81 | a row is added exactly when its id and its device key are both free, and the table stays unique in both |
| IssuerTables.FindById | packages/zkage-issuer/src/zkage_issuer/store.py:83-91 | the row with the id, or none |
| IssuerTables.FindByDevice | packages/zkage-issuer/src/zkage_issuer/store.py:93-101 | the row with the device key, or none |
| IssuerTables.IssuerStore.RenewAccount | packages/zkage-issuer/src/zkage_issuer/store.py:103-113 | scope and dates of the row with the id change, ids and device keys and other rows do not |
| IssuerTables.IssuerStore.MarkRequest | packages/zkage-issuer/src/zkage_issuer/store.py:115-126 | old ids are dropped, and the answer is whether the id was absent and is now recorded |
| IssuerTables.AcceptedOnce | packages/zkage-issuer/src/zkage_issuer/store.py:115-126 | on every run no request id and timestamp is accepted twice when the retention covers twice the timestamp window and the clock disorder |
| IssuerTables.ReplayWhenTooShort | packages/zkage-issuer/src/zkage_issuer/store.py:115-126 | with a shorter retention a concrete run of three marks accepts one request twice |
| IssuerTables.RetentionExact | packages/zkage-issuer/src/zkage_issuer/store.py:115-126 | that bound is exact: with any shorter retention some run accepts a request twice |
| Issuer.IssuerApp.Enroll | packages/zkage-issuer/src/zkage_issuer/app.py:63-130 | answer and accounts are those of the specified enrolment |
| Issuer.IssuerApp.Issue | packages/zkage-issuer/src/zkage_issuer/app.py:132-185 | answer, request ids and buckets are those of the specified issuance, and accounts do not change |
| Issuer.EnrolledExact | packages/zkage-issuer/src/zkage_issuer/app.py:63-130 | a live account is answered as it stands, whatever the attester would say; an expired one is renewed, and a new one stored, with the attested scope and a year to live; and every error |
| Issuer.AuthenticatedExact | packages/zkage-issuer/src/zkage_issuer/app.py:141-160 | a request is authentic exactly when scope, account, device key, layout and signature are right and its timestamp is at most 60 seconds away, in either direction |
| Issuer.IssuedExact | packages/zkage-issuer/src/zkage_issuer/app.py:132-185 | the first of the nine checks that fails decides the answer, with the wait of the limiter; what passes all is answered with signature, key id, scope and epoch; and exactly when id table and buckets change |
| Issuer.IssuedIff | packages/zkage-issuer/src/zkage_issuer/app.py:132-185 | a request is answered with a signature if and only if it passes all nine checks |
| IssuerRuns.EnrollStepsCompose | packages/zkage-issuer/src/zkage_issuer/app.py:71-130 | the enrolment steps, not interrupted, leave the accounts as the handler does and answer with an account id exactly when and with which it does, failed attestation and lost race included |
| IssuerRuns.IssueStepsCompose | packages/zkage-issuer/src/zkage_issuer/app.py:144-185 | the issuance steps, not interrupted, leave the tables as the handler does and record a signed grant of the request exactly when it answers with a signature |
| IssuerRuns.OneAccountPerDevice | packages/zkage-issuer/src/zkage_issuer/app.py:71-130 | on every interleaving all enrolments of a device key are answered with one account id, and its grants carry it |
| IssuerRuns.BindingPermanent | packages/zkage-issuer/src/zkage_issuer/store.py:103-113 | once bound, a device key keeps its account id for the rest of every run |
| IssuerRuns.GrantsAuthorised | packages/zkage-issuer/src/zkage_issuer/app.py:144-169 | every grant goes back to a read by its handler that found, in the table of that moment, an unexpired account whose device signed the request within the time window and whose max_scope covers the scope |
| IssuerScopes.RowsAttested | packages/zkage-issuer/src/zkage_issuer/app.py:86-130 | on every interleaving, every scope in the accounts table is one that the attester answered for that device |
| IssuerScopes.GrantsAttested | packages/zkage-issuer/src/zkage_issuer/app.py:86-169 | on every interleaving, every grant has behind it an earlier attestation of the very device that signed the request, for a scope that covers the one requested |
| IssuerRuns.VersionExact | packages/zkage-issuer/src/zkage_issuer/store.py:103-113 | an account's row is the one found earlier, or what the last renewal since has written |
| IssuerRuns.ScopeAtAdmission | packages/zkage-issuer/src/zkage_issuer/app.py:164-169 | a grant's scope is within the account's max_scope at the moment of admission if and only if the account has not been renewed since the read or the last renewal since covers it |
| IssuerScenarios.RenewalOvertakes | packages/zkage-issuer/src/zkage_issuer/app.py:91-169 | a run with an ordered clock in which scope 21 is granted while the account allows scope 13 |
| IssuerRuns.OneBudgetPerDevice | packages/zkage-issuer/src/zkage_issuer/app.py:132-185 | on every interleaving the blind signatures under a device key in an interval obey the rate bound of one account |
| IssuerDays.DailyCapPerDevice | packages/zkage-issuer/src/zkage_issuer/app.py:132-185 | on every interleaving the blind signatures under a device key on one day number at most the daily cap, as long as the limiter's clock values for its account do not come back to a day they had left |
| IssuerScenarios.CapOvertaken | packages/zkage-issuer/src/zkage_issuer/app.py:144-169 | in a run of eleven steps in which every handler reads the clock in order, a device obtains two signatures on a day whose cap is one |
| IssuerReplay.IssuedAtMostOnce | packages/zkage-issuer/src/zkage_issuer/app.py:159-162 | on every interleaving with clock disorder up to 480 seconds no request is granted twice, although ids are forgotten |
| Keys.KeyIdBindsKey | packages/zkage-core/src/zkage_core/keys.py:106-111 | records with one key id load the same key or exhibit a collision, and what loads meets the key policy |
| Keys.KeyLoadsExact | packages/zkage-core/src/zkage_core/keys.py:52-111 | a record loads exactly when its bytes decode to a key of exponent 65537 and 2048, 3072 or 4096 bits and hash to its identifier |
| Keys.ProjectionExact | packages/zkage-core/src/zkage_core/translog.py:75-85 | the projection of a log record has its fields, each in its place |
| Token.ChallengeLayout | packages/zkage-core/src/zkage_core/token.py:79-86 | each field of the challenge bytes lies at its offset, those after the identifier relative to its end |
| Token.MessageParts | packages/zkage-core/src/zkage_core/token.py:7-17 | each field of the 122-byte token message lies at its documented offset |
| Token.PayloadInjective | packages/zkage-core/src/zkage_core/token.py:70-87 | the challenge bytes determine relying party, scope, nonce and expiry, and conversely |
| Token.DigestBinds | packages/zkage-core/src/zkage_core/token.py:55-111 | equal digests mean the same four fields, or a collision of two payloads |
| Token.MadeChallengeReadable | packages/zkage-core/src/zkage_core/token.py:126-187 | a challenge that was made reads back unchanged exactly when its log head is absent or has 32 bytes |
| Token.MakeExact | packages/zkage-core/src/zkage_core/token.py:153-187 | a challenge is made exactly for 1 to 600 seconds and fields within the specification, and expires that long after the clock value |
| Token.DictExact | packages/zkage-core/src/zkage_core/token.py:113-150 | which dictionaries read as which challenge |
| Token.EncodeThenParse | packages/zkage-core/src/zkage_core/token.py:190-293 | parsing an encoded token gives back every field and the exact signed bytes |
| Token.ParseThenEncode | packages/zkage-core/src/zkage_core/token.py:190-293 | encoding the fields of any accepted wire gives that wire: there is no second encoding |
| Verifier.RecordFor | packages/zkage-verifier/src/zkage_verifier/verify.py:97-99 | the first trusted record with the key id, or none exactly when there is no such record |
| Verifier.FirstFailureDecides | packages/zkage-verifier/src/zkage_verifier/verify.py:86-138 | the first of the eleven checks that fails decides the outcome |
| Verifier.NoFailureAccepts | packages/zkage-verifier/src/zkage_verifier/verify.py:86-138 | a token that passes all eleven checks is accepted with the challenged scope |
| Verifier.ScopeOnlyWhenOk | packages/zkage-verifier/src/zkage_verifier/verify.py:65-138 | verification never raises for a valid challenge, and reports a scope, the challenged one, exactly when it accepts |
| Verifier.TokenBindsChallenge | packages/zkage-verifier/src/zkage_verifier/verify.py:109-116 | a token accepted for two challenges, by any keysets at any times, proves them the same or exhibits a collision |
| Verifier.SignatureBindsToken | packages/zkage-verifier/src/zkage_verifier/verify.py:122-138 | two tokens accepted under one key, for whatever challenges, keysets and times, do not share their signature unless they are one token or two named hash inputs collide |
| Verifier.AcceptanceWindow | packages/zkage-verifier/src/zkage_verifier/verify.py:105-122 | an accepted token is accepted at exactly the times inside the key's validity and the challenge's last 600 seconds |
| Verifier.AcceptsExactlyHonest | packages/zkage-verifier/src/zkage_verifier/verify.py:86-138 | under a valid key pair the accepted tokens are exactly those of honest runs for this challenge, while the record is usable |
| PendingStores.PendingChallengeStore.Put | packages/zkage-rp/src/zkage_rp/replay.py:48-51 | the challenge is stored under its nonce |
| PendingStores.PendingChallengeStore.Pop | packages/zkage-rp/src/zkage_rp/replay.py:53-56 | what was stored under the nonce is returned and gone |
| PendingStores.PendingChallengeStore.Sweep | packages/zkage-rp/src/zkage_rp/replay.py:58-64 | the deletion loop leaves exactly the unexpired challenges and counts the others |
| PendingStores.RedisPendingChallengeStore.Put | packages/zkage-rp/src/zkage_rp/redis_replay.py:46-49 | the entry is stored with a lifetime of at least a second that reaches 60 seconds beyond the expiry |
| PendingStores.RedisPendingChallengeStore.Pop | packages/zkage-rp/src/zkage_rp/redis_replay.py:51-59 | what the server still shows is decoded and gone; an unreadable entry raises |
| PendingStores.KeyInjective | packages/zkage-rp/src/zkage_rp/redis_replay.py:42-44 | different nonces have different keys |
| PendingStores.HexAt | packages/zkage-rp/src/zkage_rp/redis_replay.py:42-44 | two hexadecimal digits for each byte of the nonce, the high half first |
| PendingStores.SweptExact | packages/zkage-rp/src/zkage_rp/replay.py:58-64 | exactly the challenges that expire after the clock value remain |
| PendingStores.ShownExact | packages/zkage-rp/src/zkage_rp/redis_replay.py:46-59 | a stored challenge is shown until a minute after its expiry, and for a second at least, and the others as before |
| PendingStores.PopTakes | packages/zkage-rp/src/zkage_rp/replay.py:53-56 | in either store a popped challenge has the nonce asked for and is there no longer, and the others stay |
| RelyingParty.RpApp.Challenge | packages/zkage-rp/src/zkage_rp/app.py:86-94 | answer and store are those of the specified handler, over either store |
| RelyingParty.RpApp.Redeem | packages/zkage-rp/src/zkage_rp/app.py:101-121 | answer, store and decision log are those of the specified handler, over either store |
| RelyingParty.ChallengeExact | packages/zkage-rp/src/zkage_rp/app.py:86-94 | a challenge is made for every known scope with 300 seconds to live and answered as it is stored |
| RelyingParty.RedeemExact | packages/zkage-rp/src/zkage_rp/app.py:101-121 | one decision is logged, unless the store raises; the answer is the challenged scope exactly when it is OK, and every other decision is answered alike |
| RelyingParty.MalformedExact | packages/zkage-rp/src/zkage_rp/app.py:101-109 | a token that does not parse is refused before anything is taken out of the store |
| RelyingParty.PopAlike | packages/zkage-rp/src/zkage_rp/redis_replay.py:46-59 | a redemption finds the same unexpired challenge in both stores, or none that is unexpired in either |
| RelyingParty.AnswersAlikeExactly | packages/zkage-rp/src/zkage_rp/redis_replay.py:46-63 | on every run with a shared clock the two stores answer a request differently exactly when it takes out an entry with an unreadable log head |
| RelyingParty.StoresAlike | packages/zkage-rp/src/zkage_rp/app.py:86-121 | with readable log heads the two stores cannot be told apart by any run |
| RelyingParty.UnreadableHeadTells | packages/zkage-rp/src/zkage_rp/redis_replay.py:51-59 | with an unreadable log head, one challenge and one redemption tell the stores apart |
| RelyingParty.HeadExact | packages/zkage-rp/src/zkage_rp/redis_replay.py:51-59 | for a log head provider with a constant answer, that holds if and only if the head is absent or has 32 bytes |
| RelyingPartyRuns.ChallengeStepsCompose | packages/zkage-rp/src/zkage_rp/app.py:86-94 | the challenge steps, not interrupted, answer and leave the store as the handler does |
| RelyingPartyRuns.RedeemStepsCompose | packages/zkage-rp/src/zkage_rp/app.py:101-121 | the redemption steps, not interrupted, answer and leave the store as the handler does |
| RelyingPartyRuns.SingleRedemption | packages/zkage-rp/src/zkage_rp/app.py:101-121 | on every interleaving, over either store, a challenge is answered as verified at most as often as it was issued |
| RelyingPartyRuns.RedemptionSound | packages/zkage-rp/src/zkage_rp/app.py:101-121 | every verified answer is for an issued challenge and its own scope, with a clock value before its expiry and a token that verification accepts |
| RelyingPartyRuns.NoDoubleSpend | packages/zkage-rp/src/zkage_rp/app.py:111-121 | with unrepeated nonces no nonce and no token is ever verified twice |
| StoreInterchange.UndisturbedAlike | packages/zkage-rp/src/zkage_rp/app.py:86-121 | on every interleaving in which no redemption is overtaken, both stores give the same answers in the same order |
| StoreInterchange.OvertakenDiffers | packages/zkage-rp/src/zkage_rp/app.py:101-121 | a valid token is refused by one store and verified by the other in one concrete interleaving |
| StoreInterchange.LagExact | packages/zkage-rp/src/zkage_rp/app.py:101-121 | for a relying party with some token that is valid in the last second of its challenge, the stores are interchangeable on all interleavings with a bounded delay between clock and pop if and only if the bound is zero |
| EndToEnd.AnyReplySafe | packages/zkage-ua/src/zkage_ua/client.py:233-271 | whatever bytes the signer replies, a token that leaves the user agent is accepted for its challenge while its record is usable |
| EndToEnd.PolicyKeyEncodes | packages/zkage-core/src/zkage_core/keys.py:20 | under every admitted modulus size the encoding succeeds |
| EndToEnd.RequestExact | packages/zkage-ua/src/zkage_ua/client.py:233-235 | the request is made exactly when representative and blinding factor are units; what is sent is the representative under that factor, and what is kept is the factor's inverse |
| EndToEnd.HonestChain | packages/zkage-ua/src/zkage_ua/client.py:233-270 | with an honest signer the chain always ends in one token, which depends on neither blinding factor |
| EndToEnd.QuorumChain | packages/zkage-threshold/src/zkage_threshold/threshold.py:162-195 | any two operators lead to the same token as the plain signer |
| EndToEnd.HonestTokenAccepted | packages/zkage-verifier/src/zkage_verifier/verify.py:86-138 | for every challenge made, the honest chain succeeds exactly for unit representative and factor, and its token is accepted with the challenged scope at every time until the expiry |
| Trust.KeyStable | packages/zkage-core/src/zkage_core/translog.py:274-290 | the key usable at a later time is already the key of every projection taken before |
| Trust.KeysetResolves | packages/zkage-issuer/src/zkage_issuer/federation.py:60-67 | the keyset projected from a log resolves the key id of an active record to an entry with the fields of that record |
| Trust.RunSignedIsTrusted | packages/zkage-issuer/src/zkage_issuer/app.py:187-191 | after every run of the key lifecycle from the empty directory, whenever the issuer can sign, honest tokens are accepted under the projection of the log on disk at every time within the validity that the log gives the key and the last 600 seconds of the challenge |
| Trust.RevokedIsRefused | packages/zkage-issuer/src/zkage_issuer/federation.py:177-187 | from a finished revocation until the next finished rotation no token of the scope is accepted under a projection, taken in that time, of the log on disk |
| Trust.FileResolvesExact | packages/zkage-rp/src/zkage_rp/app.py:38-57 | after every such run the keyset file resolves the issuer's signing key to its record exactly when the file is there and no rotation or revocation of the scope has torn it from the log, and otherwise not at all |
| Trust.FileTrustExact | packages/zkage-rp/src/zkage_rp/app.py:116 | under the same condition, and only then, a relying party that reads the keyset file accepts honest tokens at every such time; otherwise it answers that the key is unknown |
| Trust.TrustedWhileSigning | packages/zkage-rp/src/zkage_rp/app.py:116 | at every time at which the issuer can still sign and the challenge is in its last 600 seconds, honest tokens are accepted under the projection, and under the file exactly when it serves the scope |
| Trust.RevokedFileExact | packages/zkage-rp/src/zkage_rp/app.py:38-57 | from a finished revocation until the next finished rotation the keyset file has an entry of the scope exactly when it is the file of a rotation of the scope, of no negative validity, that has stopped before the log; in all other cases no token of the scope is accepted |
| Flow.RedemptionDecided | packages/zkage-rp/src/zkage_rp/app.py:86-121 | on every interleaving and over either store, a challenge that no other step takes, replaces or sweeps is found by its redemption, whose answer is what verification says of the token and that challenge |
| Flow.IssuedIsRedeemed | packages/zkage-ua/src/zkage_ua/client.py:228-275 | the issuer, after any run of the key lifecycle, answers a request made under the user agent's own view of the log if and only if it passes the checks up to the limiter, and then a redemption that is not hindered is answered with the challenged scope if the keyset file serves it, and refused if not, unless two key encodings collide |

## Left out

- HTTP, web frameworks, command lines, HTML, logging, files and atomic renames: the handlers and the
  writes are steps, and text and JSON are not modelled.
- JSON, JSON Lines and base64url: values are passed structured. A token that is not base64 is an absent
  token, and a stored challenge is the dictionary that is serialised.
- The text of a relying party's identifier: it is given by its UTF-8 bytes.
- SHA-256, SHA-384, Ed25519, DER, PEM and key generation: foreign code, see Conventions. That a key pair
  is valid, and that freshly generated keys have new identifiers, are hypotheses.
- Other foreign values in Redis: the key space holds only what the store wrote.
- Secrecy of shares and timing: the claims about the threshold variant are about what it computes.
- The probability with which random retry loops end: `Rsabssa.BlindSign` takes the draws as a sequence
  with an invertible one in it.
- Loading a state is one step, the probe of the modification time is not modelled, and a single file is
  written and read as a whole.
- The attester: its answer is an input, as is the head provider's answer at a challenge.
- The steps of issuance after the limiter: reading the active key and signing change no shared state and
  are one step with the admission.
- Lengths of the stores, the public projection handlers and state file handling of the user agent: each
  is settled by reading one line.
- IssuerRuns.OneBudgetPerDevice: the grants are counted at the clock values the handlers read, not at
  the moments at which the answers are sent.
