# Verified model of the PQC gateway's key, limit and trust logic

The gateway splits signing seeds into Shamir shares over GF(256), rotates its signing keys under a
retention window while tokens signed with older keys stay valid, limits requests with token
buckets, cuts off failing upstreams with circuit breakers, verifies batches of signatures in
parallel, validates certificate chains, and swaps its routing table while requests are in flight.
This project models that logic in Dafny and proves what it promises over all inputs, all runs and
all interleavings. `dafny verify dfyconfig.toml` checks everything.

| module | what it models |
|---|---|
| `Gf256`, `Polynomials` | the field of bytes modulo x^8 + x^4 + x^3 + x + 1 (section 4.2 of FIPS 197) from the shift-and-xor loop up; root counting and Lagrange interpolation |
| `Threshold`, `RecoveryCodes`, `CodeGrammar`, `KeyManager` | splitting, reconstruction, what fewer shares leave open; hex recovery codes and exactly which texts are such; the quorum manager |
| `VersionedKeys`, `JwtAuth` | key rotation with pruning; tokens over runs of rotations |
| `TokenBucket`, `BucketEquivalence` | one bucket; which limits and buckets no checks tell apart |
| `RateLimiting`, `EarlyEviction`, `EvictionAdmission` | the limiter over all keys with clean-up and changing limits; when clean-up shows; how much it lets through |
| `CircuitBreaker`, `BreakerHistory` | the breaker's three states over event histories; its whole state in terms of the history |
| `BatchVerify`, `Aggregation` | sequential and multi-threaded verification; aggregation with shared keys |
| `TbsEncoding`, `CertChain`, `IssuedChains` | the signed bytes; validation against a declarative predicate and the causes of its errors; issued chains |
| `Router`, `ProxyReload` | longest-prefix routing; the order in which a new configuration is published |
| `Crypto`, `Sorting`, `Clock`, `Wrappers` | foreign primitives as function values with their laws; stable sorting; elapsed time; result types |

Objects the program updates in place are classes; each of their methods is proved equal to a
specification function of the old state, and the theorems about runs are about these functions.
What a specification function means is proved beside it in other terms: for every text, token, chain
or history, which results it has and when.
The clock, the random generator and key generation are parameters. ML-DSA, SHA-256, base64url and
JSON are function values that satisfy only the laws `Lawful` names. Proofs that merely rearrange
terms start with `hide`, which keeps definitions folded for the solver.

Some promises the code keeps only in part. For these there are lemmas that say on which inputs it
does, and inputs on which it does not:

- Clean-up is unobservable exactly if a key's checks all carry one limit (or limits that no checks
  tell apart) and the clean-up age is at least its window or its capacity is zero. The gateway's
  fixed 600 seconds reset longer windows early, and can show after a reload changes a route's limit
  (`EarlyEviction.EvictionUnobservableIff`, `RaisedLimitReveals`). Each harmful eviction lets through
  up to one more capacity, and can let through all of it
  (`EvictionAdmission.AdmissionWithEvictions`, `BoundAttained`).
- A reloaded limit holds only for new buckets: a live bucket keeps the limit it was made for, so a
  lowered limit is kept to exactly when the bucket has less than one token more than it allows
  (`RateLimiting.NewLimitEnforcedIff`).
- The breaker's documentation speaks of a single probe in HalfOpen. The code admits every request in
  that state, so there is at most one probe exactly if at most one request is made before an outcome
  is recorded (`CircuitBreaker.SingleProbeIff`, `ProbesAfterTimeout`, `TwoProbes`).
- A circuit is Closed exactly while its failure counter is below the threshold if and only if that
  threshold is not zero (`CircuitBreaker.ClosedBelowThresholdIff`).
- A certificate is reported as expired during the whole last day of its validity
  (`CertChain.ExpiredWarningRightIff`, `ValidReportedExpired`).
- The root of a valid chain need not be a certificate of the trust store: only the fingerprint it
  carries is looked up, which is neither computed nor signed. Its key is the trusted one exactly if
  that fingerprint is the one of its key (`IssuedChains.RootKeyTrustedIff`, `AnyRootMayCarryIt`). Pins are
  checked in the same way (`PinsRestrictKeyIff`, `AnyLeafMayCarryPin`, `UnpinnedKeyPasses`).
- Among names without zero bytes, the signed bytes determine the signed fields of certificates with
  keys of given lengths exactly if the lengths are equal (`TbsEncoding.TbsBytesInjective`,
  `TbsBytesCollide`, `LengthsToldApartIff`); names with zero bytes collide too (`NamesCollide`).
- Round robin gives each upstream one turn in n calls exactly if the counter does not wrap within
  them, or n divides its range (`Router.FairRoundIff`).

## Model

| member | source | states |
|---|---|---|
| Gf256.MulLoop | crates/pqc-tls/src/threshold.rs:22-36 | the shift-and-xor loop computes the field product, whose laws the next rows give |
| Gf256.MulUnique | crates/pqc-tls/src/threshold.rs:22-36 | multiplication by a is the only additive map that commutes with the reduced shift by x and sends 1 to a |
| Gf256.MulComm | crates/pqc-tls/src/threshold.rs:22-36 | the product is commutative for all bytes |
| Gf256.MulAssoc | crates/pqc-tls/src/threshold.rs:22-36 | the product is associative for all bytes |
| Gf256.NoZeroDivisors | crates/pqc-tls/src/threshold.rs:22-36 | a product is zero only if a factor is |
| Gf256.PowLoop | crates/pqc-tls/src/threshold.rs:39-49 | square-and-multiply computes the n-fold product |
| Gf256.InvCorrect | crates/pqc-tls/src/threshold.rs:51-55 | a times a^254 is 1 for every non-zero byte |
| Gf256.InvLoop | crates/pqc-tls/src/threshold.rs:52-55 | the computed inverse times a is 1; zero is refused |
| Polynomials.EvalLoop | crates/pqc-tls/src/threshold.rs:57-67 | the loop with the running power evaluates the polynomial |
| Polynomials.RootsForceZero | crates/pqc-tls/src/threshold.rs:57-67 | a polynomial with as many distinct roots as coefficients is zero |
| Polynomials.LagrangeCorrect | crates/pqc-tls/src/threshold.rs:69-90 | the Lagrange formula on n distinct points returns p(z) for every p of at most n coefficients and every z |
| Polynomials.InterpolationExists | crates/pqc-tls/src/threshold.rs:69-90 | through any values at n distinct points goes a polynomial of n coefficients |
| Threshold.LagrangeInterpolateZero | crates/pqc-tls/src/threshold.rs:71-90 | the nested loops compute the Lagrange sum at zero |
| Threshold.InverseDefinedIffDistinct | crates/pqc-tls/src/threshold.rs:77-86 | no denominator is zero, so the inverse's assertion is not reached, if and only if the points are distinct |
| Threshold.SharingConfig.New | crates/pqc-tls/src/threshold.rs:114-124 | a configuration can be made of two byte-sized numbers exactly if the threshold is at least 2 and at most the number of shares |
| Threshold.SplitSecret | crates/pqc-tls/src/threshold.rs:134-167 | share i holds, for each byte, the value at i of the polynomial with that byte as constant term |
| Threshold.SplitIds | crates/pqc-tls/src/threshold.rs:137-142 | the share ids are pairwise distinct and non-zero |
| Threshold.ReconstructSecret | crates/pqc-tls/src/threshold.rs:173-199 | every byte is interpolated from that byte of all shares |
| Threshold.QuorumReconstructs | crates/pqc-tls/src/threshold.rs:130-199 | any t or more shares with distinct ids give back exactly the secret, whatever the random coefficients |
| Threshold.ExplanationExists | crates/pqc-tls/src/threshold.rs:144-157 | any bytes at fewer than t ids are explained by some coefficients for every candidate secret byte |
| Threshold.ExactlyOneExplanation | crates/pqc-tls/src/threshold.rs:144-157 | at t - 1 ids exactly one choice of coefficients explains them |
| Threshold.ExplanationsTranslate | crates/pqc-tls/src/threshold.rs:144-157 | below t ids one offset maps the explanations of one secret byte one-to-one to those of another, for every view |
| Threshold.BelowThresholdAnySecret | crates/pqc-tls/src/threshold.rs:134-157 | what fewer than t holders see fits every other secret of the same length |
| RecoveryCodes.CodeRoundTrip | crates/pqc-tls/src/threshold.rs:305-332 | parsing undoes code generation for every id and data of any length |
| CodeGrammar.NumberParsesIff | crates/pqc-tls/src/threshold.rs:322-329 | a number parses to a byte if and only if it is one or more hex digits of either case, with an optional plus sign, whose positional value is that byte |
| CodeGrammar.DataParsesIff | crates/pqc-tls/src/threshold.rs:324-331 | data parses to exactly the bytes that its pairs of characters denote |
| CodeGrammar.DataPanics | crates/pqc-tls/src/threshold.rs:324-330 | the parser panics exactly on an odd number of characters whose full pairs are all hex bytes, succeeds exactly on an even number of such, and fails on any other |
| CodeGrammar.CodeOutcome | crates/pqc-tls/src/threshold.rs:316-332 | for every text with a dash: the share it parses to, or that its id is bad, its data is bad, or the parser panics, each with its exact condition in terms of digits |
| CodeGrammar.NoDash | crates/pqc-tls/src/threshold.rs:317-321 | a text without a dash is refused for its format |
| CodeGrammar.CodeForm | crates/pqc-tls/src/threshold.rs:305-313 | a generated code is the id in two lower-case digits, a dash, and the data |
| CodeGrammar.HexForm | crates/pqc-tls/src/signature.rs:315-317 | two lower-case hex digits for each byte, the high one first |
| RecoveryCodes.RecoverFromCodes | crates/pqc-tls/src/threshold.rs:335-341 | the first bad code's error, a panic where parsing or reconstruction panics, or the secret rebuilt from the parsed shares |
| CodeGrammar.ParseAllFirstBad | crates/pqc-tls/src/threshold.rs:335-340 | a list of codes ends as the first of them that does not parse |
| CodeGrammar.RecoveredIff | crates/pqc-tls/src/threshold.rs:335-341 | a secret is recovered if and only if every code parses and the shares combine to that secret |
| RecoveryCodes.CodesRecoverSecret | crates/pqc-tls/src/threshold.rs:305-341 | codes of any t distinct shares of a split parse to them and recover the secret |
| KeyManager.ThresholdKeyManager.constructor | crates/pqc-tls/src/threshold.rs:366-387 | the manager holds the public key, shares, codes and fingerprint of its seed |
| KeyManager.ThresholdKeyManager.SignWithQuorum | crates/pqc-tls/src/threshold.rs:414-456 | enough known ids yield the seed's signature, which verifies, and count one; otherwise None and no change |
| KeyManager.ThresholdKeyManager.RecoverFromCodes | crates/pqc-tls/src/threshold.rs:465-502 | a fresh valid manager for the recovered seed under the new sharing, or the error |
| KeyManager.RecoveryPreservesSeed | crates/pqc-tls/src/threshold.rs:465-478 | the old threshold of distinct codes recovers the old seed |
| KeyManager.RecoveredManagerSignsAlike | crates/pqc-tls/src/threshold.rs:414-502 | same public key and fingerprint, and every quorum of the new manager signs as every quorum of the old |
| KeyManager.QuorumSigns | crates/pqc-tls/src/threshold.rs:416-456 | every quorum of distinct existing ids signs with the manager's seed |
| KeyManager.FoundOne | crates/pqc-tls/src/threshold.rs:411-412 | an id finds its share, an unknown id nothing |
| KeyManager.FoundConcat | crates/pqc-tls/src/threshold.rs:430-433 | ids are looked up one after the other |
| KeyManager.FingerprintForm | crates/pqc-tls/src/threshold.rs:370 | the fingerprint is the first half of the key's digest in lower-case hex |
| VersionedKeys.KidInjective | crates/pqc-tls/src/versioned_keys.rs:45-48 | keys of different versions have different ids, whatever their fingerprints |
| VersionedKeys.KidForm | crates/pqc-tls/src/versioned_keys.rs:48 | an id is `mldsa-v`, the version in decimal, a dash and the first eight digits of the fingerprint |
| VersionedKeys.VersionedKeyManager.constructor | crates/pqc-tls/src/versioned_keys.rs:120-144 | one active key of version 1, no shares; the invariant holds |
| VersionedKeys.VersionedKeyManager.WithThreshold | crates/pqc-tls/src/versioned_keys.rs:147-168 | as above, with the first key's seed split and coded |
| VersionedKeys.VersionedKeyManager.Rotate | crates/pqc-tls/src/versioned_keys.rs:171-222 | the new state keeps exactly the keys at most maxRetained versions older than the new one, old ones inactive, shares renewed; the invariant is kept |
| VersionedKeys.VersionedKeyManager.Prune | crates/pqc-tls/src/versioned_keys.rs:204-219 | the loop ends, removes the oldest versions only and never the current key |
| VersionedKeys.RotatedInvariant | crates/pqc-tls/src/versioned_keys.rs:171-222 | every rotation keeps: one key per version of a contiguous range ending at the current one, only it active, its shares and codes in place |
| VersionedKeys.RotationContents | crates/pqc-tls/src/versioned_keys.rs:171-222 | the new key holds the generated seed and its public key and id; every other key held is one from before, at most maxRetained versions older, inactive and otherwise unchanged; the shares are those of the new seed |
| VersionedKeys.AfterRotations | crates/pqc-tls/src/versioned_keys.rs:120-222 | after n rotations min(n, maxRetained) + 1 keys are held, of the last versions |
| VersionedKeys.Retention | crates/pqc-tls/src/versioned_keys.rs:170-222 | a key is held until maxRetained newer versions exist and its key pair never changes; the current key survives exactly maxRetained rotations |
| VersionedKeys.CurrentSharesReconstruct | crates/pqc-tls/src/versioned_keys.rs:147-202 | at every point of a run any t distinct current shares rebuild the current key's seed and the codes parse back to the shares |
| VersionedKeys.VersionedKeyManager.SignCurrent | crates/pqc-tls/src/versioned_keys.rs:225-230 | id and signature of the current key |
| VersionedKeys.SignsWithCurrent | crates/pqc-tls/src/versioned_keys.rs:225-230 | in every reachable state that is the current id with its key's signature, which verifies |
| VersionedKeys.VersionedKeyManager.VerifyByKid | crates/pqc-tls/src/versioned_keys.rs:233-239 | verification under the held key of that id, false if none |
| JwtAuth.TokenLifetime | crates/pqc-proxy/src/jwt_auth.rs:64-161 | a token is decoded to its claims up to and including its expiry for exactly maxRetained rotations, then rejected with InvalidSignature |
| JwtAuth.RacedIssuance | crates/pqc-proxy/src/jwt_auth.rs:77-105 | with a rotation between reading the key id and signing, the token passes only if the old key accepts the new key's signature |
| JwtAuth.IssuedTokenOutcome | crates/pqc-proxy/src/jwt_auth.rs:111-161 | splitting and decoding undo issuance; then the signature, expiry, issuer and audience decide in this order |
| JwtAuth.VerifyJwtIff | crates/pqc-proxy/src/jwt_auth.rs:111-161 | for every text: accepted with given claims if and only if it has three parts that decode to a header, these claims and a signature, the header names ML-DSA-65 and a held key, that key verifies the signature over the first two parts, and expiry, issuer and audience are met |
| JwtAuth.MalformedIff | crates/pqc-proxy/src/jwt_auth.rs:117-130 | for every text: malformed if and only if it has no three parts that decode |
| JwtAuth.RefusedFor | crates/pqc-proxy/src/jwt_auth.rs:132-158 | every decoded token is refused for its algorithm, signature, expiry, issuer or audience exactly if that is the first of them to be wrong |
| JwtAuth.IssuedTokenAccepted | crates/pqc-proxy/src/jwt_auth.rs:64-161 | an issued token is accepted with the claims it was issued for, under its own issuer and audience, exactly until its time to live has passed |
| JwtAuth.IssuedHeader | crates/pqc-proxy/src/jwt_auth.rs:80-85 | an issued token's header names ML-DSA-65, JWT and the key id that was read |
| TokenBucket.Bucket.Refill | crates/pqc-proxy/src/rate_limiter.rs:42-47 | tokens never fall and never exceed the capacity, and the refill time is now |
| TokenBucket.Bucket.TryConsume | crates/pqc-proxy/src/rate_limiter.rs:32-40 | a token is taken if and only if one is there after refilling |
| TokenBucket.RefillPathIndependent | crates/pqc-proxy/src/rate_limiter.rs:42-47 | refilling at t1 and then t2 is refilling once at t2 |
| TokenBucket.DeniedChecksInvisible | crates/pqc-proxy/src/rate_limiter.rs:32-47 | denied checks change no later answer |
| TokenBucket.RetryExact | crates/pqc-proxy/src/rate_limiter.rs:32-55 | after a refusal naming r the next check is allowed if and only if r has passed, whatever refused checks come between |
| TokenBucket.RetryAfterMeans | crates/pqc-proxy/src/rate_limiter.rs:50-55 | a bucket has a token from exactly its retry time on; there is no such time exactly if the capacity is 0 |
| TokenBucket.AdmissionBound | crates/pqc-proxy/src/rate_limiter.rs:20-47 | checks within d seconds admit at most capacity + d * capacity / window |
| TokenBucket.ZeroWindow | crates/pqc-proxy/src/rate_limiter.rs:20-47 | under a window of zero seconds every check is allowed, or none if the capacity is 0 |
| BucketEquivalence.EquivalentIff | crates/pqc-proxy/src/rate_limiter.rs:20-55 | no checks tell new buckets of two limits apart if and only if the limits are equal, or both allow nothing and both or neither have zero windows (which decides whether the retry time is undefined or infinite), or both have zero windows and allow all |
| RateLimiting.RateLimiter.Check | crates/pqc-proxy/src/rate_limiter.rs:91-114 | the key's bucket is created or reused and checked, the retry time being a number, infinite or undefined; no other bucket changes |
| RateLimiting.NewBucket | crates/pqc-proxy/src/rate_limiter.rs:96-100 | an unknown key's bucket is made full for the route's own limit, or for the default one without it, and the check takes one token |
| RateLimiting.RateLimiter.Cleanup | crates/pqc-proxy/src/rate_limiter.rs:117-122 | exactly the buckets last touched less than the age ago stay |
| RateLimiting.OtherKeysInvisible | crates/pqc-proxy/src/rate_limiter.rs:91-122 | a key's answers are those of the run without the other keys' checks |
| RateLimiting.BucketFits | crates/pqc-proxy/src/rate_limiter.rs:20-122 | in every run, limits changing or not, tokens stay between 0 and the capacity, and capacity and rate are those of a limit the key's checks carried |
| RateLimiting.LaterLimitsIgnored | crates/pqc-proxy/src/rate_limiter.rs:91-114 | without clean-ups the limits that checks of a live bucket carry change no answer |
| RateLimiting.NewLimitEnforcedIff | crates/pqc-proxy/src/rate_limiter.rs:91-114 | bursts under a new limit stay within its capacity if and only if the live bucket has less than one token more |
| RateLimiting.LoweredLimitIgnored | crates/pqc-proxy/src/rate_limiter.rs:91-114 | a full bucket lets bursts exceed a lowered limit |
| RateLimiting.AdmissionAnyInterval | crates/pqc-proxy/src/rate_limiter.rs:91-122 | after any run, in any span of seconds, a key is admitted at most capacity + span * capacity / window times by the limit of its bucket, whatever limits its later checks carry and with harmless evictions interleaved |
| RateLimiting.RetryExactInRuns | crates/pqc-proxy/src/rate_limiter.rs:91-122 | the retry time is exact in runs with other keys, changing limits and harmless evictions interleaved |
| RateLimiting.EvictionUnobservable | crates/pqc-proxy/src/rate_limiter.rs:117-122 | clean-ups change no answer, interleaved anywhere, if each evicted bucket is old enough and the key's next check carries a limit like its own |
| EarlyEviction.EvictionUnobservableIff | crates/pqc-proxy/src/rate_limiter.rs:91-122 | for runs in which the key's checks carry limits from a given set: clean-up at an age is unobservable in all of them if and only if the limits are equivalent to each other and the age is at least each one's window or its capacity is 0 |
| EarlyEviction.RaisedLimitReveals | crates/pqc-gateway/src/main.rs:167-176 | clean-up at 600 seconds shows when a limit of 1 a minute is raised to 2 |
| EvictionAdmission.HarmlessIffNoneHarmful | crates/pqc-proxy/src/rate_limiter.rs:117-122 | a run evicts harmlessly if and only if its count of harmful evictions is zero |
| EvictionAdmission.AdmissionWithEvictions | crates/pqc-proxy/src/rate_limiter.rs:91-122 | after any run, with k harmful evictions in a span of seconds, a key is admitted at most (k + 1) * capacity + span * rate times, by the largest capacity and rate of its limits |
| EvictionAdmission.BoundAttained | crates/pqc-proxy/src/rate_limiter.rs:91-122 | for every k there is a run at a single time with k harmful evictions that admits (k + 1) * capacity |
| CircuitBreaker.CircuitBreakerManager.RegisterUpstream | crates/pqc-proxy/src/circuit_breaker.rs:108-115 | a fresh circuit for an unknown upstream, nothing else |
| CircuitBreaker.CircuitBreakerManager.CheckRequest | crates/pqc-proxy/src/circuit_breaker.rs:119-145 | the new circuit, and refusal exactly in state Open before the recovery timeout |
| CircuitBreaker.CircuitBreakerManager.RecordSuccess | crates/pqc-proxy/src/circuit_breaker.rs:148-161 | the circuit closes and its counter is cleared |
| CircuitBreaker.CircuitBreakerManager.RecordFailure | crates/pqc-proxy/src/circuit_breaker.rs:164-198 | counted, timed, and opened from HalfOpen or at the threshold |
| CircuitBreaker.CircuitBreakerManager.UpdateHealth | crates/pqc-proxy/src/circuit_breaker.rs:201-219 | good checks half-open an Open circuit, bad ones count while Closed |
| CircuitBreaker.UpstreamsIndependent | crates/pqc-proxy/src/circuit_breaker.rs:108-219 | an upstream's circuit depends on its own events only |
| CircuitBreaker.HistoryInvariant | crates/pqc-proxy/src/circuit_breaker.rs:108-219 | in every history: Closed exactly below the threshold (if it is at least 1), the counter is the counted failures since the last success, the open count is the number of events entering Open |
| BreakerHistory.Transitions | crates/pqc-proxy/src/circuit_breaker.rs:108-219 | the state after each kind of event in every state |
| BreakerHistory.AdmittedIff | crates/pqc-proxy/src/circuit_breaker.rs:126-144 | only an Open circuit refuses, until the recovery timeout has passed since the recorded failure |
| BreakerHistory.OpenIff | crates/pqc-proxy/src/circuit_breaker.rs:108-219 | in every history: Open if and only if it opened, by a failed probe or at the threshold, and since then there was no success, good health check or timely request |
| BreakerHistory.HalfOpenIff | crates/pqc-proxy/src/circuit_breaker.rs:108-219 | in every history: HalfOpen if and only if it recovered, by a good health check or a timely request while Open, and no success or failure was recorded since |
| BreakerHistory.LastFailureRecorded | crates/pqc-proxy/src/circuit_breaker.rs:164-172 | the recorded failure time is that of the last failure |
| BreakerHistory.Recorded | crates/pqc-proxy/src/circuit_breaker.rs:108-219 | the counters of requests and failures, the times of successes and health checks and the configuration are those of the history |
| BreakerHistory.HealthRecorded | crates/pqc-proxy/src/circuit_breaker.rs:148-219 | the health flag is as the last success, health check or tripping failure says |
| BreakerHistory.FailedProbeReopens | crates/pqc-proxy/src/circuit_breaker.rs:173-179 | a failure while HalfOpen opens the circuit, counts one more opening, and every request is refused until the timeout since the latest failure |
| CircuitBreaker.ClosedBelowThresholdIff | crates/pqc-proxy/src/circuit_breaker.rs:164-219 | the Closed rule holds in all histories if and only if the threshold is at least 1 |
| CircuitBreaker.FailsFast | crates/pqc-proxy/src/circuit_breaker.rs:119-145 | without success or good health check the circuit stays Open, and a request is admitted if and only if the timeout has passed since the latest recorded failure |
| CircuitBreaker.RefusedThroughout | crates/pqc-proxy/src/circuit_breaker.rs:119-145 | every request of such a stretch is refused |
| CircuitBreaker.OpenedByHealthStaysShut | crates/pqc-proxy/src/circuit_breaker.rs:131-138 | a circuit without any recorded request failure refuses forever |
| CircuitBreaker.HalfOpenAdmits | crates/pqc-proxy/src/circuit_breaker.rs:140-143 | a half-open circuit stays so until a success or failure is recorded, and admits at every time |
| CircuitBreaker.SingleProbeIff | crates/pqc-proxy/src/circuit_breaker.rs:140-143 | until then exactly the requests made are let through, so at most one if and only if at most one is made |
| CircuitBreaker.ProbesAfterTimeout | crates/pqc-proxy/src/circuit_breaker.rs:128-143 | from the request that finds the timeout passed on, at most one is let through if and only if no further one is made |
| CircuitBreaker.TwoProbes | crates/pqc-proxy/src/circuit_breaker.rs:128-143 | under every configuration a circuit can be failed open so that two requests after the timeout are both let through |
| BatchVerify.BatchVerifySequential | crates/pqc-tls/src/batch_verify.rs:47-79 | the number of entries, how many verify, how many do not, and which do not, in ascending order |
| BatchVerify.FailedIndicesAscending | crates/pqc-tls/src/batch_verify.rs:53-61 | each failing index is listed once, in ascending order |
| BatchVerify.SpawnWorkers | crates/pqc-tls/src/batch_verify.rs:91-99 | the chunks with their base indices cover each index exactly once |
| BatchVerify.BatchVerifyParallel | crates/pqc-tls/src/batch_verify.rs:82-138 | every interleaving ends with the result of the sequential verifier, which counts and lists as above |
| Aggregation.SignatureAggregator.Add | crates/pqc-tls/src/batch_verify.rs:277-300 | stored keys stay pairwise distinct and every entry's index leads back to its key |
| Aggregation.SignatureAggregator.Finalize | crates/pqc-tls/src/batch_verify.rs:303-317 | compressed size = uncompressed size - bytes of repeated keys + 2 * count |
| Aggregation.VerifyAll | crates/pqc-tls/src/batch_verify.rs:340-380 | counts and lists the entries by whether the message's digest in hex is the stored one and the signature verifies under the entry's key |
| Aggregation.SubstitutedMessage | crates/pqc-tls/src/batch_verify.rs:340-380 | on any other message an entry passes if and only if it has the original's digest and the signature verifies for it |
| Aggregation.AggregateAgreesWithBatch | crates/pqc-tls/src/batch_verify.rs:277-380 | on the original messages the aggregate verifies as the original triples do |
| CertChain.TrustStore.ValidateChain | crates/pqc-tls/src/cert_chain.rs:278-419 | valid if and only if the declarative predicate holds, and if and only if there are no errors; an error is reported if and only if a certificate gives cause for it; warnings and algorithms in order |
| CertChain.ErrorsHaveCauses | crates/pqc-tls/src/cert_chain.rs:278-395 | each kind of error is reported if and only if it has its cause: time, revocation, pins, names, CA flag, the signature under the issuer's key, trust |
| CertChain.ErrorsInOrder | crates/pqc-tls/src/cert_chain.rs:293-395 | the errors are exactly those with a cause, certificate by certificate and in the order of the checks |
| CertChain.ValidIffNoCause | crates/pqc-tls/src/cert_chain.rs:278-419 | a chain is valid if and only if nothing gives cause for an error |
| CertChain.ValidSignatures | crates/pqc-tls/src/cert_chain.rs:355-381 | in a valid chain each issuer's key verifies the signature, and a root that names itself as issuer verifies its own |
| CertChain.TamperedRejected | crates/pqc-tls/src/cert_chain.rs:355-381 | a chain with a signature that fails is invalid and the failure is among the errors |
| CertChain.AlgorithmsInOrder | crates/pqc-tls/src/cert_chain.rs:296-299 | no algorithm is listed twice and later certificates add theirs at the end |
| CertChain.TrustStore.Pin | crates/pqc-tls/src/cert_chain.rs:234-239 | one more pin for the subject, no other subject affected |
| CertChain.TrustStore.Unpin | crates/pqc-tls/src/cert_chain.rs:242-249 | one pin less; a subject is never left with an empty set, which would reject all its certificates |
| CertChain.SuffixValid | crates/pqc-tls/src/cert_chain.rs:278-419 | every non-empty end of a valid chain is valid |
| IssuedChains.BuiltChainValidIff | crates/pqc-tls/src/cert_chain.rs:521-592 | an issued chain is valid exactly if its root is trusted, each certificate acceptable, and all but the leaf are CAs |
| IssuedChains.BuiltChainValidates | crates/pqc-tls/src/cert_chain.rs:521-592 | with nothing revoked or pinned it is valid in the common validity window |
| IssuedChains.BuiltChainValidOnlyIn | crates/pqc-tls/src/cert_chain.rs:521-592 | and an issued chain is valid at no time outside the common validity window |
| IssuedChains.IssuedAt | crates/pqc-tls/src/cert_chain.rs:521-592 | the certificate issued for a specification has its subject, key, serial, window and CA flag, and the next one's subject and algorithm as issuer |
| CertChain.TrustStore.PinsDecide | crates/pqc-tls/src/cert_chain.rs:234-249 | in a store kept by these operations a subject without pins is unrestricted and one with pins restricted to them |
| TbsEncoding.TbsBytesInjective | crates/pqc-tls/src/cert_chain.rs:72-85 | with keys of one length and names without zero bytes, the signed bytes are equal if and only if all signed fields are |
| TbsEncoding.TbsLayout | crates/pqc-tls/src/cert_chain.rs:72-85 | where each field is in the signed bytes |
| TbsEncoding.LittleEndianAt | crates/pqc-tls/src/cert_chain.rs:78-79 | times are written from the lowest byte up |
| TbsEncoding.TbsBytesCollide | crates/pqc-tls/src/cert_chain.rs:72-85 | a leaf whose key has a byte 1 has the signed bytes of a CA whose key ends before it and whose serial takes the rest |
| TbsEncoding.LengthsToldApartIff | crates/pqc-tls/src/cert_chain.rs:72-85 | certificates with keys of lengths m and n never have equal signed bytes and different signed fields if and only if m = n |
| TbsEncoding.NamesCollide | crates/pqc-tls/src/cert_chain.rs:72-85 | names with a zero byte can run together |
| IssuedChains.RootKeyTrustedIff | crates/pqc-tls/src/cert_chain.rs:371-395 | the key that ends a valid chain is the trusted root's if and only if the fingerprint the root carries is its key's |
| IssuedChains.AnyRootMayCarryIt | crates/pqc-tls/src/cert_chain.rs:371-389 | a self-made root that carries a trusted fingerprint is valid whenever it is acceptable |
| IssuedChains.PinsRestrictKeyIff | crates/pqc-tls/src/cert_chain.rs:323-331 | in every store pins treat a certificate as its key's fingerprint deserves if and only if it carries that fingerprint, or its window is empty |
| IssuedChains.AnyLeafMayCarryPin | crates/pqc-tls/src/cert_chain.rs:323-331 | a leaf of any key that carries a pinned fingerprint meets the pins of its subject |
| IssuedChains.UnpinnedKeyPasses | crates/pqc-tls/src/cert_chain.rs:323-331 | an issued leaf whose key is not the pinned one is refused with its own fingerprint and accepted with the pinned one |
| CertChain.ExpiredWarningIff | crates/pqc-tls/src/cert_chain.rs:98-105 | the expiry warning says expired from one day before the end on |
| CertChain.ExpiresInIff | crates/pqc-tls/src/cert_chain.rs:257-271 | the exact warning: expired, or the whole days left if they are within the configured number |
| CertChain.ExpiredWarningRightIff | crates/pqc-tls/src/cert_chain.rs:257-271 | that warning tells the truth if and only if the certificate has expired or has a full day left |
| CertChain.ValidReportedExpired | crates/pqc-tls/src/cert_chain.rs:257-271 | a certificate issued for a day is reported as expired a second later |
| Router.MatchRoute | crates/pqc-proxy/src/router.rs:92-117 | the first matching route of the list with its rewritten path, which is the path itself without strip_prefix |
| Router.FirstMatchIsBest | crates/pqc-proxy/src/router.rs:83-117 | over the sorted list this is the configured match with the longest prefix, earliest on ties; None exactly when nothing matches |
| Router.RoutingDecides | crates/pqc-proxy/src/router.rs:26-49 | from configuration to answer: none exactly if no configured route has the path under its prefix, or as its prefix without trailing slashes, and allows the method in upper case; otherwise the foremost such route with its primary upstream first |
| Router.BestUnique | crates/pqc-proxy/src/router.rs:83-88 | there is only one such configured route |
| Router.StrippedPath | crates/pqc-proxy/src/router.rs:102-111 | the rewritten path is empty or absolute and the prefix before it gives back the path up to one inserted slash |
| Router.UnstrippedPath | crates/pqc-proxy/src/router.rs:102-113 | without strip_prefix the path is passed on as it is |
| Router.LoadBalancer.NextUpstream | crates/pqc-proxy/src/router.rs:62-68 | the upstream at the 64-bit counter, which then wraps or counts on; a single upstream leaves it alone |
| Router.FairRoundIff | crates/pqc-proxy/src/router.rs:62-68 | n calls in a row give each of n upstreams exactly one turn if and only if the counter does not wrap within them, or n divides its range |
| ProxyReload.ProxyState.constructor | crates/pqc-proxy/src/proxy.rs:112-117 | all upstreams of the first matcher are registered |
| ProxyReload.ProxyState.ReloadConfig | crates/pqc-proxy/src/proxy.rs:190-205 | registers all upstreams, then stores the matcher, then the configuration |
| ProxyReload.SnapshotsOrdered | crates/pqc-proxy/src/proxy.rs:315-317 | in every interleaving a request never pairs a newer configuration with an older matcher and that matcher's upstreams are registered |

## Left out

- HTTP, TLS, WebSocket tunnels, admin endpoints, command line, logging, metrics and certificate files: plumbing around the modelled logic.
- Integer widths: counters, sizes, versions and times are unbounded, except share counts (a byte), bytes, and the load balancer's wrapping counter.
- Floating point: tokens and times are real numbers.
- Locks: each call on the key manager, the breaker and one bucket is one step, as their locks make it; relaxed atomics in the parallel verifier are single steps.
- Threshold.ReconstructSecret: does not model the panics on no shares, unequal lengths or repeated ids with data; they are its precondition.
- KeyManager.ThresholdKeyManager.SignWithQuorum: does not model the panic on repeated ids that reach reconstruction; it is the precondition.
- KeyManager.ThresholdKeyManager.RecoverFromCodes: does not model the panics on a dangling hex digit or on shares that cannot be combined; they are its precondition.
- RecoveryCodes.RecoverFromCodes: does not model codes with characters of more than one byte, on which slicing can panic too.
- BatchVerify.BatchVerifyParallel: does not model the empty batch, for which the chunk size 0 panics.
- TokenBucket.AdmissionBound: does not hold for windows of zero seconds, under which all or none is admitted (`ZeroWindow`).
- RateLimiting.AdmissionAnyInterval: does not cover harmful evictions within the span; `EvictionAdmission.AdmissionWithEvictions` does.
- Router.FairRoundIff: does not model routes that share the counter.
- IssuedChains.RootKeyTrustedIff: takes fingerprints to be injective, which holds of truncated hashes only as far as nobody finds a collision.
- CertChain.TrustStore.ValidateChain: does not model path lengths, name constraints or key usage (section 6.1 of RFC 5280), which the code does not check.
- JwtAuth.TokenLifetime: does not model section 4.1.4 of RFC 7519 strictly; the code accepts a token at its expiry time.
- Request headers, the authorization middleware and the JWKS document: they read the modelled state without changing it.
- Distributed signing without a manager, multi-signatures and timestamp proofs: thin uses of splitting, signing and hashing.
- Concurrent reloads: the published order is proved for reloads issued one at a time.
