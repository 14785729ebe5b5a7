# TheVoteApp: verified models of tallying, eligibility, registration and the ledgers

TheVoteApp lets registered citizens vote on policies. Ballots are encrypted bits that a contract adds up point by
point and a tally authority decrypts; eligibility is a Merkle membership circuit; plain votes go to a ledger whose
events several services recount; registration claims a document before it writes to the chain; guardians pause the
ledger by quorum; limits and feature-phone sessions live in Redis. This project models those parts in Dafny 4.11 and
proves what they promise, over all inputs and over runs of any length.

`dafny verify dfyconfig.toml` checks everything.

| part | modules |
|---|---|
| encrypted tally: field, curve, both arithmetics, circuit, contract, authority | `Modular`, `Primes`, `EdwardsAlgebra`, `Edwards`, `CurveGroup`, `ServiceArithmetic`, `ContractArithmetic`, `ElGamal`, `Circuits`, `VoteCircuit`, `HomomorphicTally`, `TallyRuns`, `TallyAuthority`, `Instances` |
| eligibility circuit | `Circuits`, `Eligibility` |
| ledger and recounts | `VoteLedger`, `Recount`, `RecountAgreement`, `RecountOrder`, `LiveTally`, `LiveTallyRuns`, `Sums`, `Sequences` |
| registration | `ClaimStore`, `VoterRegistry`, `Registration`, `RegistrationAnswers`, `RegistrationHandler` |
| guardians, limits, feature phones | `PauseGuardian`, `PauseAuthority`, `RateLimit`, `Ussd`, `UssdVotes` |
| text passed to contracts by the apps | `AbiString`, `GatewayAnswers` |

How it is built:

- An object that changes in place is a class whose methods are specified by a pure function on its storage
  (`Apply`, `Handled`, `Deliver`, ...). The properties are lemmas about runs of that function. A call that reverts
  leaves the storage as it was.
- Loops of the source are loops here: extended Euclid, square-and-multiply, double-and-add, baby-step giant-step, the
  recounts, the poll initialisation, the iOS decoder.
- The curve parameters are symbolic: p an odd prime, a a nonzero square, d a non-square. The group law, including
  associativity, is proved, not assumed. Fermat's little theorem is proved too.

Hypotheses that remain, each named in the contract that uses it: p is prime and d is a non-square for the real
constants; no positive multiple of G up to `MAX_VOTERS` is neutral; whenever the verifier accepts the proof of a submission to a
registered poll, the ballot has a satisfying witness under its key (soundness of the proof verifier); block time and the limiter's clock do not go back; the limiter's random member
names differ; a JVM string has at most 2^31 - 1 characters.

What the proofs brought to light:

- The iOS encoder writes an offset of 65 digits, so decoding what it encodes gives nil for every string.
- The Android encoder follows the ABI only for 1 to 32 bytes and for whole words, and text comes back only if ASCII.
- The iOS decoder stops the app on a negative offset and on one whose double does not fit 64 bits; where it skips a
  malformed byte, Android gives null.
- `_modExp` answers 1 for modulus 1 and exponent 0.
- Registration: a registration check that throws keeps the claim; a receipt lost by the request that made the claim,
  or two requests in flight for the same pair, gives up the key of a document that has been served or may yet be,
  after which it is served for another commitment too.
- The deadline of a poll moves exactly when the owner creates the poll again, and a closed poll then takes votes.
- A registration for the all-zero country code is listed but reads as not registered.
- The auditor prints the number of events as the total, so it agrees with the service exactly when no nullifier
  repeats. A cached tally is stamped after its events were read, so it can be older than 30 seconds.
- A recount depends on the order of the log exactly if events of one nullifier name different options.
- The live tally drops a second vote of the same block, so it agrees with the recount exactly if every event of the
  policy came in a later block than all events before it. Starting it again in process counts the past twice.
- Guardians may approve and execute an id that was never created. Early approvals count towards a
  later pause, which falls short of pause approvers exactly if the threshold is above one and its id had approvals.
  Executing the next id, which every quorum can come to, is exactly what blocks proposing for good.
- The limiter records rejected requests, so a client that keeps asking stays locked out.
- In the feature-phone service the welcome can show another page than the one its answer counts from, a number that
  the page does not show can choose a policy, an inherited
  JavaScript property name passes for an option, and two interleaved confirmations are both recorded although the
  comment says that recording is atomic.

## Model

| member | source | states |
|---|---|---|
| Primes.Fermat | blockchain/contracts/HomomorphicTally.sol:330-336 | Fermat's little theorem for every prime, on which `_modInv` rests |
| Primes.FermatInverse | blockchain/contracts/HomomorphicTally.sol:330-336 | the power p-2 is the field inverse, and 0 at 0, for every odd prime |
| Edwards.Denominators | backend/src/services/HomomorphicTallyService.ts:69-88 | completeness: neither denominator of the addition law vanishes on the curve |
| Edwards.SumOnCurve | backend/src/services/HomomorphicTallyService.ts:69-88 | the sum of two reduced curve points is a reduced curve point |
| Edwards.SumCommutes | backend/src/services/HomomorphicTallyService.ts:69-88 | addition is commutative |
| Edwards.SumAssociative | backend/src/services/HomomorphicTallyService.ts:69-88 | addition is associative on the curve, from the formulas alone |
| Edwards.SumNeutral | backend/src/services/HomomorphicTallyService.ts:73-75 | (0,1) is neutral for the general formula |
| Edwards.SumInverse | backend/src/services/HomomorphicTallyService.ts:102-104 | a point plus its negation is (0,1) |
| CurveGroup.AddIsSum | backend/src/services/HomomorphicTallyService.ts:73-75 | on the curve the neutral-element shortcut agrees with the formula |
| CurveGroup.TimesAdd | backend/src/services/HomomorphicTallyService.ts:90-100 | (j+k)P = jP + kP |
| CurveGroup.TimesTimes | backend/src/services/HomomorphicTallyService.ts:90-100 | (jk)P = j(kP) |
| CurveGroup.TimesSum | backend/src/services/HomomorphicTallyService.ts:90-100 | k(P+Q) = kP + kQ |
| CurveGroup.TimesInjective | backend/src/services/HomomorphicTallyService.ts:122-149 | below the order of G different multiples are different points |
| ServiceArithmetic.ModInv | backend/src/services/HomomorphicTallyService.ts:106-116 | extended Euclid over truncating division returns the field inverse, and 0 for multiples of p |
| ServiceArithmetic.BjjAdd | backend/src/services/HomomorphicTallyService.ts:69-88 | the BigInt addition is the addition law with its shortcut, for all non-negative coordinates |
| CurveGroup.AddReduced | backend/src/services/HomomorphicTallyService.ts:69-88 | sums of reduced points are reduced, on the curve or not |
| ServiceArithmetic.BjjNeg | backend/src/services/HomomorphicTallyService.ts:102-104 | the negation of a reduced point |
| ServiceArithmetic.DoubleAndAddIsTimes | backend/src/services/HomomorphicTallyService.ts:90-100 | on the curve double-and-add is k-fold addition |
| ServiceArithmetic.BjjScalarMul | backend/src/services/HomomorphicTallyService.ts:90-100 | for every reduced point the loop is double-and-add; on the curve it is k-fold addition and stays there |
| ServiceArithmetic.CeilSqrt | backend/src/services/HomomorphicTallyService.ts:123-123 | the least integer whose square reaches n |
| ServiceArithmetic.BabyStep | backend/src/services/HomomorphicTallyService.ts:126-132 | a baby step never overwrites a table entry |
| ServiceArithmetic.Covers | backend/src/services/HomomorphicTallyService.ts:123-123 | the giant steps cover 0 to maxK |
| ServiceArithmetic.MeetingIsLogarithm | backend/src/services/HomomorphicTallyService.ts:133-147 | on the curve n giant and j baby steps meet exactly if (n*m + j)*G is the target |
| ServiceArithmetic.Bsgs | backend/src/services/HomomorphicTallyService.ts:122-149 | for every reduced target the first meeting within maxK; on the curve sound and complete |
| ContractArithmetic.ModExp | blockchain/contracts/HomomorphicTally.sol:338-346 | square-and-multiply is base^exp mod m exactly if m > 1 or exp > 0; otherwise it answers 1 |
| ContractArithmetic.ModInv | blockchain/contracts/HomomorphicTally.sol:334-336 | the same field inverse that the service's extended Euclid returns |
| ContractArithmetic.BabyJubAdd | blockchain/contracts/HomomorphicTally.sol:300-328 | the same point that the service's addition returns, for all uint256 coordinates |
| ElGamal.EncryptAdds | blockchain/contracts/HomomorphicTally.sol:190-196 | adding ciphertexts adds votes and randomness |
| ElGamal.AccumulateEncrypts | blockchain/contracts/HomomorphicTally.sol:190-196 | an accumulator of encryptions encrypts the sum of the votes |
| ElGamal.DecryptTally | backend/src/services/HomomorphicTallyService.ts:276-288 | T = C2 - sk*C1 of the accumulator is (sum of votes)*G, for every list of ballots |
| ElGamal.AccumulatePermutes | blockchain/contracts/HomomorphicTally.sol:190-196 | the accumulator does not depend on the order of the ballots |
| VoteCircuit.BitFromConstraint | blockchain/circuits/homomorphic_vote.circom:82-86 | v(1-v) = 0 over a prime field leaves 0 and 1 |
| VoteCircuit.AdditionConstraintIsSum | blockchain/circuits/homomorphic_vote.circom:121-129 | the multiplied-out constraints of the adder hold exactly for the curve sum |
| VoteCircuit.CircuitSound | blockchain/circuits/homomorphic_vote.circom:71-135 | every satisfying witness makes the ciphertext an encryption of a bit under pk |
| VoteCircuit.CircuitComplete | blockchain/circuits/homomorphic_vote.circom:71-135 | every honest encryption of a bit satisfies the constraints |
| VoteCircuit.LowBits | blockchain/circuits/homomorphic_vote.circom:88-108 | the 253 bits used of r are r mod 2^253 |
| HomomorphicTally.TallyContract.RegisterPoll | blockchain/contracts/HomomorphicTally.sol:124-144 | outcome and whole new storage; every accumulator of the poll starts at (0,1) |
| HomomorphicTally.TallyContract.SubmitEncryptedVote | blockchain/contracts/HomomorphicTally.sol:163-199 | checks in order, then nullifier spent, ciphertext added, counter raised, nothing else |
| HomomorphicTally.TallyContract.FinaliseDecryption | blockchain/contracts/HomomorphicTally.sol:214-239 | only after closing, once per option, and only the result changes |
| TallyRuns.RunHasNoStrays | blockchain/contracts/HomomorphicTally.sol:124-239 | in every run nothing is stored for a poll or option that does not exist |
| TallyRuns.AccumulatorIsFold | blockchain/contracts/HomomorphicTally.sol:163-199 | in every run each accumulator is the fold of exactly the accepted ciphertexts, counted |
| TallyRuns.CountsMatchNullifiers | blockchain/contracts/HomomorphicTally.sol:163-199 | in every run a poll's option counts add up to the nullifiers used in it |
| TallyRuns.Frozen | blockchain/contracts/HomomorphicTally.sol:163-239 | once time reaches closeTime only results can still change |
| TallyRuns.ResultMeansClosed | blockchain/contracts/HomomorphicTally.sol:214-239 | a result exists only after closeTime |
| TallyRuns.FinalisedIsFinal | blockchain/contracts/HomomorphicTally.sol:214-239 | a finalised result and the accumulator it is about never change |
| TallyRuns.SubmissionAcceptedExactly | blockchain/contracts/HomomorphicTally.sol:163-185 | a ballot is accepted exactly for an open registered poll and one of its options, with a fresh nullifier and a proof that the verifier accepts |
| TallyRuns.ResultAcceptedExactly | blockchain/contracts/HomomorphicTally.sol:214-225 | a result is accepted exactly from the role, for a closed registered poll and one of its options without a result |
| TallyRuns.PanicsExactly | blockchain/contracts/HomomorphicTally.sol:163-225 | timely ballots and results for a poll without options fail in the error message itself |
| TallyRuns.RegisteredAsGiven | blockchain/contracts/HomomorphicTally.sol:124-144 | in every run a registered poll has the configuration of its first authorised registration |
| TallyRuns.ResultAsPosted | blockchain/contracts/HomomorphicTally.sol:214-239 | in every run a stored result is the first one that was accepted for the option |
| TallyRuns.AcceptedHadProofs | blockchain/contracts/HomomorphicTally.sol:177-199 | in every run each ballot in an accumulator was submitted to that poll and option with an accepted proof |
| TallyAuthority.BallotsOpen | blockchain/circuits/homomorphic_vote.circom:71-135 | with a sound verifier the accepted ballots of an option open to bits |
| TallyAuthority.AcceptedAreCertified | blockchain/contracts/HomomorphicTally.sol:177-196 | in every run of a sound verifier the accepted ballots have witnesses under the key of their poll |
| TallyAuthority.TallyPoint | backend/src/services/HomomorphicTallyService.ts:276-291 | the decrypted point has exactly one logarithm up to the bound: the number of votes |
| TallyAuthority.ComputeT | backend/src/services/HomomorphicTallyService.ts:276-288 | the service's arithmetic for every reduced ciphertext; on the curve it is the decryption |
| TallyAuthority.FinaliseOption | backend/src/services/HomomorphicTallyService.ts:272-310 | end to end from a verifier that is sound over the run: the ballots open to bits and the value posted is their sum, missing only if finalised before or above `MAX_VOTERS` |
| Instances.SmallCurveComplete | backend/src/services/HomomorphicTallyService.ts:40-48 | the hypotheses on the curve can be met |
| Instances.SmallOrder | backend/src/services/HomomorphicTallyService.ts:43-47 | so can the one on the order: on a small curve the order of a point is exactly eight |
| Instances.BabyJubJubConstants | backend/src/services/HomomorphicTallyService.ts:40-48 | the published a is a nonzero square and the published base point is on the curve |
| Eligibility.IndexIsBit | blockchain/circuits/eligibility_plonk.circom:74-74 | b(b-1) = 0 over a prime field holds exactly for 0 and 1 |
| Eligibility.CircuitComplete | blockchain/circuits/eligibility_plonk.circom:37-91 | at every depth every leaf's honest path satisfies the constraints |
| Circuits.MuxSelects | blockchain/circuits/eligibility_plonk.circom:76-81 | for a selector bit the linear output is the selected input |
| Eligibility.ClimbSound | blockchain/circuits/eligibility_plonk.circom:63-90 | unless a pair hashed on the path collides with another one of the tree, a path to the root starts at the leaf of its bits and uses its siblings |
| Eligibility.ClimbExactly | blockchain/circuits/eligibility_plonk.circom:63-90 | without such a collision the path constraints hold exactly for the leaf of the bits and its siblings |
| Eligibility.CircuitSound | blockchain/circuits/eligibility_plonk.circom:37-91 | at every depth a satisfying witness without such a collision names the leaf at the index of its bits |
| Eligibility.ForgeryShowsCollision | blockchain/circuits/eligibility_plonk.circom:37-91 | a witness for a commitment that is not in the tree hashes a pair that collides with one of the tree |
| Eligibility.OneNullifierPerLeaf | blockchain/circuits/eligibility_plonk.circom:49-90 | in one poll, proofs that name the same leaf have the same nullifier and country, unless hashed pairs collide |
| Eligibility.NullifiersAtMostLeaves | blockchain/circuits/eligibility_plonk.circom:49-90 | however many proofs are accepted in a poll, they have at most as many nullifiers as the tree has leaves, unless hashed pairs collide |
| VoteLedger.Ledger.CreatePoll | blockchain/contracts/VoteLedger.sol:112-126 | outcome and whole new storage, also for a poll that exists |
| VoteLedger.Ledger.CastVote | blockchain/contracts/VoteLedger.sol:145-173 | checks in order, then nullifier, list, option tally, total and event |
| VoteLedger.Ledger.FinalisePoll | blockchain/contracts/VoteLedger.sol:179-185 | outcome and whole new storage |
| VoteLedger.RunConserves | blockchain/contracts/VoteLedger.sol:112-185 | in every run tallies add up to totals, totals to the nullifier list, the list is duplicate-free and lists the spent nullifiers, counters equal the log |
| VoteLedger.TalliesNeverDecrease | blockchain/contracts/VoteLedger.sol:145-185 | between any two moments tallies only grow, and a finalised poll's do not change |
| VoteLedger.NoDoubleVote | blockchain/contracts/VoteLedger.sol:155-155 | a spent nullifier is refused for good, for every poll |
| VoteLedger.VoteAcceptedExactly | blockchain/contracts/VoteLedger.sol:145-164 | a vote is accepted exactly unpaused, for a poll that is open and not finalised, with a fresh nullifier and a valid proof |
| VoteLedger.FinalisedExactly | blockchain/contracts/VoteLedger.sol:179-185 | in every run a poll is finalised exactly if the owner finalised it while it existed |
| VoteLedger.FinalisedTakesNoVotes | blockchain/contracts/VoteLedger.sol:154-185 | after the owner has finalised a poll no vote for it is accepted and its tallies stay, whatever follows |
| VoteLedger.FinalisesOnce | blockchain/contracts/VoteLedger.sol:179-182 | after any run with a finalisation of the poll the next one is refused as already finalised |
| VoteLedger.PausedExactly | blockchain/contracts/VoteLedger.sol:145-213 | in every run the ledger is paused exactly if the owner paused it last, and no vote is accepted while it is |
| VoteLedger.SwitchAcceptedExactly | blockchain/contracts/VoteLedger.sol:212-213 | after any run pausing and unpausing are accepted exactly from the owner and only if they switch |
| VoteLedger.DeadlineMovesExactly | blockchain/contracts/VoteLedger.sol:112-123 | a call moves a poll's deadline exactly if the owner creates that poll with another one in the future |
| VoteLedger.DeadlineStays | blockchain/contracts/VoteLedger.sol:112-185 | in every run the deadline stays while nobody creates the poll again |
| VoteLedger.ClosedStaysClosed | blockchain/contracts/VoteLedger.sol:145-173 | a poll past its deadline accepts no vote until it is created again |
| VoteLedger.RecreationReopens | blockchain/contracts/VoteLedger.sol:112-156 | in any state, after the poll is created again it takes exactly the votes up to the new deadline, with tallies and flag kept |
| VoteLedger.ClosedPollReopens | blockchain/contracts/VoteLedger.sol:112-156 | after any run a refused vote of a closed poll is accepted once it is created again, exactly if only the deadline stood against it |
| Recount.CountEvents | backend/src/services/TallyService.ts:65-91 | the loop counts exactly the first event of each nullifier, per option and in total |
| Recount.TallyService.GetTally | backend/src/services/TallyService.ts:55-101 | the answer is the recount of a log state: the present one, or the one its cache entry was read from |
| Recount.CacheAge | backend/src/services/TallyService.ts:55-59 | every answer from a cache entry is under 30 s old exactly if the entry was stamped when its events were read |
| Recount.AskTwice | backend/src/services/TallyService.ts:55-101 | after a miss, a hit at the end of the TTL answers with an age of 30 s or more exactly if the query took any time |
| Recount.AuditPolicy | cli/src/index.ts:96-112 | the auditor counts first events per option; its total is the number of events |
| RecountAgreement.AuditorAgrees | cli/src/index.ts:96-112 | service and auditor agree on the options; on the total exactly if no nullifier repeats |
| RecountAgreement.RecountPermutes | backend/src/services/TallyService.ts:77-91 | without repeated nullifiers the order of the log does not matter |
| RecountOrder.OrderIrrelevantExactly | backend/src/services/TallyService.ts:77-91 | all permutations of a log give the watched options the same counts exactly if events of one nullifier never name different watched options |
| RecountOrder.ServiceIgnoresOrderExactly | backend/src/services/TallyService.ts:77-91 | the service's counts ignore the order exactly if events of one nullifier name the same known option or unknown ones only |
| RecountOrder.AuditorIgnoresOrderExactly | cli/src/index.ts:96-112 | the auditor's counts ignore it exactly if events of one nullifier all name the same option |
| RecountAgreement.RecountMatchesLedger | blockchain/contracts/VoteLedger.sol:166-172 | on the log of any ledger run the recount is what the ledger holds |
| LiveTally.LiveTallyService.TrackPolicy | backend/src/services/LiveTallyService.ts:58-72 | the whole new state |
| LiveTally.LiveTallyService.StartFrom | backend/src/services/LiveTallyService.ts:78-90 | the whole new state, with the catch-up only from a positive block |
| LiveTally.LiveTallyService.CatchUp | backend/src/services/LiveTallyService.ts:102-109 | every past event is counted and the block guard does not move |
| LiveTally.LiveTallyService.OnVoteCast | backend/src/services/LiveTallyService.ts:111-122 | the whole new state, with the block guard |
| LiveTally.LiveTallyService.OnPolicyFinalized | backend/src/services/LiveTallyService.ts:124-132 | only the finalised flag of a tracked policy changes |
| LiveTally.LiveCharacterised | backend/src/services/LiveTallyService.ts:111-122 | on any stream a tracked policy gains exactly its events whose block exceeds every earlier delivered block |
| LiveTally.RedeliveryIgnored | backend/src/services/LiveTallyService.ts:118-118 | delivering events again, in any order, changes nothing |
| LiveTally.LiveMatchesRecount | backend/src/services/LiveTallyService.ts:111-151 | from a fresh start, without repeated nullifiers, the live tally is at most the recount and equals it exactly if each event of the policy is in a later block than all before it |
| LiveTally.StartThenStream | backend/src/services/LiveTallyService.ts:78-122 | after a start from a block and any stream, the policy has gained all past events and the streamed ones above the guard |
| LiveTally.CaughtUpMatchesRecount | backend/src/services/LiveTallyService.ts:78-122 | a fresh start from a block agrees with the recount exactly if the policy has no older events and each streamed one is in a new block |
| LiveTally.RunTracks | backend/src/services/LiveTallyService.ts:58-151 | in every reachable state no two hashes lead to one policy, and each tracked policy with a name is found under its own hash |
| LiveTallyRuns.RunCharacterised | backend/src/services/LiveTallyService.ts:58-151 | in every run exactly the tracked policies have a tally, with exactly the events that catch-ups and the guard let through since, and marked final exactly if their finalisation was delivered |
| LiveTallyRuns.EmptyNameStaysEmpty | backend/src/services/LiveTallyService.ts:124-143 | in every run a policy with the empty name has an empty tally |
| LiveTally.SameBlockDropped | backend/src/services/LiveTallyService.ts:118-119 | a second event of the same block is lost |
| LiveTally.RestartCounts | backend/src/services/LiveTallyService.ts:78-109 | starting again in process keeps the total right exactly if no replayed event is of the policy |
| ClaimStore.InMemoryUsedIdentifierStore.Claim | backend/src/repositories/UsedIdentifierStore.ts:49-54 | answer and contents after a claim |
| ClaimStore.InMemoryUsedIdentifierStore.Release | backend/src/repositories/UsedIdentifierStore.ts:56-58 | only one's own claim is given up |
| ClaimStore.RedisRefinesAtomic | backend/src/repositories/UsedIdentifierStore.ts:26-44 | every interleaving of SET NX, GET and compare-and-delete has a sequential order in which the in-memory store gives the same answers and contents |
| ClaimStore.EffectIsCompletion | backend/src/repositories/UsedIdentifierStore.ts:26-44 | each call takes effect once, in the step that answers it: a successful SET, a non-null GET or the delete |
| ClaimStore.CallKeepsArguments | backend/src/repositories/UsedIdentifierStore.ts:26-44 | while a call runs, no step changes what it claims or releases |
| VoterRegistry.Registry.Register | blockchain/contracts/VoterRegistry.sol:81-97 | checks in order, then country and list |
| VoterRegistry.Registry.SetCountryRegistrar | blockchain/contracts/VoterRegistry.sol:121-127 | outcome and whole new storage |
| VoterRegistry.ListIsExact | blockchain/contracts/VoterRegistry.sol:81-108 | in every run the list holds each registered commitment once, exactly if no registration for the zero country was accepted |
| VoterRegistry.StaysRegistered | blockchain/contracts/VoterRegistry.sol:85-94 | a registered commitment keeps its country and cannot be registered again |
| VoterRegistry.RegistrationAcceptedExactly | blockchain/contracts/VoterRegistry.sol:81-91 | a registration is accepted exactly unpaused, from the registrar of the country, for a nonzero commitment that is not registered |
| VoterRegistry.OwnerDecides | blockchain/contracts/VoterRegistry.sol:121-130 | in every run registrar and pause are what the owner set last |
| VoterRegistry.RegisteredExactly | blockchain/contracts/VoterRegistry.sol:81-97 | in every run a commitment has a country exactly if the registrar whom the owner had set for it registered the commitment, as new and unpaused |
| Registration.BackedExactly | backend/src/routes/identityRegister.ts:60-88 | a step keeps every served or registrable document backed by its claim exactly if it is not a release of such a claim |
| Registration.SafeRunsServeOnce | backend/src/routes/identityRegister.ts:60-88 | in every run without such a release a document is served for one commitment at most |
| Registration.CivilRunsAreSafe | backend/src/routes/identityRegister.ts:60-88 | no such release happens while pairs in flight differ and no request that made the claim loses its receipt, whatever crashes or fails |
| Registration.OneDocumentOneVoter | backend/src/routes/identityRegister.ts:43-105 | in every such interleaving at most one commitment per sybil key is registered or acknowledged |
| Registration.ServedAreRegistered | backend/src/routes/identityRegister.ts:72-83 | what has been served is on the chain |
| Registration.FreeKeyIsServed | backend/src/routes/identityRegister.ts:60-83 | a request with a free key and an acceptable commitment is served |
| Registration.UnsafeReleaseReopens | backend/src/routes/identityRegister.ts:84-88 | after the release of a served key the document is served for any other acceptable commitment |
| Registration.PendingReleaseReopens | backend/src/routes/identityRegister.ts:81-88 | after the release of a key whose registration is still pending the document is served for another commitment and for the pending one |
| Registration.LostReceiptIsUnsafe | backend/src/routes/identityRegister.ts:81-88 | a lost receipt alone leads to such a release, whether its transaction is mined before it or still pending |
| Registration.SharedPairIsUnsafe | backend/src/routes/identityRegister.ts:60-88 | two requests in flight for one pair alone lead to such a release |
| RegistrationAnswers.AnswersAreServed | backend/src/routes/identityRegister.ts:72-100 | in every run whoever is told created or registered counts as served |
| RegistrationAnswers.CrashLeavesTransaction | backend/src/routes/identityRegister.ts:81-83 | the transaction of a server that died can be executed after any further steps, and then registers and serves if the registry accepts it |
| RegistrationHandler.PostRegister | backend/src/routes/identityRegister.ts:43-105 | answer, claim store and registry after a lone request, with every fault of the chain calls |
| RegistrationHandler.FailureRestoresClaims | backend/src/routes/identityRegister.ts:60-88 | a failed request leaves the store as it was, exactly unless it made the claim and the check threw |
| RegistrationHandler.FailureOnChain | backend/src/routes/identityRegister.ts:81-88 | a failed request changed the registry exactly if the chain accepted it before the end and the receipt was lost |
| RegistrationHandler.SuccessHoldsTheKey | backend/src/routes/identityRegister.ts:60-100 | success means registered and key held; 409 means held by another commitment; other keys are untouched |
| RegistrationHandler.AnsweredExactly | backend/src/routes/identityRegister.ts:60-100 | 201 and the idempotent answer each exactly under conditions on key, registry and fault, and what they change |
| RegistrationHandler.RetryIsIdempotent | backend/src/routes/identityRegister.ts:72-77 | a retry after a success says registered and changes nothing |
| RegistrationHandler.HandlerIsARun | backend/src/routes/identityRegister.ts:43-105 | the lone handler is a run of the interleaved protocol with the same end, and a lost receipt leaves its transaction behind |
| PauseGuardian.Guardian.constructor | blockchain/contracts/PauseGuardian.sol:56-67 | the state a guardian starts in |
| PauseGuardian.Guardian.RecordApproval | blockchain/contracts/PauseGuardian.sol:132-139 | one approval per guardian, none once executed |
| PauseGuardian.Guardian.Propose | blockchain/contracts/PauseGuardian.sol:71-74 | creation and first approval, or nothing at all |
| PauseGuardian.Guardian.Approve | blockchain/contracts/PauseGuardian.sol:76-79 | outcome and whole new storage, also for ids never created |
| PauseGuardian.Guardian.Execute | blockchain/contracts/PauseGuardian.sol:81-111 | outcome, storage and target; a refusing target undoes the call |
| PauseGuardian.RunStaysSound | blockchain/contracts/PauseGuardian.sol:71-139 | in every run approvals is the size of the approved set and executed proposals have met the threshold |
| PauseGuardian.ApprovedAreApprovers | blockchain/contracts/PauseGuardian.sol:132-139 | in every run the approved set is the set of senders of accepted approving calls, each once |
| PauseGuardian.ApprovalNeedsRole | blockchain/contracts/PauseGuardian.sol:71-101 | whoever approves holds the role at that moment and has not approved before |
| PauseGuardian.ApprovedForItsKind | blockchain/contracts/PauseGuardian.sol:98-130 | everybody approved a proposal for its kind, except exactly those who approved a pause's id before its creation |
| PauseGuardian.ExecutedMetThreshold | blockchain/contracts/PauseGuardian.sol:81-111 | an executed proposal has threshold distinct approvers, and how they divide by kind |
| PauseGuardian.ExecutesOnce | blockchain/contracts/PauseGuardian.sol:81-111 | in every run a proposal executes at most once |
| PauseGuardian.FrozenForGood | blockchain/contracts/PauseGuardian.sol:81-139 | after execution approvers, kind and reason never change |
| PauseGuardian.KindIsFixedByCreation | blockchain/contracts/PauseGuardian.sol:125-130 | a created proposal keeps its kind; an id not yet created reads as an unpause |
| PauseGuardian.PauseApprovalsSplit | blockchain/contracts/PauseGuardian.sol:76-101 | the approvals of a pause are those given to it as a pause plus the early ones |
| PauseGuardian.ShortExactly | blockchain/contracts/PauseGuardian.sol:81-101 | a pause created after any run can come to be executed with fewer pause approvers than the threshold exactly if the threshold is at least two and its id already had approvals |
| PauseGuardian.EarlyApprovalsCount | blockchain/contracts/PauseGuardian.sol:98-130 | after any run, for any threshold, quorum and k below its size: k of a quorum approve the unused next id, and together with them the others pause the target |
| PauseGuardian.ProposingIsBlocked | blockchain/contracts/PauseGuardian.sol:125-139 | every later proposal reverts, whatever is called and granted, exactly if the next id has been executed |
| PauseGuardian.QuorumBlocksProposing | blockchain/contracts/PauseGuardian.sol:98-111 | from every deployed guardian any quorum comes to that by its own calls |
| PauseGuardian.NothingWithoutQuorum | blockchain/contracts/PauseGuardian.sol:81-111 | fewer guardians than the threshold execute nothing while no role is granted |
| PauseGuardian.ExecutionsAlternate | blockchain/contracts/PauseGuardian.sol:81-111 | if nobody else controls the target, the executed proposals alternate between pauses and unpauses |
| PauseAuthority.ProposalAcceptedExactly | blockchain/contracts/PauseGuardian.sol:71-139 | a proposal is accepted exactly from a guardian who has not approved the next id, unless that id is executed |
| PauseAuthority.ApprovalAcceptedExactly | blockchain/contracts/PauseGuardian.sol:76-139 | an approval is accepted exactly from a guardian new to a proposal of that kind that is not executed |
| PauseAuthority.ExecutionAcceptedExactly | blockchain/contracts/PauseGuardian.sol:81-111 | after any run an execution is accepted exactly from a guardian, once, for a proposal of that kind with a quorum of distinct approvers, if the target is not so yet |
| PauseAuthority.GuardiansExactly | blockchain/contracts/PauseGuardian.sol:61-101 | in every run the guardians are those whom the admin granted the role last |
| PauseAuthority.StaysAsCreated | blockchain/contracts/PauseGuardian.sol:125-130 | in every run a created proposal has the kind and the reason it was proposed with |
| PauseAuthority.SwitchNeedsQuorum | blockchain/contracts/PauseGuardian.sol:81-111 | whenever the guardian switches the target in a run, it executes a proposal of that kind with a quorum, by a role holder, and a pause was created as one |
| PauseAuthority.SwitchedByQuorum | blockchain/contracts/PauseGuardian.sol:81-111 | while nobody else controls the target, it differs from its state at deployment only by such an execution, whose proposal stays executed with its quorum |
| RateLimit.RedisRateLimit.Handle | backend/src/middleware/rateLimitRedis.ts:48-95 | decision, remaining count and new sorted set of the key; without Redis the request passes; other keys are untouched |
| RateLimit.ViewIsHistory | backend/src/middleware/rateLimitRedis.ts:64-69 | after any run the evicted, expiring set shows what the full history would show |
| RateLimit.LimiterCountsHistory | backend/src/middleware/rateLimitRedis.ts:64-88 | a request is decided as by counting the full history |
| RateLimit.WindowBound | backend/src/middleware/rateLimitRedis.ts:64-90 | every half-open interval of the window's length has at most limit accepted requests |
| RateLimit.AcceptedExactly | backend/src/middleware/rateLimitRedis.ts:64-90 | a request is accepted exactly if the request limit places before it is at least a window old |
| RateLimit.RemainingIsExact | backend/src/middleware/rateLimitRedis.ts:74-88 | that many more requests at the same instant are let through, and no more |
| RateLimit.StricterBound | backend/src/middleware/rateLimitRedis.ts:55-90 | requests under a stricter limit keep to it in every window, whatever else the client does |
| RateLimit.VoteLimiterBounds | backend/src/middleware/rateLimitRedis.ts:102-111 | in every minute a client gets at most five votes through, and at most three that claim Nigeria or India |
| RateLimit.VoteAcceptedExactly | backend/src/middleware/rateLimitRedis.ts:102-111 | a vote is let through exactly if the third or fifth request before it, by its country, is a minute old or missing |
| Ussd.USSDVoteService.Handle | backend/src/ussd/USSDVoteService.ts:54-131 | response and new sessions, nullifiers and votes for every text |
| Ussd.ChoiceIsShown | backend/src/ussd/USSDVoteService.ts:79-92 | a number on the session's page chooses the policy that the page shows under it |
| UssdVotes.KeysRecordTheirOption | backend/src/ussd/USSDVoteService.ts:79-128 | a policy number, then 1, 2 or 3, then 1, with any steps of other sessions in between, records exactly the vote for support, opposition or abstention on the policy shown, if its nullifier is unused |
| UssdVotes.LastEnteredDecides | backend/src/ussd/USSDVoteService.ts:56-70 | of the accumulated text the part entered last decides |
| UssdVotes.PolicyChosenExactly | backend/src/ussd/USSDVoteService.ts:85-91 | which numbers choose which policy, which of those are on the page, and that others leave the session as it is |
| UssdVotes.OptionChosenExactly | backend/src/ussd/USSDVoteService.ts:95-105 | a key moves the session on exactly if it stands for an option |
| UssdVotes.ConfirmationExactly | backend/src/ussd/USSDVoteService.ts:108-128 | answer, votes and session after each last part at the confirmation; only 1 with an unused nullifier records |
| UssdVotes.OnlyConfirmationsRecord | backend/src/ussd/USSDVoteService.ts:54-131 | a request records a vote only as a confirmation by the key 1 |
| UssdVotes.EveryPolicyIsShown | backend/src/ussd/USSDVoteService.ts:80-84 | at most four turns of the page bring every policy to its top |
| UssdVotes.NoInputRenews | backend/src/ussd/USSDVoteService.ts:58-68 | a request without input shows the first page and only renews the session |
| UssdVotes.ExitForgets | backend/src/ussd/USSDVoteService.ts:73-76 | the exit drops the session at every step and records nothing |
| Ussd.WelcomeShowsFirstPage | backend/src/ussd/USSDVoteService.ts:65-68 | the welcome keeps the session's page but shows the first, so the two agree exactly on the first page |
| Ussd.PairSplitsBack | backend/src/ussd/USSDVoteService.ts:100-113 | the policy and option joined at step 1 are those read at step 2 |
| Ussd.HandledIsSane | backend/src/ussd/USSDVoteService.ts:54-131 | step and policyId stay in agreement, and the final fall-through is unreachable |
| Ussd.RecordedAreListed | backend/src/ussd/USSDVoteService.ts:79-128 | in every run votes are for listed policies and for options that requests selected |
| Ussd.InheritedNameIsRecorded | backend/src/ussd/USSDVoteService.ts:96-98 | an inherited property name is accepted as an option and recorded |
| Ussd.KnownOptionsExactly | backend/src/ussd/USSDVoteService.ts:94-128 | all runs record known options only, exactly if no inherited name that can be entered stands for another string before its first colon |
| Ussd.StepKeepsDistinctExactly | backend/src/ussd/USSDVoteService.ts:113-127 | a step records a second vote for a nullifier exactly if it finishes a confirmation overtaken by another |
| Ussd.ExclusiveRunsVoteOnce | backend/src/ussd/USSDVoteService.ts:113-127 | in every run whose confirmations of a nullifier do not overlap it is recorded once at most |
| Ussd.OneVotePerPhoneAndPolicy | backend/src/ussd/USSDVoteService.ts:54-131 | with atomic requests and sessions expiring at any time each phone has one recorded vote per policy at most |
| Ussd.OverlappingConfirmationsBothCount | backend/src/ussd/USSDVoteService.ts:116-124 | two overlapping confirmations are both recorded |
| Ussd.NullifierInputInjective | backend/src/ussd/USSDVoteService.ts:150-154 | different phones or listed policies hash different strings |
| Ussd.RejectionMeansVoteOrCollision | backend/src/ussd/USSDVoteService.ts:116-120 | who is told to have voted has voted, or two hash inputs collide |
| AbiString.DecodeABIString | ios/VoteGlobal/Data/Gateway/GatewayResolver.swift:122-144 | the decoder with its loop, its nil answers and its traps |
| AbiString.AndroidRoundTrip | android/app/src/main/kotlin/com/TheVoteApp/data/gateway/GatewayResolver.kt:142-158 | decoding an encoding gives back the bytes, for every byte string that fits |
| AbiString.AndroidTextRoundTrip | android/app/src/main/kotlin/com/TheVoteApp/data/gateway/GatewayResolver.kt:142-158 | a text comes back exactly if it is ASCII |
| AbiString.AndroidEncodesSpec | android/app/src/main/kotlin/com/TheVoteApp/data/gateway/GatewayResolver.kt:142-148 | the encoding is that of the ABI exactly for 1 to 32 bytes and for whole words |
| AbiString.DecodersReadSpec | ios/VoteGlobal/Data/Gateway/GatewayResolver.swift:122-144 | both decoders read what the ABI prescribes; iOS answers nil for the empty string |
| GatewayAnswers.AnswersDecode | ios/VoteGlobal/Data/Gateway/GatewayResolver.swift:80-144 | both decoders read "0x" and what the ABI prescribes, as eth_call answers it |
| GatewayAnswers.PrefixIsIgnored | android/app/src/main/kotlin/com/TheVoteApp/data/gateway/GatewayResolver.kt:150-158 | for every text without the prefix both decoders answer the same with it and without |
| GatewayAnswers.CaseIsIgnored | android/app/src/main/kotlin/com/TheVoteApp/data/gateway/GatewayResolver.kt:150-158 | upper and lower case digits decode alike |
| GatewayAnswers.AnyOffsetDecodes | android/app/src/main/kotlin/com/TheVoteApp/data/gateway/GatewayResolver.kt:150-158 | the string is found wherever the offset says |
| GatewayAnswers.TruncatedAnswersFail | ios/VoteGlobal/Data/Gateway/GatewayResolver.swift:122-144 | every answer cut off within its data gives null and nil |
| GatewayAnswers.WildOffsets | ios/VoteGlobal/Data/Gateway/GatewayResolver.swift:125-128 | an offset beyond the end gives null and nil, except that iOS traps exactly if its double overflows |
| GatewayAnswers.NegativeOffsetTraps | ios/VoteGlobal/Data/Gateway/GatewayResolver.swift:125-129 | a negative offset traps on iOS; on Android it gives null unless its double wraps around |
| GatewayAnswers.BadFieldFails | ios/VoteGlobal/Data/Gateway/GatewayResolver.swift:125-127 | an offset with a character that is no digit gives null and nil |
| GatewayAnswers.AppsAgreeExactly | android/app/src/main/kotlin/com/TheVoteApp/data/gateway/GatewayResolver.kt:155-156 | for every data both apps give the same text exactly if each pair of characters is a number that is not negative |
| GatewayAnswers.NegativePair | android/app/src/main/kotlin/com/TheVoteApp/data/gateway/GatewayResolver.kt:156-156 | a pair with a minus sign is a code unit just below 65536 on Android and skipped on iOS |
| AbiString.IosRoundTripFails | ios/VoteGlobal/Data/Gateway/GatewayResolver.swift:113-144 | decoding what iOS encodes is nil, for every string |

## Left out

- TallyAuthority.FinaliseOption: the service's clock check, the proof of decryption, which is a placeholder in the source, and the wait for the receipt are not part of it.
- Instances.BabyJubJubConstants: does not show that p is prime, that d is a non-square or what order G has.
- ServiceArithmetic.BjjScalarMul: coordinates of p or more, as the contract could hold for a ballot that no witness backs, are not covered; nor are they in `Bsgs`, `ComputeT` and `BjjNeg`.
- VoteCircuit.CircuitSound: the circomlib templates (Num2Bits_strict, BabyPbkBits, EscalarMulAny, Mux1, BabyAdd) stand for what they compute; the placeholder table at lines 58-63 is taken as the base point.
- Eligibility.CircuitSound: no hash from pairs of residues to residues is injective, so injectivity is asked only of the finitely many pairs that the witness and the tree hash.
- Recount.TallyService.GetTally: one call runs to its end; two calls that miss the cache at once are two such calls.
- Recount.AuditPolicy: option names that every JavaScript object inherits would start from a non-number; options are numbers here, so that case does not arise.
- Recount.CountEvents: an option with an inherited JavaScript property name counts as unknown; the stray property it sets on the tally is not modelled. The same holds for the live tally.
- Registration.OneDocumentOneVoter: has the two conditions that `LostReceiptIsUnsafe` and `SharedPairIsUnsafe` show to be needed; the store keeps its contents, and nobody but the handler uses it.
- RateLimit.WindowBound: speaks of the requests that Redis judges; requests let through because Redis is down are not bounded by the source either. Assumes one clock for the servers and Redis, and members that differ.
- LiveTally.LiveTallyService.StartFrom: events delivered while the catch-up is being read are not interleaved with it.
- The maps keyed by "x,y" strings in the discrete logarithm search are keyed by points; Math.sqrt is the exact integer root.
- Unbounded counters: no uint256 counter or array length can overflow in practice, and gas is not modelled.
- Event shapes: the services read (policy, nullifier, option, block) from events; the contract emits (poll, nullifier, option) and the block comes with the log. Both are the record `VoteEvent`.
- The public signals of `castVote` are not tied to the nullifier or the poll by the contract, so no bound on votes by registered voters is stated.
- Menu texts, receipts, labels and the 90-second refresh of feature-phone sessions; an expiry can happen at any step instead.
- parseInt, SHA-256, keccak256 and Poseidon are parameters.
- PauseGuardian's guardianCount, which no function reads, and ownership of the target: a target the guardian does not own refuses every call.
- Reconnection, logging, HTTP status codes, event topics, Redis persistence and the cache of ciphertext snapshots.
- OpenZeppelin contracts: roles, ownership and pausing are conditions on the calls; upgrades, governance and tokens are not modelled.
- The cross-chain relay, whose receiving call the ledger does not define.
- FIDO2, OIDC, the document adapters, snarkjs, encryption of receipts, IPFS, notifications and the user interfaces: foreign code and I/O.
- The audit log, the policy registry, pagination and the anonymity service: their properties would be easy members.
