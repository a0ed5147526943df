# Verification of the data room's core

A Dafny model of the parts of the zero-knowledge data room whose correctness is mathematical, with proofs of what
they promise. `dafny verify dfyconfig.toml` checks the whole project.

## What is modelled

- **The key committee** (`Gf256`, `Polynomials`, `Lagrange`, `Shamir`, `ShamirTheorems`, `ShareSealing`,
  `KeyRecovery`, `Keyper`, `CommitteeRotation`, `DocumentOpening`). The byte arithmetic of the field of section 4.2 of
  FIPS 197, Shamir split and reconstruction, ECIES sealing of shares, commitment-gated recovery of the document key, one
  keeper's store and endpoints, the deal, anchor and rotate protocol over n keepers as an interleaving of atomic steps,
  and the opening of a document as a reader's steps among them: the chain read and every keeper's answer happen at their
  own time.
- **Merkle structures** (`Merkle`, `SparseTree`, `DenyList`, `ProofJobs`, `RequirementId`). The sparse trees of enrolled
  members and of qualifying locks, the indexed deny-list tree, and the jobs built from them. Tree depth is a parameter. A
  digest is a free constructor per hash tag, so distinct preimages have distinct digests; a stored 32-byte value is a
  constructor of its own.
- **Enrolment** (`EligibleStore`, `EnrolDesk`). The eligible lists and everything that changes them or the pending join
  requests: requests, direct registration, approval one by one and in batches, and rejection, in any order.
- **The qualifying-set indexer** (`QualifyingSet`), over an arbitrary ledger of lock records.
- **Concurrent machines** (`BatchQueue`, `Gateway`, `ClaimQueue`). Each is a state with one event per section that runs
  without an `await` or under the lock; the theorems hold for every run of events. The store operations themselves are
  methods of classes; the gateway's table carries the machine state as a ghost field, and each method is one event of it.
- **The sliding-window limiter** (`RateLimiter`) and **the shuffle** (`Shuffle`).

SHA-256 and X25519 are parameters (`ShareSealing.Crypto`) with the laws that are used of them: output lengths, and the
agreement law of section 6.1 of RFC 7748 (`Lawful`). Ed25519 is a parameter too (`ProofJobs.Signer`): lengths, and that
an honest signature verifies. Where a result needs collision-freeness it says so: on 32-byte keys
(`KeyRecovery.CollisionFree`), or as an explicit collision among the possible outcomes (`TagBinds`). Random draws,
clocks, ephemeral keys, network answers, chain reads and the outcomes of relay submissions are inputs or events.

## Where the code does less than a reader might expect

Each of these is a theorem below; the model follows the code.

- The pair search is described as robust to one bad share (`backend/src/committee.ts:134-140`). A share that repeats
  another share's index makes the reconstruction throw, which ends the search before later pairs are tried
  (`DuplicateStopsSearch`). `RecoversExactlyWhen` gives the exact condition; for distinct indices in 1..255 it is what
  the comment says (`UsualRecoversWhen`, `RobustRecovery`).
- The committee threshold is a setting (`backend/src/server.ts:159`), the pair search is not. On shares of a dealing with
  any threshold it succeeds exactly when the dealing's slopes at some two points agree (`AnyThresholdRecoversWhen`); at
  threshold 3 that takes a quadratic vector of all zeros, whatever number of shares is offered
  (`ThresholdThreeRecoversWhen`).
- Two rotations of one document that overlap can leave the anchored key unrecoverable from every keeper together
  (`OverlappingRotationsLose`, and as a run from nothing `LostFromScratch`). After a completed attempt whose own deal was
  the last to reach every keeper, every pair opens (`CompletedAttemptOpens`). In general, beside a keeper it reached last,
  another keeper opens the document exactly when the deal that reached that one last carried the same share
  (`DeliveriesDecide`, from the pair law `PairOpensExactlyWhen`); `EveryPairOpensExactlyWhen` covers all states.
- No overlap is needed to lose it: a single seal or rotation whose deals all arrive and whose chain call then fails leaves
  the old anchor over shares of another key, and no set of answers opens the document (`FailedAnchorLoses`).
- The opener reads the commitment first and then waits for each keeper (`backend/src/server.ts:3407-3422`). A rotation that
  completes in between makes it fail although the document opens through every pair before and after
  (`RotationDuringOpeningFails`); it never yields another key (`OnlyTheKeyRead`), and `FinishesExactlyWhen` says exactly
  when it succeeds. Of two answers, one of them given by a keeper that held the read attempt's share, the pair opens if and
  only if the other keeper held it too when it answered (`TwoAnswersOpenExactlyWhen`).
- Join requests are meant to be decided by the owner, but `/dataroom/membership/register`
  (`backend/src/server.ts:2029-2069`) enrols any commitment in any room with neither request nor approval
  (`RegisteredUnasked`); who can be enrolled at all is `WhoGetsIn`. It also leaves a request of that commitment pending.
  Nobody is ever enrolled and pending at once if and only if no registration meets a pending commitment while the list has
  room (`AlwaysDisjointExactlyWhen`); afterwards only an approval by name or a rejection takes the request away
  (`BothExactlyWhen`, `StuckUntilCleared`), because approve-all skips whoever is enrolled and removes only the requests of
  those it added (`ApproveAllMeans`, `NobodyLeftExactlyWhen`, and as a run `RegisteredStaysPending`).
- The SDK's share opening has no index check: an index changed by a multiple of 256 still opens as faithful there, and
  is refused by the backend's copy (`CopiesAgree`, `SdkAliasesIndex`).
- The all-zero subject is on no list and still has no non-membership witness (`ProvableExactlyWhen`).
- The member tree's empty slot is a commitment, so the all-zero identity opens every member tree that is not full
  (`WhoOpensMemberTree`, `AcceptedMeans`). Any 32 bytes can be enrolled (`backend/src/server.ts:2170-2171`), a node digest
  included; what keeps strangers out is the pinned path length (`prover/gateway/gateway.py:30`), and without it they would
  get in (`LongerPathLetsStrangersIn`).
- The scan stops at a whole batch window, counted from id 1, in which no id is a lock. It equals the filter up to the cap
  exactly when no such window lies before the first lock of any qualifying commitment (`ScanIsFilterExactlyWhen`); an empty
  window 9..16 loses lock 17 (`EmptyWindowLoses`), while eight missing ids that straddle two windows lose nothing
  (`StraddlingGapHarmless`). On a ledger without gaps the scan is complete (`ScanIsFilter`), and lock ids are documented
  to be sequential (`backend/src/tier.ts:166-174`). The code can still see a gap there: a failed read whose message matches
  /contract/ counts as a missing lock (`backend/src/tier.ts:158-160`, `:210-212`), so eight such failures in one window
  publish a short set instead of an error.
- A worker's bundle that lands after the fallback thread marked the job, and before that thread reads the inputs, is
  reported done and then error (`LateResultOverwritten`, `StaleClaimIsMarked`); the bundle itself stays. `StepMonotone`
  says exactly which steps take a job out of done.

## Model

| member | source | states |
|---|---|---|
| Gf256.MulIsCarrylessModulo | backend/src/shamir.ts:21-34 | The result of `gmul` is the one byte that differs from the plain carry-less product by a multiple of 0x11b |
| Gf256.MulComm | backend/src/shamir.ts:21-34 | Multiplication commutes on all bytes |
| Gf256.MulAssoc | backend/src/shamir.ts:21-34 | Multiplication associates on all bytes |
| Gf256.MulAddLeft | backend/src/shamir.ts:21-34 | Multiplication distributes over xor on the left |
| Gf256.MulAddRight | backend/src/shamir.ts:21-34 | Multiplication distributes over xor on the right |
| Gf256.MulReduction | backend/src/shamir.ts:28-30 | Folding x^8 into 0x1b is multiplication by x, whatever byte it meets |
| Gf256.ZeroOneMul | backend/src/shamir.ts:21-34 | 1 is the unit and 0 absorbs |
| Gf256.Idempotent | backend/src/shamir.ts:36-37 | Only 0 and 1 equal their own square |
| Gf256.SquaresEight | backend/src/shamir.ts:36-37 | Squaring a byte eight times gives it back |
| Gf256.InvMul | backend/src/shamir.ts:36-49 | The 254th power of every non-zero byte is its multiplicative inverse |
| Gf256.PowSquare | backend/src/shamir.ts:51-62 | Squaring the base doubles the exponent, the law the power loop relies on |
| Shamir.GMul | backend/src/shamir.ts:22-34 | The shift-and-xor loop computes the field product |
| Shamir.GPow | backend/src/shamir.ts:52-62 | Square-and-multiply is the e-fold product, for every exponent |
| Shamir.GInv | backend/src/shamir.ts:37-49 | Zero is an error; otherwise the result times the input is 1 |
| Polynomials.Divide | backend/src/shamir.ts:111-116 | Factor theorem: P(x) differs from P(a) by (x + a) times the quotient's value |
| Polynomials.RootBound | backend/src/shamir.ts:3-4 | A polynomial with no more coefficients than distinct roots is zero |
| Polynomials.SameValues | backend/src/shamir.ts:3-4 | Values at as many distinct points as coefficients determine a polynomial |
| Polynomials.InterpolateMeets | backend/src/shamir.ts:3-4 | Through any values at distinct points passes a polynomial with that many coefficients |
| Lagrange.Unity | backend/src/shamir.ts:111-116 | The Lagrange basis at zero sums to one, for any distinct points |
| Lagrange.AtZeroIsConstant | backend/src/shamir.ts:111-116 | The Lagrange combination at zero of a polynomial's values is its value at zero |
| Shamir.SetSize | backend/src/shamir.ts:87 | A set built from a list has the list's length exactly when nothing repeats |
| Shamir.PowerSumIsEval | backend/src/shamir.ts:100-105 | The dealer's sum of powers is the polynomial's value |
| Shamir.ShareByte | backend/src/shamir.ts:100-105 | One share byte is the value at x of the polynomial whose constant term is the secret byte |
| Shamir.PickCoefficients | backend/src/shamir.ts:91-97 | Vector d is the supplied one where there is one, and random draw d otherwise; any supplied vector of another length is an error |
| Shamir.ShamirSplit | backend/src/shamir.ts:76-109 | The result is the split's specification, random draws included; what that deals is said by `Shamir.SplitBytes`, what it hides by `ShamirTheorems.SplitSecrecy` |
| Shamir.SplitAccepts | backend/src/shamir.ts:82-97 | Accepted are exactly 1 <= t <= n <= 255, n distinct points of 1..255, and supplied vectors of the secret's length |
| Shamir.SplitBytes | backend/src/shamir.ts:91-107 | Byte j of share i is the value, at its point, of the polynomial of secret byte j and byte j of the supplied vectors and then of the draws |
| Shamir.ReconstructErrorNone | backend/src/shamir.ts:117-126 | Accepted are exactly the non-empty share lists of one length at distinct points of 1..255 |
| Shamir.ReconstructErrorMeans | backend/src/shamir.ts:117-126 | A refused list is told about its first bad share, the length before the point, and about repeated points only when no share is bad |
| Shamir.BasisAtZero | backend/src/shamir.ts:131-138 | The product loop is the Lagrange basis value at zero of the k-th point |
| Shamir.ReconstructByte | backend/src/shamir.ts:128-140 | The double loop is the interpolating polynomial's value at zero |
| Shamir.ShamirReconstruct | backend/src/shamir.ts:117-144 | Malformed lists give their first error; all others give the bytes their interpolating polynomials have at zero |
| ShamirTheorems.ThresholdRecovers | backend/src/shamir.ts:70-75 | Any t or more shares of one dealing, at distinct points, determine exactly the secret, for every length, t and coefficients |
| ShamirTheorems.PickedRecovers | backend/src/shamir.ts:70-75 | Any selection of t or more of a split's shares, in any order, determines the secret |
| ShamirTheorems.SplitThenReconstruct | sdk/src/committee.ts:67-134 | Split, keep any t or more shares, reconstruct: the secret comes back, for all accepted inputs |
| ShamirTheorems.EverySecretFits | backend/src/shamir.ts:3-4 | Any values at t - 1 points are shares of any secret of that length |
| ShamirTheorems.FitIsUnique | backend/src/shamir.ts:3-4 | At most one choice of coefficients makes t - 1 given shares fit a given secret |
| ShamirTheorems.PerfectSecrecy | backend/src/shamir.ts:3-4 | t - 1 shares fit every secret of their length in exactly one way, so they rule out and favour none |
| ShamirTheorems.SplitSecrecy | backend/src/shamir.ts:91-97 | With nothing supplied, whatever the secret and whatever bytes are seen at t - 1 points, exactly one choice of the first t - 1 random draws makes the split deal them |
| ShamirTheorems.PairMeetsExactlyWhen | backend/src/shamir.ts:111-116 | Two shares of a dealing with any threshold determine its secret if and only if its slopes at their points agree in every byte |
| ShamirTheorems.ThreeNeedsThree | backend/src/shamir.ts:70-75 | At threshold 3 that is the case for no two points, or for all when the quadratic vector is zero |
| ShareSealing.ShareEciesSeal | backend/src/committee.ts:72-89 | Lengths are checked before the index; the seal carries the masked share and the tag over all it binds |
| ShareSealing.ShareEciesOpen | keyper/src/share-ecies.ts:81-99 | Wrong lengths and indices outside 1..255 are errors; otherwise the unmasked share and whether its tag matches |
| ShareSealing.SealShare | sdk/src/committee.ts:209-236 | The SDK seals to the same value as the backend, checking the index first |
| ShareSealing.OpenShare | sdk/src/committee.ts:176-201 | The SDK opens to the same share and verdict, without the index check |
| ShareSealing.SealThenOpen | sdk/src/committee.ts:203-208 | The recipient key's holder gets the share back, flagged faithful, from every copy of the code |
| ShareSealing.CopiesAgree | keyper/src/share-ecies.ts:80-99 | The copies give one answer exactly when a length is wrong or the index lies in 1..255 |
| ShareSealing.SdkAliasesIndex | sdk/src/committee.ts:153-155 | A relabelled index equal modulo 256 opens faithfully in the SDK and is refused elsewhere |
| ShareSealing.TagMessageInjective | backend/src/committee.ts:46-58 | The tag's preimage determines index, share, room, document and recipient |
| ShareSealing.TagBinds | backend/src/committee.ts:97-102 | Whatever opens faithfully under a sealed share's tag is that share in that context, or exhibits a hash collision |
| ShareSealing.SameMask | backend/src/committee.ts:41-44 | Two masks are equal if and only if shared secret and ephemeral key are, or a hash collision is exhibited |
| ShareSealing.SameCiphertextExactlyWhen | backend/src/committee.ts:72-89 | Two seals of one share have one ciphertext if and only if their derived secrets and ephemeral keys agree, collisions apart |
| ShareSealing.OpensExactlyWhen | keyper/src/share-ecies.ts:81-99 | Opening a sealed ciphertext yields the share if and only if it derives the sealer's secret under the sealer's ephemeral key, collisions apart, whatever else the record says |
| ShareSealing.AcceptsExactlyWhen | keyper/src/share-ecies.ts:81-99 | The keeper opens exactly the records of right lengths with an index in 1..255, the SDK those of right lengths |
| KeyRecovery.ReconstructWithCommitment | backend/src/committee.ts:141-158 | The nested loops return the first matching pair in order, or the error of the first malformed pair before it |
| KeyRecovery.SdkReconstructWithCommitment | sdk/src/committee.ts:247-265 | The SDK's search is the same search over the shares flagged faithful |
| KeyRecovery.UsableMeans | sdk/src/committee.ts:247-265 | The shares the SDK uses are exactly the faithful openings, in order |
| KeyRecovery.FaithfulPairRecovers | sdk/src/committee.ts:247-265 | Two honest openings yield exactly the committed key, whatever unfaithful openings come along |
| KeyRecovery.RecoversExactlyWhen | backend/src/committee.ts:148-157 | Recovery succeeds if and only if some pair matches and every pair tried before it is well formed |
| KeyRecovery.RecoveredKeyMatches | backend/src/committee.ts:134-140 | Every key returned hashes to the commitment, whatever shares went in |
| KeyRecovery.DuplicateStopsSearch | backend/src/shamir.ts:124-126 | Two shares at one index at the front end the search, even when an honest pair follows |
| KeyRecovery.UsualRecoversWhen | backend/src/committee.ts:134-140 | For distinct indices in 1..255, recovery succeeds if and only if some pair matches |
| KeyRecovery.OnlyTheCommittedKey | backend/src/committee.ts:134-140 | No key but the committed one comes out, whatever the shares are |
| KeyRecovery.RobustRecovery | backend/src/committee.ts:134-140 | Two honest shares among any others at distinct indices yield exactly the committed key |
| KeyRecovery.AnyThresholdRecoversWhen | backend/src/server.ts:159 | On shares of a dealing with any threshold the pair search succeeds if and only if the slopes at some two of their points agree |
| KeyRecovery.ThresholdThreeRecoversWhen | backend/src/server.ts:159 | At threshold 3 it succeeds if and only if the dealer's quadratic vector is zero, however many shares are offered |
| Keyper.Keeper.Put | keyper/src/store.ts:31-37 | Well-formed shares overwrite the document's entry and no other; malformed ones change nothing |
| Keyper.Keeper.Deal | keyper/src/keyper.ts:108-149 | No token refuses everything; then bearer, ids, index and payload decide; only a stored reply changes the store, to the opened share |
| Keyper.Keeper.Release | keyper/src/keyper.ts:153-196 | The first failing check decides the refusal, a failed chain read or seal included, and a release seals the stored share to the recorded key |
| Keyper.Keeper.ReleaseReply | keyper/src/keyper.ts:151-191 | A share leaves if and only if the limiter lets the call pass, the document is held, the accessor admitted and a 32-byte recipient key recorded |
| Keyper.DealtExactlyWhen | keyper/src/keyper.ts:120-142 | A raw share is stored as it is; a sealed one as it unmasks under the keeper's secret, and only if its tag is over that share for this keeper, room and document |
| Keyper.SealedDealBinds | keyper/src/keyper.ts:129-137 | A deal accepted under a dealer's tag stores the share that dealer sealed, for this keeper, room and document, or exhibits a collision |
| Keyper.DealDelivers | keyper/src/keyper.ts:120-137 | A share sealed to this keeper's key is accepted and stored as dealt |
| Keyper.DealAndRelease | keyper/src/keyper.ts:106-196 | One keeper's leg: what the recipient opens is the dealt share, faithful, under the keeper's index |
| Keyper.ReleaseKey | sdk/src/committee.ts:203-265 | End to end: split, deal to two keepers, release, open and recover give K and the two indices |
| CommitteeRotation.StepValid | backend/src/server.ts:4147-4178 | In every step each keeper holds nothing or a share of some attempt, and anchors name real attempts |
| CommitteeRotation.Initial | backend/src/server.ts:3060-3065 | Before anything is sealed the invariant of all runs holds |
| CommitteeRotation.OpensOnlyTheAnchoredKey | backend/src/server.ts:4136-4178 | Over every run of seals, rotations, deliveries, losses and retries, the stores of one moment yield the key anchored then or nothing |
| CommitteeRotation.TwoHoldersOpen | backend/src/server.ts:4166-4169 | Two holders of the anchored attempt's shares among any keepers open the document from the stores of that moment, whatever the rest hold |
| CommitteeRotation.LastDeliveryHeld | keyper/src/store.ts:31-37 | A run leaves every keeper with the share of the attempt whose deal reached it last |
| CommitteeRotation.AckedWasAnswered | backend/src/server.ts:4149-4165 | Over every run a deal counts as acknowledged if and only if its delivery was answered in time |
| CommitteeRotation.AnchorWaitsForAll | backend/src/server.ts:3093-3106 | Over every run from nothing, a commitment can go to the chain only after all n keepers answered its deal in time |
| CommitteeRotation.CompletedAttemptOpens | backend/src/server.ts:4147-4178 | After an attempt that all n keepers acknowledged and whose deal reached each of them last, any two or more open it, whatever other deals arrived earlier |
| CommitteeRotation.UninterruptedAttemptOpens | backend/src/server.ts:4147-4178 | In particular when no other attempt's deal arrives meanwhile |
| CommitteeRotation.PairOpensExactlyWhen | backend/src/server.ts:4166-4169 | When one of two keepers holds the anchored attempt's share, the pair opens if and only if the other does too |
| CommitteeRotation.DeliveriesDecide | backend/src/server.ts:4166-4169 | After a completed attempt that reached keeper h last, a pair with h opens if and only if the other keeper's last deal carried the attempt's share, and every pair if and only if all did |
| CommitteeRotation.PartialRedealsTolerated | backend/src/server.ts:4165-4173 | However many re-deals fail, two holders they did not reach still open the document |
| CommitteeRotation.EveryPairOpensExactlyWhen | backend/src/server.ts:4166-4169 | Every pair of keepers opens the document if and only if all hold one dealing of the anchored key |
| CommitteeRotation.OverwrittenIsLost | backend/src/server.ts:4166-4169 | When all keepers hold another attempt's shares, no set of answers opens the document |
| CommitteeRotation.OverlappingRotationsLose | backend/src/server.ts:4122-4178 | From any sealed document, two overlapping rotations can both complete and leave it unopenable |
| CommitteeRotation.FailedAnchorLoses | backend/src/server.ts:4147-4178 | One seal or rotation, all of whose deals arrive, loses any sealed document when the chain call after them fails |
| CommitteeRotation.LostFromScratch | backend/src/server.ts:3060-3106 | A whole run from nothing that seals a document and ends with nobody able to open it |
| DocumentOpening.OnlyTheKeyRead | backend/src/server.ts:3406-3436 | Over every run, rotations during the collection included, only the key anchored when the commitment was read comes out |
| DocumentOpening.FinishesExactlyWhen | backend/src/server.ts:3427-3436 | An opening succeeds if and only if some two of its answers, whenever given, are of one dealing of the key read |
| DocumentOpening.HoldersAtAnswerOpen | backend/src/server.ts:2988-3018 | Two keepers that held the read attempt's shares when each of them answered are enough, whatever happens between and after |
| DocumentOpening.AnswersMatchExactlyWhen | backend/src/server.ts:3427-3436 | Beside one answer of the read attempt, a pair of answers gives the key if and only if the other is of that attempt too |
| DocumentOpening.TwoAnswersOpenExactlyWhen | backend/src/server.ts:3406-3436 | On two answers, one of them given by a holder of the read attempt's share, the opening succeeds if and only if both keepers held it when they answered, whatever happened between |
| DocumentOpening.RotationDuringOpeningFails | backend/src/server.ts:3407-3422 | A rotation between the chain read and the answers can fail an opening of a document that opens before and after |
| Merkle.RootIsFullHash | backend/src/membership.ts:75-79 | The root is the hash, by halves, of the whole list padded with empty leaves |
| Merkle.EmptyPastOccupied | backend/src/tier.ts:108-109 | Nodes past the occupied prefix are exactly the empty-subtree hashes |
| Merkle.WitnessFolds | backend/scripts/bp5-tier-selftest.ts:57-65 | The sibling path of every slot, occupied or not, folds to the root |
| Merkle.FoldBinds | backend/scripts/bp5-tier-selftest.ts:57-65 | A path that folds to a tree node starts at the tree's own node and consists of its own siblings |
| Merkle.OpeningMeans | backend/src/denylist.ts:9-16 | A path of any length that folds a leaf to the root has the tree's depth and opens the leaf at its index |
| SparseTree.ZeroSubtrees | backend/src/membership.ts:68-73 | Entry k is the hash of an empty subtree of height k |
| SparseTree.NextLevel | backend/src/tier.ts:103-114 | Hashing the parents of one level's occupied nodes gives exactly the next level's occupied nodes |
| SparseTree.BuildSparseTree | backend/src/tier.ts:95-126 | A leaf that is not 32 bytes is an error; otherwise the root and every stored node are those of the complete tree |
| SparseTree.Witness | backend/src/tier.ts:117-125 | The witness is the complete tree's sibling path of that slot |
| SparseTree.BuildEligibleTree | backend/src/membership.ts:80-110 | The member tree satisfies the same specification at depth 20 with the member empty leaf |
| SparseTree.WhoOpensMemberTree | backend/src/membership.ts:66 | Over paths of the tree's depth an identity opens the tree if and only if it is enrolled, or it is all-zero and a slot is free, whatever 32 bytes were enrolled |
| SparseTree.LongerPathLetsStrangersIn | prover/gateway/gateway.py:30 | In any list, at any depth and slot, an enrolled node digest over an identity's leaf lets that identity fold to the root with a path one longer, and with no path of the right length |
| DenyList.CmpBE | backend/src/denylist.ts:52-57 | The byte-wise comparison is numeric order of big-endian values |
| DenyList.DedupSortBE | backend/src/denylist.ts:70-81 | Strictly increasing with exactly the given members; else the first bad value's error |
| DenyList.BracketUnique | backend/src/denylist.ts:9-11 | At most one leaf brackets a subject |
| DenyList.BracketExists | backend/src/denylist.ts:98-100 | Every non-zero subject off the list is bracketed by some leaf |
| DenyList.LinksAgree | backend/src/denylist.ts:98-115 | Each leaf's next index is the leaf holding its next value, one further on; only the last leaf has the end marker and points to the head |
| DenyList.WitnessSound | backend/src/denylist.ts:9-16 | Any leaf, index and path of any length that folds to the root and brackets x is the tree's leaf, and x is not listed |
| DenyList.WitnessComplete | backend/src/denylist.ts:166-184 | The bracketing leaf with the tree's own path is accepted |
| DenyList.ProvableExactlyWhen | backend/src/denylist.ts:9-16 | A subject has an accepted witness if and only if it is off the list and not zero |
| DenyList.DenyTree.constructor | backend/src/denylist.ts:91-136 | The linked leaves, the node map and the root are those of the complete tree over the list |
| DenyList.DenyTree.LinkLeaves | backend/src/denylist.ts:98-115 | The leaves are the head sentinel and every value, each linked to its successor, the last to the end marker |
| DenyList.DenyTree.FillLevels | backend/src/denylist.ts:124-134 | Every level holds exactly its occupied prefix, with the complete tree's hashes |
| DenyList.DenyTree.IsMember | backend/src/denylist.ts:150-152 | True exactly for listed values |
| DenyList.DenyTree.LowLeafIndex | backend/src/denylist.ts:154-164 | A bracketing leaf's index, or an error when no leaf brackets |
| DenyList.DenyTree.NonMembershipWitness | backend/src/denylist.ts:171-184 | Succeeds exactly for 32-byte non-zero subjects off the list, and what it returns is accepted against the root |
| DenyList.CreateDenyTree | backend/src/denylist.ts:91-96 | Succeeds exactly for depth 1..32, fewer than 2^depth entries and acceptable values; its list has the given members |
| QualifyingSet.FilteredMeans | backend/src/tier.ts:160-169 | The set is in id order, holds only first qualifying ids, and misses no qualifying commitment |
| QualifyingSet.FilteredFields | backend/src/tier.ts:190-210 | In the locks' own fields: every entry is an unreleased, irrevocable bond still locked, of the token, amount and deadline required, with a non-zero commitment, and every such bond of the ids has its commitment in the set |
| QualifyingSet.ScanBatch | backend/src/tier.ts:183-216 | One batch extends the filtered set to its last id and reports whether anything was found or failed |
| QualifyingSet.BuildQualSet | backend/src/tier.ts:176-225 | A failed read publishes nothing; otherwise no read failed, every published entry meets each condition in its lock's own fields, every lock read that meets them has its commitment published, and the root is theirs |
| QualifyingSet.ScanIsFilter | backend/src/bond.ts:171-222 | Without id gaps the batched scan is the filter of ids 1..min(m, cap), for every batch size |
| QualifyingSet.ReachesFromStart | backend/src/tier.ts:180-217 | The scan gets to an id if and only if no window that ends before it is without a lock |
| QualifyingSet.FoundExactlyWhenReached | backend/src/tier.ts:180-217 | The first lock of a commitment makes the set if and only if no whole empty batch window lies before it |
| QualifyingSet.ScanIsFilterExactlyWhen | backend/src/tier.ts:166-174 | The scan equals the filter up to the cap if and only if no lock that counts has an empty window before it |
| QualifyingSet.EmptyWindowLoses | backend/src/tier.ts:217 | With the source's batch and cap, an empty window 9..16 loses the qualifying lock 17 |
| QualifyingSet.StraddlingGapHarmless | backend/src/tier.ts:217 | Eight missing ids that straddle two windows lose nothing |
| QualifyingSet.WeakerKeeps | backend/src/tier.ts:76-82 | Weakening the amount or the deadline never loses a commitment |
| ProofJobs.BuildJob | backend/src/tier.ts:233-303 | The first failing check decides the error; every job built passes all guest checks, consent and nullifier included, against the live member and qualifying roots |
| ProofJobs.JobBuiltExactlyWhen | backend/src/tier.ts:233-303 | A job is built if and only if nothing failed in the scan, the identity is enrolled where it says, and its commitment is one of at least the floor's number of different qualifying ones |
| ProofJobs.ConsentInjective | backend/src/tier.ts:128-136 | A consent covers one context and one accessor, and none of the tier is one of the bond |
| ProofJobs.BuildBondJob | backend/src/bond.ts:231-308 | As for the tier, with a non-positive amount refused right after the index check, and the context is the id of the requirement scanned for |
| ProofJobs.ReqIdBinds | backend/src/bond.ts:107-114 | Within the encoding's widths, requirements with one id are the same requirement, or exhibit a hash collision |
| RequirementId.EncodeBigEndian | backend/src/bond.ts:84-105 | The byte loop writes the masked value in exactly its width, most significant byte first |
| RequirementId.SamePreimageExactlyWhen | backend/src/bond.ts:107-114 | Two requirements are encoded alike if and only if tokens agree and amounts and deadlines agree up to the wrap of 16 and 8 bytes |
| RequirementId.PreimageInjective | backend/src/bond.ts:107-114 | Within those widths the encoding determines the requirement |
| ProofJobs.BuildMembershipJob | backend/src/membership.ts:130-196 | The first failing check decides the error, a consent that does not verify included; a job built passes all guest checks against the room's root |
| ProofJobs.MembershipBuiltExactlyWhen | backend/src/membership.ts:130-196 | A membership job is built if and only if lengths are right, the identity is enrolled where it says, and a consent verifies or a seed is given |
| ProofJobs.MembershipAcceptedMeans | backend/src/membership.ts:112-123 | What is accepted against a room's root comes from an enrolled identity (or the all-zero one), with a consent over that room, accessor and recipient, and one nullifier per identity and room |
| ProofJobs.AcceptedMeans | backend/src/tier.ts:227-232 | What is accepted comes from an enrolled identity (or the all-zero one, while a slot is free) owning an unreleased, irrevocable bond still locked, of the token, amount and deadline required, under a consent that verifies and the one nullifier of identity and context |
| Shuffle.FisherYates | backend/src/batch-queue-store.ts:180-186 | The in-place loop computes the shuffle that the draws define |
| Shuffle.ShuffledPermutes | backend/src/eligible-store.ts:77-84 | The outcome is a rearrangement of the input |
| Shuffle.ShuffledInjective | backend/src/batch-queue-store.ts:178-186 | On distinct elements, different draws give different orders |
| Shuffle.ShuffledSurjective | backend/src/batch-queue-store.ts:178-186 | Every order of any list comes from some draws |
| Shuffle.ShuffleIsBijection | backend/src/batch-queue-store.ts:178-186 | Every order of distinct elements comes from exactly one list of draws, so uniform draws give a uniform order |
| BatchQueue.NextFlushAt | backend/src/batch-queue-store.ts:82-87 | The boundary lies strictly after now and at most one window away |
| BatchQueue.WindowSharesBoundary | backend/src/batch-queue-store.ts:82-83 | A boundary is exactly the arrivals of one window's, so it reveals the window and not the arrival |
| BatchQueue.QueueStore.Enqueue | backend/src/batch-queue-store.ts:102-128 | A pair already queued gets its entry back and the store stays; otherwise one entry is appended, with the request, ticket and time handed in, the boundary of its window and no outcome |
| BatchQueue.QueueStore.MarkResult | backend/src/batch-queue-store.ts:167-176 | The ticket's entry is submitted with just the transaction hash, or failed with just the message, at that time; its other fields and all other entries stay, and an unknown ticket changes nothing |
| BatchQueue.QueueStore.QueuedCount | backend/src/batch-queue-store.ts:142-146 | The number of queued entries |
| BatchQueue.QueueStore.PurgeTerminal | backend/src/batch-queue-store.ts:150-164 | Exactly the aged terminal entries go, the rest keep their order, and the count says how many went |
| BatchQueue.PurgedKeeps | backend/src/batch-queue-store.ts:148-149 | No entry that is queued or young is ever purged |
| BatchQueue.PurgedExactlyWhen | backend/src/batch-queue-store.ts:150-164 | An entry survives a purge if and only if it is queued, or its outcome (or else its arrival) is no older than the limit |
| BatchQueue.QueuedByAgeMeans | backend/src/batch-queue-store.ts:134-139 | The snapshot holds exactly the queued tickets, oldest first |
| BatchQueue.QueueStore.Flush | backend/src/batch-queue-store.ts:195-217 | Undisturbed, the snapshot shuffled by the draws is submitted in order; every ticket's entry shows its own outcome and is otherwise as before, all other entries stay, the count is the number of batch tickets left submitted, and nothing is left queued |
| BatchQueue.SettleRecords | backend/src/batch-queue-store.ts:167-176 | In the step machine too, the entry at the relay shows exactly the answer, and every other field and entry stays |
| BatchQueue.EnqueueMeans | backend/src/batch-queue-store.ts:102-128 | A request is always taken; unless its room and nullifier are queued, it is queued with just what was handed in |
| BatchQueue.EnqueuedIsKept | backend/src/batch-queue-store.ts:102-128 | Over every run from its enqueueing, the entry under a ticket is the request handed in: room, accessor, nullifier, bundle and times |
| BatchQueue.UndisturbedFlush | backend/src/batch-queue-store.ts:195-217 | A flush can begin whenever something is queued and none runs; undisturbed, the machine ends with the very store the method computes, purged, having handed over the batch in its order |
| BatchQueue.NothingTwice | backend/src/server.ts:2773-2789 | Over every interleaving no ticket is handed to the relay twice and no (room, nullifier) is queued twice |
| BatchQueue.FlushCompletes | backend/src/batch-queue-store.ts:205-215 | A flush that ends has handed over its whole snapshot and left every entry of it terminal |
| BatchQueue.FlushCanFinish | backend/src/batch-queue-store.ts:205-215 | From every flushing state, whatever the relay answers to the rest, submitting and recording them one by one reaches the flush's end, with just those outcomes recorded and those entries handed over in order |
| BatchQueue.WaitingFlushCanFinish | backend/src/batch-queue-store.ts:205-215 | The same from a state in which an entry is with the relay |
| BatchQueue.MidFlushEntriesStay | backend/src/batch-queue-store.ts:166 | An entry outside the running flush's snapshot stays queued until the next flush begins |
| BatchQueue.QueuedStep | backend/src/batch-queue-store.ts:166-176 | An entry stops being queued if and only if its own ticket is settled |
| EligibleStore.Eligible.AddEligible | backend/src/eligible-store.ts:54-70 | Known commitments keep their index, full lists refuse, otherwise the new one goes last; no other room changes |
| EligibleStore.Eligible.AddEligibleBatch | backend/src/eligible-store.ts:102-134 | Accepted if and only if all new commitments fit; then the list has grown by just what the reply calls added, from its first index on, everybody handed in is in it, and added and skipped together are what was handed in; over capacity nothing changes |
| EligibleStore.ShuffleIsOrder | backend/src/eligible-store.ts:100-105 | The default shuffle is an admissible order, for any draws |
| EligibleStore.IndexOfAt | backend/src/eligible-store.ts:73-75 | In a list without duplicates a member's index is found again |
| EligibleStore.HistoryExtends | backend/src/server.ts:2362-2366 | Over every history of additions a list stays duplicate-free and within capacity, and only grows at its end |
| EligibleStore.HistoryAdmits | backend/src/eligible-store.ts:54-134 | Over every history, in a list are exactly those who were before, or were handed in for the room when it had a place for all new ones of that operation |
| EligibleStore.OnlyApproved | backend/src/eligible-store.ts:86-101 | Nobody is in a room's list whose commitment was not handed to the store for that room |
| EligibleStore.MembershipIsPermanent | backend/src/eligible-store.ts:98-99 | A member keeps its index for ever, and its rebuilt path opens every later root |
| EnrolDesk.ActValid | backend/src/server.ts:2166-2197 | Every request, registration, approval and rejection keeps lists and pending requests duplicate-free and within their caps, and no list loses or moves a member |
| EnrolDesk.ActedValid | backend/src/server.ts:2343-2426 | The same over every sequence of them |
| EnrolDesk.ListedExactlyWhen | backend/src/server.ts:2343-2426 | After an action in a list are exactly those before, whom it names if there is room, and in a batch everybody pending it asks for if all fit |
| EnrolDesk.WaitingExactlyWhen | backend/src/server.ts:2166-2197 | After an action pending are exactly those before that it neither rejects, nor approves by name, nor newly enrols as a batch, and who asks now while there is room |
| EnrolDesk.WhoGetsIn | backend/src/server.ts:2406-2413 | Whoever is enrolled by a run was approved by name, registered directly, or asked before a batch of that room; whoever is pending asked |
| EnrolDesk.BothExactlyWhen | backend/src/server.ts:2053-2053 | A commitment is enrolled and pending at once after an action if and only if it was and the action neither approves it by name nor rejects it, or a registration met it pending and found room |
| EnrolDesk.DisjointExactlyWhen | backend/src/server.ts:2029-2069 | From a desk where nobody is both, an action keeps it so if and only if it is no such registration |
| EnrolDesk.AlwaysDisjointExactlyWhen | backend/src/server.ts:2029-2069 | Over whole runs, nobody is ever both if and only if no registration collides |
| EnrolDesk.StuckUntilCleared | backend/src/server.ts:2412-2413 | The request of an enrolled commitment waits through every run without its approval by name or its rejection, whatever batches are approved |
| EnrolDesk.ApproveAllMeans | backend/src/server.ts:2406-2413 | Approving all enrols exactly the pending commitments not enrolled yet, in the chosen order, and leaves pending exactly those that were; with nobody pending or no room for all, it changes nothing |
| EnrolDesk.NobodyLeftExactlyWhen | backend/src/server.ts:2412-2413 | It leaves nobody pending if and only if nobody was, or all fit and none was enrolled already |
| EnrolDesk.RegisteredStaysPending | backend/src/server.ts:2029-2069 | Ask, be registered, approve all: enrolled, and pending still |
| EnrolDesk.RegisteredUnasked | backend/src/server.ts:2053-2053 | A registered commitment is enrolled though nobody asked for it or approved it |
| Gateway.StepMonotone | prover/gateway/gateway.py:200-223 | A job's rank never falls, its bundle is never dropped, and done ends exactly at a reported failure |
| Gateway.OnlyPurgeRemoves | prover/gateway/gateway.py:206-209 | A job disappears only when finished longer than the retention time ago |
| Gateway.PurgedExactlyWhen | prover/gateway/gateway.py:206-209 | A purge removes a job if and only if it finished longer than the retention time ago, and leaves the others as they are |
| Gateway.ReportRecorded | prover/gateway/gateway.py:457-468 | A reported proof becomes the bundle of a done job, a reported failure an error with its text beside the old bundle; nothing else touches bundle, error, inputs or end |
| Gateway.BundleWasReported | prover/gateway/gateway.py:217-223 | Over every run, a bundle that can be fetched was reported as a proof by a worker for that job or by the fallback |
| Gateway.FallbackSteps | prover/gateway/gateway.py:211-216 | A job queued too long, or claimed and unanswered too long, makes the resting fallback pick it or an older one |
| Gateway.UnclaimedIsPicked | prover/gateway/gateway.py:211-216 | Over every run from its submission, a job nobody took in FALLBACK_SECS makes the resting fallback pick it or an older one |
| Gateway.FallbackReadsSubmitted | prover/gateway/gateway.py:219 | Over every run from submission to the fallback's read, what it proves is what was submitted, unless the job was finished in between |
| Gateway.HandedOutOnce | prover/gateway/gateway.py:245-256 | Over every interleaving a job goes to a worker once at most and to the fallback once at most; finished means scrubbed and stamped |
| Gateway.RunMonotone | prover/gateway/gateway.py:200-223 | Over whole runs a job that is still there has at least its old rank, and its bundle if it had one |
| Gateway.InputsKept | prover/gateway/gateway.py:466-467 | While a job is unfinished its inputs are the submitted ones |
| Gateway.SubmittedIsHandedOut | prover/gateway/gateway.py:448-453 | Over every run from its submission, the worker that claims a job is handed exactly the submitted inputs, and no worker was before |
| Gateway.OldestUnique | prover/gateway/gateway.py:249 | The sorted scan has one answer: ties in creation time stay in insertion order |
| Gateway.LateResultOverwritten | prover/gateway/gateway.py:211-223 | A result between the fallback's marking and its reading turns done, then error, and the bundle stays |
| Gateway.StaleClaimIsMarked | prover/gateway/gateway.py:214-216 | That situation is reached by a worker that answers only after its claim went stale |
| Gateway.JobTable.NextJob | prover/gateway/gateway.py:248-256 | One claiming step of the machine on a queued job none is older than, whose inputs go out; no step when none is queued |
| Gateway.JobTable.PostResult | prover/gateway/gateway.py:457-468 | One result step of the machine for a known id, no step otherwise, so every run theorem covers it |
| Gateway.JobTable.PurgeFinished | prover/gateway/gateway.py:206-209 | One purge step of the machine: exactly the finished jobs past retention go |
| Gateway.JobTable.PickForFallback | prover/gateway/gateway.py:211-216 | One picking step of the machine, on a job queued for over FALLBACK_SECS or claimed for over CLAIM_TIMEOUT; no step when there is none |
| Gateway.JobTable.TakeInputs | prover/gateway/gateway.py:219 | The unlocked read is one step of the machine and sees whatever the inputs are by then |
| Gateway.JobTable.FinishFallback | prover/gateway/gateway.py:217-223 | One finishing step of the machine, whatever happened to the job meanwhile |
| Gateway.JobTable.Submit | prover/gateway/gateway.py:448-453 | A submission under a never used id is one step of the machine and keeps its invariant; what it means for the worker is `Gateway.SubmittedIsHandedOut` |
| RateLimiter.Limiter.RateLimited | backend/src/server.ts:2136-2155 | The call's hit is recorded on the pruned map, and the answer is whether the live hits exceed the maximum |
| RateLimiter.SweptMeans | backend/src/server.ts:2138-2142 | Sweeping loses no hit that can still count |
| RateLimiter.MapBounded | backend/src/server.ts:2130-2135 | After any run the map tracks at most MAX_IPS + 1 addresses, each once |
| RateLimiter.DecidesLikeReference | backend/src/server.ts:2136-2155 | With time not going back, an address never evicted for capacity is decided as by a limiter that forgets nothing |
| RateLimiter.ReferenceCounts | backend/src/server.ts:2151-2155 | That limiter refuses if and only if at least the maximum of the address's earlier calls lie in the window |
| RateLimiter.EvictedExactlyWhen | backend/src/server.ts:2143-2149 | An address is evicted if and only if calls of it still count and the pruned map has forgotten it |
| RateLimiter.PutOrder | backend/src/server.ts:2151-2153 | Recording a hit keeps a known address's place in insertion order and puts a new one last |
| RateLimiter.EvictsOldest | backend/src/server.ts:2144-2148 | Whoever is evicted was inserted before everybody who stays |
| RateLimiter.NobodyEvicted | backend/src/server.ts:2143-2149 | Nobody is evicted while no more than MAX_IPS addresses have calls that still count |
| RateLimiter.WindowNeverExceedsMax | backend/src/server.ts:2121-2128 | No window of the configured length holds more than the maximum of accepted calls of such an address |
| ClaimQueue.StepValid | backend/src/server.ts:5507-5532 | Every step keeps arrival order and the spacing of paid claims |
| ClaimQueue.OncePerWindow | backend/src/server.ts:5507-5532 | Over every interleaving one claim runs at a time, in arrival order, and of two that paid one wallet the later check is a window after the earlier record |
| ClaimQueue.ArrivalOrder | backend/src/server.ts:5507-5532 | Over every run the queue holds exactly the claims that arrived, in arrival order |
| ClaimQueue.RefusedExactlyWhen | backend/src/server.ts:5509-5530 | Over every run, a claim whose turn comes is refused if and only if its wallet was paid less than a window ago; failed and empty claims do not burn the cooldown |
| ClaimQueue.RunningSettles | backend/src/server.ts:5532 | However a running claim ends it settles, and the next one's link resolves |
| ClaimQueue.NeverBlocked | backend/src/server.ts:5532 | While nothing runs the first waiting claim can start, whatever failed before it |

## Left out

- The owner's escrow copy of K (`sdk/src/dataroom.ts`) and the multi-block counter-mode disclosure sealing
  (`backend/src/disclosure.ts`): the same mask-and-tag shape as share sealing.
- `buildBondOpenJob` and the serialisation of witnesses and jobs: the same checks again, and fixed encodings with no
  decoder here.
- The soundness of the zkVM itself: a guest is its fold and comparison check, as documented beside the builders.
- X25519 keys that the library refuses (an all-zero shared secret throws): sealing to such a key is not modelled.
- Text forms: hex parsing, `0x` prefixes and case folding; ids and digests are values.
- CommitteeRotation.CompletedAttemptOpens: attempts are 2-of-n, the default threshold; what the pair search makes of other
  thresholds is `KeyRecovery.AnyThresholdRecoversWhen`.
- The reverts of the storage contract (sealing a document twice, rotating without ownership): a superset of its runs is
  allowed, so the safety theorems cover them.
- Keyper.Keeper.Release: the verdict of the keeper's own `/share` limiter (a fixed window, off by default) is an input;
  key derivation from the environment and allowed origins are not part of this model.
- Shamir.ShamirSplit: fractional evaluation points and thresholds, which JavaScript numbers allow, are not modelled.
- DenyList.DenyTree.NonMembershipWitness: leaf indices from 2^31 on, where JavaScript shifts turn negative, are treated
  as ordinary numbers.
- DenyList.DedupSortBE: the library sort is an insertion sort with the same comparison; only its result is used.
- BatchQueue.QueueStore.Enqueue: ticket collisions of 16 random bytes are excluded by asking for a fresh ticket in the
  step machine; the per-IP throttle and the queue cap in front of it are not part of this model.
- BatchQueue.QueueStore.Flush: the method runs alone; enqueues and results between its submissions are the events of the
  step machine, where any rearrangement of the queued tickets may be the batch.
- Gateway.JobTable.NextJob: field validation, kinds, authentication and the `by` label are not part of this model.
- EnrolDesk.ActValid: labels, requesters, owner checks and the per-IP throttle on requests are not part of this model.
- The browser-dealer path of the committee: `/dataroom/committee/deal-sealed` (`backend/src/server.ts:3129-3215`) relays
  shares the client made, which need not be of one dealing, and `/dataroom/committee/anchor` (`:3225-3250`) anchors any
  commitment without looking at the keepers' acknowledgements. In `CommitteeRotation` the server is the dealer.
- `withTierAdminLock` (`backend/src/server.ts:4476-4481`): the same promise chain as `ClaimQueue`, over opaque actions.
- The other five copies of the limiter (vault, queue, prove, collect, faucet) differ from the modelled one in constants only.
- File persistence, crashes, disk errors, HTTP routing, chain RPC, blob storage and the proving subprocess.
