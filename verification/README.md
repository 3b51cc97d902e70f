# Q-Vault: verified models of its log witness, factoring loops, phone protocols and rules

Q-Vault is a vault in which M of N people sign decisions with post-quantum keys. Its ledger is a
Merkle tree whose checkpoints an independent **witness** co-signs. This project models the parts of
it where something can go wrong over a whole run, and proves that it does not, or says exactly when
it does.

| module | what it models |
|---|---|
| `Wrappers`, `ByteStrings`, `Bits` | a value that may be missing; byte strings and their hexadecimal text; powers of two and the bit trick `n & (n - 1)` |
| `Merkle`, `MerkleProofs` | the Merkle tree of RFC 6962, its two proof generators and the two bit-shifting verifiers |
| `WitnessStore`, `Witness` | the witness's tables and its `/state` and `/cosign` handlers, as classes over specification functions |
| `WitnessRuns`, `WitnessHonest` | every run of calls from anyone; an honest log that only appends, its syncs of two requests overlapping one another and strangers' calls |
| `NumberTheory`, `Primality`, `Rho`, `FactoringCurve` | Fermat's little theorem and unique factorisation; Miller-Rabin; Pollard's rho; the factoring curve |
| `Persist` | the phone's cache file: saves, restores and wipes that interleave at every `await` |
| `Signing` | the phone's memory of signed content, opening and confirming a signing sheet, casting the vote |
| `AuthPrompt` | when the system's authentication prompt was up, and the time away that app lock computes |
| `Rule` | the M-of-N rule, and the sentences that tell a voter what a vote will do |
| `DecisionText` | a decision's text as HTML with its addresses marked, and a strict reader of that HTML |
| `Instant` | ISO time parsing with its calendar and offset arithmetic, against every way of writing a time |
| `Outline` | cutting a path into runs at its corners; winding and reversing contours |
| `Bundle` | the module bundler's worklist and the runtime it emits |

Code that changes state in place is a class or a loop here too, proved against a function of the old
state; the theorems are about those functions. `dafny verify dfyconfig.toml` checks everything.

## What the source's world becomes

* **SHA-256** is an arbitrary function from byte strings to 32 bytes. A theorem that needs it assumes
  `NoCollision` on the finite set of inputs that the run and the tree actually hash, and on nothing
  else. Leaf hashes are the tree's leaves; interior nodes hash `0x01`, left, right, as bytes.
* **ML-DSA** is an arbitrary `verify` relation (`Setup.registry`); what signing draws is part of the call.
* One `/cosign` call is one step; a sync is two, asking `/state` and offering, with anything in between. The store's rows keep a statement as a value, so writing it as JSON
  and reading it back is taken to give the same statement.
* Random draws are any value in range; clocks, file answers and rejected promises are part of an event.
* Areas are over `real`. A sentence shown to a voter is modelled as the claim it makes.

## Where the code differs from what is said about it

* **A proof's hashes are never measured.** `verify_consistency` accepts nodes of any length, and the
  witness's 64-character test does not imply 32 bytes, because `bytes.fromhex` skips white space. So
  acceptance does not always mean that the old tree is a prefix: for every log of two entries a
  31-byte old root that is the root of no log is accepted (`ShortRootAccepted`), and, once signed by
  its log, co-signed (`ShortRootIsCosigned`). `AcceptanceExact` gives the exact condition for one
  proof, the length of the first hash of the walk; `PromiseExact` gives it for a whole run: every
  co-signed root is a prefix root of the newest one's log if and only if every accepted link of that
  origin started from 32 bytes (`SeededRun`). Nothing is asked of refused calls, of other origins or
  of other proof nodes. A test the witness could make on the texts it signs, 64 characters and no white
  space, is enough (`PlainRunIsSeeded`, by `HexLength`).
* `verify_inclusion` measures nothing either: 31 bytes that are no leaf can be included
  (`ShortLeafIncluded`); with 32 bytes it is exact (`InclusionExact`). The callers in the repository
  pass a hash.
* The witness pins an origin's key before it has checked any signature, so one unsigned call made
  before the log's first locks the log out for good (`OneCallLocksOut`; a sync is refused for its
  key exactly when another is pinned, `KeyChangedExactly`). It compares the key only, not the
  algorithm (`PinnedAlgorithmIgnored`), and roots at one size as text, so two spellings of the same
  bytes are a fork (`ForkExactly`, `TwoSpellings`).
* **An honest log can be refused, and a violation recorded against it.** A sync asks `/state` and then posts
  its proof, with no lock, from the scheduler and from request threads alike. Two syncs that both ask
  before either posts are enough: the second to arrive is `shrank` if it is the smaller and
  `inconsistent` if it is the larger (`OverlappingSyncs`, from the empty store, for any ledger and any
  two sizes; `LateOfferIsRefused`, from a mark of 1). That is the alarm by honest behaviour which
  `sync_witness` sets out to avoid. What does hold: an offer since whose ask nothing was signed for the log
  is refused exactly when it is smaller than the size reported to it (`HonestLogIsNeverRefused`). For every
  other offer `OfferIsSignedExactly` gives the exact condition, which the log can compute from the mark: there
  is none, or it is the offer's own statement, or the proof made from the size reported is the proof from it.
* `cost.py` names Brent's variant and thirteen bases; the code is Floyd's tortoise and hare with
  twelve bases. Its assertion on the returned factors is certain exactly when the two factors are
  primes, or one is the square of the other, a prime (`FactorsExact`); at widths up to 20 it never fails.
* **More approvals than voters.** Raising such a decision is refused, but separation of duties can be
  switched on after an N-of-N decision was raised by one of its approvers (qvault/services/vault_service.py:350-358),
  and then M is one more than the number who can decide. With no vote cast the tally is Rejected, so
  the server's late read (`RejectedWithoutAVote`) differs from the rule applied vote by vote, exactly
  then (`ProcessIsTally`, `LateReadIsTheRule`); "this still needs k more" is said although approving
  rejects it (`ApprovingRejects`, `ApproveSentenceIsExact`); and "it stays open" is said although any
  vote closes it (`SaidToStayOpen`, `StaysOpenIsExact`). The other sentences stay exact.
* **A late read on the phone.** `decisionStatus` counts rejections against the signed N, the server
  against `deciding_n`. On the facts alone they differ exactly when the requester is left out, approvals
  are short and rejections are exactly N - M (`PhoneAgreesExactly`). While the number who can decide
  stays what it was when the votes were cast, and M is not above it, they never differ
  (`PhoneAgreesWhileRuleStays`); for a decision its votes left open, they differ exactly when the
  requester was left out only afterwards, or nobody voted (`PhoneAgreesWhileOpen`,
  `PhoneShowsExpired`).
* `authPrompt.ts` promises a second of grace after the last prompt closed; the code gives one after
  any end, matched or not (`InFlightIsExact`, `UnmatchedEndHoldsOff`). The two differ exactly when no
  prompt is up and every end of the last second was unmatched (`PromiseKeptExactly`).
* **A foreign answer that is passed over.** `checks.ts` promises that an answer naming another decision
  is refused outright and keeps its route failed for the run. A tap over a page that carries another
  uuid is refused without being remembered (mobile/src/signingSheet.ts:211-212), and the queue skips such an
  answer (mobile/src/approvals.ts:83). So signing can go on (`ForeignAnswerForgotten`): with a sheet there, it is
  over after a foreign answer exactly if the answer was checked or the decision was lost before
  (`ForeignAnswerExactly`). What is signed is still the sheet's own content (`OneContentPerDecision`).
* App lock promises to subtract exactly the time a prompt was up. It does, unless a prompt whose span
  was dropped was up in the stretch (`AwayTimeIsExact`): from the seventeenth prompt in one stretch
  on, each is counted as time away (`TooManyPrompts`).
* An address that begins on the last digit of another need not be marked (`OverlappingAddressIsBare`):
  of addresses that overlap in a chain every other one is (`WrappedByChain`).
* `parseInstant` reads the years 0 to 99 as 1900 to 1999, so the round trip holds exactly from
  year 100 on (`RoundTrip`). A contour of no area is wound as asked only for a hole (`WoundAsAsked`).

## Model

| member | source | states |
|---|---|---|
| Merkle.VerifyConsistency | qvault/transparency/merkle.py:192-247 | the two nested loops compute the recursive walk that the theorems are about, on every input, refusals included |
| Merkle.VerifyInclusion | qvault/transparency/merkle.py:151-185 | likewise for the inclusion verifier |
| MerkleProofs.WalkIsFold | qvault/transparency/merkle.py:209-247 | the bit-shifting walk is the recursion down the RFC 6962 tree, for any proof of any length, right or wrong |
| MerkleProofs.WalkIsPathFold | qvault/transparency/merkle.py:163-185 | the same for the inclusion walk |
| MerkleProofs.GeneratedProof | qvault/transparency/merkle.py:115-139 | the generator omits its first node exactly when the old size is a power of two, which is when the verifier does not look for it |
| MerkleProofs.ConsistencyComplete | qvault/transparency/merkle.py:127-139 | a log that only appended is accepted with the generator's proof, from every earlier size including 0 and its own |
| MerkleProofs.ConsistencySound | qvault/transparency/merkle.py:192-247 | accepted against the root of a log, from a 32-byte first hash: the old root is the root of that log's prefix, and the proof is the generator's own |
| MerkleProofs.AcceptanceExact | qvault/transparency/merkle.py:192-247 | an accepted old root is the root of the log's prefix if and only if the first hash of the walk has 32 bytes |
| MerkleProofs.AcceptedProofExact | qvault/transparency/merkle.py:192-247 | with fewer inputs assumed free of collisions: the proof is also the generator's own, if and only if so |
| MerkleProofs.ShortRootAccepted | qvault/transparency/merkle.py:192-247 | for every log of two entries, an accepted old root that is the root of no log |
| MerkleProofs.InclusionExact | qvault/transparency/merkle.py:104-185 | for any bytes as a leaf: accepted and 32 bytes long is exactly the log's own leaf with the generator's own path |
| MerkleProofs.ShortLeafIncluded | qvault/transparency/merkle.py:151-185 | for every log of two entries, 31 bytes that are no leaf and are included |
| MerkleProofs.WindowInjective | qvault/transparency/merkle.py:79-91 | a root and a size name one log |
| MerkleProofs.LeafIsNoNode | qvault/transparency/merkle.py:41-58 | a leaf is the hash of 0x00 and its data, a node of 0x01 and its two halves, and no leaf hash is a node's unless the two inputs collide |
| MerkleProofs.RootIsRecursive | qvault/transparency/merkle.py:61-91 | the root of RFC 6962: of nothing, of one leaf, and of a complete left part with any right part no longer |
| MerkleProofs.RootNamesEntries | qvault/transparency/merkle.py:20-91 | a root names its entries and how many there are: two lists of any lengths have one root exactly when they are one list |
| ByteStrings.HexRoundTrip | witness/app.py:195-200 | hexadecimal text read back gives the bytes written |
| ByteStrings.HexLength | witness/app.py:60-68 | text that reads holds half as many bytes as characters exactly when no character is white space |
| ByteStrings.HexIgnoresCase | witness/app.py:62-66 | the case of the digits makes no difference to the bytes |
| ByteStrings.HexAlphabet | witness/app.py:62-66 | text with anything but hexadecimal digits and white space is refused |
| ByteStrings.PrintedHex | qvault/services/checkpoint_service.py:122-122 | what is printed are lower-case digits |
| WitnessStore.Store.PinLog | witness/store.py:78-94 | the first key pinned for an origin stays; nothing else changes |
| WitnessStore.Store.LatestRow | witness/store.py:95-99 | the query's loop finds the row by size and then id, as the ordering says |
| WitnessStore.Store.Record | witness/store.py:107-120 | one row more, with the next id; everything else as it was |
| WitnessStore.Store.RecordViolation | witness/store.py:132-138 | one violation more; the co-signed history as it was |
| WitnessStore.LatestIsFirst | witness/store.py:95-99 | the query's answer outranks every other row of its origin, and is None only for an origin with no row |
| WitnessStore.LatestIsLast | witness/store.py:95-99 | when sizes never decrease, the answer is simply the row inserted last |
| Witness.Witness.State | witness/app.py:93-108 | the origin's high-water mark and pinned key |
| Witness.Witness.Cosign | witness/app.py:112-231 | step by step over the store, the whole decision: malformed, key changed, bad signature, shrank, fork, reissue, inconsistent, signed |
| WitnessRuns.CallEffect | witness/app.py:112-231 | only a new signature adds a row, and then exactly the offered statement's; refusals leave every origin's history alone and are recorded with what was offered |
| WitnessRuns.NewSignature | witness/app.py:129-213 | a new signature means: key pinned, log's signature good, no smaller, and proved consistent with the high-water mark |
| WitnessRuns.MalformedExactly | witness/app.py:39-68 | a call is refused as malformed if and only if its checkpoint is not exactly the six fields, a named origin, a size of at least 1 that is one more than the head's number, two hashes of 64 characters that read as hexadecimal, and a timestamp; and then nothing is written |
| WitnessRuns.RecordsAreWellFormed | witness/app.py:39-68 | after every run, every row and every violation holds such a statement and is filed under its own fields |
| WitnessRuns.IdentityAnswers | witness/app.py:116-150 | exactly when a well-formed call is refused for its base64, its algorithm, its key or its signature, and what each of the four writes |
| WitnessRuns.StateIsNewest | witness/app.py:93-108 | in every reachable state `/state` reports the size and root co-signed last for the name, and its pinned key, and nulls exactly where there is none |
| WitnessRuns.RunIsSound | witness/app.py:112-231 | after every run: sizes never decrease, one root a size, every recorded statement well-formed and signed under its origin's pinned key, every co-signature good |
| WitnessRuns.RunOnlyAppends | witness/app.py:129-231 | a pinned key never changes and no row or violation is ever lost |
| WitnessRuns.HighWaterMark | witness/app.py:152-153 | in every reachable state the high-water query is the last row co-signed for the origin |
| WitnessRuns.SignaturesVerify | witness/app.py:183-231 | every signature returned, new or reissued, verifies over exactly the statement offered |
| WitnessRuns.RunIsChained | witness/app.py:195-213 | in every run whose accepted links are seeded, each co-signed row was linked to the one before it by an accepted consistency proof |
| WitnessRuns.EveryRootIsAPrefixRoot | witness/app.py:152-223 | over every such run of calls from anyone: if the newest co-signed root is a log's, every root ever co-signed for the origin is the root of that log's prefix of its size |
| WitnessRuns.PromiseExact | witness/app.py:152-223 | over every run: every co-signed root is a prefix root of the newest one's log, if and only if every accepted link of the origin started from 32 bytes |
| WitnessRuns.PlainRunIsSeeded | witness/app.py:60-68 | if every call signed for the origin spells its root and first node without white space, in 64 characters, every link is seeded |
| WitnessRuns.CosignedLogsArePrefixes | witness/app.py:152-223 | in such a run any two logs co-signed for one origin are prefixes of one another |
| WitnessRuns.CosignedEntriesArePrefixes | qvault/transparency/merkle.py:51-53 | the same of the ledger entries under the leaves: what the log held at one co-signature it held, in place, at every later one |
| WitnessHonest.SyncAnswers | qvault/services/checkpoint_service.py:575-600 | everything a sync can be answered, whatever size `/state` had reported to it: shrank exactly below the mark, the old signature for the mark's own statement, else signed or inconsistent as its proof fits the mark; never a fork, another key, a bad signature or an error |
| WitnessHonest.SyncIsSigned | qvault/services/checkpoint_service.py:575-600 | a sync to which the present mark was reported is signed unless it is smaller, and then it is shrank |
| WitnessHonest.SyncIsSignedExactly | qvault/services/checkpoint_service.py:575-600 | whatever size was reported: signed if and only if it is the first, or the mark's own statement, or its proof is the proof from the mark |
| WitnessHonest.AllowedKeepsHonest | witness/app.py:112-231 | whatever anyone sends, replays included, the log's pin stays and every row added for it is one of its own signed checkpoints |
| WitnessHonest.RunKeepsHonest | witness/app.py:112-231 | so at every moment of every run, however syncs overlap, signed or refused |
| WitnessHonest.SyncIsAllowed | qvault/services/public_status.py:507-511 | any sync of the log, sent by it or replayed, is among what anyone may send, whatever had been reported to it |
| WitnessHonest.MarkStaysBetween | witness/app.py:95-108 | while no call is signed for the log its high-water mark stays, so the size reported is still the mark |
| WitnessHonest.AppendOnlyIsNeverRefused | qvault/services/checkpoint_service.py:575-600 | in every run of an append-only log with one key, its syncs' two requests interleaved with one another and anyone's calls: an offer since whose ask nothing was signed for the log is refused exactly when it is smaller than the size reported to it |
| WitnessHonest.HonestLogIsNeverRefused | qvault/services/checkpoint_service.py:575-600 | the same from the witness's empty store on |
| WitnessHonest.OfferIsSignedExactly | witness/app.py:152-223 | every offer of every such run, disturbed or not: signed if and only if the mark it meets is none, its own statement, or one from which its proof is the proof; shrank if and only if below the mark; otherwise inconsistent |
| WitnessHonest.OverlappingSyncs | qvault/services/checkpoint_service.py:575-600 | any two genuine syncs of different sizes that both ask before either offers: the second is refused and a violation recorded |
| WitnessHonest.LateOfferIsRefused | qvault/services/checkpoint_service.py:579-582 | three entries, 1 reported, the mark at 2 when the offer arrives: inconsistent |
| WitnessHonest.PaddedHex | witness/app.py:60-66 | two trailing spaces are skipped, so 31 bytes pass the 64-character test |
| WitnessHonest.ShortRootIsCosigned | witness/app.py:112-231 | given any key and signatures over just two statements: two calls after which the newest root is a log's and the one before it is no log's |
| WitnessHonest.KeyChangedExactly | witness/app.py:129-141 | an honest sync is refused for its key exactly when another key is pinned for its origin |
| WitnessHonest.StrangerPins | witness/app.py:130-150 | the first key offered is pinned, even when its signature is then refused |
| WitnessHonest.OneCallLocksOut | witness/app.py:129-150 | after one unsigned call under its name before its first, every sync of a log is refused in every later state |
| WitnessHonest.PinnedAlgorithmIgnored | witness/app.py:129-141 | the answer and the history do not depend on the algorithm pinned |
| WitnessHonest.ForkExactly | witness/app.py:168-179 | an authentic call is a fork exactly when its size is the high-water mark's and its root is another text |
| WitnessHonest.TwoSpellings | witness/app.py:168-179 | two different texts of the same bytes |
| NumberTheory.PrimeDivides | qvault/attack/cost.py:121-142 | Euclid: a prime that divides a product divides a factor |
| NumberTheory.SquareRootsOfOne | qvault/attack/cost.py:135-142 | modulo a prime only 1 and -1 square to 1 |
| NumberTheory.BinomialTheorem | qvault/attack/cost.py:121-142 | the expansion of (a + 1)^n, from which Fermat follows |
| NumberTheory.Fermat | qvault/attack/cost.py:121-142 | a^(p-1) is 1 modulo a prime p that does not divide a |
| Primality.IsProbablePrime | qvault/attack/cost.py:121-142 | the loops decide exactly: listed, or divided by no base and passing the strong test to each |
| Primality.PassesBase | qvault/attack/cost.py:133-142 | one base's squaring loop finds -1 exactly when it is on the chain |
| Primality.PassesExactly | qvault/attack/cost.py:128-142 | a base is passed if and only if it gives 1 at n - 1 and, halving that exponent to its odd part, no root of 1 other than 1 and -1 |
| Primality.ProbableExactly | qvault/attack/cost.py:121-142 | the numbers accepted are exactly the bases, and of those no base divides the ones for which that holds to every base |
| Primality.DoubledIsTimes | qvault/attack/cost.py:128-131 | the halvings are by powers of two |
| Primality.ChainOfSquares | qvault/attack/cost.py:135-142 | modulo a prime, a chain of squares ending in 1 without passing -1 began in 1 |
| Primality.PrimePasses | qvault/attack/cost.py:128-142 | a prime passes to every base it does not divide |
| Primality.PrimesAreProbable | qvault/attack/cost.py:121-142 | no prime is ever rejected |
| Primality.ProbableBelow1681 | qvault/attack/cost.py:121-142 | below 41 squared the answer is exactly primality |
| Rho.GcdGreatest | qvault/attack/cost.py:96-96 | every common divisor divides the gcd |
| Rho.StepSquares | qvault/attack/cost.py:93-95 | a step is squaring and adding the constant: what it gives from 0, and how any two differ |
| Rho.OrbitCycles | qvault/attack/cost.py:92-96 | once two points of the orbit agree modulo p, going round the cycle changes nothing |
| Rho.Pigeonhole | qvault/attack/cost.py:92-96 | among more values than classes two share one |
| Rho.WalkersMeet | qvault/attack/cost.py:89-96 | for every divisor p, start and constant, tortoise and hare agree modulo p after some k from 1 to p |
| Rho.ExitsWithin | qvault/attack/cost.py:89-101 | so the inner loop ends within p steps |
| Rho.PollardRho | qvault/attack/cost.py:79-101 | ends on every draw; every restart but the last came back with n, what is found is the last walk's last gcd, a proper divisor, the iterations are the walks' steps together; an odd prime times out |
| Rho.WalkIsShort | qvault/attack/cost.py:89-101 | no walk takes more steps than any divisor of n |
| Rho.WorkIsBounded | qvault/attack/cost.py:79-101 | the steps of a run are at most its restarts times the smallest divisor, and fewer when the cap cut it short |
| Rho.ProductOfPrimes | qvault/attack/cost.py:157-180 | unique factorisation: a proper divisor of p q is p or q |
| Rho.FactorsExact | qvault/attack/cost.py:180-180 | the factors are certain to be {p, q} exactly for two primes, or a prime and its square |
| FactoringCurve.RandomPrime | qvault/attack/cost.py:114-118 | what is drawn is odd, of the width asked and accepted by the test |
| FactoringCurve.BalancedSemiprime | qvault/attack/cost.py:104-111 | two different accepted factors of half the width each, their product of exactly the width asked |
| FactoringCurve.MakeSample | qvault/attack/cost.py:163-179 | the sample's factors multiply to n, smaller first |
| FactoringCurve.Curve | qvault/attack/cost.py:145-181 | one sample a width in order, its factors two that the primality test accepted; the assertion can fire only if the primality test accepted a composite, and never at widths up to 20 |
| FactoringCurve.AssertionNeedsComposite | qvault/attack/cost.py:180-180 | with both factors prime, any proper divisor gives back exactly {p, q} |
| Persist.Persistence.RestoreSummaries | mobile/src/persist.ts:124-127 | a restore begins: one task more, of the generation it read |
| Persist.Persistence.ResumeRestore | mobile/src/persist.ts:127-151 | each further segment: discard, give up, or put only what is absent |
| Persist.Persistence.PutEntries | mobile/src/persist.ts:142-147 | the loop puts the absent entries and no other |
| Persist.Persistence.OnTimer | mobile/src/persist.ts:153-156 | a save begins only in the generation it was scheduled in |
| Persist.Persistence.ResumeSave | mobile/src/persist.ts:156-168 | each further segment of a save; the last writes only in its own generation |
| Persist.Persistence.StartSavingSummaries | mobile/src/persist.ts:171-185 | one subscription, of the present generation |
| Persist.Persistence.StopSavingSummaries | mobile/src/persist.ts:187-192 | no subscription and no timer |
| Persist.Persistence.OnListAnswered | mobile/src/persist.ts:175-184 | one timer at a time |
| Persist.Persistence.WipeSummaries | mobile/src/persist.ts:195-199 | a wipe begins: the generation moves on and saving stops, before anything is awaited |
| Persist.Persistence.ResumeWipe | mobile/src/persist.ts:199-209 | the file is removed, whatever the key store answers |
| Persist.RunKeepsInvariant | mobile/src/persist.ts:111-209 | over every interleaving, nothing running carries a generation later than the present one, what is scheduled is of the present one, and after a removal any file is newer |
| Persist.SaveNeverUndoesWipe | mobile/src/persist.ts:153-168 | a save begun before a wipe never writes after that wipe begins |
| Persist.RestoreStopsAtWipe | mobile/src/persist.ts:124-151 | a restore begun before a wipe neither fills the cache nor touches the file after it |
| Persist.RestorePutsLittle | mobile/src/persist.ts:138-147 | a restore changes the cache only before its deadline, from the person's own file, adds only what that file holds and is no older than a week, and overwrites nothing |
| Persist.OnlyCurrentSavesWrite | mobile/src/persist.ts:159-164 | the file is only ever written by a save of the present generation |
| Persist.FileIsNewerThanWipe | mobile/src/persist.ts:195-209 | once a wipe has ended with the file removed, any file there ever is was written by a later generation's save |
| Persist.SaveSaves | mobile/src/persist.ts:153-168 | over every run: a save whose store and key answer, no wipe beginning meanwhile, leaves a file under that key and buster that holds exactly what the cache held when its timer fired |
| Persist.AnswerSchedulesSave | mobile/src/persist.ts:171-185 | while a person's saving goes on, an answer of an allowed list has a save of theirs scheduled until the timer fires |
| Persist.RestoreRestores | mobile/src/persist.ts:124-151 | over every run: a restore whose file opens, before its deadline, leaves every query its own entry in the cache or else the first fresh one the file lists, and keeps the file |
| Persist.FirstFreshIsFirst | mobile/src/logic/persistence.ts:148-175 | the first entry listed for a query within seven days either way, none exactly when there is none |
| Persist.SavedIsRestored | mobile/src/persist.ts:124-168 | the round trip over two runs of the app: what one saves the next one shows, within a week |
| Persist.RestoreDiscardsExactly | mobile/src/persist.ts:130-139 | a file that does not open is removed by a restore of the present generation, and by no other; one that opens stays |
| Persist.WipeWipes | mobile/src/persist.ts:195-209 | from its beginning a wipe leaves nothing subscribed or scheduled, and once the store answers no file, whatever ran in between |
| Signing.SignedContentMemory.SeeKey | mobile/src/logic/signedContent.ts:43-55 | first, same or changed, and a change is remembered |
| Signing.SignedContentMemory.Mark | mobile/src/logic/signedContent.ts:62-64 | the decision is lost for the run, the rest is as it was |
| Signing.SignedContentMemory.Clear | mobile/src/logic/signedContent.ts:67-70 | nothing is remembered |
| Signing.SignedContentMemory.Check | mobile/src/checks.ts:71-84 | `checkInRun` over the memory, an answer naming another decision included |
| Signing.RunIsSound | mobile/src/signingSheet.ts:110-267 | between clears every sheet is of the content first seen for its decision; every detail handed on to be signed is its sheet's snapshot, and every signature made, sent or not, commits to it: hash re-derived, digest the phone's own |
| Signing.LateVoteCommits | mobile/src/flows.ts:448-515 | a vote still at its prompt while the run goes on: whenever it is signed, after a disagreeing answer or a clear too, it commits to the snapshot handed on |
| Signing.OneContentPerDecision | mobile/src/flows.ts:355-515 | everything ever handed on to be signed for one decision between two clears has one content and one hash, and shows what it signs: a payment's text is written from the signed action, text and rule are the signed ones, a typed decision's text holds |
| Signing.CheckedExactly | mobile/src/flows.ts:355-377 | the checks pass a decision if and only if all of that holds of it |
| Signing.VoteNeeds | mobile/src/flows.ts:448-515 | of everything handed on: a signature is made if and only if there is a screen lock, a confirmed prompt and a key, and for an approved payment this phone's own digest, its own seat and the enrolled key; it carries the person's number and is sent if and only if it verifies |
| Signing.OpensExactly | mobile/src/signingSheet.ts:110-180 | exactly which openings give a sheet, and of what |
| Signing.TapsExactly | mobile/src/signingSheet.ts:206-267 | exactly which taps in a run hand a sheet's decision on, a rejection's reason of 1 to 255 characters included |
| Signing.NothingSignedEverAfter | mobile/src/signingSheet.ts:206-267 | from the event that loses a decision on, that event included, nothing is handed on for it until a clear |
| Signing.AnswerEffect | mobile/src/checks.ts:71-84 | exactly which answers, on a fetch, in the queue, on an opening or at a tap, lose their decision: those checked that name another one or differ from the content remembered |
| Signing.FirstContentStays | mobile/src/logic/signedContent.ts:43-55 | the first content seen for a decision stays the one compared with |
| Signing.DisagreeingAnswersStopSigning | mobile/src/checks.ts:71-84 | any two answers that were checked and disagree, anywhere in a run: nothing is handed on for the decision from the second on |
| Signing.ForeignAnswerStopsSigning | mobile/src/checks.ts:71-84 | one answer that was checked and names another decision: nothing is handed on from it on |
| Signing.StoppedExactly | mobile/src/signingSheet.ts:206-228 | a decision with a sheet can be handed on in some continuation unless, and only unless, it is lost |
| Signing.ForeignAnswerExactly | mobile/src/signingSheet.ts:211-218 | after any foreign answer met with a sheet there, signing is over exactly if the answer was checked or the decision was lost before |
| Signing.ForeignAnswerForgotten | mobile/src/signingSheet.ts:211-212 | a sheet tapped over another decision's page, opened again and tapped over its own, is handed on |
| Signing.IdleSheetStaysExactly | mobile/src/signingSheet.ts:274-284 | an idle sheet survives a fetch exactly when it passed and carried the sheet's own signed inputs, though the code compares hashes only |
| AuthPrompt.Prompts.BeginAuthPrompt | mobile/src/authPrompt.ts:25-31 | a span begins only when none was up; the oldest of more than sixteen goes |
| AuthPrompt.Prompts.EndAuthPrompt | mobile/src/authPrompt.ts:33-40 | the count never goes below zero; the last span closes with the last prompt |
| AuthPrompt.RunKeepsTheNewest | mobile/src/authPrompt.ts:15-40 | for any begins and ends, nested or unmatched, the module holds exactly the newest sixteen spans of the whole history |
| AuthPrompt.KeptSpansAreOrderly | mobile/src/authPrompt.ts:22-40 | sorted, disjoint, at most sixteen, and the last is open exactly while a prompt is up |
| AuthPrompt.KeptSpansAreExact | mobile/src/authPrompt.ts:22-50 | since the oldest kept span began, a moment lies in a span (and in one only) exactly when a prompt was up |
| AuthPrompt.InFlightIsExact | mobile/src/authPrompt.ts:53-55 | held off exactly while a prompt is up or within a second of any end |
| AuthPrompt.PromiseKeptExactly | mobile/src/authPrompt.ts:52-55 | never less than the comment promises, and more exactly when none is up and only unmatched ends are recent |
| AuthPrompt.UnmatchedEndHoldsOff | mobile/src/authPrompt.ts:33-55 | an end with no prompt up holds changes off as well |
| AuthPrompt.AwayTime | mobile/src/logic/appLock.ts:28-36 | the loop over the spans computes the time away |
| AuthPrompt.AwayTimeIsExact | mobile/src/logic/appLock.ts:28-36 | that is the milliseconds no prompt was up plus those the dropped prompts were up; exact if and only if no dropped span touches the stretch |
| AuthPrompt.AwayTimeIsExactWhenSeen | mobile/src/logic/appLock.ts:28-36 | exact whenever fewer than sixteen spans are kept, or the oldest is no later than the leaving |
| AuthPrompt.TooManyPrompts | mobile/src/authPrompt.ts:22-31 | with n prompts in one stretch, n above sixteen, the time away is n - 16 too much |
| Rule.ProcessIsTally | qvault/services/approval_service.py:312-358 | taking votes one by one and stopping once decided is deciding on the whole tally, exactly unless M is above the voters and nobody voted |
| Rule.NeverBoth | qvault/services/approval_service.py:312-358 | no votes both approve and reject |
| Rule.OrderDoesNotMatter | qvault/services/approval_service.py:312-358 | the outcome is the same in every order |
| Rule.LateReadIsTheRule | qvault/services/approval_service.py:272-310 | read late, the server shows what the votes decided, and Expired exactly when nothing; with the same single exception |
| Rule.RejectedWithoutAVote | qvault/services/eligibility.py:237-247 | that exception: 2 of 2 with the requester left out, Rejected with no vote cast |
| Rule.PhoneAgreesExactly | mobile/src/status.ts:32-39 | the phone shows what the server will, except exactly when the requester is left out, approvals are short and rejections are N - M |
| Rule.PhoneAgreesWhileOpen | mobile/src/status.ts:32-39 | for a decision its votes left open: which of these it can be in, over the voters there were and those there are |
| Rule.PhoneAgreesWhileRuleStays | mobile/src/status.ts:24-39 | while who can decide stays the same and M is not above it, phone and server agree |
| Rule.PhoneShowsExpired | mobile/src/status.ts:32-39 | one that differs: 2 of 4, open on one approval and two rejections, its requester left out afterwards |
| Rule.EndsForEveryoneIsExact | qvault/evidence.py:232-236 | "ends this decision for everyone" is said exactly when no continuation of the votes can approve |
| Rule.CannotPassIsExact | qvault/evidence.py:243-262 | "it can't pass" is said exactly when no votes by the named others reach M, and with the right count |
| Rule.RejectersNamedAreExact | qvault/evidence.py:189-196 | "any k of" and "k more rejections" hold exactly for the subsets whose rejection closes it |
| Rule.RuleOnlyIsExact | qvault/evidence.py:232-242 | the same for the sentences without names: ends it exactly when it does, and k more is the exact number |
| Rule.StaysOpenIsExact | qvault/evidence.py:201-205 | "it stays open" is said exactly when nothing can end it, unless M is above the voters and somebody can still vote |
| Rule.EndingIsExact | qvault/evidence.py:185-208 | for a decision that cannot pass: rejections, a withdrawal and the deadline are each named exactly when it can end that way |
| Rule.SaidToStayOpen | qvault/evidence.py:201-205 | where it is said and the next vote closes it |
| Rule.ApproveSentenceIsExact | qvault/evidence.py:140-163 | "yours completes the approvals" is said exactly when it does; otherwise k more is the exact number, and the decision stays open exactly when M is not above the voters |
| Rule.ApprovingRejects | qvault/evidence.py:140-163 | where two more are said to be needed and approving rejects it |
| DecisionText.WriteAddress | qvault/evidence.py:418-432 | the loop over the address writes the specified mark-up |
| DecisionText.AddressReadsBack | qvault/evidence.py:418-432 | a marked address reads back as itself: first and last four bytes bold, a break after every ten characters, every element closed |
| DecisionText.AddressIsFortyDigits | qvault/evidence.py:415-415 | an address is 0x and forty digits in either case, and no forty-first |
| DecisionText.AddressIsWritten | qvault/evidence.py:418-432 | the whole mark-up, letter for letter: the span's class and attribute, the two bold stretches, the three breaks |
| DecisionText.EscapedIsInert | qvault/evidence.py:435-438 | no quote and no angle bracket of the text is left in the HTML |
| DecisionText.EscapeKeepsAddresses | qvault/evidence.py:435-438 | escaping neither makes an address nor hides one |
| DecisionText.SeenAsWritten | qvault/evidence.py:435-438 | for every text the HTML is well nested, and exactly the text is seen, its addresses and nothing else in spans |
| DecisionText.DecisionTextReadsBack | qvault/evidence.py:435-438 | tags off and escapes undone, the text comes back character for character |
| DecisionText.WrappedExactly | qvault/evidence.py:415-438 | an address is marked exactly unless a marked one begins 41 characters before it |
| DecisionText.WrappedByChain | qvault/evidence.py:415-438 | in terms of the text alone: an even number of addresses stand in a chain before it, 41 characters apart |
| DecisionText.WrappedLook | qvault/evidence.py:418-438 | a marked address is seen as one |
| DecisionText.BareLook | qvault/evidence.py:435-438 | a character in no marked address is seen bare |
| DecisionText.OverlappingAddressIsBare | qvault/evidence.py:415-438 | one that is not marked |
| Instant.DateReadsBack | mobile/src/time.ts:35-57 | the day number of every Gregorian date gives its day back |
| Instant.RollOverIsCaught | mobile/src/time.ts:35-57 | the day check accepts a date exactly when it exists |
| Instant.DatesAccepted | mobile/src/time.ts:35-57 | a date alone is parsed exactly when it exists in the calendar it is read in |
| Instant.DaysAreCounted | mobile/src/time.ts:35-57 | day numbers count the calendar's days one by one from 1 January 1970 |
| Instant.WrittenMatches | mobile/src/time.ts:21-22 | the pattern takes every way of writing a time apart into its groups |
| Instant.WrittenParses | mobile/src/time.ts:35-57 | every way of writing a time, with any separator, seconds, fraction and form of offset or none, and white space around it: a real one is read as its instant, in UTC where it has no offset, and any other is refused |
| Instant.ReadExactly | mobile/src/time.ts:21-57 | and nothing else is read as a time |
| Instant.MillisCut | mobile/src/time.ts:44-44 | the fraction is cut off at milliseconds |
| Instant.RoundTrip | mobile/src/time.ts:35-57 | printing any local time with any fraction and offset and parsing it gives its instant in milliseconds, exactly from year 100 on |
| Outline.Corners | mobile/tools/icons_from_tile.ts:239-245 | the sharp points, and an open path's two ends, in order |
| Outline.ClosedRun | mobile/tools/icons_from_tile.ts:256-264 | the loop goes from corner to corner, right round when there is one |
| Outline.ClosedRuns | mobile/tools/icons_from_tile.ts:255-266 | one run a corner, the last back to the first |
| Outline.OpenRuns | mobile/tools/icons_from_tile.ts:267-269 | one run between each two corners |
| Outline.ClosedRunsCover | mobile/tools/icons_from_tile.ts:253-266 | the runs of a closed path end to end are the path once round, for one corner or many |
| Outline.OpenRunsCover | mobile/tools/icons_from_tile.ts:267-269 | the runs between corners are the edges from the first corner to the last, in order |
| Outline.OnceRound | mobile/tools/icons_from_tile.ts:253-266 | once round meets every edge exactly once |
| Outline.CutPath | mobile/tools/icons_from_tile.ts:232-269 | from which points are sharp to the runs: an open path's runs are all its edges from end to end, a closed one's are every edge exactly once, each from a corner to the next |
| Outline.ComputeArea | mobile/tools/icons_from_tile.ts:286-294 | the loop is the shoelace sum |
| Outline.ReversingNegates | mobile/tools/icons_from_tile.ts:297-310 | turning a contour round, either way, negates its area |
| Outline.ReverseQuadratic | mobile/tools/icons_from_tile.ts:303-305 | the loop reverses a quadratic contour |
| Outline.ReversingKeepsArcs | mobile/tools/icons_from_tile.ts:303-305 | every arc stays, run backwards, with its own control point |
| Outline.Wind | mobile/tools/icons_from_tile.ts:297-310 | reverses exactly when the winding is not the one asked for |
| Outline.WoundAsAsked | mobile/tools/icons_from_tile.ts:297-310 | every contour of some area comes out wound as asked, of the same area but for its sign |
| Outline.WindingKeepsShape | mobile/tools/icons_from_tile.ts:297-310 | what is returned is the contour or the contour run backwards, edge by edge and arc by arc |
| Outline.ToFontNegates | mobile/tools/icons_from_tile.ts:279-294 | font space turns every winding round, at any scale |
| Bundle.Normalise | scripts/bundle_pqc.py:41-48 | the stack of path parts, popping an empty one included |
| Bundle.NormaliseIsIdempotent | scripts/bundle_pqc.py:41-48 | a normalised id holds no dots, and normalising it changes nothing |
| Bundle.InAndOut | scripts/bundle_pqc.py:41-48 | into a folder and back out is nowhere new |
| Bundle.DotsChangeNothing | scripts/bundle_pqc.py:46-46 | a dot or an empty part stands for nothing, anywhere in a path |
| Bundle.ClimbingOut | scripts/bundle_pqc.py:43-45 | a path that climbs out of the root is refused |
| Bundle.Build | scripts/bundle_pqc.py:104-119 | ends on every import graph; the bundle is exactly the modules reachable from the entries, or a reachable one has no file |
| Bundle.Loader.Req | scripts/bundle_pqc.py:127-134 | the emitted `__req`, over its cache |
| Bundle.RequireLoads | scripts/bundle_pqc.py:127-134 | requiring ends with the module loaded, cycles included, and no factory run twice |
| Bundle.BundleRuns | scripts/bundle_pqc.py:104-144 | in the bundle that was built every `__req` finds a definition, and once the entries are exposed every module has run exactly once |

## Left out

- Thread interleaving inside one `/cosign` call: the handler reads the high-water mark and writes its row without a transaction; here the call is one step. Between the two requests of a sync anything may happen.
- HTTP, SQL, base64, canonical JSON and the status pages; the JSON of a stored statement is taken to read back as the statement.
- ML-DSA, SHA-256 and AES-GCM internals, and how the first key for an origin is chosen.
- WitnessRuns.EveryRootIsAPrefixRoot: assumes that the accepted links of the origin are seeded, because without it the statement is false; `PromiseExact` shows that this is exactly what it takes.
- WitnessRuns.CosignedLogsArePrefixes: the same assumption, for the same reason; CosignedEntriesArePrefixes too.
- WitnessHonest.AppendOnlyIsNeverRefused: assumes that nothing was signed for the log between the offer and its ask (`OverlappingSyncs` shows why, `OfferIsSignedExactly` covers the rest), that its name is pinned to its own key before a call offers another (`OneCallLocksOut` shows why), and that its key signs only checkpoints of its own ledger. HonestLogIsNeverRefused too.
- The claim that twelve bases are deterministic below 3.3e24; only no-prime-rejected, and exactness below 1681, are proved.
- FactoringCurve.RandomPrime: the redrawing loop has a bound `tries`, since an unlucky source need not end; the same for BalancedSemiprime and Curve.
- FactoringCurve.Curve: widths below 2 and the time budget are not modelled, nor the floating-point projections of the file.
- The SecureStore key around a wipe: `ensureKey` in flight can store a key after the deletion; only the file and the cache are claimed. A write is whole or nothing.
- Which fields of a summary may be written and how they are validated when read (`toDisk`, `fromDisk`): a body's entries are the ones these let through both ways.
- Signing.RunIsSound: a tap, its prompt and its vote are one step, so a fetch that lands while the prompt is up is not seen by the vote already in flight (the source says it cannot be recalled; `LateVoteCommits` says what is then signed); the server's echo of the vote is not modelled.
- The sheets opened before the memory is cleared (signing out drops them), the wording of the sheets, and where a signing problem is shown.
- `frozenCopy` and `deepFreeze`: a detail is a value here, so a snapshot shares nothing with the page; `signedContentKey` is the pair it writes as text.
- Enrolment, pairing, treasury and recovery approvals in `flows.ts`, which repeat the checks of a vote.
- Rule: the number n who can decide is the same over one run of votes and one sheet, M is at least 1 (creating a vault demands it), and votes are taken one at a time; two last votes that race can leave a decided decision open until the scheduler or a late read decides it (`PhoneAgreesExactly` covers such facts too).
- The words of the sentences (names, plurals, amounts) and the approvals sentence about payments; withdrawal and deadline are given as facts.
- Offsets, mitres, discs, curve flattening and the rounding of printed coordinates: floating point around the winding and the runs.
- The textual rewriting of one module's imports and exports: a module is the list of modules it requires, in any order.
- Links, app lock's screen, React screens, sessions, push, forms, migrations, scheduling and the attack harness's verdicts: plumbing, or settled by reading one branch.
