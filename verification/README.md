# The arbiter of the two-way peg, modelled and proved

The arbiter carries value between the main chain and its side chains. It scans side
chains for withdrawals, builds main-chain transactions that pay them, collects the
signatures of two thirds of the arbiters for each transaction, by multi-signature or by an
aggregated Schnorr signature, and moves what is done from pending tables to a finished
store. The project models these parts as they are coded and proves what they are for.

| part | modules |
|---|---|
| Schnorr signature: algebra, handlers, runs, who has answered, a proposer that leaves, code on the heap | `SchnorrMath`, `SchnorrProtocol`, `SchnorrRuns`, `SchnorrAnswers`, `SchnorrDeparture`, `SchnorrServer` |
| multi-signature: quorum, handlers, runs, code on the heap | `Quorum`, `Multisig`, `MultisigRuns`, `MultisigServer` |
| withdraw transactions: builder, checker, soundness, completeness, repetitions | `CoinSelection`, `Withdrawals`, `WithdrawBuilder`, `WithdrawChecker`, `WithdrawSoundness`, `WithdrawCompleteness`, `WithdrawExactness` |
| returned deposits: builder and check | `Refunds` |
| stores and scanning under crashes | `FinishedStore`, `Settlement`, `WithdrawSettlement`, `Scan`, `Backlog` |
| messages, redeem script, duty | `Codec`, `CodecStreams`, `RedeemScript`, `Duty` |
| shared tools | `Arithmetic`, `Lists`, `Options`, `Sums` |

How to read it: a handler appears twice, as a function on the value of the state and as a
method on fields and heap objects that is proved to compute that function. What a handler
is for is proved about the function, for every run of the system where several handlers
play together.

Assumptions, in the system's terms. Hashing is injective. A signature names its signer
and its message. A curve point is its discrete logarithm, so adding points is adding
residues modulo the group order; of Q and -Q, which share their x-coordinate, exactly one
has a y-coordinate that is a quadratic residue, unless Q is the identity. Honest senders
name themselves by matching key and program hash. A transaction is proposed on the Schnorr
path once, as it carries a random nonce. An arbiter list names nobody twice; it may have
blanks. The exchange rate is an exact positive number
and conversion truncates; at rate 1 this is what the code computes for amounts below
2^53. Tables are maps with unique keys in which a conflicting INSERT is skipped. Clocks,
the network, the side-chain and main nodes and the results of sorting are parameters.

What the proofs found in the code:

- `MergeSignToTransaction` divides the length of 65-byte scripts by 64, so a quorum above
  64 is submitted with too few signatures (`MultisigRuns.SubmittedWithExactly`); up to 95
  arbiters the count is exact (`Quorum.CountIsExactUpTo95`).
- Its re-check for a signature already merged verifies the wrong message and never finds
  one (`Multisig.RecheckIsInert`); the record of signers is what keeps a second one out
  (`MultisigRuns.SubmissionsMatchTheRecord`).
- The middle height range asks for 2n/3 signatures without the one more, so that quorums
  can be disjoint for n = 2 and n = 4 and empty for n < 2 (`Quorum.QuorumsMeetIff`).
- When a chosen signer leaves the arbiter list before the S phase starts, the Schnorr
  proposer goes on with fewer signers than required (`SchnorrAnswers.TimerAsksIff`). Only
  the signers' own test of the payload keeps such a transaction from being submitted
  (`SchnorrRuns.SubmittedWithExactly`).
- When the proposer itself has left the list, it still counts its own share. The
  transaction is submitted as soon as all but one of the asked signers have answered, and
  is signed by another set than the asked one (`SchnorrRuns.SignersAreTheAskedIff`,
  `SchnorrDeparture.UnlistedProposerIsSubmitted`). That cannot happen while timer and
  signers require the same number (`SchnorrRuns.RequiredOfAllKeepsTheAsked`).
- An awaited share of a signer without credit leaves the mutex locked, and nothing that
  takes it runs again, Reset or not (`SchnorrProtocol.TakenOrLocked`,
  `SchnorrProtocol.LockedForGood`). A signer that was asked always has credit
  (`SchnorrRuns.InCredit`).
- The withdraw check never tests that withdrawals are different. One listed twice is paid
  twice and accepted (`WithdrawExactness.ListedTwiceIsPaidTwice`); the set of listed
  withdrawals is paid exactly if and only if those listed more than once pay nothing
  (`WithdrawExactness.AcceptedPaysOnceIff`).
- At rates other than 1 a withdrawal that passes the proposer's filter can make a
  transaction that nobody else accepts (`WithdrawCompleteness.HalvesAreRefused`), and a
  withdrawal with several targets, or one of whose targets the scanner dropped some before
  a peer without the row looks it up, always does (`WithdrawCompleteness.BuiltIsAcceptedIff`).
- The check of returned deposits looks at refunds only, one by one: it accepts any other
  output, and the same refund again (`Refunds.ExtraIsAccepted`), and stops, with acceptance,
  at the first payer that cannot be looked up (`Refunds.UnknownPayerEndsTheCheck`).
  Acceptance means that each deposit is returned once and the rest goes back to the bank if
  and only if there is none of these (`Refunds.AcceptedReturnsOnceIff`).
- The tests for the two duplicate codes come too late and decide nothing: what is already
  on the other chain is recorded as failed (`Settlement.DuplicatesAreRefused`).
- No submission of a withdraw transaction moves a withdrawal to the finished store: the
  old builder's transactions end in a crash when their data store is looked for, the
  others list nothing (`WithdrawSettlement.MadeMovesNothing`). Only what the main chain
  reports as paid is settled (`WithdrawSettlement.OnlyReportsSettle`).
- What leaves a pending table without getting a verdict, as after a crash between the two,
  is lost unless it is entered again (`Settlement.DepositsAreConserved`,
  `WithdrawSettlement.WithdrawalsAreConserved`).
- Rows that can be neither proposed nor settled keep their place at the head of the pending
  table; once they fill the part that is looked at, nothing behind them is proposed in any
  later call (`Backlog.HeadStarvesTheRest`).
- A stored withdrawal with an oversized target is read back without that target and those
  behind it, and without an error (`Codec.TableRowRoundTrip`).
- An update of the stored height that fails sends the cursor of the scan back to 0
  (`Scan.FailedUpdateGoesBack`); what has been read is read again.
- A listener error while scanning is logged and the cursor moves on: a withdrawal is lost
  if and only if the listener failed whenever a block with it was read (`Scan.LostIff`).

## Model

| member | source | states |
|---|---|---|
| SchnorrMath.AggregateVerifiesIff | arbitration/cs/distributednodeserver.go:701-728 | Unless the nonce points cancel out, the aggregated pair verifies under the summed public key if and only if the shares add up to e times that key; if they cancel out, correct shares do not verify |
| SchnorrMath.CheckDecides | arbitration/crypto/schnorr.go:110-115 | The sign adjustment ends on the one point with the announced x-coordinate whose y is a quadratic residue, and any error in the shares shows |
| SchnorrMath.NegatedTermsSum | arbitration/crypto/schnorr.go:110-115 | Replacing every nonce by N minus the nonce negates their sum modulo N, shares untouched |
| SchnorrProtocol.PickKeysSound | arbitration/cs/distributednodeserver.go:560-575 | The asked keys are exactly the chosen arbiters that are listed and not blank, each once while the list names nobody twice |
| SchnorrProtocol.IndexesNameTheSigners | arbitration/cs/distributednodeserver.go:560-593 | The uint8 positions in the payload name exactly the asked keys, in order, if and only if none of them stands beyond position 255 of the arbiter list; so they do for up to 256 arbiters |
| SchnorrProtocol.TakenOrLocked | arbitration/cs/distributednodeserver.go:658-699 | Whoever sends it, an awaited S answer with a valid signature is taken, at the price of one unit, if and only if its signer is in credit; otherwise it leaves the mutex locked, and nothing else does |
| SchnorrProtocol.LockedForGood | arbitration/cs/distributednodeserver.go:693-697 | Once the mutex is left locked, every handler that takes it waits for ever, and Reset does not unlock it |
| SchnorrProtocol.SubmittedIff | arbitration/cs/distributednodeserver.go:699-726 | A taken share is followed by a submission if and only if there are as many shares as asked keys and each signer has its R entry |
| SchnorrProtocol.NothingIsReopened | arbitration/cs/distributednodeserver.go:294-298 | Neither a proposal nor a round that is open is opened again over what it has collected |
| SchnorrRuns.EverySubmissionIsSigned | arbitration/cs/distributednodeserver.go:658-754 | Over every run with honest signers and changing arbiter lists, the proposer's own place included: no transaction is submitted twice, the mutex is never left locked, and every signature is under the joint key of its signers, the proposer and otherwise asked ones, as many as asked; unless nonces cancel out it verifies if these are the asked ones, otherwise exactly if the request's challenge serves for their key |
| SchnorrRuns.EverySubmissionIsAQuorum | arbitration/cs/txschnorrrequestscontent.go:148-167 | Over every such run, a submitted transaction asked at least two different keys, all listed then, one payload position for each, naming them unless one is beyond a byte, the proposer among them exactly if it was listed; and each of its signers but the proposer required exactly this number when it checked the transaction |
| SchnorrRuns.SignersAreTheAskedIff | arbitration/cs/distributednodeserver.go:600-726 | Over every such run, the signers of a submission are the asked ones if and only if the proposer was listed when its timer fired; if not, the proposer stands in for exactly one of them, and the joint key is still theirs only if the two have the same public key |
| SchnorrRuns.RequiredOfAllKeepsTheAsked | arbitration/cs/distributednodeserver.go:524-575 | While signers require at least what the timer required, the round of an unlisted proposer is never submitted: every submission is signed by exactly the asked signers, as many as required, and verifies unless nonces cancel out |
| SchnorrDeparture.UnlistedProposerIsSubmitted | arbitration/cs/distributednodeserver.go:510-754 | The run at which it is: three listed arbiters, three required, the proposer no longer listed, a signer that requires two; submitted with the shares of the proposer and this signer |
| SchnorrRuns.SubmittedWithExactly | arbitration/cs/distributednodeclient.go:106-133 | While the arbiters require the same number T, every submitted transaction asked exactly T different signers at T positions and is signed by exactly T; a round opened with fewer is never submitted |
| SchnorrRuns.SubmittedQuorumsShare | arbitration/cs/distributednodeserver.go:124-132 | Any two transactions submitted under the same n arbiters asked more than n/3 of them both times, in the middle height range at least (n-4)/3, and as many signed both while the proposer is listed; otherwise at least (n-1)/3, or (n-7)/3 |
| SchnorrAnswers.OpenIff | arbitration/cs/distributednodeserver.go:265-301 | Over every run, a proposal has entries exactly while it is open: from its own event to the next Reset |
| SchnorrAnswers.FirstAnswersAreRecorded | arbitration/cs/distributednodeserver.go:472-508 | Over every run, while a proposal is open, an arbiter has an entry if and only if, since the opening, the proposer recorded its own nonce or an answer of this arbiter came while it was listed; the entry holds the first such nonce, its point and the arbiter's public key, but for a nonce overwritten by a submission |
| SchnorrAnswers.EntriesAreAnswerers | arbitration/cs/distributednodeserver.go:472-508 | So the entries of an open proposal are those of exactly these arbiters, whatever they owe from other rounds |
| SchnorrAnswers.TimerAsksIff | arbitration/cs/distributednodeserver.go:524-595 | Over every run, the S phase asks the required number of signers if and only if its proposal is open, that many arbiters have answered since, and all of those chosen are still listed and not blank |
| SchnorrRuns.AggregateCorrect | arbitration/cs/distributednodeserver.go:701-728 | When the asked signers and nobody else have answered and their nonces do not cancel out, the handler's sums make a signature of the new transaction under their joint key |
| SchnorrRuns.AggregateServesIff | arbitration/cs/distributednodeserver.go:701-728 | Honest shares of any signers aggregate to a signature that verifies under their joint key, their nonces not cancelling out, exactly if the request's challenge times that key is the one verification computes |
| SchnorrRuns.ChallengeOfSet | arbitration/crypto/schnorr.go:95-104 | The challenge computed over the list of keys is the one over their set, as aggregation sees it, whatever the order |
| SchnorrRuns.FiresExactlyWhenComplete | arbitration/cs/distributednodeserver.go:699-726 | Over every run, while a round with at least two asked keys is open, it has been submitted if and only if all of them are recorded, with the proposer among them, or all but at most one, without |
| SchnorrRuns.CompleteRoundIsSubmitted | arbitration/cs/distributednodeserver.go:658-754 | In whatever order and however often answers arrive, once every asked signer has answered while listed, the transaction has been submitted, Reset and a round with a single asked key aside |
| SchnorrRuns.SelectionIsFair | arbitration/cs/distributednodeserver.go:531-575 | The selection consists of different responders, at most the required number and exactly that if and only if all chosen ones are still listed and not blank; it has the proposer while listed, and leaves out no listed responder in favour of one with more unanswered rounds |
| SchnorrAnswers.TimerAsksFairly | arbitration/cs/distributednodeserver.go:510-623 | Over every run, once enough arbiters have answered, the timer asks different ones of them under a new transaction, the proposer exactly if it is listed, and passes over no listed one for one with a larger count; the payload names them unless a position is beyond a byte |
| SchnorrRuns.EntriesAreWriteOnce | arbitration/cs/distributednodeserver.go:472-507 | Between Resets, points and keys of an R entry never change, and its nonce only when its transaction is submitted |
| SchnorrRuns.SpentNoncesSum | arbitration/cs/distributednodeserver.go:713-726 | The aggregation leaves in the store, for each signer, its nonce with the sign of the summed point plus its share, other entries unchanged; the submitted signature is the sum of these |
| SchnorrRuns.ForgedIsNothing | arbitration/cs/distributeditem.go:234-270 | An answer of either phase with a signature that is not the signer's changes nothing |
| SchnorrRuns.AccountsBalance | arbitration/cs/distributednodeserver.go:630-653 | Over every run, the counter of a signer is rounds listed plus rounds without its R share less S shares accepted (for the proposer only the missing R shares), and at least the rounds it still owes |
| SchnorrRuns.InCredit | arbitration/cs/distributednodeserver.go:693-697 | The exit "not found in UnsignedSigners", which leaves the mutex locked, is never taken for an asked signer |
| SchnorrServer.GetK | arbitration/crypto/schnorr.go:110-115 | The result is the stored nonce object itself, negated in place or left alone |
| SchnorrServer.GetE | arbitration/crypto/schnorr.go:95-104 | The loop computes the hash of the summed points and the message |
| SchnorrServer.SpendNonce | arbitration/cs/distributednodeserver.go:722-724 | One turn of the aggregation loop changes the nonce of this signer and no other, as nonces are objects of their own |
| SchnorrServer.AddUpPoints | arbitration/cs/distributednodeserver.go:703-711 | For any order in which the map is walked, the loop adds up the points of the signers with both entries |
| SchnorrServer.AddUpShares | arbitration/cs/distributednodeserver.go:713-725 | For any order in which the map is walked, the loop returns the sum of the sign-adjusted nonces and shares of their values at the start, and stops exactly if some share has no nonce |
| SchnorrServer.Choose | arbitration/cs/distributednodeserver.go:551-558 | Taking keys until the set has the required size takes that many from the front, or all |
| SchnorrServer.PickSigners | arbitration/cs/distributednodeserver.go:560-575 | The loop over the arbiter list yields the asked keys and their byte positions |
| SchnorrServer.GiveCredit | arbitration/cs/distributednodeserver.go:630-653 | The accounting loop gives each listed arbiter a unit per missing R share and, but for the proposer, a unit per round |
| SchnorrServer.ComputeChallenge | arbitration/cs/distributednodeserver.go:600-616 | Gathering the points of the asked keys and hashing them gives the challenge of the request |
| SchnorrServer.Nonces.Record | arbitration/cs/distributednodeserver.go:151-167 | A new nonce object enters the entries of one proposal, all other values unchanged, and no two entries share an object |
| SchnorrServer.Nonces.SumShares | arbitration/cs/distributednodeserver.go:713-725 | Aggregation in place changes the nonces of one proposal only, as specified, and returns the sum over their old values |
| SchnorrServer.Server.Propose | arbitration/cs/distributednodeserver.go:265-301 | The new state and outcome of opening a proposal |
| SchnorrServer.Server.RecordKRPOfMyself | arbitration/cs/distributednodeserver.go:151-167 | The new state and outcome of recording the proposer's own nonce after the mutex was released: refused without a nonce, a crash if a Reset came in between |
| SchnorrServer.Server.AnswerR | arbitration/cs/distributednodeserver.go:472-508 | The new state and outcome of an R answer: the first of a signer counts |
| SchnorrServer.Server.StartRound | arbitration/cs/distributednodeserver.go:510-656 | The new state and outcome of opening the S phase, for any sorting result |
| SchnorrServer.Server.ReceiveS | arbitration/cs/distributednodeserver.go:658-754 | The new state and outcome of an S answer, including aggregation in place and the exit that keeps the mutex |
| SchnorrServer.Server.Reset | arbitration/cs/distributednodeserver.go:52-58 | Proposals are forgotten, signer credit is not |
| Quorum.RequiredIsAllButAThird | arbitration/cs/distributednodeserver.go:124-132 | Outside the middle range the required number is n - floor((n-1)/3), all but the largest minority below a third |
| Quorum.RequiredIsTwoThirds | arbitration/cs/distributednodeserver.go:128-129 | In the middle range it is the largest number that is no more than two thirds of n |
| Quorum.QuorumsShare | arbitration/cs/distributednodeserver.go:124-132 | Two quorums share more than n/3 arbiters, in the middle range at least (n-4)/3 |
| Quorum.QuorumsMeetIff | arbitration/cs/distributednodeserver.go:124-132 | In the middle range all quorums meet if and only if n is none of 0, 1, 2, 4; outside of it they always do, but for n = 0 |
| Quorum.CountsOneTooMany | arbitration/base/txutils.go:60-65 | k scripts of 65 bytes are counted as k + floor(k/64), and the count reaches the requirement exactly from SubmittedAt on |
| Quorum.CountIsExactUpTo95 | arbitration/base/txutils.go:60-65 | Under the 2n/3+1 rule submission comes at the required number exactly for 2 to 95 arbiters |
| Multisig.RecheckIsInert | arbitration/base/txutils.go:37-58 | Signatures over the unsigned form never verify over the full form, so the re-check never refuses |
| Multisig.ProposalOpensIff | arbitration/cs/distributednodeserver.go:360-388 | A proposal is opened, with the proposer's signature alone, if and only if it is not pending, the proposer is listed, and two positions of the list are not blank |
| MultisigRuns.SubmissionsAreSafe | arbitration/cs/distributednodeserver.go:417-470 | Over every run with changing arbiter lists and Reset: signatures are genuine and of distinct signers, the proposer first and the others from the redeem script; opened proposals are submitted, forgotten or open exactly once |
| MultisigRuns.SubmissionsMatchTheRecord | arbitration/cs/distributednodeserver.go:372-468 | As the callers build a new transaction for every proposal, a submitted transaction carries the signatures of exactly the signers on record |
| MultisigRuns.SubmittedWithExactly | arbitration/cs/distributednodeserver.go:448-468 | While the requirement T stays the same, every submission has exactly max(2, T - floor(T/65)) signatures: T for 2 to 64, fewer above |
| MultisigRuns.FeedbackIsConfluent | arbitration/cs/distributednodeserver.go:417-470 | What becomes of an open proposal depends only on the set of genuine senders: submitted once if and only if its signatures and the senders not on record suffice |
| MultisigRuns.ProposalIsSubmittedIff | arbitration/cs/distributednodeserver.go:338-470 | A fresh proposal is submitted, once, if and only if proposer and genuine senders make up the number at which the count by length reaches the requirement, which is the requirement itself exactly for 2 to 64 |
| MultisigRuns.ReproposalForgetsSignatures | arbitration/cs/distributednodeserver.go:372-388 | A property of the handler that no caller uses: a pending transaction object handed in again would be submitted if and only if the proposer and genuine senders not yet on record suffice |
| MultisigRuns.SubmittedProposalsOverlap | arbitration/cs/distributednodeserver.go:457-468 | Two transactions submitted under the same arbiters share at least twice the signatures they carry less n: more than a third up to 95 arbiters, two thirds of a signer less for every 65 signatures required beyond, and always somebody outside the middle range |
| MultisigServer.SignerIndex | arbitration/cs/txdistributedcontent.go:257-270 | The first position of the signer in the script, -1 if and only if it is not there |
| MultisigServer.MergeSignToTransaction | arbitration/base/txutils.go:31-66 | The script is appended unless the re-check finds the signer; the count is by length |
| MultisigServer.Server.Propose | arbitration/cs/distributednodeserver.go:338-388 | The new state and outcome of a proposal, refused without two keys for the redeem script or the own among them, the parameter being set before the pending map is consulted |
| MultisigServer.Server.Receive | arbitration/cs/distributednodeserver.go:417-470 | The new state and outcome of a feedback, with the checks in the code's order |
| CoinSelection.SelectInputs | arbitration/mainchain/mainchainImpl.go:406-435 | The loop computes the selection, in all six places it stands |
| CoinSelection.SelectionBalances | arbitration/mainchain/mainchainImpl.go:168-199 | For totals not negative: success if and only if the outputs offered cover the total; inputs are a prefix and equal total plus change |
| CoinSelection.SelectionIsShortest | sideauxpow/txbuilder.go:58-88 | For a positive total the inputs are the shortest sufficient prefix and the change is less than the last input |
| Withdrawals.ConvAdd | arbitration/mainchain/mainchainImpl.go:384-398 | Converting two amounts apart loses between 0 and 1 units against converting their sum |
| Withdrawals.ConvIs | arbitration/mainchain/mainchainImpl.go:384-398 | The converted amount is the largest number of units that the rate allows, for a negative amount its mirror image |
| Withdrawals.FlattenInOrder | arbitration/mainchain/mainchainImpl.go:113-124 | The payouts of a batch stand in the order of its withdrawals, each under its hash |
| WithdrawBuilder.ParseUserWithdrawTransactions | arbitration/mainchain/mainchainImpl.go:113-124 | Every asset in order with the hash of its withdrawal |
| WithdrawBuilder.CreateWithdrawTransaction | arbitration/mainchain/mainchainImpl.go:363-462 | The inputs and outputs of the built transaction, or none if a target does not parse or the money does not suffice |
| WithdrawBuilder.BuildIff | arbitration/mainchain/mainchainImpl.go:363-462 | A transaction is built if and only if every target parses and the outputs offered cover what is taken; it pays each payout in turn, converted, under its withdrawal, and the bank what the inputs hold beyond that |
| WithdrawBuilder.FilterWithdrawals | arbitration/sidechain/sidechainimpl.go:464-489 | The filter loop keeps the proposable withdrawals, in order |
| WithdrawBuilder.ChooseBatch | arbitration/sidechain/sidechainimpl.go:494-523 | The transaction proposed is built from the largest batch, a multiple of 100 or everything, that can be built and fits a block; none if there is none |
| WithdrawBuilder.BatchSizes | arbitration/sidechain/sidechainimpl.go:494-523 | The batches tried are every hundred and everything |
| WithdrawChecker.FindChain | arbitration/cs/txdistributedcontent.go:624-652 | Succeeds if and only if some output names a withdrawal, the first names a known chain and all name the same; the hashes in order |
| WithdrawChecker.AddUpOutputs | arbitration/cs/txdistributedcontent.go:710-729 | The total, and per ordinary address exactly what it receives |
| WithdrawChecker.AddUpWithdrawals | arbitration/cs/txdistributedcontent.go:731-762 | Fails if and only if some asset is frozen or has bad amounts; otherwise fees, credits and what is owed per target |
| WithdrawChecker.CompareAddresses | arbitration/cs/txdistributedcontent.go:792-799 | True if and only if every paid address is owed, after conversion, exactly what it is paid |
| WithdrawChecker.CheckWithdraw | arbitration/cs/txdistributedcontent.go:622-807 | The loops and maps decide exactly the acceptance condition, with rows in any order and the fallback to the side chain |
| WithdrawChecker.CheckWithdrawOld | arbitration/cs/txdistributedcontent.go:311-474 | The same for the older format, where frozen targets are looked for only in answers of the side chain |
| WithdrawSoundness.AddressCarry | arbitration/cs/txdistributedcontent.go:792-799 | For m payouts to one address, the converted total exceeds the sum of converted payouts by 0 to m-1 units |
| WithdrawSoundness.FeeRounding | arbitration/cs/txdistributedcontent.go:751-769 | The fee the built transaction implies exceeds the checker's fee by 0 to n units, one for each asset that carries |
| WithdrawSoundness.AcceptedIsSound | arbitration/cs/txdistributedcontent.go:705-806 | At any rate, if the amounts of a transaction with outputs not negative add up for the loaded list of payouts: ordinary addresses are paid exactly what the list owes them, repetitions included, other bank addresses nothing, the bank gets inputs less fees and payouts |
| WithdrawSoundness.AcceptedAtRateOne | arbitration/cs/txdistributedcontent.go:705-806 | At rate 1 addresses are paid exactly what the list owes them, repetitions included, and the bank gets inputs less the sum of Amounts |
| WithdrawSoundness.OldCheckIsSound | arbitration/cs/txdistributedcontent.go:311-474 | The older check pays the loaded list as exactly; a frozen target passes only if all rows come from the checker's own database |
| WithdrawExactness.AcceptedPaysOnceIff | arbitration/cs/txdistributedcontent.go:622-807 | Whoever built it, an accepted transaction pays every ordinary address exactly what the set of withdrawals it names owes that address, if and only if the payouts of withdrawals named more than once convert to nothing, so always if none is; other bank addresses get nothing |
| WithdrawExactness.OldAcceptedPaysOnceIff | arbitration/cs/txdistributedcontent.go:311-474 | The same for the older check and the list in the payload |
| WithdrawExactness.PaidIsOwedAndExcess | arbitration/cs/txdistributedcontent.go:782-806 | An address is paid what the set owes it plus the converted payouts of the repetitions, never less |
| WithdrawExactness.BankAtRateOne | arbitration/cs/txdistributedcontent.go:764-806 | At rate 1 the bank gets inputs less what the set took and less what the repetitions took |
| WithdrawExactness.ListedTwiceIsPaidTwice | arbitration/cs/txdistributedcontent.go:663-703 | Any payable withdrawal with one ordinary target, listed twice, makes a transaction that peers accept and that pays it twice |
| WithdrawExactness.AcceptedIff | arbitration/cs/txdistributedcontent.go:622-807 | A transaction is accepted if and only if its withdraw outputs all name one known chain, what they list can be loaded, no target is frozen, every payout is not negative and leaves a fee, and the amounts add up |
| WithdrawExactness.FrozenPayoutIsRefused | arbitration/cs/txdistributedcontent.go:735-738 | An input: a payout of 10000 to a frozen address, listed in the checker's own table, whose amounts add up, is refused |
| WithdrawExactness.FrozenPassIff | arbitration/cs/txdistributedcontent.go:326-376 | The older check refuses a transaction whose amounts add up if and only if a target is frozen and the checker lacks a listed row or some row is listed twice |
| WithdrawCompleteness.BuiltIsAcceptedIff | arbitration/mainchain/mainchainImpl.go:363-462 | A built transaction is accepted by a peer if and only if the peer sees the assets proposed, in its own rows or else in full answers of the side chain, every withdrawal has one asset, no target is a bank address, and no conversion carries, per asset or per address; repeated withdrawals are no hindrance, nor is a side chain that does not answer a peer with all rows |
| WithdrawCompleteness.SeveralAssetsOvercount | arbitration/cs/txdistributedcontent.go:663-703 | A withdrawal with several assets sends the checker to the side chain, where it is loaded once per asset and counted too often, if it is found at all |
| WithdrawCompleteness.DroppedAssetsOvercount | arbitration/sidechain/sidechainaccountmoniter.go:396-432 | A withdrawal of which the proposer's scanner dropped assets is counted too often, or not found, by a peer that looks it up over RPC |
| WithdrawCompleteness.OwnRowsIff | store/datastore.go:691-731 | The checker uses its own rows if and only if it has one for every listed hash and none is listed twice |
| WithdrawCompleteness.OrdinaryWithdrawalsAreAccepted | arbitration/mainchain/mainchainImpl.go:363-462 | At rate 1, one-asset withdrawals to ordinary addresses are built if and only if the money covers them, and then accepted by exactly the peers that see the assets proposed |
| WithdrawCompleteness.ProposedBatchIsAccepted | arbitration/sidechain/sidechainimpl.go:444-534 | So is whatever batch of the filtered rows the proposer chooses |
| WithdrawBuilder.FilterKeeps | arbitration/sidechain/sidechainimpl.go:464-489 | The filter keeps a withdrawal, as often as it comes, if and only if it has payouts and each of them is positive, leaves a fee of at least 10000, and goes to an address that parses and is not frozen |
| WithdrawBuilder.FilterInOrder | arbitration/sidechain/sidechainimpl.go:464-489 | What it keeps stands in the old order |
| WithdrawCompleteness.HalvesAreRefused | arbitration/cs/txdistributedcontent.go:751-769 | At rate 2 a proposable withdrawal of 10002 with payout 1 is built and refused |
| Refunds.CreateFailedDepositTransaction | arbitration/mainchain/mainchainImpl.go:126-222 | The inputs and outputs of the built transaction, or none |
| Refunds.BuildIff | arbitration/mainchain/mainchainImpl.go:126-222 | A transaction is built if and only if every stored target parses and the outputs offered cover the deposits; it returns each in turn, less the fee and converted, and gives the bank what the inputs hold beyond them |
| Refunds.CheckReturnDeposit | arbitration/cs/txdistributedcontent.go:530-611 | The loop accepts exactly when every refund is exact up to the end or up to a payer that cannot be looked up |
| Refunds.AcceptsIff | arbitration/cs/txdistributedcontent.go:530-611 | A transaction is accepted if and only if its refunds are exact up to its end or up to one whose deposit a known chain reports as failed and whose payer cannot be looked up |
| Refunds.AcceptedIsExactIff | arbitration/cs/txdistributedcontent.go:530-611 | An accepted transaction returns in every refund what its failed deposit locked, less the fee, to its payer, if and only if all payers can be looked up |
| Refunds.AcceptedReturnsOnceIff | arbitration/cs/txdistributedcontent.go:530-611 | Acceptance means that refunds are exact, everybody but the bank gets what the set of named deposits returns to him, once, and the rest goes back to the bank, if and only if all payers can be looked up and outputs that are no refunds or repeat one pay only the bank; inputs play no part |
| Refunds.ExtraIsAccepted | arbitration/cs/txdistributedcontent.go:536-542 | Any other output, or a refund once more, in favour of anybody, added to exact refunds, is accepted and pays more than is due |
| Refunds.UnknownPayerEndsTheCheck | arbitration/cs/txdistributedcontent.go:564-571 | A payer that cannot be looked up ends the check with acceptance whatever follows |
| Refunds.BuiltIsAcceptedIff | arbitration/mainchain/mainchainImpl.go:126-222 | A transaction built from stored deposits that the peer can look up is accepted if and only if each stored target is the payer and the converted refund is what the main chain counts for the bank, less the fee; at rate 1, if the amounts agree |
| Refunds.BuiltReturnsOnce | arbitration/mainchain/mainchainImpl.go:126-222 | An accepted transaction that the builder made of different deposits returns each exactly once and the rest to the bank |
| Refunds.OneFeeEach | arbitration/mainchain/mainchainImpl.go:126-222 | At any rate inputs exceed outputs by the converted amounts less the converted refunds, at rate 1 by exactly one fee for each deposit |
| FinishedStore.FirstWriterWins | store/finishedtxstore.go:445-565 | After any calls, crashes included, a lookup gives the verdict of the first call that named the hash, with the bytes of that call, and failed rows refer to existing rows |
| FinishedStore.VerdictsStay | store/finishedtxstore.go:445-511 | A recorded verdict is never changed by later calls |
| FinishedStore.Store.AddFailedWithdrawTxs | store/finishedtxstore.go:445-485 | The bytes get the next Id, and hashes not yet known refer to it |
| FinishedStore.Store.AddSucceedWithdrawTxs | store/finishedtxstore.go:487-511 | Hashes not yet known are recorded as succeeded |
| FinishedStore.Store.AddDepositTxs | store/finishedtxstore.go:304-356 | Deposits not yet known get the verdict, known ones keep theirs |
| FinishedStore.Store.GetWithdrawTxByHash | store/finishedtxstore.go:526-565 | The verdict and bytes of a hash, or none |
| Settlement.DuplicatesAreRefused | arbitration/arbitrator/arbitrator.go:296-315 | In the order of the branches every failing call and every code but the one for another try is a refusal, a duplicate included, and success means no error and a result |
| Settlement.RepetitionIsHarmless | arbitration/arbitrator/arbitrator.go:318-337 | Moving the whole list once per element is moving it once |
| Settlement.SendSettles | arbitration/arbitrator/arbitrator.go:283-338 | A deposit stays pending if and only if every answer asked for another try; otherwise it is finished, failed if some answer refused it, unless it had a verdict |
| Settlement.PendingIff | arbitration/mainchain/mainchainImpl.go:72-99 | Over every run, the pending deposits are those inserted and not taken out since, by an answer that refuses or takes them, a report of the side chain, or a removal |
| Settlement.FirstEventDecides | arbitration/mainchain/mainchainImpl.go:641-695 | Over every run, a deposit is finished under what the first event that records it says: succeeded for a report of the side chain; for a round of sending failed exactly if a call failed or brought a code other than 45022, else succeeded; for a call of the store alone what it says |
| Settlement.DepositsAreConserved | arbitration/mainchain/mainchainImpl.go:72-99 | Over every run of inserts, sends, clean-ups, and removals or verdicts alone where a statement fails or the program stops: a deposit ever inserted is pending or finished unless it never got a verdict and was last removed without one |
| Settlement.VerdictStands | arbitration/mainchain/mainchainImpl.go:641-695 | The verdict of a finished deposit stands for the rest of the run |
| Settlement.Sender.SendDepositTransactions | arbitration/arbitrator/arbitrator.go:283-338 | The loops move exactly the classified deposits |
| Settlement.Sender.CleanUp | arbitration/mainchain/mainchainImpl.go:681-691 | What the side chain reports leaves the pending table as succeeded |
| WithdrawSettlement.Submitter.FindStore | arbitration/cs/txdistributedcontent.go:62-90 | The loop finds the data store of the one known chain that all withdraw outputs name, or by the payload in version 0; it fails without store or agreement and crashes without a withdraw output |
| WithdrawSettlement.LocateIff | arbitration/cs/txdistributedcontent.go:62-90 | A store is found for a chain if and only if the node has it and the payload names the chain, in version 0, or the node knows the chain and all withdraw outputs, of which there are some, name it; the crash comes exactly without any |
| WithdrawSettlement.Submitter.SubmitWithdrawTransaction | arbitration/cs/txdistributedcontent.go:48-137 | The new tables after a submission: nothing without a store, otherwise the listed hashes under the verdict of the answer |
| WithdrawSettlement.SubmitMovesIff | arbitration/cs/txdistributedcontent.go:48-137 | A withdrawal leaves the pending table of its chain if and only if this chain's store is found, the payload lists it, and the call failed, brought a code other than 45010, or brought a result without a code; without an earlier verdict it then stands as failed with the bytes, in the first two cases, or as succeeded |
| WithdrawSettlement.MadeIsMoot | arbitration/mainchain/mainchainImpl.go:464-566 | What the old builder made crashes when its store is looked for; what the other two made finds its store, if the node has it, and lists nothing |
| WithdrawSettlement.MadeMovesNothing | arbitration/cs/txdistributedcontent.go:48-137 | So no submission of any of the three builders' transactions moves a withdrawal or gives one a verdict, whatever the answer |
| WithdrawSettlement.PendingIff | arbitration/sidechain/sidechainimpl.go:281-334 | Over every run, the pending withdrawals of each chain are those entered and not taken out since, by a report or a verdict that names chain and withdrawal, or by a deletion |
| WithdrawSettlement.FirstEventDecides | arbitration/sidechain/sidechainimpl.go:320-331 | Over every run, looking a withdrawal up gives what the first event that settles it says: paid, for a report of the main chain; for a submission failed with its bytes if the call failed or brought a code other than 45010, else paid; for a call of the store alone what the call says |
| WithdrawSettlement.Submitter.CleanUp | arbitration/sidechain/sidechainimpl.go:320-331 | What the main chain reports as paid leaves the pending table of its side chain as succeeded |
| WithdrawSettlement.OnlyReportsSettle | arbitration/sidechain/sidechainimpl.go:281-334 | Over every run that submits only such transactions, a withdrawal has a verdict if and only if the main chain reported it as paid or the store was called for it alone; until then it stays pending, its row not being deleted |
| WithdrawSettlement.WithdrawalsAreConserved | arbitration/sidechain/sidechainimpl.go:281-334 | The same for withdrawals, over every run of entering, submitting, cleaning up and interruptions, on any number of side chains |
| Backlog.SubtractTransactionHashes | arbitration/base/txutils.go:85-94 | The hashes not in the second list, in order |
| Backlog.SubtractKeeps | arbitration/base/txutils.go:85-94 | Exactly the hashes not in the second list are left, each as often as before |
| Backlog.CandidateIff | arbitration/sidechain/sidechainimpl.go:281-334 | A pending withdrawal is a candidate for the proposal if and only if it is among the first rows, not reported as paid, and proposable |
| Backlog.NothingToProposeIff | arbitration/sidechain/sidechainimpl.go:281-334 | There is no candidate if and only if each of the first rows is reported as paid or not proposable |
| Backlog.TargetsInOrder | arbitration/sidechain/sidechainimpl.go:301-320 | The candidates stand in table order, none more often than in the table |
| Backlog.InTableIff | store/datastore.go:560-642 | Over every run, the withdrawals in the table are those that were there or have been scanned and have not left since |
| Backlog.HeadStays | store/datastore.go:560-642 | Over every run of scans, removals and proposals, the first rows keep their places until one of them is reported as paid or settled |
| Backlog.HeadStarvesTheRest | arbitration/sidechain/sidechainimpl.go:301-311 | Once none of the first rows is proposable, and until one of them is reported as paid or settled, no later call proposes anything, whatever is scanned meanwhile |
| Scan.NoBlockIsSkipped | arbitration/sidechain/sidechainaccountmoniter.go:119-190 | Over every run with crashes and failing calls: all blocks up to six behind the stored height have been read, an interval while no update fails, and their withdrawals entered unless the listener failed |
| Scan.NoEvidenceIsSkipped | arbitration/sidechain/sidechainaccountmoniter.go:138-144 | Over every run, each block behind the configured start up to the stored height has been searched for illegal evidence |
| Scan.StoredEveryThousand | arbitration/sidechain/sidechainaccountmoniter.go:119-190 | However the calls of a pass go, while no update fails: n turns move the cursor n blocks, the height is stored whenever the count from 1 is a multiple of 1000, and at the end of the pass; so a crash costs at most 999 turns |
| Scan.FailedUpdateGoesBack | store/datastore.go:533-558 | An update that fails at such a turn leaves the stored height and sends the cursor to 0 |
| Scan.EndsThePassIff | arbitration/sidechain/sidechainaccountmoniter.go:127-144 | Before the height of the chain, a pass ends exactly by a failing call for a block, for evidence, or of the NFT scan |
| Scan.NothingAfterTheEnd | arbitration/sidechain/sidechainaccountmoniter.go:126-144 | After that nothing is read or entered until the next pass begins |
| Scan.NoWithdrawalIsLost | arbitration/sidechain/sidechainaccountmoniter.go:377-464 | While the listener works, every withdrawal up to six behind the stored height is pending or settled |
| Scan.KnownIffEntered | arbitration/sidechain/sidechainaccountmoniter.go:377-464 | Over every run, a withdrawal is pending or settled if and only if some turn of the loop read a block that holds it with the call and the listener both succeeding |
| Scan.LostIff | arbitration/sidechain/sidechainaccountmoniter.go:458-463 | A withdrawal up to six behind the stored height has had its block read; it is lost if and only if no such turn happened, and then the listener failed for its block |
| Scan.OneFailureLosesABlock | arbitration/sidechain/sidechainaccountmoniter.go:458-463 | An input at which it is: one failing listener call loses the withdrawals of its block although the stored height passes it |
| Scan.Monitor.SyncChainData | arbitration/sidechain/sidechainaccountmoniter.go:119-352 | The loop, stopped anywhere, is a run of the system |
| Scan.Monitor.CurrentSideHeight | store/datastore.go:533-558 | The stored height and the result, 0 if the update fails |
| Codec.ShareFits | arbitration/cs/txschnorrrequestscontent.go:90-102 | An unreduced share of two 32-byte numbers needs at most 64 bytes, below the limit of 65 |
| Codec.BigEndian | arbitration/cs/txschnorrrequestrcontent.go:23-43 | Of the bytes of a big integer those in front count for more |
| Codec.ItemLayout | arbitration/cs/distributeditem.go:319-376 | What stands on the wire, item by item, for each of the eight type tags and for an unknown one |
| Codec.Limits | arbitration/cs/distributeditem.go:378-469 | The limits of the reader in bytes, by type tag |
| Codec.NoTransaction | arbitration/cs/distributeditem.go:378-412 | A proposal whose content does not start like a transaction is read without an error and without content; one whose transaction breaks off is an error |
| Codec.ItemRoundTrip | arbitration/cs/distributeditem.go:319-469 | For every type tag: reading what was written restores exactly the carried fields and leaves the rest of the stream, if they fit the limits, and fails otherwise |
| Codec.SRoundTrip | arbitration/cs/txschnorrrequestscontent.go:28-105 | The same for the content of the S phase |
| Codec.KrpRoundTrip | arbitration/cs/txschnorrrequestrcontent.go:23-73 | The same for a nonce with its points |
| Codec.WithdrawRoundTrip | arbitration/base/txinfo.go:75-157 | Deserialize takes a stored withdrawal without error if and only if no target has more than 1024 bytes of data |
| Codec.WithdrawLayout | arbitration/base/txinfo.go:75-95 | A stored withdrawal holds its hash, the number of its targets, and for each address, amount, payout and data, in this order |
| Codec.TableRowRoundTrip | store/datastore.go:691-731 | A row of the pending table reads, without an error, as the withdrawal with the targets in front of the first oversized one, so whole if and only if none is |
| CodecStreams.DistributedItem.Serialize | arbitration/cs/distributeditem.go:319-376 | What the method appends to the stream |
| CodecStreams.DistributedItem.Deserialize | arbitration/cs/distributeditem.go:378-469 | What the method reads, fills in and leaves; what does not start like a transaction ends a transaction message without an error and without content |
| CodecStreams.SerializeS | arbitration/cs/txschnorrrequestscontent.go:28-56 | What the method appends, key by key |
| CodecStreams.DeserializeS | arbitration/cs/txschnorrrequestscontent.go:62-105 | What the method reads, key by key |
| CodecStreams.SerializeWithdraw | arbitration/base/txinfo.go:75-95 | What the method appends, asset by asset |
| CodecStreams.DeserializeWithdraw | arbitration/base/txinfo.go:97-157 | What the method reads, asset by asset, and what the record holds after a failure |
| RedeemScript.CreateMultiSignRedeemScript | arbitration/base/script.go:17-43 | The loop writes the specified script, which RedeemScript.ScriptSpells spells out |
| RedeemScript.ScriptSpells | arbitration/base/script.go:17-43 | For m of n keys the script begins with 0x50 + m, holds each key behind the byte 33, and ends with 0x50 + n and 0xAF |
| RedeemScript.ScriptsDiffer | arbitration/base/script.go:17-43 | While both numbers fit an opcode, the script tells the required number, the number of keys, and the keys |
| RedeemScript.ReadIff | arbitration/cs/distributeditem.go:496-521 | Any bytes are taken apart if and only if there are at least 71, the last is 0xAF, and between the numbers are whole pieces of 34 bytes; these are the result |
| RedeemScript.GetMultiSignPublicKeys | arbitration/cs/distributeditem.go:496-521 | The pieces read by the loop, or none by length or last byte |
| RedeemScript.ScriptRoundTrip | arbitration/cs/distributeditem.go:496-521 | A created script gives back its keys in order if and only if there are at least two |
| RedeemScript.OnlyListedArbitersSign | arbitration/cs/distributeditem.go:83-107 | Exactly the listed arbiters can sign, for at least two of them, however the keys are sorted |
| Duty.OnDuty | rpc/jsonrpc.go:111-131 | The index on duty in both eras, with the uint32 wrap at the first block of the second; later the main node is asked, except at height 2^32-1, which wraps around to the first |
| Duty.EveryoneOnce | rpc/jsonrpc.go:111-131 | Within an era, n consecutive heights put each of n arbiters on duty exactly once |
| Duty.DutyIsNoticed | arbitration/arbitrator/arbitratorgroup.go:120-145 | After a check with a duty string the flag says whether it is this arbiter's key; callbacks alternate, starting with coming on duty, but for a repeat at CRClaimDPOSNodeStartHeight |
| Duty.TellsExactly | arbitration/arbitrator/arbitratorgroup.go:120-145 | Over any checks, the flag is that of the last one with a duty string, and the next is told to the listener, with its height and duty, if and only if it has a duty string and is a change, or repeats being on duty at CRClaimDPOSNodeStartHeight |
| Duty.Group.CheckOnDutyStatus | arbitration/arbitrator/arbitratorgroup.go:120-168 | The new flag and callbacks of one check |

## Left out

- Sorting: the comparators of the signer selection and of the UTXO list are not strict weak orders. The signer selection takes any result in the intended order, self first, then signers without an entry, then by count; input selection takes any list.
- SchnorrProtocol: the curve library failing and `CreateSchnorrRedeemScript` failing are not modelled.
- After a step that crashes, a run of the model goes on with the state before it; the source's process would end. It ends on recording the own nonce after a Reset, and on submitting without a withdraw output.
- SchnorrServer.GiveCredit: counters are unbounded, the source's are uint64.
- SchnorrServer.Nonces: the nested map of nonces is a class of its own here, a field of the node server in the source.
- SchnorrRuns: answers with a valid signature of a signer that was not asked or does not keep to its nonce and key, which `SchnorrProtocol.TakenOrLocked` has for one answer, and a run in which the threshold is 1, where aggregation is never reached because it runs only on an answer. A signer tests a transaction when it first sees it; `needed` in an answer is what it required then.
- MultisigServer.Server.Receive: merging and recording happen outside the inner mutex in the source, under the outer one; the model takes the handler as one step.
- Multisig: a redeem script is the list of its keys; that a script yields its keys is `RedeemScript`.
- WithdrawBuilder.CreateWithdrawTransaction: attributes and programs; the other two builders have the same inputs and values, and `WithdrawSettlement` what their payloads and outputs say.
- WithdrawChecker.CheckWithdraw: payload versions and the signer count of the Schnorr payload; a failing database query counts as an empty table, on which the source falls back in the same way.
- Refunds.CheckReturnDeposit: payload versions and types of the deposit transactions, and the signer count of the Schnorr payload.
- Amounts are unbounded integers; overflow of the 64-bit Fixed64 is not modelled.
- What the main node tests before it takes a transaction, such as whether a withdrawal was paid before, is not part of this model.
- CoinSelection: `removeLockedUTXOs` and the extra zero output of the side-mining builder.
- Scan: failed-deposit and NFT scanning, whose errors after the cursor has moved skip a block there; the content of evidence.
- Scan.Monitor.SyncChainData: the filter of malformed and frozen withdrawals inside a block is the function from heights to valid withdrawals.
- Codec: the item encoding of the ELA library itself, and its tolerance for records that end before the target data; a transaction message whose content is not recognised leaves the stream a byte or two further on than the model says, where nothing is read any more. Writing a transaction message without content, which the source cannot do, is outside the model.
- WithdrawSettlement.Submitter.SubmitWithdrawTransaction: serializing the transaction for the store does not fail; a failing statement is an event of the runs.
- RedeemScript: validity of keys as curve points.
- Duty: the arbiters after the configured eras, which the main node names.
- Illegal evidence, complaints, mining submission, registration of side chains, small transfers, return of deposits, NFT destruction: remote calls around the parts above.
- HTTP, P2P, SPV, wallet, configuration and logging.
