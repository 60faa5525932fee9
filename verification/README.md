# A verified model of the Yggdrasil Cardano node

Yggdrasil is a Cardano node in Rust. This project models its most intricate logic in Dafny and
proves, for all inputs and whole runs, what that logic is meant to guarantee.

- **Epoch boundary and Conway governance** (`Sums`, `Addresses`, `Governance`, `Payout`, `Ratify`, `Boundary`,
  `Accounts`, `LedgerState`, `GovernanceRuns`, `GovernanceKinds`). `LedgerState` is a class whose methods
  credit rewards, apply instantaneous rewards (MIR), retire pools, update the pots, ratify, enact, prune,
  expire and refund in place. Each is proved against a transition on ledger values, and the theorems are about that
  transition: the proposal forest, one refund per vanished proposal, exclusive delaying actions,
  unbroken lineages, what each single account receives, and the balance of lovelace across the whole
  boundary and over whole runs of transactions and boundaries. The outcome of the reward calculation and
  of the votes are parameters: rewards obey only the balance they promise, votes are an arbitrary predicate.
- **SumKES** (`SumKes`). Key generation, evolution, signing and verification over the flat byte
  layout. Ed25519 and Blake2b-256 are parameters; all that is asked of them is the size of their
  output and that an honest base signature verifies. What a verified signature binds holds up to a hash
  collision, and that an evolved key holds only future leaves holds up to a seed of zeros, which a seed
  derived by hashing has only by chance: the code uses zeros as its mark for an erased seed
  (`PathBinding`, `SeedsDiffer` and `PastLeavesGone` return the collision, `OnlyFutureLeaves` is an
  equivalence with the hypothesis on seeds).
- **CBOR** (`Utf8`, `CborWire`, `CborItems`, `CborForms`, `CborSpans`, `CborArrays`, `CborTokens`, `CborCodec`,
  `CborCerts`, `CborCertForms`, `CborCertGrammar`, `CborCertCodec`). Wire-level readers and byte forms, the
  item grammar of the skipper, the span extractor, and the certificate codec with the trees it writes and
  exactly the bytes it accepts, where text is UTF-8 by section 4 of RFC 3629. `Encoder` and `Decoder` are
  classes with a growing buffer and a moving position, proved against the wire-level functions.
- **Byte-level arithmetic and exact rationals** (`Bytes`, `VrfReduce`, `BlsScalar`, `Fees`). Carry
  loops over byte buffers, Horner reduction, binary gcd and reduced fractions. The fee loops run over naturals,
  where they are exact, and over 128 bits with wrap-around, as the code does.
- **Small state machines** (`ChainState`, `NativeScript`). The volatile window of the chain and the
  two-stack script evaluator.

## Where the code falls short of the law

Each of these is stated with the exact condition under which the law holds.

- Lovelace. MIR runs before the expansion is subtracted from the reserves, both saturating. If MIR
  leaves less than the expansion, lovelace is created (`MirBeforeExpansionLeaks`). A withdrawal whose
  64-bit total wraps around may pay more than the treasury holds, and the saturating debit creates the
  rest (`OverflowCreatesLovelace`). The boundary conserves lovelace exactly when no subtraction clamps
  (`LovelaceConserved`), MIR amounts that take from accounts included. In every state reached by transactions
  and boundaries deposit refunds do not clamp; MIR, the expansion and enacted withdrawals may
  (`ReachableConserves`). Over a whole run the
  supply is what was there plus what transactions brought in exactly when no boundary of the run clamps,
  and otherwise it is more (`RunSupply`).
- Withdrawal budget. The total of one withdrawal proposal is a 64-bit sum that wraps in a release
  build (`OverflowDefeatsBudget`). Whatever the votes, the enacted withdrawals fit the treasury exactly
  when a live delaying proposal is pending or no pending withdrawal passes the treasury only by
  wrapping around (`WithdrawalsWithinTreasury`), and then no withdrawal clamps (`BudgetConserves`).
  Unregistered accounts are paid nothing, so withdrawals may be covered without that: the exact condition
  for all votes is that a live delaying proposal is pending or that every set of pending proposals that
  fits by its wrapped totals also pays no more than the treasury holds (`CoveredWhateverVotes`, `AlwaysCovered`).
- Fees. The products and sums of the fee loops wrap at 2^128 and the fee is truncated to 64 bits. For all execution
  prices of 64-bit parts the script fee is the one due exactly when that is a 64-bit number and the numerator of the
  sum of both costs is below 2^128 (`UnitsLaw`). So a unit of memory at (2^64 - 2)/(2^64 - 1) and a step at
  (2^64 - 4)/(2^64 - 3), both below one, cost 2 and are charged 1 (`LargeTermsBreak`). For reference scripts the law
  over naturals holds for every price and size exactly when the floor is a 64-bit number: two bytes at 2^63 cost 2^64
  and are charged 0 (`TruncatedFee`). Over 128 bits it holds the same way for every price within a bound
  on its parts and the number of tiers (`PriceFits`, `TierLaw`), so for parts of 32 bits up to the size limit of a
  transaction, and for all 64-bit parts in the first tier. Beyond that, at 2^63 / (2^61 - 1) per byte, 25601
  bytes cost 102404 and are charged 4 (`LargePriceBreaks`). The bound is enough and not needed: a product
  may wrap and the fee still be right (`WrapUnnoticed`), so this half goes one way.
- MIR. When the amounts of each pot add up to zero, no account moves, although the pots suffice and the third rule of
  the documentation credits every account: 5 for one credential and -5 for another are dropped (`OffsettingMir`). When
  the pots suffice, the amounts arrive exactly when some total is not zero or no amount would move an account
  (`DeliveredExactly`).
- Chain window. After a rollback to the origin behind drained history, or a drain with k = 0 of a window
  that holds blocks, the next block may break the chain (`UnguardedBreaks`, `ZeroBreaks`). For every k
  the law holds at every point of a run exactly when neither happens in it (`RunLaw`). A rollback by
  exactly k is possible before a drain and not behind it; every shorter one stays possible
  (`DrainKeepsRollbacks`).
- Declared lengths. A string length that carries the position past 2^64 stops the process instead of
  reporting the end of the input (`Decoder.Exact`, `Decoder.String`, `LongestStringAborts`). `SkipStops`
  and `ExtractStops` say for which bytes skipping and extraction do so.
- Skipping. Any item is accepted as a chunk of an indefinite string, and a two-byte simple value may
  be below 32 (`LooseChunk`, `LooseExample`, `LooseSimple`). `SkipExactly` characterises what is accepted
  and `SkippedIsStrict` when that is well-formed by section 3 of RFC 8949.
- Certificates. A reward account keeps four bits of its network when written and accepts 0 and 1 when
  read (`OtherNetworksBreak`); the round trip holds exactly for networks 0 and 1
  (`CertificateRoundTrip`, `WriteThenRead`). The writer counts its arrays exactly (`CertificateForm`); the
  reader accepts any count (`LengthNotCompared`). `CertificateExactly` says for all bytes which are accepted: heads
  in any width, any length of two arrays, owners tagged as a set or not, ports with upper bits, and repeated
  map keys. Text must be UTF-8, and other bytes are refused with the error of a byte string (`Decoder.Text`).

Where documentation and code differ the code is followed: `roll_forward` accepts an equal slot although
its summary asks for increasing slots, and MIR applies the transfers between the pots only when both pots suffice,
although the fourth rule of its documentation applies them regardless.

## Model

| member | source | states |
|---|---|---|
| `Lineage.ValidProposals` | crates/ledger/src/epoch_boundary.rs:1689-1748 | the fixpoint loop returns exactly the proposals of a purpose that chain to its root, and terminates |
| `Lineage.StaleProposals` | crates/ledger/src/epoch_boundary.rs:1689-1748 | the pruned set is exactly the proposals of the enacted purposes that no longer reach their root |
| `Lineage.FindDescendants` | crates/ledger/src/epoch_boundary.rs:1136-1193 | the wave loop finds exactly the proposals that hang, over any number of links, below a removed one |
| `Lineage.ClosedContains` | crates/ledger/src/epoch_boundary.rs:1689-1748 | a set closed under the loop step contains every lineage, so stopping at the fixpoint loses nothing |
| `Lineage.PruneRestoresForest` | crates/ledger/src/epoch_boundary.rs:1587-1597 | after roots moved, pruning the moved purposes makes the rest a forest on the new roots |
| `Lineage.RemovalKeepsForest` | crates/ledger/src/epoch_boundary.rs:677-688 | removing proposals with all their descendants keeps the forest |
| `Payout.PayOne` | crates/ledger/src/epoch_boundary.rs:846-883 | one more saturating credit extends the payout of a set of items, in any order |
| `Payout.PayOneSigned` | crates/ledger/src/epoch_boundary.rs:990-1006 | the same for signed amounts to distinct accounts |
| `Payout.PayTotal` | crates/ledger/src/epoch_boundary.rs:922-1053 | the exact change of all balances by a payout, with overdrawn and overfull accounts and lost payments named |
| `Payout.PayConserves` | crates/ledger/src/epoch_boundary.rs:1610-1627 | balances plus unclaimed amounts grow by exactly what is paid out |
| `Payout.PayTwice` | crates/ledger/src/epoch_boundary.rs:1605-1627 | disjoint batches paid one after the other or together give the same balances and losses |
| `Ratify.SortIds` | crates/ledger/src/epoch_boundary.rs:1370-1383 | the order holds every pending id once, by priority and then by id |
| `Ratify.OrderUnique` | crates/ledger/src/epoch_boundary.rs:1370-1383 | there is only one such order, so the loop below is a function of the ledger |
| `Ratify.RunShape` | crates/ledger/src/epoch_boundary.rs:1402-1575 | at every point of the loop, what left the pending map is exactly what was enacted, each once |
| `Ratify.DelayingIsExclusive` | crates/ledger/src/epoch_boundary.rs:1203-1229 | over the whole loop: a delaying action is enacted alone, and when any other action is enacted all pending delaying ones had expired and none was enacted |
| `Ratify.BudgetRun` | crates/ledger/src/epoch_boundary.rs:1400-1575 | the budget left and the wrapped amounts of all enacted withdrawals add up to the treasury at loop entry |
| `Ratify.EnactedWithinTreasury` | crates/ledger/src/epoch_boundary.rs:1400-1575 | for one vote outcome, the enacted withdrawals fit the treasury at loop entry if and only if none of them overflows the 64-bit sum |
| `Ratify.WithdrawalsWithinTreasury` | crates/ledger/src/epoch_boundary.rs:1265-1272 | whatever the votes, the enacted withdrawals fit the treasury at loop entry if and only if, on the ledger before the loop, a live delaying proposal is pending or no pending withdrawal passes the treasury only by wrapping around |
| `Ratify.OverflowDefeatsBudget` | crates/ledger/src/epoch_boundary.rs:1265-1272 | an input on which a wrapped sum passes an empty treasury |
| `Ratify.OverflowCreatesLovelace` | crates/ledger/src/state/enact.rs:254-369 | with the accounts registered, one iteration turns no lovelace into 2^64 |
| `Ratify.EnactedChain` | crates/ledger/src/epoch_boundary.rs:1235-1258 | the enacted actions of each purpose form, in order, an unbroken chain from the old root to the new one |
| `Ratify.RootStays` | crates/ledger/src/epoch_boundary.rs:1402-1575 | a root moves only when an action of its purpose is enacted |
| `Ratify.RatifyKeepsForest` | crates/ledger/src/epoch_boundary.rs:1402-1597 | ratification with pruning keeps the forest, for every vote outcome |
| `Ratify.EnactAccounting` | crates/ledger/src/state/enact.rs:254-369 | the exact change of treasury plus balances by an enactment, with what the treasury fails to cover and what overfull accounts fail to take |
| `Ratify.RunConserves` | crates/ledger/src/epoch_boundary.rs:1400-1575 | treasury plus balances never shrink in the loop, and are conserved if and only if the treasury covers every withdrawal that is enacted |
| `Ratify.BudgetConserves` | crates/ledger/src/epoch_boundary.rs:1400-1575 | a ledger on which the budget holds covers every withdrawal, whatever the votes |
| `Ratify.CoveredWhateverVotes` | crates/ledger/src/epoch_boundary.rs:1400-1575 | the treasury covers the enacted withdrawals for all votes if and only if, on the ledger before the loop, a live delaying proposal is pending or every set of pending proposals that fits the treasury by its wrapped totals also pays no more than the treasury |
| `Ratify.CoveredTreasury` | crates/ledger/src/epoch_boundary.rs:1400-1575 | a covered loop takes exactly what the enacted withdrawals pay to registered accounts out of the treasury |
| `Ratify.ChosenEnacted` | crates/ledger/src/epoch_boundary.rs:1402-1575 | any set of pending withdrawals whose wrapped totals fit the treasury is exactly what some votes enact |
| `Boundary.RewardsConserved` | crates/ledger/src/epoch_boundary.rs:846-883 | credited and unregistered rewards together are exactly the computed rewards |
| `BoundaryTheorems.ForestSurvives` | crates/ledger/src/epoch_boundary.rs:669-688 | the forest survives enactment, pruning, expiry and descendant removal, with the roots advanced |
| `BoundaryTheorems.VanishOnce` | crates/ledger/src/epoch_boundary.rs:669-688 | enacted, pruned, expired and descendant sets are disjoint and are exactly the proposals that disappeared |
| `BoundaryTheorems.MirAccounting` | crates/ledger/src/epoch_boundary.rs:922-1066 | the exact change of both pots and all balances by MIR, with every clamped amount named |
| `BoundaryTheorems.MirLeaksOnlyFromPots` | crates/ledger/src/epoch_boundary.rs:1056-1066 | with merged amounts that are not negative, only an overdrawn pot can clamp |
| `BoundaryTheorems.MirLeaksExactly` | crates/ledger/src/epoch_boundary.rs:922-1066 | for amounts of either sign, MIR creates nothing if and only if both pots stay above zero and every account can give what is taken from it |
| `BoundaryTheorems.MirAtMostCredits` | crates/ledger/src/epoch_boundary.rs:976-1006 | whatever is taken, the accounts hold afterwards at most what they held and the credits |
| `BoundaryTheorems.MirAllOrNothing` | crates/ledger/src/epoch_boundary.rs:922-1053 | if a pot cannot cover its total nothing moves; otherwise pots and balances change by the two deltas; the pending state is cleared either way |
| `BoundaryTheorems.PoolAccounting` | crates/ledger/src/epoch_boundary.rs:1763-1809 | refunded and unclaimed pool deposits are exactly what leaves the pool deposit pot |
| `BoundaryTheorems.VanishedWithinPending` | crates/ledger/src/epoch_boundary.rs:669-743 | the deposits of vanished proposals lie between zero and the pending deposits |
| `BoundaryTheorems.GovernanceAccounting` | crates/ledger/src/epoch_boundary.rs:669-743 | every vanished deposit goes once to an account or to the treasury and donations move to the treasury; the total changes only by what the deposit pot fails to give, if withdrawals are covered, and grows if not |
| `BoundaryTheorems.PotsAccounting` | crates/ledger/src/epoch_boundary.rs:623-649 | the pot update, with what its subtraction clamps |
| `BoundaryTheorems.BoundaryAccounting` | crates/ledger/src/epoch_boundary.rs:351-743 | the balance of the whole boundary: supply after is supply before plus the MIR deltas plus every clamped amount if withdrawals are covered, and more than before if not |
| `BoundaryTheorems.LovelaceConserved` | crates/ledger/src/epoch_boundary.rs:351-743 | lovelace never shrinks, and is conserved if and only if no subtraction clamps, those of MIR from accounts and of enacted withdrawals included |
| `BoundaryTheorems.MirBeforeExpansionLeaks` | crates/ledger/src/epoch_boundary.rs:543-631 | a family of ledgers on which MIR drains the reserves before the expansion is taken, and the expansion appears from nowhere |
| `AccountTheorems.RewardsOf` | crates/ledger/src/epoch_boundary.rs:846-883 | each account receives its own leader reward, and the account of the lowest network the member reward of its credential |
| `AccountTheorems.RewardsWithoutAccount` | crates/ledger/src/epoch_boundary.rs:846-883 | what goes to the treasury is exactly the leader rewards of unregistered accounts and the member rewards of credentials without an account |
| `AccountTheorems.MirOf` | crates/ledger/src/epoch_boundary.rs:922-1066 | both pots pay exactly when each holds its payable total after its transfer; then each pot moves by its transfer less its total and, unless both totals are zero, the account of the highest network of a credential by the two amounts of that credential; otherwise nothing moves |
| `AccountTheorems.DeliveredExactly` | crates/ledger/src/epoch_boundary.rs:976-1006 | when the pots suffice, every amount reaches its account if and only if some total is not zero or no amount would move an account |
| `AccountTheorems.OffsettingMir` | crates/ledger/src/epoch_boundary.rs:976-976 | an amount for one credential and its opposite for another are both dropped |
| `AccountTheorems.PoolsOf` | crates/ledger/src/epoch_boundary.rs:1763-1809 | a pool whose retirement epoch has come leaves and its deposit goes to the account it names, staged parameters adopted; every other pool stays |
| `AccountTheorems.PoolsWithoutAccount` | crates/ledger/src/epoch_boundary.rs:1763-1809 | the unclaimed deposits are exactly those of leaving pools whose account is not registered |
| `AccountTheorems.RunPays` | crates/ledger/src/state/enact.rs:254-369 | the ratification loop pays each registered account exactly what the enacted withdrawals ask for it |
| `AccountTheorems.GovernanceOf` | crates/ledger/src/epoch_boundary.rs:1074-1193 | each account receives the enacted withdrawals for it and the deposits of the vanished proposals that name it, and the treasury exactly the deposits that name no registered account |
| `AccountTheorems.IncomeOf` | crates/ledger/src/epoch_boundary.rs:846-1066 | what rewards and MIR together leave in each account, from its balance before |
| `AccountTheorems.BoundaryOf` | crates/ledger/src/epoch_boundary.rs:351-743 | the balance of each account behind the whole boundary, from its balance before, its rewards, its MIR amounts, the pools that retire to it, the withdrawals for it and the deposits that name it |
| `LedgerStates.StakeSnapshots.Rotate` | crates/ledger/src/stake.rs:460-465 | the closed epoch fees become the previous pot |
| `LedgerStates.LedgerState.FindAccount` | crates/ledger/src/epoch_boundary.rs:846-883 | the first account of a credential in key order |
| `LedgerStates.LedgerState.PayLeaders` | crates/ledger/src/epoch_boundary.rs:846-883 | the leader loop pays exactly the leader rewards and counts the unregistered ones |
| `LedgerStates.LedgerState.PayMembers` | crates/ledger/src/epoch_boundary.rs:846-883 | the member loop pays the first account of each credential and counts the unregistered amounts |
| `LedgerStates.LedgerState.DistributeRewards` | crates/ledger/src/epoch_boundary.rs:846-883 | both loops together are the reward payout |
| `LedgerStates.LedgerState.AccountsByCredential` | crates/ledger/src/epoch_boundary.rs:922-1053 | the last account of each credential in key order |
| `LedgerStates.LedgerState.SumRegistered` | crates/ledger/src/epoch_boundary.rs:922-1053 | the total of the registered entries |
| `LedgerStates.LedgerState.CreditMir` | crates/ledger/src/epoch_boundary.rs:976-1006 | the crediting loop is the payout of the merged signed amounts |
| `LedgerStates.LedgerState.ApplyMir` | crates/ledger/src/epoch_boundary.rs:922-1053 | the in-place update is the MIR transition |
| `LedgerStates.LedgerState.AdoptFutureParams` | crates/ledger/src/state/pool_state.rs:372-381 | staged parameters are adopted for registered pools and dropped otherwise |
| `LedgerStates.LedgerState.RetirePools` | crates/ledger/src/epoch_boundary.rs:1763-1809 | retiring pools leave, their deposits are paid or counted as unclaimed, and the pot drops by them |
| `LedgerStates.LedgerState.SumWithdrawals` | crates/ledger/src/epoch_boundary.rs:1265-1272 | the loop computes the wrapping 64-bit sum |
| `LedgerStates.LedgerState.PayWithdrawals` | crates/ledger/src/state/enact.rs:254-369 | registered accounts are credited and the treasury is debited by what they receive |
| `LedgerStates.LedgerState.EnactAction` | crates/ledger/src/state/enact.rs:254-369 | enactment advances the root of its purpose and leaves the pending map alone |
| `LedgerStates.LedgerState.RefundDeposits` | crates/ledger/src/epoch_boundary.rs:1605-1627 | each deposit is credited to its return account or counted as unclaimed |
| `LedgerStates.LedgerState.RatifyLoop` | crates/ledger/src/epoch_boundary.rs:1370-1575 | the loop over the sorted ids is the run of the specification |
| `LedgerStates.LedgerState.RatifyAndEnact` | crates/ledger/src/epoch_boundary.rs:1321-1637 | ratification, pruning and both refund groups, in place |
| `LedgerStates.LedgerState.RemoveExpired` | crates/ledger/src/epoch_boundary.rs:1074-1123 | exactly the expired proposals leave and are refunded |
| `LedgerStates.LedgerState.RemoveDescendants` | crates/ledger/src/epoch_boundary.rs:1136-1193 | exactly the descendants leave and are refunded |
| `LedgerStates.LedgerState.ExpireProposals` | crates/ledger/src/epoch_boundary.rs:677-688 | expiry followed by descendant removal |
| `LedgerStates.LedgerState.Govern` | crates/ledger/src/epoch_boundary.rs:669-743 | the governance steps in place are the governance transition |
| `LedgerStates.LedgerState.UntilGovernance` | crates/ledger/src/epoch_boundary.rs:510-649 | rewards, MIR, snapshots, pools and pots in place are the first half of the transition |
| `LedgerStates.LedgerState.ApplyEpochBoundary` | crates/ledger/src/epoch_boundary.rs:351-743 | the whole in-place boundary is the transition of the theorems, and so conserves ledger and both fee pots together if and only if nothing clamps; without parameters only the epoch number changes |
| `GovernanceRuns.SubmitKeepsForest` | crates/ledger/src/state.rs:4623-4663 | a proposal that passes the lineage check keeps the forest |
| `GovernanceRuns.BoundaryKeepsForest` | crates/ledger/src/epoch_boundary.rs:351-743 | the whole boundary keeps the forest |
| `GovernanceRuns.LeftAndVanished` | crates/ledger/src/epoch_boundary.rs:669-743 | deposits left pending and deposits vanished make up the deposits that were pending |
| `GovernanceRuns.BoundaryKeepsObligations` | crates/ledger/src/epoch_boundary.rs:351-743 | the deposit pots keep holding exactly what they owe |
| `GovernanceRuns.PoolEventKeepsObligations` | crates/ledger/src/state/pool_state.rs:281-317 | registering, re-registering and retiring a pool keep what the pool pot owes |
| `GovernanceRuns.RunInvariant` | crates/ledger/src/epoch_boundary.rs:351-743 | after every run of submissions, pool certificates, other transactions and boundaries the forest and the deposit obligations hold |
| `GovernanceRuns.ReachableConserves` | crates/ledger/src/epoch_boundary.rs:543-743 | in such states a boundary conserves lovelace if and only if MIR, the expansion and the enacted withdrawals do not overdraw their pots, nor MIR an account |
| `GovernanceRuns.AlwaysCovered` | crates/ledger/src/epoch_boundary.rs:1400-1575 | the guard on withdrawals holds for all votes if and only if the condition on the ledger that governance meets holds, and it holds wherever the budget does |
| `GovernanceRuns.EventSupply` | crates/ledger/src/epoch_boundary.rs:351-743 | one event adds to the supply at least what it brings in, and exactly that if and only if it is no boundary that clamps |
| `GovernanceRuns.RunSupply` | crates/ledger/src/epoch_boundary.rs:351-743 | over every run of transactions and boundaries the supply, fee pots included, is at least what was there plus what was brought in, and is exactly that if and only if no boundary of the run clamps |
| `GovernanceKinds.KindsInOrder` | crates/ledger/src/epoch_boundary.rs:1203-1215 | ratification takes no confidence, committee, constitution, hard fork, parameters, withdrawals and information in this order, and within a kind by transaction and index |
| `GovernanceKinds.PassesExactly` | crates/ledger/src/epoch_boundary.rs:1235-1308 | an action is enacted exactly when it names the last enacted action of its kind, new members serve at most the term limit, nothing delays it, its wrapped total is left in the budget and the votes accept it |
| `GovernanceKinds.OneChangeAtATime` | crates/ledger/src/epoch_boundary.rs:1220-1229 | a boundary that enacts a committee, constitution or hard-fork action enacts nothing else, and one that enacts anything else leaves no such proposal alive |
| `GovernanceKinds.EnactedBecomesLast` | crates/ledger/src/state/enact.rs:254-369 | an enacted action becomes the last of its kind and leaves the other kinds alone |
| `GovernanceKinds.EnactedTakes` | crates/ledger/src/state/enact.rs:254-369 | a withdrawal takes out of the treasury what its registered accounts receive, and no other action touches treasury or balances |
| `GovernanceKinds.ExpireWhenOver` | crates/ledger/src/epoch_boundary.rs:1074-1123 | of what ratification leaves, exactly the proposals whose last epoch is over expire, and none that stays is over |
| `GovernanceKinds.DescendantsExactly` | crates/ledger/src/epoch_boundary.rs:1136-1193 | of the others exactly those go that name an expired proposal or one that goes |
| `GovernanceKinds.PrunedExactly` | crates/ledger/src/epoch_boundary.rs:1689-1748 | a proposal is pruned exactly when an action of its line was enacted and it names neither the new last action nor a proposal of its line that stays |
| `GovernanceKinds.ForestIsAttached` | crates/ledger/src/epoch_boundary.rs:1587-1597 | in the forest every proposal names the last enacted action of its kind or a pending proposal of its line |
| `GovernanceKinds.SubmissionExactly` | crates/ledger/src/state.rs:4623-4663 | what the lineage check of a submission accepts, kind by kind |
| `GovernanceKinds.PoolLife` | crates/ledger/src/state/pool_state.rs:281-317 | a registered pool is due from the epoch its retirement names, with its account and deposit; registering again cancels that, keeps the deposit and stages the account |
| `SumKes.Generate` | crates/crypto/src/sum_kes.rs:293-325 | a generated key has the size of its depth |
| `SumKes.SkSizeClosed` | crates/crypto/src/sum_kes.rs:281-288 | the key size is 32 + 96 d |
| `SumKes.KeyFields` | crates/crypto/src/sum_kes.rs:565-593 | the flat layout gives back the child key, the right seed and both verification keys |
| `SumKes.SameVk` | crates/crypto/src/sum_kes.rs:330-348 | every evolved key derives the verification key of the tree |
| `SumKes.GenerateIsFirst` | crates/crypto/src/sum_kes.rs:293-325 | the generated key is the closed form at period 0 |
| `SumKes.UpdateStep` | crates/crypto/src/sum_kes.rs:467-558 | an update takes the closed form of p to that of p + 1, and stops at the last period |
| `SumKes.EvolveClosed` | crates/crypto/src/sum_kes.rs:467-558 | the key after p updates is the closed form in seed, depth and p; one update more than the last returns none |
| `SumKes.SignVerifies` | crates/crypto/src/sum_kes.rs:357-456 | the period-p signature of the period-p key verifies under the tree key |
| `SumKes.EvolvedKeySigns` | crates/crypto/src/sum_kes.rs:293-558 | for every depth, seed, message and period: p updates succeed, keep the verification key, and the signature verifies |
| `SumKes.OnlyFutureLeaves` | crates/crypto/src/sum_kes.rs:467-593 | read off the bytes of the evolved key alone, the seeds left after p updates generate exactly the leaves from p on, for every p, if and only if no right-hand seed of the tree is the string of zeros that marks erasure |
| `SumKes.SeedsDiffer` | crates/crypto/src/sum_kes.rs:252-264 | leaves of different periods, or of different seeds, differ, or two colliding hash inputs are returned |
| `SumKes.PastLeavesGone` | crates/crypto/src/sum_kes.rs:467-593 | no leaf of an earlier period is among those an evolved key regenerates, or two colliding hash inputs are returned |
| `SumKes.TwoPeriods` | crates/crypto/src/sum_kes.rs:252-325 | a key of two periods byte by byte: both seeds with their prefixes, generation, update, erasure and both signatures |
| `SumKes.TwoPeriodsVerify` | crates/crypto/src/sum_kes.rs:409-456 | the verdict on a signature of two periods byte by byte |
| `SumKes.SignsOnePeriod` | crates/crypto/src/sum_kes.rs:357-456 | an evolved key gives the signature of its own period whatever period in range it is asked to sign for, and refuses the others; that signature verifies at the period of the key, and at another one only if the base signature of one leaf verifies under the key of another, or two colliding pairs are returned |
| `SumKes.PeriodNotSigned` | crates/crypto/src/sum_kes.rs:357-400 | the period does not enter a signature |
| `SumKes.SignedByLeaf` | crates/crypto/src/sum_kes.rs:357-400 | the base signature of the key of a period is that of its leaf |
| `SumKes.PathBinding` | crates/crypto/src/sum_kes.rs:409-456 | an accepted signature stores the pairs of the tree itself along the path of p and its base signature verifies under leaf p, or two colliding pairs are returned |
| `SumKes.VerifyExactly` | crates/crypto/src/sum_kes.rs:409-456 | verification accepts exactly the signatures whose stored pairs hash up to the key along the bits of the period, above a leaf key under which the base signature verifies; the period must be in range except at depth 0 |
| `ChainStates.ChainState.constructor` | crates/consensus/src/chain_state.rs:76-81 | a new state is empty |
| `ChainStates.ChainState.SeedFromEntries` | crates/consensus/src/chain_state.rs:101-110 | all entries are kept if there are at most k, and otherwise the last k |
| `ChainStates.ChainState.RollForward` | crates/consensus/src/chain_state.rs:150-185 | appends exactly when the checks pass, and otherwise changes nothing |
| `ChainStates.ChainState.FindLast` | crates/consensus/src/chain_state.rs:194-231 | the last position of a point in the window |
| `ChainStates.ChainState.RollBackward` | crates/consensus/src/chain_state.rs:194-231 | succeeds exactly when the point is found within k, keeps the prefix up to it, and otherwise changes nothing |
| `ChainStates.ChainState.DrainStable` | crates/consensus/src/chain_state.rs:235-250 | nothing is drained up to k entries; beyond, exactly k stay and the rest is returned in order |
| `ChainStates.ForwardCheck` | crates/consensus/src/chain_state.rs:150-185 | accepts exactly an entry with the next block number, a slot not below that of the tip and no other previous hash than that of the tip |
| `ChainStates.StepSafe` | crates/consensus/src/chain_state.rs:150-250 | for every k, a step keeps the invariant if and only if it is no successful rollback to the origin behind drained history and no drain with k = 0 of a window that holds blocks; no step removes deeper than k or touches drained history |
| `ChainStates.StepLaw` | crates/consensus/src/chain_state.rs:150-250 | for every k, exactly the guarded steps leave one chain that stays one whatever block comes next |
| `ChainStates.RunSafe` | crates/consensus/src/chain_state.rs:150-250 | a guarded run keeps the invariant |
| `ChainStates.DrainedGrows` | crates/consensus/src/chain_state.rs:235-250 | in every run, guarded or not, drained history only grows |
| `ChainStates.RunLaw` | crates/consensus/src/chain_state.rs:150-250 | for every k, drained history and window are one chain at every point of a run, whatever block comes next, if and only if every step of the run is guarded |
| `ChainStates.SeededSafe` | crates/consensus/src/chain_state.rs:101-110 | a new state satisfies the invariant, a seeded one if and only if k is at least 1 or nothing was recovered |
| `ChainStates.UnguardedBreaks` | crates/consensus/src/chain_state.rs:194-231 | after a rollback to the origin behind drained history the next block may break the chain |
| `ChainStates.ZeroBreaks` | crates/consensus/src/chain_state.rs:244-250 | with k zero a drain has the same effect |
| `ChainStates.RollBackReaches` | crates/consensus/src/chain_state.rs:194-231 | a block that is not repeated can be rolled back to exactly when at most k blocks lie behind it, and becomes the tip; the origin exactly when the window holds at most k |
| `ChainStates.DrainKeepsRollbacks` | crates/consensus/src/chain_state.rs:235-250 | a drain keeps every block within k of the tip and every rollback to one of them; a rollback by exactly k is lost to a drain that drains anything |
| `ChainStates.SeedKeeps` | crates/consensus/src/chain_state.rs:101-110 | seeding keeps the last k entries in order and loses none |
| `NativeScripts.Evaluate` | crates/ledger/src/native_script.rs:51-123 | the two-stack loop terminates without underflow and returns the recursive meaning of the script |
| `NativeScripts.PushChildren` | crates/ledger/src/native_script.rs:79-106 | children are pushed in reverse |
| `NativeScripts.FinalPushed` | crates/ledger/src/native_script.rs:51-123 | evaluating pushed children appends their meanings in order |
| `NativeScripts.JoinedIsMeaning` | crates/ledger/src/native_script.rs:108-118 | combining the results of the children by counting is the meaning of All, Any and N-of-K |
| `NativeScripts.ExpandSame` | crates/ledger/src/native_script.rs:79-118 | replacing a script by its combine action and its children leaves the outcome of the stacks unchanged |
| `NativeScripts.ValidityInterval` | crates/ledger/src/native_script.rs:71-78 | the two time locks together hold exactly from the first slot on and before the last |
| `NativeScripts.MultiSignature` | crates/ledger/src/native_script.rs:67-106 | n of a list of keys holds exactly when at least n positions of the list are signed |
| `NativeScripts.Thresholds` | crates/ledger/src/native_script.rs:108-118 | one of all is any, all of all is all, none is always met, more than all never, and thresholds are monotone |
| `Fees.StripTwos` | crates/ledger/src/fees.rs:209-213 | the odd part and the number of trailing zeros |
| `Fees.OddGcd` | crates/ledger/src/fees.rs:211-220 | the swap-and-subtract loop terminates with a greatest common divisor |
| `Fees.BinaryGcd` | crates/ledger/src/fees.rs:202-221 | a common divisor that every common divisor divides, for all naturals |
| `Fees.RestoreTwos` | crates/ledger/src/fees.rs:209-218 | the common power of two is put back |
| `Fees.ReducedIsCoprime` | crates/ledger/src/fees.rs:150-155 | dividing both parts by the gcd leaves coprime parts |
| `Fees.LowestTerms` | crates/ledger/src/fees.rs:150-155 | coprime parts are the smallest of all fractions of their value, which bounds the accumulator whatever reductions came before |
| `Fees.TierPeak` | crates/ledger/src/fees.rs:122-180 | for a price within the closed bound of a number of tiers, no number of any step up to that tier reaches 2^128 |
| `Fees.TermPeak` | crates/ledger/src/fees.rs:59-80 | behind a first term of a small price no number of the second step reaches 2^128 |
| `Fees.Accumulate` | crates/ledger/src/fees.rs:144-155 | one accumulation step over either arithmetic, with its reduction |
| `Fees.RaisePrice` | crates/ledger/src/fees.rs:157-162 | one price step over either arithmetic, with its reduction |
| `Fees.PlusIsExact` | crates/ledger/src/fees.rs:144-155 | over naturals the step is exact addition, in lowest terms |
| `Fees.RaisedIsExact` | crates/ledger/src/fees.rs:157-162 | over naturals the price grows by exactly 6/5 |
| `Fees.AccumulateTiers` | crates/ledger/src/fees.rs:122-180 | the loop over either arithmetic computes the specified run |
| `Fees.TierRefScriptFee` | crates/ledger/src/fees.rs:122-180 | over naturals, for every size and price, degenerate prices included, the fee is the floor of base × (25600·Σ(6/5)^i + r·(6/5)^q) if and only if that is a 64-bit number, and otherwise its low 64 bits; over wrapping 128-bit arithmetic the same for every price whose parts meet a closed bound in the number of tiers, for prices of 32-bit parts and sizes up to 204800, and for all prices of 64-bit parts up to 25600 bytes |
| `Fees.TiersAreExact` | crates/ledger/src/fees.rs:122-180 | over naturals the loop adds up the tiers exactly, from any tier on |
| `Fees.FittingFee` | crates/ledger/src/fees.rs:122-180 | the floor over 128 bits is that over naturals wherever no number of the loop over naturals reaches 2^128 |
| `Fees.PriceFitsFee` | crates/ledger/src/fees.rs:122-180 | so it is for every price within the closed bound n·d·5^q·(units of q tiers + 25600·6^q) < 2^128 and (d·5^q)² < 2^128 of its last tier q |
| `Fees.SmallPricesFit` | crates/ledger/src/utxo.rs:30-30 | prices of 32-bit parts are within that bound in all eight tiers of a transaction |
| `Fees.TierLaw` | crates/ledger/src/fees.rs:122-180 | the law of the tiered fee, both over naturals and over 128 bits: it is the floor of the exact cost if and only if that is a 64-bit number |
| `Fees.TruncatedFee` | crates/ledger/src/fees.rs:176-180 | two bytes at 2^63 cost 2^64 and are charged nothing |
| `Fees.LargePriceBreaks` | crates/ledger/src/fees.rs:122-180 | a price of 64-bit parts at which the wrapped loop charges 4 instead of 102404 |
| `Fees.WrapUnnoticed` | crates/ledger/src/fees.rs:122-180 | a price at which a product wraps and the fee is still right |
| `Fees.NextByte` | crates/ledger/src/fees.rs:122-180 | each byte costs the base price times 6/5 for every 25600 bytes in front of it, and no bytes cost nothing |
| `Fees.AccumulateTerms` | crates/ledger/src/fees.rs:59-80 | the term loop over either arithmetic computes the specified run, skipping absent and degenerate prices |
| `Fees.ScriptFee` | crates/ledger/src/fees.rs:59-83 | for all prices of 64-bit parts the fee is one ceiling of the exact sum of both costs if and only if that is a 64-bit number and, over wrapping 128-bit arithmetic, the numerator of the sum is below 2^128 |
| `Fees.UnitsLaw` | crates/ledger/src/fees.rs:59-83 | that law, and that no price makes the loop divide by zero |
| `Fees.FeeFromSum` | crates/ledger/src/fees.rs:59-83 | of all numbers of the loop only the numerator of the sum can wrap |
| `Fees.WrapLowers` | crates/ledger/src/fees.rs:59-83 | a numerator that wraps always lowers the fee, so a wrap never goes unnoticed here |
| `Fees.DueFromSum` | crates/ledger/src/fees.rs:59-83 | the exact cost is the quotient of the two sums, rounded up |
| `Fees.SmallTermsFit` | crates/ledger/src/fees.rs:59-83 | prices with parts below 2^31 never wrap, whatever the units |
| `Fees.OneTermFits` | crates/ledger/src/fees.rs:59-83 | a single term never wraps, whatever its price |
| `Fees.LargeTermsBreak` | crates/ledger/src/fees.rs:59-83 | two prices below one at which a unit of each costs 2 and is charged 1 |
| `Fees.CostInIntegers` | crates/ledger/src/fees.rs:59-83 | the ceiling of both costs is the integer quotient over the common denominator, rounded up |
| `VrfReduce.AddCarry` | crates/crypto/src/vrf.rs:608-617 | the carry loop adds the number exactly, stays inside the buffer and inside 16 bits |
| `VrfReduce.AddScaled38` | crates/crypto/src/vrf.rs:598-606 | the 33-byte buffer holds lower + 38 · upper, with no carry lost |
| `VrfReduce.ClearTopBit` | crates/crypto/src/vrf.rs:592-595 | clearing bit 255 takes exactly that bit off the value |
| `VrfReduce.AddNineteen` | crates/crypto/src/vrf.rs:637-642 | the last carry loop adds 19 and leaves no carry |
| `VrfReduce.SecondFold` | crates/crypto/src/vrf.rs:634-644 | the second fold removes a multiple of the prime and ends below 2^255 |
| `VrfReduce.HalvesFold` | crates/crypto/src/vrf.rs:591-608 | folding both halves with 19, 38 and 722 removes a multiple of the prime |
| `VrfReduce.ReduceHashInput` | crates/crypto/src/vrf.rs:585-647 | for every 64 bytes the result is below 2^255 and congruent to the input modulo 2^255 - 19 |
| `VrfReduce.PrimeIs` | crates/crypto/src/vrf.rs:585-647 | the modulus, written out |
| `BlsScalar.PadAndReverse` | crates/crypto/src/bls12_381.rs:255-262 | the padded and reversed buffer holds the big-endian value |
| `BlsScalar.ReverseIntoLow` | crates/crypto/src/bls12_381.rs:281-291 | the reversed chunk holds its big-endian value |
| `BlsScalar.Radix` | crates/crypto/src/bls12_381.rs:268-273 | byte 32 of the buffer stands for 2^256 |
| `BlsScalar.HornerStep` | crates/crypto/src/bls12_381.rs:293-303 | one step on residues is the step on numbers, reduced once |
| `BlsScalar.BytesToScalar` | crates/crypto/src/bls12_381.rs:242-306 | every byte string maps to its big-endian value modulo the group order, on all three paths |
| `BlsScalar.OrderOfCurve` | crates/crypto/src/bls12_381.rs:238-240 | the order is z^4 - z^2 + 1 for the parameter of the curve |
| `Saturating.Wraps` | crates/ledger/src/epoch_boundary.rs:1265-1272 | wrapping takes off the multiple of 2^64 that leads into the range, and the lowest signed number is its own negative |
| `CborWire.BigEndianBytesValue` | crates/ledger/src/cbor.rs:82-99 | fixed-width big-endian bytes give back their number |
| `CborWire.ShortestInfo` | crates/ledger/src/cbor.rs:82-99 | the chosen width holds the value |
| `CborWire.HeadRoundTrip` | crates/ledger/src/cbor.rs:522-567 | every 64-bit head of every major type reads back before any suffix, in all five widths |
| `CborWire.StringRoundTrip` | crates/ledger/src/cbor.rs:578-586 | byte and text strings read back before any suffix |
| `CborWire.TextRoundTrip` | crates/ledger/src/cbor.rs:769-776 | text reads back before any suffix |
| `Utf8.IsUtf8Exactly` | crates/ledger/src/cbor.rs:769-776 | the byte strings that pass as text are exactly the encodings of characters, surrogates and overlong forms excluded |
| `CborWire.IntegerRoundTrip` | crates/ledger/src/cbor.rs:735-760 | every signed 64-bit integer reads back before any suffix |
| `CborForms.BigEndianSums` | crates/ledger/src/cbor.rs:522-553 | arguments of one, two, four and eight bytes are the sums of their bytes in network order |
| `CborForms.HeadBytes` | crates/ledger/src/cbor.rs:82-99 | every number is written in its shortest form, byte by byte |
| `CborForms.ArgumentBytes` | crates/ledger/src/cbor.rs:522-553 | every argument is read, shortest or not, and the other values of the low five bits are errors |
| `CborForms.SkipsScalar` | crates/ledger/src/cbor.rs:882-884 | integers, simple values and floats are their head |
| `CborForms.SkipsString` | crates/ledger/src/cbor.rs:885-902 | a string is as many bytes as its head says |
| `CborForms.SkipsArray` | crates/ledger/src/cbor.rs:903-918 | an array is as many items as its head says |
| `CborForms.SkipsMap` | crates/ledger/src/cbor.rs:919-936 | a map is twice as many items as its head says |
| `CborForms.SkipsTag` | crates/ledger/src/cbor.rs:960-963 | a tag is followed by one item |
| `CborForms.SkipsIndefinite` | crates/ledger/src/cbor.rs:885-911 | an indefinite string or array is any number of items up to the break |
| `CborForms.SkipsIndefiniteMap` | crates/ledger/src/cbor.rs:919-929 | an indefinite map ends at a break behind a value, and a break behind a key is an error |
| `CborForms.SkipRefuses` | crates/ledger/src/cbor.rs:937-964 | no item starts with a break or a reserved head |
| `CborItems.SkipWire` | crates/ledger/src/cbor.rs:877-967 | skipping consumes exactly the wire form of any item, definite or indefinite, before any suffix |
| `CborItems.SkipParses` | crates/ledger/src/cbor.rs:877-967 | whatever a successful skip consumes is the wire form of one item |
| `CborItems.SkipExactly` | crates/ledger/src/cbor.rs:877-967 | skip succeeds with a given rest if and only if one item stands in front of it |
| `CborItems.Unambiguous` | crates/ledger/src/cbor.rs:877-967 | wire forms are prefix-free and each has one reading |
| `CborItems.SkippedIsStrict` | crates/ledger/src/cbor.rs:877-967 | what is skipped is well-formed by RFC 8949 if and only if its one reading is |
| `CborItems.LooseChunk` | crates/ledger/src/cbor.rs:885-897 | an indefinite string with a foreign chunk is skipped although the standard forbids it |
| `CborItems.LooseExample` | crates/ledger/src/cbor.rs:885-897 | three bytes on which this happens |
| `CborItems.LooseSimple` | crates/ledger/src/cbor.rs:877-967 | a two-byte simple value below 32 is skipped although no well-formed item by RFC 8949 has those bytes |
| `CborItems.SkipStops` | crates/ledger/src/cbor.rs:512-519 | the skip ends in a stopped process if and only if, read from the front, a string length on the way carries the position past 2^64 |
| `CborItems.LongestStringAborts` | crates/ledger/src/cbor.rs:512-519 | nine bytes on which this happens |
| `CborSpans.CollectArray` | crates/ledger/src/cbor.rs:420-452 | the spans of an array are the wire forms of its elements, up to the cap on indefinite ones |
| `CborSpans.ExtractExactly` | crates/ledger/src/cbor.rs:364-409 | on a block of at least three items extraction returns exactly the body and witness encodings, or the cap error, whatever follows |
| `CborSpans.EnvelopeTransparent` | crates/ledger/src/cbor.rs:364-384 | a definite two-element envelope, in any width, changes nothing |
| `CborSpans.TooFewItems` | crates/ledger/src/cbor.rs:386-396 | an array of no or one element is refused |
| `CborSpans.NotAnEnvelope` | crates/ledger/src/cbor.rs:377-396 | two elements with anything but a break behind them, or without a number in front, are no envelope and too few for a block |
| `CborSpans.CollectParses` | crates/ledger/src/cbor.rs:420-452 | collected spans are the wire forms of the elements of one array at the front |
| `CborSpans.ExtractedStandInBlock` | crates/ledger/src/cbor.rs:386-409 | extracted spans are the wire forms of consecutive items of the block |
| `CborSpans.ExtractStops` | crates/ledger/src/cbor.rs:364-452 | extraction ends in a stopped process if and only if header, envelope, bodies or witness sets hold such a length |
| `CborCodec.Decoder.constructor` | crates/ledger/src/cbor.rs:467-469 | a decoder starts in front of all its bytes |
| `CborCodec.Decoder.Byte` | crates/ledger/src/cbor.rs:499-510 | reads one byte or reports the end |
| `CborCodec.Decoder.Exact` | crates/ledger/src/cbor.rs:512-519 | reads a slice or reports the end, and stops the process exactly when position plus length passes 2^64 |
| `CborCodec.Decoder.Argument` | crates/ledger/src/cbor.rs:522-553 | reads an argument of any width |
| `CborCodec.Decoder.Major` | crates/ledger/src/cbor.rs:557-567 | checks the major type and reads the argument |
| `CborCodec.Decoder.String` | crates/ledger/src/cbor.rs:578-586 | reads a definite string, and stops the process exactly when its declared length carries the position past 2^64 |
| `CborCodec.Decoder.Text` | crates/ledger/src/cbor.rs:769-776 | reads a definite text string and refuses other bytes than UTF-8 as a type mismatch |
| `CborCodec.Decoder.BeginArray` | crates/ledger/src/cbor.rs:659-674 | reads a definite or indefinite array header |
| `CborCodec.Decoder.BeginArrayOrSet` | crates/ledger/src/cbor.rs:637-649 | reads an array header behind an optional set tag and rewinds over any other tag; `SetExactly` says for which bytes |
| `CborCodec.Decoder.Integer` | crates/ledger/src/cbor.rs:735-760 | reads a signed integer and rejects those beyond 64 bits |
| `CborCodec.Decoder.SkipItem` | crates/ledger/src/cbor.rs:877-967 | on all bytes the recursive loops end with the specified skip, and stop the process exactly when a declared string length on the way carries the position past 2^64 |
| `CborCodec.Decoder.SkipItems` | crates/ledger/src/cbor.rs:912-917 | the counted loop skips that many items, and stops the process exactly when one of them does |
| `CborCodec.Decoder.SkipToBreak` | crates/ledger/src/cbor.rs:904-911 | the break loop skips groups up to the break, and stops the process exactly when one of them does |
| `CborCodec.Decoder.RawValue` | crates/ledger/src/cbor.rs:973-977 | returns exactly the bytes skipped, and stops the process exactly when the skip does |
| `CborCodec.Decoder.CountedSpans` | crates/ledger/src/cbor.rs:424-433 | the definite loop collects the spans in order |
| `CborCodec.Decoder.SpansToBreak` | crates/ledger/src/cbor.rs:434-450 | the indefinite loop collects the spans in order and stops at the cap |
| `CborCodec.Decoder.Spans` | crates/ledger/src/cbor.rs:420-452 | both forms |
| `CborCodec.UnwrapEnvelope` | crates/ledger/src/cbor.rs:377-384 | recognises a definite envelope that ends with its block |
| `CborCodec.ExtractFromBlock` | crates/ledger/src/cbor.rs:386-409 | walks header, bodies and witness sets |
| `CborCodec.ExtractBlockTxByteSpans` | crates/ledger/src/cbor.rs:364-409 | the walker over any number of envelopes returns what the specification extracts, and stops the process if and only if one of the skipped items declares a string length past 2^64 |
| `CborCodec.Encoder.TypeAndArgument` | crates/ledger/src/cbor.rs:82-99 | appends the shortest head |
| `CborCodec.Encoder.String` | crates/ledger/src/cbor.rs:108-112 | appends a length head and the bytes |
| `CborCodec.Encoder.Integer` | crates/ledger/src/cbor.rs:166-173 | appends a head of the sign of the integer |
| `CborArrays.ManyRoundTrip` | crates/ledger/src/cbor.rs:987-993 | any list reads back from its items, for any item codec |
| `CborArrays.UntilBreakRoundTrip` | crates/ledger/src/cbor.rs:994-1001 | the same up to a break |
| `CborArrays.VariableRoundTrip` | crates/ledger/src/cbor.rs:228-246 | variable-length arrays read back on both sides of the threshold of 23 |
| `CborForms.VariableBytes` | crates/ledger/src/cbor.rs:228-246 | up to 23 items stand behind a one-byte head, more between 9f and a break |
| `CborCerts.CredentialRoundTrip` | crates/ledger/src/cbor.rs:1285-1322 | credentials read back before any suffix |
| `CborCerts.RewardReadBack` | crates/ledger/src/types.rs:387-425 | what an encoded reward account reads back as: its network modulo 16, or an error when that is above 1 |
| `CborCerts.AnchorRoundTrip` | crates/ledger/src/cbor.rs:1351-1374 | anchors, and pool metadata in the same shape, read back |
| `CborCerts.OptionalAnchorRoundTrip` | crates/ledger/src/cbor.rs:1790-1808 | optional anchors read back |
| `CborCerts.IntervalRoundTrip` | crates/ledger/src/cbor.rs:1380-1410 | tagged unit intervals read back |
| `CborCerts.RelayRoundTrip` | crates/ledger/src/cbor.rs:1420-1553 | relays of all three kinds read back |
| `CborCerts.DRepRoundTrip` | crates/ledger/src/cbor.rs:1715-1782 | delegate representatives of all four kinds read back |
| `CborCerts.OwnersRoundTrip` | crates/ledger/src/cbor.rs:1649-1658 | owner lists read back through the reader that also accepts sets |
| `CborCerts.RelaysRoundTrip` | crates/ledger/src/cbor.rs:1660-1664 | relay lists read back |
| `CborCerts.ParamsReadBack` | crates/ledger/src/cbor.rs:1595-1684 | pool parameters read back up to the network of the reward account |
| `CborCerts.OrderedEntries` | crates/ledger/src/cbor.rs:1992-2002 | inserting the entries of a map in any order of its keys gives the map back |
| `CborCerts.MirRoundTrip` | crates/ledger/src/cbor.rs:1977-2005 | both kinds of MIR target read back, for every order of the map |
| `CborCerts.CertificateReadBack` | crates/ledger/src/cbor.rs:1827-2083 | what each of the nineteen certificates reads back as |
| `CborCerts.CertificateRoundTrip` | crates/ledger/src/cbor.rs:1827-2083 | a certificate reads back as itself before any suffix if and only if a registered pool has network 0 or 1 |
| `CborCerts.OtherNetworksBreak` | crates/ledger/src/types.rs:387-425 | network 2 fails to read back and network 16 reads back as network 0 |
| `CborCerts.LengthNotCompared` | crates/ledger/src/cbor.rs:1943-1946 | a certificate reads the same behind an array header of any length |
| `CborCertForms.CredentialForm` | crates/ledger/src/cbor.rs:1285-1322 | a credential is the array of 0 or 1 and its hash |
| `CborCertForms.RelayForm` | crates/ledger/src/cbor.rs:1420-1553 | the arrays of the three kinds of relay |
| `CborCertForms.DRepForm` | crates/ledger/src/cbor.rs:1715-1782 | the arrays of the four kinds of delegate representative |
| `CborCertForms.RewardForm` | crates/ledger/src/types.rs:387-425 | a reward account is a byte string of a header byte and the hash |
| `CborCertForms.ParamsForm` | crates/ledger/src/cbor.rs:1595-1684 | the nine fields of a pool, in order |
| `CborCertForms.MirForm` | crates/ledger/src/cbor.rs:1852-1872 | an instantaneous reward is the array of its pot and a map or an amount |
| `CborCertForms.CertificateForm` | crates/ledger/src/cbor.rs:1827-1943 | an encoded certificate is the wire form of one array of its number and its fields, for all nineteen kinds, so that every array header counts what follows it |
| `CborCertForms.CertificateIsOneItem` | crates/ledger/src/cbor.rs:1827-1943 | an encoded certificate is well-formed by RFC 8949 and skipped as one item, whatever follows |
| `CborCertForms.OwnersAsSet` | crates/ledger/src/cbor.rs:637-649 | owners read back behind the set tag 258 too |
| `CborCertForms.PortTruncates` | crates/ledger/src/cbor.rs:1420-1553 | a port above 65535 is read without its upper bits |
| `CborTokens.LexExactly` | crates/ledger/src/cbor.rs:522-586 | a head, string or null stands at the front if and only if one of its spellings does, in any width of head |
| `CborTokens.AfterExactly` | crates/ledger/src/cbor.rs:522-586 | the same for any list of them |
| `CborTokens.TextExactly` | crates/ledger/src/cbor.rs:769-776 | text is read exactly where a text string of UTF-8 stands |
| `CborTokens.ManyExactly` | crates/ledger/src/cbor.rs:987-993 | a counted loop reads exactly the tokens of its items, for any item reader that does |
| `CborCertGrammar.SetExactly` | crates/ledger/src/cbor.rs:637-649 | an array header is read where it stands or behind the tag 258, and behind no other tag |
| `CborCertGrammar.CredentialExactly` | crates/ledger/src/cbor.rs:1285-1322 | a credential is read exactly where the array of 2, its kind 0 or 1 and 28 bytes stand |
| `CborCertGrammar.DRepExactly` | crates/ledger/src/cbor.rs:1715-1782 | which tokens are each kind of delegate representative, and that nothing else is |
| `CborCertGrammar.RelayParses` | crates/ledger/src/cbor.rs:1420-1553 | whatever reads as a relay is the array of the length and number of its kind, with its fields |
| `CborCertGrammar.RelayReads` | crates/ledger/src/cbor.rs:1420-1553 | and all of those read as that relay |
| `CborCertGrammar.ParamsParse` | crates/ledger/src/cbor.rs:1595-1684 | whatever reads as pool parameters is their nine fields in order |
| `CborCertGrammar.ParamsRead` | crates/ledger/src/cbor.rs:1595-1684 | and all of those read as these parameters |
| `CborCertGrammar.CertificateTokensExactly` | crates/ledger/src/cbor.rs:1943-2083 | a certificate is read if and only if its tokens stand at the front, with the leeway of the reader |
| `CborCertGrammar.CertificateExactly` | crates/ledger/src/cbor.rs:1943-2083 | for all bytes: the reader returns a certificate and stops in front of a rest if and only if the bytes in between spell its number and fields, heads in any width, with two uncompared lengths, an optional set tag, ports up to their low 16 bits, map entries in any order and repetition, and text that is UTF-8 |
| `CborCertGrammar.Refusals` | crates/ledger/src/cbor.rs:1420-2083 | the errors for unknown numbers and for the lengths that are compared |
| `CborCertGrammar.TagRefusals` | crates/ledger/src/cbor.rs:637-649 | the errors for other tags and for a credential of another kind |
| `CborCertEncoder.WriteTarget` | crates/ledger/src/cbor.rs:1856-1872 | the map loop appends count and entries |
| `CborCertEncoder.WriteOwners` | crates/ledger/src/cbor.rs:1603-1606 | the owner loop appends count and hashes |
| `CborCertEncoder.WriteRelays` | crates/ledger/src/cbor.rs:1608-1611 | the relay loop appends count and relays |
| `CborCertDecoder.DecodeOwners` | crates/ledger/src/cbor.rs:1649-1658 | the owner loop reads what the list reader reads, behind an optional set tag |
| `CborCertDecoder.DecodeRelays` | crates/ledger/src/cbor.rs:1660-1664 | the relay loop reads what the list reader reads |
| `CborCertDecoder.DecodeDeltas` | crates/ledger/src/cbor.rs:1992-2002 | the entry loop builds the map of all entries, later ones replacing earlier ones |
| `CborCertRoundTrip.WriteThenRead` | crates/ledger/src/cbor.rs:1827-2083 | what is written is the wire form of the tree of the certificate and one item to the skipper; read by a decoder from that buffer and any suffix the certificate comes back, with the decoder right in front of the suffix, if and only if a registered pool has network 0 or 1 |
| `CborCertRoundTrip.ToBytes` | crates/ledger/src/cbor.rs:1015-1019 | a fresh buffer holds the encoding of the certificate |
| `CborCertRoundTrip.ReadFront` | crates/ledger/src/cbor.rs:1943-2083 | a fresh decoder gives what the wire-level reader gives, on all bytes |

## Left out

- Reward calculation, pool performance and vote thresholds: parameters of the boundary; rewards are only assumed to split expansion plus fees.
- `compute_eta`, `conway_total_min_fee`, `min_fee_linear` and the fee validators: short expressions that would only add easy members.
- Transaction ids of governance actions are numbers.
- LedgerStates.StakeSnapshots.Rotate: the mark, set and go snapshots are not modelled; only the two fee pots move lovelace.
- LedgerStates.LedgerState.AdoptFutureParams: of the staged parameters only the reward account is kept, which is all that the refund reads.
- LedgerStates.LedgerState.RetirePools: delegations to retired pools are not modelled.
- LedgerStates.LedgerState.EnactAction: committee members, the constitution text, the protocol version and the parameters other than the committee term limit are not modelled.
- LedgerStates.LedgerState.ApplyEpochBoundary: pending parameter updates, dormant epochs, DRep activity, committee cleanup and the event record are not modelled; they move no lovelace and no lineage. A pending update may change the committee term limit before the ratification loop, which reads it; the model takes the limit before the boundary.
- LedgerStates.LedgerState.RatifyLoop: the vote outcome may depend on the ledger at loop entry and on what was enacted before, which is all the thresholds read.
- GovernanceRuns.RunInvariant: of a transaction that is no proposal and no pool certificate only that it leaves proposals, roots, pools and their deposits alone is modelled.
- BoundaryTheorems.LovelaceConserved: supplies, MIR amounts and the credits among them are of the size of the lovelace supply, so that no sum outside the withdrawals leaves its 64 bits.
- BoundaryTheorems.BoundaryAccounting: the same bounds.
- BoundaryTheorems.MirAccounting: no 64-bit sum of MIR wraps and no credit passes 2^64.
- AccountTheorems.MirOf: no 64-bit sum of MIR wraps.
- AccountTheorems.IncomeOf: no 64-bit sum of MIR wraps.
- AccountTheorems.BoundaryOf: no 64-bit sum of MIR wraps.
- GovernanceRuns.ReachableConserves: the bounds of `LovelaceConserved`.
- GovernanceRuns.EventSupply: the bounds of `LovelaceConserved`, with MIR transfers between the pots that cancel.
- GovernanceRuns.RunSupply: the same bounds at every boundary of the run, with MIR transfers between the pots that cancel.
- SumKes.EvolvedKeySigns: depths are unbounded; the 32-bit shift of the code limits it to depths below 32.
- Fees.FittingFee: one way only; `WrapUnnoticed` is an input on which the converse fails.
- ChainStates.ChainState.RollForward: block numbers are unbounded, so the overflow of the highest 64-bit number is not modelled.
- CborCodec.Decoder.SkipItem: the depth of the call stack is not modelled.
- CborArrays.VariableRoundTrip: the item codec is a pair of functions, so the closures that read and write in place are not modelled.
- CborCertEncoder.WriteTarget: the order in which the map yields its keys is a parameter; the round trip holds for every order, the key order of the code included.
- Indefinite byte and text strings as values, wrapped CBOR, booleans and the remaining type codecs: the certificate codec does not use them.
- Ed25519, Blake2b, SHA-512, curve points, pairings, zeroization and constant-time comparison: library code.
- VRF proving and verification, the network, storage, mempool and consensus selection.
