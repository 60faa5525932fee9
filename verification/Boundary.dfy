/** The whole epoch boundary as a function on ledger values. */
module Boundary {
  import opened Options
  import opened Addresses
  import opened Saturating
  import opened Sums
  import opened Governance
  import opened Lineage
  import opened Payout
  import opened LedgerValue
  import opened Ratify

  /** The outcome of `compute_epoch_rewards`. */
  datatype Rewards = Rewards(
    leader: Balances,
    member: map<Credential, U64>,
    treasuryCut: U64,
    unclaimed: U64,
    deltaReserves: U64)

  // ----- accounts of a credential ------------------------------------------

  ghost predicate IsFirst(accounts: set<RewardAccount>, a: RewardAccount) {
    a in accounts && forall x :: x in accounts && x.credential == a.credential ==> a.network <= x.network
  }

  ghost predicate IsLast(accounts: set<RewardAccount>, a: RewardAccount) {
    a in accounts && forall x :: x in accounts && x.credential == a.credential ==> x.network <= a.network
  }

  /** Member rewards go to the first account of the credential in key order ... */
  ghost function FirstOf(accounts: set<RewardAccount>): Credential -> Option<RewardAccount> {
    c => if exists a :: IsFirst(accounts, a) && a.credential == c
         then var a :| IsFirst(accounts, a) && a.credential == c; Some(a)
         else None
  }

  /** ... while MIR uses a map in which the last account of the credential wins. */
  ghost function LastOf(accounts: set<RewardAccount>): Credential -> Option<RewardAccount> {
    c => if exists a :: IsLast(accounts, a) && a.credential == c
         then var a :| IsLast(accounts, a) && a.credential == c; Some(a)
         else None
  }

  lemma FirstOfIs(accounts: set<RewardAccount>, a: RewardAccount)
    requires IsFirst(accounts, a)
    ensures FirstOf(accounts)(a.credential) == Some(a)
  {
  }

  lemma LastOfIs(accounts: set<RewardAccount>, a: RewardAccount)
    requires IsLast(accounts, a)
    ensures LastOf(accounts)(a.credential) == Some(a)
  {
  }

  // ----- rewards -------------------------------------------------------------

  ghost function AfterRewards(b: Balances, r: Rewards): (b': Balances)
    ensures b'.Keys == b.Keys
  {
    Pay(Pay(b, r.leader.Keys, Own(b), At(r.leader)), r.member.Keys, FirstOf(b.Keys), At(r.member))
  }

  ghost function UnregisteredRewards(b: Balances, r: Rewards): int {
    Lost(r.leader.Keys, Own(b), At(r.leader)) + Lost(r.member.Keys, FirstOf(b.Keys), At(r.member))
  }

  /** The reward calculation splits expansion plus fees into cut, rewards and remainder. */
  ghost predicate RewardsBalance(r: Rewards, reserves: U64, feePot: U64) {
    && r.treasuryCut + MapTotal(r.leader) + MapTotal(r.member) + r.unclaimed == r.deltaReserves + feePot
    && r.deltaReserves <= reserves
  }

  lemma RewardsConserved(b: Balances, r: Rewards)
    requires MapTotal(b) + MapTotal(r.leader) + MapTotal(r.member) <= U64_MAX
    ensures MapTotal(AfterRewards(b, r)) + UnregisteredRewards(b, r)
         == MapTotal(b) + MapTotal(r.leader) + MapTotal(r.member)
    ensures 0 <= UnregisteredRewards(b, r)
  {
    hide Sum;
    PayConserves(b, r.leader.Keys, Own(b), At(r.leader));
    PayConserves(Pay(b, r.leader.Keys, Own(b), At(r.leader)), r.member.Keys, FirstOf(b.Keys), At(r.member));
  }

  // ----- MIR -----------------------------------------------------------------

  function IrAt(m: map<Credential, I64>): Credential -> int {
    c => if c in m then m[c] else 0
  }

  ghost function Filtered(m: map<Credential, I64>, accounts: set<RewardAccount>): set<Credential> {
    set c | c in m && LastOf(accounts)(c).Some?
  }

  ghost function MirTotal(m: map<Credential, I64>, accounts: set<RewardAccount>): int {
    Sum(Filtered(m, accounts), IrAt(m))
  }

  /** The i64 sum the code computes. */
  ghost function MirSum(m: map<Credential, I64>, accounts: set<RewardAccount>): I64 {
    WrapI64(MirTotal(m, accounts))
  }

  function MergedAmount(ir: InstantRewards, c: Credential): I64 {
    WrapI64(IrAt(ir.reserves)(c) + IrAt(ir.treasury)(c))
  }

  ghost function Merged(ir: InstantRewards): Credential -> int {
    c => MergedAmount(ir, c)
  }

  ghost function MergedKeys(ir: InstantRewards, accounts: set<RewardAccount>): set<Credential> {
    Filtered(ir.reserves, accounts) + Filtered(ir.treasury, accounts)
  }

  function ApplyDelta(pot: U64, delta: int): U64 {
    Clamp(pot + delta)
  }

  function Debited(pot: U64, delta: I64, total: I64): U64 {
    ApplyDelta(ApplyDelta(pot, delta), NegateI64(total))
  }

  /** A pot after its pot-to-pot delta covers the registered total. */
  predicate PotCovers(pot: U64, delta: int, total: int) {
    total <= 0 || Wrap64(if pot + delta < 0 then 0 else pot + delta) >= total
  }

  ghost predicate CanPay(l: Ledger) {
    var ir, accounts := l.instantRewards, l.gov.balances.Keys;
    && PotCovers(l.reserves, ir.deltaReserves, MirSum(ir.reserves, accounts))
    && PotCovers(l.gov.treasury, ir.deltaTreasury, MirSum(ir.treasury, accounts))
  }

  const NO_MIR := InstantRewards(map[], map[], 0, 0)

  ghost function AfterMir(l: Ledger): Ledger {
    var ir, b := l.instantRewards, l.gov.balances;
    var totR, totT := MirSum(ir.reserves, b.Keys), MirSum(ir.treasury, b.Keys);
    if ir == NO_MIR then l
    else if !CanPay(l) then l.(instantRewards := NO_MIR)
    else
      l.(reserves := Debited(l.reserves, ir.deltaReserves, totR),
         gov := l.gov.(
           treasury := Debited(l.gov.treasury, ir.deltaTreasury, totT),
           balances := if totR != 0 || totT != 0
                       then Pay(b, MergedKeys(ir, b.Keys), LastOf(b.Keys), Merged(ir))
                       else b),
         instantRewards := NO_MIR)
  }

  // ----- pools ---------------------------------------------------------------

  function Adopt(ps: PoolState): PoolState {
    PoolState(
      map p | p in ps.pools ::
        if p in ps.futureParams then ps.pools[p].(rewardAccount := ps.futureParams[p]) else ps.pools[p],
      map[])
  }

  function Retiring(pools: map<PoolId, Pool>, epoch: U64): set<PoolId> {
    set p | p in pools && pools[p].retiring.Some? && pools[p].retiring.value <= epoch
  }

  ghost function PoolDest(pools: map<PoolId, Pool>, b: Balances): PoolId -> Option<RewardAccount> {
    p => if p in pools && pools[p].rewardAccount in b then Some(pools[p].rewardAccount) else None
  }

  function PoolDeposit(pools: map<PoolId, Pool>): PoolId -> int {
    p => if p in pools then pools[p].deposit else 0
  }

  ghost function RetiredDeposits(l: Ledger, epoch: U64): int {
    var pools := Adopt(l.poolState).pools;
    Sum(Retiring(pools, epoch), PoolDeposit(pools))
  }

  ghost function UnclaimedPools(l: Ledger, epoch: U64): int {
    var pools := Adopt(l.poolState).pools;
    Lost(Retiring(pools, epoch), PoolDest(pools, l.gov.balances), PoolDeposit(pools))
  }

  ghost function AfterPools(l: Ledger, epoch: U64): Ledger {
    var ps := Adopt(l.poolState);
    var gone := Retiring(ps.pools, epoch);
    l.(poolState := ps.(pools := ps.pools - gone),
       gov := l.gov.(balances := Pay(l.gov.balances, gone, PoolDest(ps.pools, l.gov.balances), PoolDeposit(ps.pools))),
       deposits := l.deposits.(pools := Clamp(l.deposits.pools - RetiredDeposits(l, epoch))))
  }

  // ----- pots ----------------------------------------------------------------

  ghost function AfterPots(l: Ledger, r: Rewards, toTreasury: int): Ledger {
    l.(reserves := SatAdd(SatSub(l.reserves, r.deltaReserves), r.unclaimed),
       gov := l.gov.(treasury := Clamp(l.gov.treasury + r.treasuryCut + toTreasury)))
  }

  // ----- governance ----------------------------------------------------------

  /** What becomes of each pending proposal. */
  datatype Fates = Fates(
    run: RatifyState,
    enacted: set<GovActionId>,
    pruned: set<GovActionId>,
    expired: set<GovActionId>,
    descendants: set<GovActionId>,
    left: Proposals)

  ghost function FatesOf(g: GovState, epoch: U64, accepts: Accepts): Fates {
    var order := RatifyOrder(g.proposals);
    var run := Run(g, order, |order|, epoch, accepts);
    var pruned := StaleIds(run.gov.proposals, run.gov.enactState, EnactedPurposes(g.proposals, run.enacted));
    var live := run.gov.proposals - pruned;
    var expired := set id | id in live && Expired(live[id], epoch);
    var descendants := Descendants(live - expired, expired);
    Fates(run, Members(run.enacted), pruned, expired, descendants, live - expired - descendants)
  }

  ghost function Vanished(f: Fates): set<GovActionId> {
    f.enacted + f.pruned + f.expired + f.descendants
  }

  ghost function RefundDest(props: Proposals, accounts: set<RewardAccount>): GovActionId -> Option<RewardAccount> {
    id => if id in props && props[id].returnAccount.Some? && props[id].returnAccount.value in accounts
          then props[id].returnAccount else None
  }

  function DepositOf(props: Proposals): GovActionId -> int {
    id => if id in props then props[id].deposit else 0
  }

  ghost function VanishedDeposits(g: GovState, epoch: U64, accepts: Accepts): int {
    Sum(Vanished(FatesOf(g, epoch, accepts)), DepositOf(g.proposals))
  }

  /** Every vanished deposit goes once to its return account or, if that is not registered, to the treasury. */
  ghost function AfterGovernance(l: Ledger, epoch: U64, accepts: Accepts): Ledger {
    var f := FatesOf(l.gov, epoch, accepts);
    var g := f.run.gov;
    var dest, deposit := RefundDest(l.gov.proposals, l.gov.balances.Keys), DepositOf(l.gov.proposals);
    l.(gov := GovState(
         Clamp(g.treasury + Lost(Vanished(f), dest, deposit) + l.donations),
         Pay(g.balances, Vanished(f), dest, deposit),
         f.left, g.enactState, g.termLimit),
       donations := 0,
       deposits := l.deposits.(proposals := Clamp(l.deposits.proposals - VanishedDeposits(l.gov, epoch, accepts))))
  }

  // ----- the boundary ----------------------------------------------------------

  ghost function Rewarded(l: Ledger, r: Rewards): Ledger {
    l.(gov := l.gov.(balances := AfterRewards(l.gov.balances, r)))
  }

  ghost function BeforePots(l: Ledger, epoch: U64, r: Rewards): Ledger {
    AfterPools(AfterMir(Rewarded(l, r)), epoch)
  }

  ghost function ToTreasury(l: Ledger, epoch: U64, r: Rewards): int {
    UnregisteredRewards(l.gov.balances, r) + UnclaimedPools(AfterMir(Rewarded(l, r)), epoch)
  }

  ghost function BeforeGovernance(l: Ledger, epoch: U64, r: Rewards): Ledger {
    AfterPots(BeforePots(l, epoch, r), r, ToTreasury(l, epoch, r))
  }

  ghost function AfterBoundary(l: Ledger, epoch: U64, r: Rewards, accepts: Accepts): Ledger {
    AfterGovernance(BeforeGovernance(l, epoch, r), epoch, accepts)
  }
}

/** What the boundary keeps: the proposal forest, one refund per proposal, and the lovelace supply. */
module BoundaryTheorems {
  import opened Options
  import opened Addresses
  import opened Saturating
  import opened Sums
  import opened Governance
  import opened Lineage
  import opened Payout
  import opened LedgerValue
  import opened Ratify
  import opened Boundary

  /** The proposal forest survives the boundary, with the roots advanced. */
  lemma ForestSurvives(l: Ledger, epoch: U64, accepts: Accepts)
    requires Forest(l.gov.proposals, l.gov.enactState)
    ensures var g := AfterGovernance(l, epoch, accepts).gov;
            Forest(g.proposals, g.enactState)
  {
    hide Run, Sum, Forest, Descendants;
    var order := RatifyOrder(l.gov.proposals);
    RatifyKeepsForest(l.gov, order, epoch, accepts);
    var f := FatesOf(l.gov, epoch, accepts);
    RemovalKeepsForest(f.run.gov.proposals - f.pruned, f.run.gov.enactState, f.expired);
  }

  /** The four ways to vanish exclude each other, and together they account for every proposal that is gone. */
  lemma VanishOnce(g: GovState, epoch: U64, accepts: Accepts)
    ensures var f := FatesOf(g, epoch, accepts);
            && f.enacted !! f.pruned && (f.enacted + f.pruned) !! f.expired
            && (f.enacted + f.pruned + f.expired) !! f.descendants
            && Vanished(f) == g.proposals.Keys - f.left.Keys
            && (forall id :: id in f.left ==> id in g.proposals && f.left[id] == g.proposals[id])
            && (forall id :: id in f.expired ==> Expired(g.proposals[id], epoch))
            && (forall id :: id in f.left ==> !Expired(g.proposals[id], epoch))
            && f.run.gov.balances.Keys == g.balances.Keys
            && f.expired + f.descendants <= f.run.gov.proposals.Keys - f.pruned
            && (forall id :: id in f.run.gov.proposals ==>
                  id in g.proposals && f.run.gov.proposals[id] == g.proposals[id])
  {
    hide Run, Sum, Descends, Stale, IsRatifyOrder;
    var order := RatifyOrder(g.proposals);
    RunShape(g, order, |order|, epoch, accepts);
  }

  // ----- conservation --------------------------------------------------------

  const MAX_SUPPLY: int := 45_000_000_000_000_000

  ghost function Total(l: Ledger): nat {
    l.reserves + l.gov.treasury + MapTotal(l.gov.balances) + l.donations
    + l.deposits.keys + l.deposits.pools + l.deposits.dreps + l.deposits.proposals
  }

  ghost predicate PaysMir(l: Ledger) {
    l.instantRewards != NO_MIR && CanPay(l)
  }

  /** Lovelace created when MIR drives a pot or an account below zero. */
  ghost function MirLeak(l: Ledger): nat {
    var ir, b := l.instantRewards, l.gov.balances;
    if !PaysMir(l) then 0
    else
      Below0(l.reserves + ir.deltaReserves) + Below0(l.gov.treasury + ir.deltaTreasury)
      + (if MirSum(ir.reserves, b.Keys) != 0 || MirSum(ir.treasury, b.Keys) != 0
         then Overdraft(b, Inflow(MergedKeys(ir, b.Keys), LastOf(b.Keys), Merged(ir))) else 0)
  }

  ghost function MirShift(l: Ledger): int {
    if PaysMir(l) then l.instantRewards.deltaReserves + l.instantRewards.deltaTreasury else 0
  }

  ghost predicate MirInSupply(ir: InstantRewards, accounts: set<RewardAccount>) {
    && -MAX_SUPPLY <= ir.deltaReserves <= MAX_SUPPLY && -MAX_SUPPLY <= ir.deltaTreasury <= MAX_SUPPLY
    && -MAX_SUPPLY <= MirTotal(ir.reserves, accounts) <= MAX_SUPPLY
    && -MAX_SUPPLY <= MirTotal(ir.treasury, accounts) <= MAX_SUPPLY
    && forall c :: -MAX_SUPPLY <= IrAt(ir.reserves)(c) + IrAt(ir.treasury)(c) <= MAX_SUPPLY
  }

  /** No 64-bit sum of the amounts wraps. */
  ghost predicate SumsFit(ir: InstantRewards, accounts: set<RewardAccount>) {
    && -I64_MAX <= MirTotal(ir.reserves, accounts) <= I64_MAX
    && -I64_MAX <= MirTotal(ir.treasury, accounts) <= I64_MAX
    && forall c :: -I64_MAX - 1 <= IrAt(ir.reserves)(c) + IrAt(ir.treasury)(c) <= I64_MAX
  }

  /** No merged amount is negative. */
  ghost predicate CreditsOnly(ir: InstantRewards) {
    forall c :: 0 <= Merged(ir)(c)
  }

  /** The registered amounts of both pots, merged per credential, add up to the two totals. */
  lemma MergedSum(ir: InstantRewards, accounts: set<RewardAccount>)
    requires SumsFit(ir, accounts)
    ensures Sum(MergedKeys(ir, accounts), Merged(ir)) == MirSum(ir.reserves, accounts) + MirSum(ir.treasury, accounts)
  {
    hide Sum;
    var keys := MergedKeys(ir, accounts);
    SumLinear(keys, IrAt(ir.reserves), IrAt(ir.treasury), Merged(ir));
    SumPadded(Filtered(ir.reserves, accounts), keys, IrAt(ir.reserves));
    SumPadded(Filtered(ir.treasury, accounts), keys, IrAt(ir.treasury));
  }

  lemma SumPadded<T(!new)>(s: set<T>, t: set<T>, f: T -> int)
    requires s <= t && forall x :: x in t - s ==> f(x) == 0
    ensures Sum(t, f) == Sum(s, f)
  {
    SumUnion(s, t - s, f);
    SumZero(t - s, f);
    assert s + (t - s) == t;
  }

  /** An account receives the merged amount of its own credential and nothing else. */
  lemma MirInflow(ir: InstantRewards, b: Balances, a: RewardAccount)
    requires MirInSupply(ir, b.Keys)
    ensures Inflow(MergedKeys(ir, b.Keys), LastOf(b.Keys), Merged(ir))(a) <= MAX_SUPPLY
  {
    hide Sum, MirTotal, WrapI64;
    SumsExact(ir, b.Keys);
    SumOnly(MergedKeys(ir, b.Keys), Share(LastOf(b.Keys), Merged(ir), Some(a)), a.credential);
  }

  lemma SumsExact(ir: InstantRewards, accounts: set<RewardAccount>)
    requires SumsFit(ir, accounts)
    ensures MirSum(ir.reserves, accounts) == MirTotal(ir.reserves, accounts)
    ensures MirSum(ir.treasury, accounts) == MirTotal(ir.treasury, accounts)
    ensures forall c :: Merged(ir)(c) == IrAt(ir.reserves)(c) + IrAt(ir.treasury)(c)
  {
    hide MirTotal;
  }

  /** No account is credited beyond 64 bits. */
  ghost predicate AccountsHold(ir: InstantRewards, b: Balances) {
    forall a :: a in b ==> b[a] + Inflow(MergedKeys(ir, b.Keys), LastOf(b.Keys), Merged(ir))(a) <= U64_MAX
  }

  lemma MirBalances(ir: InstantRewards, b: Balances)
    requires SumsFit(ir, b.Keys) && AccountsHold(ir, b)
    ensures var keys := MergedKeys(ir, b.Keys);
            MapTotal(Pay(b, keys, LastOf(b.Keys), Merged(ir)))
            == MapTotal(b) + MirSum(ir.reserves, b.Keys) + MirSum(ir.treasury, b.Keys)
               + Overdraft(b, Inflow(keys, LastOf(b.Keys), Merged(ir)))
  {
    hide Sum;
    var keys := MergedKeys(ir, b.Keys);
    PayTotal(b, keys, LastOf(b.Keys), Merged(ir));
    NoSurplus(b, Inflow(keys, LastOf(b.Keys), Merged(ir)));
    MergedSum(ir, b.Keys);
    SumZero(keys, Share(LastOf(b.Keys), Merged(ir), None));
  }

  lemma PotAccounting(pot: U64, delta: I64, total: I64)
    requires pot + delta <= U64_MAX && pot + delta - total <= U64_MAX && -I64_MAX <= total
    requires PotCovers(pot, delta, total)
    ensures Debited(pot, delta, total) == pot + delta - total + Below0(pot + delta)
  {
  }

  /** The exact effect of MIR on the two pots and the balances together. */
  lemma MirAccounting(l: Ledger)
    requires MirFits(l)
    ensures var l' := AfterMir(l);
            l'.reserves + l'.gov.treasury + MapTotal(l'.gov.balances)
            == l.reserves + l.gov.treasury + MapTotal(l.gov.balances) + MirShift(l) + MirLeak(l)
  {
    hide Sum, MapTotal, MirSum, Pay, MergedKeys;
    var ir, b := l.instantRewards, l.gov.balances;
    if PaysMir(l) {
      SumsExact(ir, b.Keys);
      PotAccounting(l.reserves, ir.deltaReserves, MirSum(ir.reserves, b.Keys));
      PotAccounting(l.gov.treasury, ir.deltaTreasury, MirSum(ir.treasury, b.Keys));
      MirBalances(ir, b);
    }
  }

  /** With merged amounts that are not negative, MIR creates nothing exactly when both adjusted pots stay above zero. */
  lemma MirLeaksOnlyFromPots(l: Ledger)
    requires CreditsOnly(l.instantRewards)
    ensures MirLeak(l) == (if PaysMir(l) then Below0(l.reserves + l.instantRewards.deltaReserves)
                                              + Below0(l.gov.treasury + l.instantRewards.deltaTreasury) else 0)
  {
    hide Sum;
    var ir, b := l.instantRewards, l.gov.balances;
    InflowBounds(MergedKeys(ir, b.Keys), LastOf(b.Keys), Merged(ir));
    SumZero(b.Keys, Below(b, Inflow(MergedKeys(ir, b.Keys), LastOf(b.Keys), Merged(ir))));
  }

  /** The credits among the merged amounts. */
  ghost function Credit(ir: InstantRewards): Credential -> int {
    c => if Merged(ir)(c) < 0 then 0 else Merged(ir)(c)
  }

  ghost function MirCredits(ir: InstantRewards, accounts: set<RewardAccount>): int {
    Sum(MergedKeys(ir, accounts), Credit(ir))
  }

  /** Merged amounts that are not negative are all credits. */
  lemma CreditsAreAll(ir: InstantRewards, accounts: set<RewardAccount>)
    requires SumsFit(ir, accounts) && CreditsOnly(ir)
    ensures MirCredits(ir, accounts) == MirSum(ir.reserves, accounts) + MirSum(ir.treasury, accounts)
  {
    hide Sum;
    SumSame(MergedKeys(ir, accounts), Credit(ir), Merged(ir));
    MergedSum(ir, accounts);
  }

  /** What MIR leaves in the accounts, debits included, exceeds what was there by the credits at most. */
  lemma MirAtMostCredits(ir: InstantRewards, b: Balances)
    requires MapTotal(b) + MirCredits(ir, b.Keys) <= U64_MAX
    ensures MapTotal(Pay(b, MergedKeys(ir, b.Keys), LastOf(b.Keys), Merged(ir))) <= MapTotal(b) + MirCredits(ir, b.Keys)
  {
    hide Sum, MergedKeys, MapTotal, Pay, Lost, Merged;
    var keys, dest := MergedKeys(ir, b.Keys), LastOf(b.Keys);
    PayConserves(b, keys, dest, Credit(ir));
    PayMonotone(b, keys, dest, Merged(ir), Credit(ir));
  }

  /** Every account can give what MIR takes from it. */
  ghost predicate DebitsCovered(l: Ledger) {
    var ir, b := l.instantRewards, l.gov.balances;
    MirSum(ir.reserves, b.Keys) != 0 || MirSum(ir.treasury, b.Keys) != 0 ==>
      forall c :: c in MergedKeys(ir, b.Keys) && LastOf(b.Keys)(c).value in b ==>
        b[LastOf(b.Keys)(c).value] + Merged(ir)(c) >= 0
  }

  /** MIR creates nothing exactly when both adjusted pots and every debited account stay above zero. */
  lemma MirLeaksExactly(l: Ledger)
    ensures MirLeak(l) == 0 <==>
              (PaysMir(l) ==> 0 <= l.reserves + l.instantRewards.deltaReserves
                              && 0 <= l.gov.treasury + l.instantRewards.deltaTreasury && DebitsCovered(l))
  {
    hide Sum, MirSum, Overdraft, PaysMir;
    var ir, b := l.instantRewards, l.gov.balances;
    NoOverdraftExactly(ir, b);
  }

  lemma NoOverdraftExactly(ir: InstantRewards, b: Balances)
    ensures var keys, dest := MergedKeys(ir, b.Keys), LastOf(b.Keys);
            Overdraft(b, Inflow(keys, dest, Merged(ir))) == 0 <==>
              forall c :: c in keys && dest(c).value in b ==> b[dest(c).value] + Merged(ir)(c) >= 0
  {
    hide Sum, Merged;
    var keys, dest := MergedKeys(ir, b.Keys), LastOf(b.Keys);
    var inflow := Inflow(keys, dest, Merged(ir));
    forall c | c in keys
      ensures inflow(dest(c).value) == Merged(ir)(c)
    {
      SumOnly(keys, Share(dest, Merged(ir), dest(c)), c);
    }
    SumBounds(b.Keys, Below(b, inflow));
    if forall c :: c in keys && dest(c).value in b ==> b[dest(c).value] + Merged(ir)(c) >= 0 {
      forall a | a in b
        ensures Below(b, inflow)(a) == 0
      {
        if dest(a.credential) != Some(a) || a.credential !in keys {
          SumZero(keys, Share(dest, Merged(ir), Some(a)));
        }
      }
      SumZero(b.Keys, Below(b, inflow));
    }
  }

  /** MIR is all or nothing, and always clears its state. */
  lemma MirAllOrNothing(l: Ledger)
    ensures AfterMir(l).instantRewards == NO_MIR
    ensures !CanPay(l) ==> AfterMir(l) == l.(instantRewards := NO_MIR)
    ensures var l', ir := AfterMir(l), l.instantRewards;
            && CanPay(l) && CreditsOnly(ir)
            && 0 <= l.reserves + ir.deltaReserves && 0 <= l.gov.treasury + ir.deltaTreasury
            && MirFits(l) ==>
              l'.reserves + l'.gov.treasury + MapTotal(l'.gov.balances)
              == l.reserves + l.gov.treasury + MapTotal(l.gov.balances) + ir.deltaReserves + ir.deltaTreasury
  {
    hide Sum, MapTotal, MirSum, Pay, MergedKeys, MirLeak;
    if CreditsOnly(l.instantRewards) && MirFits(l) {
      MirAccounting(l);
      MirLeaksOnlyFromPots(l);
    }
  }

  /** No 64-bit sum of MIR wraps. */
  ghost predicate MirExact(l: Ledger) {
    && SumsFit(l.instantRewards, l.gov.balances.Keys)
    && l.reserves + l.instantRewards.deltaReserves <= U64_MAX
    && l.gov.treasury + l.instantRewards.deltaTreasury <= U64_MAX
  }

  /** Nor does one stop at its upper end. */
  ghost predicate MirFits(l: Ledger) {
    var ir, b := l.instantRewards, l.gov.balances;
    && MirExact(l) && AccountsHold(ir, b)
    && l.reserves + ir.deltaReserves - MirTotal(ir.reserves, b.Keys) <= U64_MAX
    && l.gov.treasury + ir.deltaTreasury - MirTotal(ir.treasury, b.Keys) <= U64_MAX
  }

  /** Amounts of the size of the supply fit. */
  lemma SupplyFits(l: Ledger)
    requires l.reserves + l.gov.treasury + MapTotal(l.gov.balances) <= 4 * MAX_SUPPLY
    requires MirInSupply(l.instantRewards, l.gov.balances.Keys)
    ensures MirFits(l)
  {
    hide Sum, MirTotal, Inflow, Merged;
    var ir, b := l.instantRewards, l.gov.balances;
    SumBounds(b.Keys, At(b));
    forall a | a in b
      ensures b[a] + Inflow(MergedKeys(ir, b.Keys), LastOf(b.Keys), Merged(ir))(a) <= U64_MAX
    {
      assert At(b)(a) <= MapTotal(b);
      MirInflow(ir, b, a);
    }
  }

  ghost function PoolDepositTotal(l: Ledger): int {
    Sum(l.poolState.pools.Keys, PoolDeposit(l.poolState.pools))
  }

  lemma RetiredWithinPools(l: Ledger, epoch: U64)
    ensures 0 <= RetiredDeposits(l, epoch) <= PoolDepositTotal(l)
  {
    hide Sum;
    var pools := Adopt(l.poolState).pools;
    assert pools.Keys == l.poolState.pools.Keys;
    SumBounds(Retiring(pools, epoch), PoolDeposit(pools));
    SumSubset(Retiring(pools, epoch), pools.Keys, PoolDeposit(pools));
    SumSame(pools.Keys, PoolDeposit(pools), PoolDeposit(l.poolState.pools));
  }

  lemma PoolAccounting(l: Ledger, epoch: U64)
    requires MapTotal(l.gov.balances) + PoolDepositTotal(l) <= U64_MAX
    ensures var l' := AfterPools(l, epoch);
            && MapTotal(l'.gov.balances) + UnclaimedPools(l, epoch) + l'.deposits.pools
               == MapTotal(l.gov.balances) + l.deposits.pools + Below0(l.deposits.pools - RetiredDeposits(l, epoch))
            && 0 <= UnclaimedPools(l, epoch) <= RetiredDeposits(l, epoch)
  {
    hide Sum;
    var pools := Adopt(l.poolState).pools;
    RetiredWithinPools(l, epoch);
    PayConserves(l.gov.balances, Retiring(pools, epoch), PoolDest(pools, l.gov.balances), PoolDeposit(pools));
  }

  ghost function ProposalDepositTotal(g: GovState): int {
    Sum(g.proposals.Keys, DepositOf(g.proposals))
  }

  lemma VanishedWithinPending(g: GovState, epoch: U64, accepts: Accepts)
    ensures 0 <= VanishedDeposits(g, epoch, accepts) <= ProposalDepositTotal(g)
  {
    hide Sum, FatesOf, Vanished;
    VanishOnce(g, epoch, accepts);
    var gone := Vanished(FatesOf(g, epoch, accepts));
    SumBounds(gone, DepositOf(g.proposals));
    SumSubset(gone, g.proposals.Keys, DepositOf(g.proposals));
  }

  /** At every withdrawal that is enacted, the treasury covers what is paid. */
  ghost predicate WithdrawalsCovered(g: GovState, epoch: U64, accepts: Accepts) {
    var order := RatifyOrder(g.proposals);
    Covered(g, order, |order|, epoch, accepts)
  }

  /** What governance moves: treasury, balances, donations and the proposal deposits. */
  ghost function GovernanceTotal(l: Ledger): nat {
    Money(l.gov) + l.donations + l.deposits.proposals
  }

  /** The refunds and donations that follow ratification, on whatever it left. */
  lemma RefundAccounting(l: Ledger, epoch: U64, accepts: Accepts, over: nat)
    requires var f := FatesOf(l.gov, epoch, accepts);
             var dest := RefundDest(l.gov.proposals, l.gov.balances.Keys);
             over == Surplus(f.run.gov.balances, Inflow(Vanished(f), dest, DepositOf(l.gov.proposals)))
    ensures var l', g, f := AfterGovernance(l, epoch, accepts), l.gov, FatesOf(l.gov, epoch, accepts);
            var lost := Lost(Vanished(f), RefundDest(g.proposals, g.balances.Keys), DepositOf(g.proposals));
            && MapTotal(l'.gov.balances) + lost
            == MapTotal(f.run.gov.balances) + VanishedDeposits(g, epoch, accepts) - over
            && (over > 0 ==> MapTotal(l'.gov.balances) >= U64_MAX)
            && 0 <= lost <= VanishedDeposits(g, epoch, accepts)
            && l'.gov.treasury == Clamp(f.run.gov.treasury + lost + l.donations)
  {
    hide Sum, Run, Vanished, Surplus, Inflow;
    var g := l.gov;
    var f := FatesOf(g, epoch, accepts);
    VanishOnce(g, epoch, accepts);
    PayAccounting(f.run.gov.balances, Vanished(f), RefundDest(g.proposals, g.balances.Keys), DepositOf(g.proposals));
  }

  /** Governance returns every vanished deposit and moves the donations. If the treasury covers the
      enacted withdrawals, the total changes by what the deposit pot fails to give; if not, it grows. */
  lemma GovernanceAccounting(l: Ledger, epoch: U64, accepts: Accepts)
    requires Money(l.gov) + ProposalDepositTotal(l.gov) + l.donations + l.deposits.proposals < U64_MAX
    ensures var l', covered := AfterGovernance(l, epoch, accepts), WithdrawalsCovered(l.gov, epoch, accepts);
            && (covered ==> GovernanceTotal(l') == GovernanceTotal(l)
                              + Below0(l.deposits.proposals - VanishedDeposits(l.gov, epoch, accepts)))
            && (!covered ==> GovernanceTotal(l') > GovernanceTotal(l))
  {
    hide Sum, Run, Vanished, MapTotal, Covered, VanishedDeposits, Surplus, Lost, Pay, StaleIds, Descendants;
    var g, order := l.gov, RatifyOrder(l.gov.proposals);
    var f := FatesOf(g, epoch, accepts);
    var dest, deposit := RefundDest(g.proposals, g.balances.Keys), DepositOf(g.proposals);
    var over := Surplus(f.run.gov.balances, Inflow(Vanished(f), dest, deposit));
    VanishedWithinPending(g, epoch, accepts);
    RunConserves(g, order, |order|, epoch, accepts);
    RefundAccounting(l, epoch, accepts, over);
    if WithdrawalsCovered(g, epoch, accepts) {
      NoRefundSpills(l, epoch, accepts);
    }
  }

  /** Covered refunds fit into the accounts. */
  lemma NoRefundSpills(l: Ledger, epoch: U64, accepts: Accepts)
    requires Money(l.gov) + ProposalDepositTotal(l.gov) <= U64_MAX
               && Money(FatesOf(l.gov, epoch, accepts).run.gov) == Money(l.gov)
    ensures var f := FatesOf(l.gov, epoch, accepts);
            var dest := RefundDest(l.gov.proposals, l.gov.balances.Keys);
            Surplus(f.run.gov.balances, Inflow(Vanished(f), dest, DepositOf(l.gov.proposals))) == 0
  {
    hide Sum, Run, Vanished, Surplus;
    var g := l.gov;
    var f := FatesOf(g, epoch, accepts);
    VanishOnce(g, epoch, accepts);
    VanishedWithinPending(g, epoch, accepts);
    PayConserves(f.run.gov.balances, Vanished(f), RefundDest(g.proposals, g.balances.Keys), DepositOf(g.proposals));
    PayAccounting(f.run.gov.balances, Vanished(f), RefundDest(g.proposals, g.balances.Keys), DepositOf(g.proposals));
  }

  lemma PotsAccounting(l: Ledger, r: Rewards, toTreasury: nat)
    requires l.reserves + l.gov.treasury + r.unclaimed + r.treasuryCut + toTreasury <= U64_MAX
    ensures var l' := AfterPots(l, r, toTreasury);
            && l'.reserves == l.reserves - r.deltaReserves + r.unclaimed + Below0(l.reserves - r.deltaReserves)
            && l'.gov.treasury == l.gov.treasury + r.treasuryCut + toTreasury
  {
  }

  /** Amounts of the size of the supply, and a reward calculation that balances. */
  ghost predicate InSupply(l: Ledger, previousFeePot: U64, r: Rewards) {
    && Total(l) + previousFeePot <= MAX_SUPPLY
    && RewardsBalance(r, l.reserves, previousFeePot)
    && MirInSupply(l.instantRewards, l.gov.balances.Keys)
    && MirCredits(l.instantRewards, l.gov.balances.Keys) <= 2 * MAX_SUPPLY
    && PoolDepositTotal(l) <= MAX_SUPPLY
    && ProposalDepositTotal(l.gov) <= MAX_SUPPLY
  }

  /** Lovelace the boundary creates because a saturating subtraction stops at zero: a pot-to-pot
      transfer larger than its pot, MIR that takes more from an account than it holds, monetary
      expansion larger than what MIR left in the reserves, and deposits larger than the pot they are
      returned from. Withdrawals that the treasury does not cover come on top. */
  ghost function Leak(l: Ledger, epoch: U64, r: Rewards, accepts: Accepts): nat {
    var paid := AfterMir(Rewarded(l, r));
    var g := BeforeGovernance(l, epoch, r);
    MirLeak(Rewarded(l, r))
    + Below0(paid.reserves - r.deltaReserves)
    + Below0(l.deposits.pools - RetiredDeposits(l, epoch))
    + Below0(l.deposits.proposals - VanishedDeposits(g.gov, epoch, accepts))
  }

  lemma MirFields(l: Ledger)
    ensures var l' := AfterMir(l);
            && l'.poolState == l.poolState && l'.deposits == l.deposits && l'.donations == l.donations
            && l'.gov.proposals == l.gov.proposals && l'.gov.enactState == l.gov.enactState
            && l'.gov.balances.Keys == l.gov.balances.Keys
  {
  }

  lemma PoolFields(l: Ledger, epoch: U64)
    ensures var l' := AfterPools(l, epoch);
            && l'.reserves == l.reserves && l'.gov.treasury == l.gov.treasury && l'.donations == l.donations
            && l'.gov.proposals == l.gov.proposals && l'.gov.enactState == l.gov.enactState
            && l'.deposits == l.deposits.(pools := l'.deposits.pools)
  {
  }

  lemma UntilMir(l: Ledger, previousFeePot: U64, r: Rewards)
    requires InSupply(l, previousFeePot, r)
    ensures var l1, l2 := Rewarded(l, r), AfterMir(Rewarded(l, r));
            && l2.reserves + l2.gov.treasury + MapTotal(l2.gov.balances) + UnregisteredRewards(l.gov.balances, r)
               == l.reserves + l.gov.treasury + MapTotal(l.gov.balances) + MapTotal(r.leader) + MapTotal(r.member)
                  + MirShift(l1) + MirLeak(l1)
            && 0 <= UnregisteredRewards(l.gov.balances, r)
            && MirLeak(l1) <= 6 * MAX_SUPPLY && -2 * MAX_SUPPLY <= MirShift(l1) <= 2 * MAX_SUPPLY
  {
    hide Sum, MapTotal, MirSum, AfterMir, AfterRewards, UnregisteredRewards, MirLeak, PaysMir, MirCredits;
    RewardsConserved(l.gov.balances, r);
    SupplyFits(Rewarded(l, r));
    MirAccounting(Rewarded(l, r));
    MirLeakBound(Rewarded(l, r));
  }

  lemma MirLeakBound(l: Ledger)
    requires l.reserves + l.gov.treasury + MapTotal(l.gov.balances) <= 4 * MAX_SUPPLY
    requires MirInSupply(l.instantRewards, l.gov.balances.Keys)
    requires MirCredits(l.instantRewards, l.gov.balances.Keys) <= 2 * MAX_SUPPLY
    ensures MirLeak(l) <= 6 * MAX_SUPPLY
  {
    hide Sum, MapTotal, MirTotal, Overdraft, Pay, MirCredits;
    var ir, b := l.instantRewards, l.gov.balances;
    SupplyFits(l);
    SumsExact(ir, b.Keys);
    MirBalances(ir, b);
    MirAtMostCredits(ir, b);
  }

  lemma UntilPots(l: Ledger, epoch: U64, previousFeePot: U64, r: Rewards)
    requires InSupply(l, previousFeePot, r)
    ensures var l1, l3 := Rewarded(l, r), BeforePots(l, epoch, r);
            && l3.reserves + l3.gov.treasury + MapTotal(l3.gov.balances) + l3.deposits.pools + ToTreasury(l, epoch, r)
               == l.reserves + l.gov.treasury + MapTotal(l.gov.balances) + l.deposits.pools
                  + MapTotal(r.leader) + MapTotal(r.member)
                  + MirShift(l1) + MirLeak(l1) + Below0(l.deposits.pools - RetiredDeposits(l, epoch))
            && l3.reserves == AfterMir(l1).reserves
            && 0 <= ToTreasury(l, epoch, r)
            && l3.gov.proposals == l.gov.proposals && l3.donations == l.donations
            && l3.deposits == l.deposits.(pools := l3.deposits.pools)
            && MirLeak(l1) <= 6 * MAX_SUPPLY && -2 * MAX_SUPPLY <= MirShift(l1) <= 2 * MAX_SUPPLY
            && Below0(l.deposits.pools - RetiredDeposits(l, epoch)) <= MAX_SUPPLY
  {
    hide Sum, MapTotal, AfterMir, AfterPools, MirLeak, MirShift, UnregisteredRewards, UnclaimedPools, Adopt;
    var l2 := AfterMir(Rewarded(l, r));
    UntilMir(l, previousFeePot, r);
    MirFields(Rewarded(l, r));
    PoolFields(l2, epoch);
    RetiredWithinPools(l2, epoch);
    PoolAccounting(l2, epoch);
  }

  /** The balance of the boundary: exact when the treasury covers the enacted withdrawals, and a
      growth of the supply when it does not. */
  lemma BoundaryAccounting(l: Ledger, epoch: U64, previousFeePot: U64, r: Rewards, accepts: Accepts)
    requires InSupply(l, previousFeePot, r)
    ensures var after, before := Total(AfterBoundary(l, epoch, r, accepts)),
              Total(l) + previousFeePot + MirShift(Rewarded(l, r));
            && (WithdrawalsCovered(BeforeGovernance(l, epoch, r).gov, epoch, accepts) ==>
              after == before + Leak(l, epoch, r, accepts))
            && (!WithdrawalsCovered(BeforeGovernance(l, epoch, r).gov, epoch, accepts) ==> after > before)
  {
    hide Sum, MapTotal, Pay, Lost, AfterMir, AfterPools, MirLeak, MirShift, VanishedDeposits, FatesOf,
         WithdrawalsCovered;
    UntilPots(l, epoch, previousFeePot, r);
    var l3, l4 := BeforePots(l, epoch, r), BeforeGovernance(l, epoch, r);
    PotsAccounting(l3, r, ToTreasury(l, epoch, r));
    assert l4.gov.proposals == l.gov.proposals;
    GovernanceAccounting(l4, epoch, accepts);
  }

  /** No saturating subtraction of the boundary stops at zero. */
  ghost predicate NothingClamps(l: Ledger, epoch: U64, r: Rewards, accepts: Accepts) {
    var l1, ir := Rewarded(l, r), l.instantRewards;
    && (PaysMir(l1) ==> 0 <= l.reserves + ir.deltaReserves && 0 <= l.gov.treasury + ir.deltaTreasury
                        && DebitsCovered(l1))
    && r.deltaReserves <= AfterMir(l1).reserves
    && RetiredDeposits(l, epoch) <= l.deposits.pools
    && WithdrawalsCovered(BeforeGovernance(l, epoch, r).gov, epoch, accepts)
    && VanishedDeposits(BeforeGovernance(l, epoch, r).gov, epoch, accepts) <= l.deposits.proposals
  }

  /** Across the boundary, which spends the previous fee pot, lovelace is conserved exactly when nothing
      clamps; otherwise it only grows. */
  lemma LovelaceConserved(l: Ledger, epoch: U64, previousFeePot: U64, r: Rewards, accepts: Accepts)
    requires InSupply(l, previousFeePot, r)
    requires l.instantRewards.deltaReserves + l.instantRewards.deltaTreasury == 0
    ensures Total(AfterBoundary(l, epoch, r, accepts)) >= Total(l) + previousFeePot
    ensures Total(AfterBoundary(l, epoch, r, accepts)) == Total(l) + previousFeePot <==>
              NothingClamps(l, epoch, r, accepts)
  {
    hide Total, AfterBoundary, RewardsBalance, MirInSupply, AfterMir, BeforeGovernance, RetiredDeposits,
         VanishedDeposits, MirLeak, PaysMir, PoolDepositTotal, ProposalDepositTotal, AfterRewards,
         WithdrawalsCovered, DebitsCovered, MirCredits;
    BoundaryAccounting(l, epoch, previousFeePot, r, accepts);
    MirLeaksExactly(Rewarded(l, r));
  }

  /** One account, `n` lovelace in the reserves, and a MIR that pays them all out. */
  ghost predicate Drained(l: Ledger, n: U64) {
    && l.reserves == n && l.gov.treasury == 0 && l.donations == 0 && l.deposits == Deposits(0, 0, 0, 0)
    && l.gov.balances == map[Account(0) := 0]
    && PaysOne(l.instantRewards, n)
    && l.gov.proposals == map[] && l.poolState.pools == map[]
  }

  ghost predicate PaysOne(ir: InstantRewards, n: U64) {
    && ir.reserves.Keys == {Account(0).credential} && ir.reserves[Account(0).credential] == n
    && ir.treasury == map[] && ir.deltaReserves == ir.deltaTreasury == 0
  }

  /** An expansion of `e` lovelace and the fees, all of it for the treasury. */
  ghost predicate AllToTreasury(r: Rewards, e: U64, fees: U64) {
    r.leader == map[] && r.member == map[] && r.unclaimed == 0 && r.deltaReserves == e && r.treasuryCut == e + fees
  }

  lemma DrainedMir(ir: InstantRewards, b: Balances, n: U64)
    requires b == map[Account(0) := 0] && PaysOne(ir, n)
    requires n <= MAX_SUPPLY
    ensures MirSum(ir.reserves, b.Keys) == n && MirSum(ir.treasury, b.Keys) == 0 && MapTotal(b) == 0
    ensures MirInSupply(ir, b.Keys) && CreditsOnly(ir)
  {
    hide Sum;
    var a := Account(0);
    var c := a.credential;
    assert b.Keys == {a};
    SumOnly({a}, At(b), a);
    LastOfIs({a}, a);
    assert Filtered(ir.reserves, {a}) == {c};
    assert Filtered(ir.treasury, {a}) == {};
    SumOnly({c}, IrAt(ir.reserves), c);
    SumZero({}, IrAt(ir.treasury));
  }

  lemma EmptyTotals(r: Rewards, pools: map<PoolId, Pool>, props: Proposals)
    requires r.leader == map[] && r.member == map[] && pools == map[] && props == map[]
    ensures MapTotal(r.leader) == MapTotal(r.member) == 0
    ensures Sum(pools.Keys, PoolDeposit(pools)) == Sum(props.Keys, DepositOf(props)) == 0
  {
  }

  lemma DrainedInSupply(l: Ledger, n: U64, fees: U64, r: Rewards, e: U64)
    requires Drained(l, n) && AllToTreasury(r, e, fees) && e <= n && n + fees <= MAX_SUPPLY
    ensures InSupply(l, fees, r) && PoolDepositTotal(l) == ProposalDepositTotal(l.gov) == 0
  {
    hide Sum, MirSum, MapTotal, PoolDeposit, DepositOf, MirCredits;
    DrainedMir(l.instantRewards, l.gov.balances, n);
    CreditsAreAll(l.instantRewards, l.gov.balances.Keys);
    EmptyTotals(r, l.poolState.pools, l.gov.proposals);
  }

  /** MIR may empty the reserves after the expansion `e` was computed from them and before it is
      taken out: then `e` lovelace appear from nowhere. */
  lemma MirBeforeExpansionLeaks(l: Ledger, n: U64, epoch: U64, fees: U64, r: Rewards, e: U64, accepts: Accepts)
    requires Drained(l, n) && AllToTreasury(r, e, fees) && 0 < e <= n && n + fees <= MAX_SUPPLY
    ensures InSupply(l, fees, r) && Total(AfterBoundary(l, epoch, r, accepts)) == Total(l) + fees + e
  {
    hide Sum, MirSum, Total, AfterBoundary, VanishedDeposits, AfterRewards, MirLeak, RetiredDeposits, PoolDepositTotal,
         BeforeGovernance, WithdrawalsCovered;
    var l1 := Rewarded(l, r);
    DrainedInSupply(l, n, fees, r, e);
    DrainedMir(l.instantRewards, l.gov.balances, n);
    BoundaryAccounting(l, epoch, fees, r, accepts);
    MirLeaksOnlyFromPots(l1);
    assert AfterMir(l1).reserves == 0;
    RetiredWithinPools(l, epoch);
    GovernanceInput(l, epoch, r);
    NothingPending(BeforeGovernance(l, epoch, r).gov, epoch, accepts);
    VanishedWithinPending(BeforeGovernance(l, epoch, r).gov, epoch, accepts);
  }

  lemma NothingPending(g: GovState, epoch: U64, accepts: Accepts)
    requires g.proposals == map[]
    ensures WithdrawalsCovered(g, epoch, accepts)
  {
    var order := RatifyOrder(g.proposals);
    EmptyOrHead(order);
  }

  /** Governance meets the proposals, roots and deposits that the boundary started with. */
  lemma GovernanceInput(l: Ledger, epoch: U64, r: Rewards)
    ensures var l' := BeforeGovernance(l, epoch, r);
            && l'.gov.proposals == l.gov.proposals && l'.gov.enactState == l.gov.enactState
            && l'.deposits.proposals == l.deposits.proposals
            && l'.poolState == AfterPools(AfterMir(Rewarded(l, r)), epoch).poolState
            && l'.deposits.pools == AfterPools(AfterMir(Rewarded(l, r)), epoch).deposits.pools
  {
    hide Sum, AfterMir, AfterPools, ToTreasury;
    MirFields(Rewarded(l, r));
    PoolFields(AfterMir(Rewarded(l, r)), epoch);
  }
}
