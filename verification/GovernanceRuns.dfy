/** Runs of proposal submissions and epoch boundaries, and what holds after every one of them. */
module GovernanceRuns {
  import opened Options
  import opened Addresses
  import opened Saturating
  import opened Sums
  import opened Governance
  import opened Lineage
  import opened Payout
  import opened LedgerValue
  import opened Ratify
  import opened Boundary
  import opened BoundaryTheorems

  /** The lineage check on a submitted proposal: it follows the enacted root or a pending
      proposal of its own purpose that was staged before it. */
  predicate LineageAccepted(g: GovState, id: GovActionId, p: Proposal) {
    var q := PurposeOf(p.action);
    match Parent(p)
    case Some(prev) =>
      && !(prev.txId == id.txId && prev.index >= id.index)
      && (EnactedRoot(g.enactState, q) == Some(prev) || OfPurpose(g.proposals, q, prev))
    case None => HasLineage(q) ==> EnactedRoot(g.enactState, q) == None
  }

  /** The ledger with both fee pots. */
  datatype World = World(ledger: Ledger, feePot: U64, previousFeePot: U64)

  /** `otherChecks` is the outcome of the checks that do not read the fields kept here. Any other
      transaction leads to some ledger in which proposals, roots, pools and their deposits are untouched. */
  datatype Event =
    | Submit(id: GovActionId, proposal: Proposal, otherChecks: bool)
    | RegisterPool(pool: PoolId, account: RewardAccount, deposit: U64, otherChecks: bool)
    | RetirePool(pool: PoolId, at: U64, otherChecks: bool)
    | OtherTransaction(next: World)
    | EpochBoundary(epoch: U64, rewards: Rewards, accepts: Accepts)

  ghost predicate Untouched(l: Ledger, l': Ledger) {
    && l'.gov.proposals == l.gov.proposals && l'.gov.enactState == l.gov.enactState
    && l'.poolState == l.poolState
    && l'.deposits.proposals == l.deposits.proposals && l'.deposits.pools == l.deposits.pools
  }

  /** A new pool pays its deposit; a registered one stages its account and is no longer retiring. */
  function WithPool(l: Ledger, p: PoolId, account: RewardAccount, deposit: U64): Ledger {
    var ps := l.poolState;
    if p in ps.pools then
      l.(poolState := PoolState(ps.pools[p := ps.pools[p].(retiring := None)], ps.futureParams[p := account]))
    else
      l.(poolState := ps.(pools := ps.pools[p := Pool(account, deposit, None)]),
         deposits := l.deposits.(pools := SatAdd(l.deposits.pools, deposit)))
  }

  function MarkedRetiring(l: Ledger, p: PoolId, at: U64): Ledger {
    var ps := l.poolState;
    if p in ps.pools then l.(poolState := ps.(pools := ps.pools[p := ps.pools[p].(retiring := Some(at))])) else l
  }

  ghost function Submitted(l: Ledger, id: GovActionId, p: Proposal): Ledger {
    l.(gov := l.gov.(proposals := l.gov.proposals[id := p]),
       deposits := l.deposits.(proposals := SatAdd(l.deposits.proposals, p.deposit)))
  }

  predicate Accepted(l: Ledger, e: Event)
    requires e.Submit? || e.RegisterPool? || e.RetirePool?
  {
    e.otherChecks && (e.Submit? ==> LineageAccepted(l.gov, e.id, e.proposal))
  }

  /** The boundary moves the fee pot of the closed epoch into the previous one. */
  ghost function Apply(w: World, e: Event): World {
    match e
    case Submit(id, p, _) => if Accepted(w.ledger, e) then w.(ledger := Submitted(w.ledger, id, p)) else w
    case RegisterPool(p, account, deposit, _) =>
      if Accepted(w.ledger, e) then w.(ledger := WithPool(w.ledger, p, account, deposit)) else w
    case RetirePool(p, at, _) => if Accepted(w.ledger, e) then w.(ledger := MarkedRetiring(w.ledger, p, at)) else w
    case OtherTransaction(next) => next
    case EpochBoundary(epoch, r, accepts) => World(AfterBoundary(w.ledger, epoch, r, accepts), 0, w.feePot)
  }

  ghost function After(w: World, events: seq<Event>): World {
    if events == [] then w
    else Apply(After(w, events[..|events|-1]), events[|events|-1])
  }

  /** Transaction ids are new, and the deposit pots have room. */
  ghost predicate Admissible(l: Ledger, e: Event) {
    match e
    case Submit(id, p, _) => id !in l.gov.proposals && l.deposits.proposals + p.deposit <= U64_MAX
    case RegisterPool(_, _, deposit, _) => l.deposits.pools + deposit <= U64_MAX
    case OtherTransaction(next) => Untouched(l, next.ledger)
    case _ => true
  }

  ghost predicate AdmissibleRun(w: World, events: seq<Event>) {
    forall i :: 0 <= i < |events| ==> Admissible(After(w, events[..i]).ledger, events[i])
  }

  /** The two deposit pots hold exactly the deposits of what is pending and registered. */
  ghost predicate Obligations(l: Ledger) {
    l.deposits.proposals == ProposalDepositTotal(l.gov) && l.deposits.pools == PoolDepositTotal(l)
  }

  lemma StillChains(props: Proposals, id: GovActionId, p: Proposal, q: Purpose, root: Option<GovActionId>,
                    x: GovActionId)
    requires Chains(props, q, root, x) && id !in props
    ensures Chains(props[id := p], q, root, x)
  {
    var path :| IsLineage(props, q, root, path) && path[|path|-1] == x;
    assert forall i :: 0 <= i < |path| ==> OfPurpose(props, q, path[i]);
    ChainsIn(props, props[id := p], q, root, path);
  }

  /** An accepted submission keeps the forest. */
  lemma SubmitKeepsForest(g: GovState, id: GovActionId, p: Proposal)
    requires Forest(g.proposals, g.enactState) && id !in g.proposals && LineageAccepted(g, id, p)
    ensures Forest(g.proposals[id := p], g.enactState)
  {
    hide Chains;
    var props := g.proposals[id := p];
    forall x | x in props
      ensures Live(props, g.enactState, x)
    {
      var q := PurposeOf(props[x].action);
      var root := EnactedRoot(g.enactState, q);
      if x != id {
        assert Live(g.proposals, g.enactState, x);
        StillChains(g.proposals, id, p, q, root, x);
      } else if Parent(p) == root {
        ChainStart(props, q, root, id);
      } else {
        var prev := Parent(p).value;
        assert Live(g.proposals, g.enactState, prev);
        StillChains(g.proposals, id, p, q, root, prev);
        ChainExtend(props, q, root, id);
      }
    }
  }

  lemma BoundaryKeepsForest(l: Ledger, epoch: U64, r: Rewards, accepts: Accepts)
    requires Forest(l.gov.proposals, l.gov.enactState)
    ensures var g := AfterBoundary(l, epoch, r, accepts).gov;
            Forest(g.proposals, g.enactState)
  {
    hide Forest, BeforeGovernance, AfterGovernance;
    GovernanceInput(l, epoch, r);
    ForestSurvives(BeforeGovernance(l, epoch, r), epoch, accepts);
  }

  lemma SubmitKeepsObligations(l: Ledger, id: GovActionId, p: Proposal)
    requires Obligations(l) && id !in l.gov.proposals
    ensures var g := l.gov.(proposals := l.gov.proposals[id := p]);
            ProposalDepositTotal(g) == ProposalDepositTotal(l.gov) + p.deposit
  {
    hide Sum;
    var props := l.gov.proposals[id := p];
    assert props.Keys == l.gov.proposals.Keys + {id};
    SumInsert(l.gov.proposals.Keys, DepositOf(props), id);
    SumSame(l.gov.proposals.Keys, DepositOf(props), DepositOf(l.gov.proposals));
  }

  lemma UntouchedKeeps(l: Ledger, l': Ledger)
    requires Untouched(l, l') && Obligations(l) && Forest(l.gov.proposals, l.gov.enactState)
    ensures Obligations(l') && Forest(l'.gov.proposals, l'.gov.enactState)
  {
  }

  /** Registering, re-registering and announcing retirement keep what the pool pot owes. */
  lemma PoolEventKeepsObligations(w: World, e: Event)
    requires e.RegisterPool? || e.RetirePool?
    requires Obligations(w.ledger) && Admissible(w.ledger, e)
    ensures Obligations(Apply(w, e).ledger)
    ensures Apply(w, e).ledger.gov == w.ledger.gov
  {
    hide Sum;
    var p, l, l' := e.pool, w.ledger, Apply(w, e).ledger;
    var pools, pools' := l.poolState.pools, l'.poolState.pools;
    SumSame(pools.Keys, PoolDeposit(pools), PoolDeposit(pools'));
    if p in pools {
      assert pools'.Keys == pools.Keys;
    } else if e.RegisterPool? && e.otherChecks {
      assert pools'.Keys == pools.Keys + {p};
      SumInsert(pools.Keys, PoolDeposit(pools'), p);
    }
  }

  /** What is left pending and what vanished make up what was pending. */
  lemma LeftAndVanished(g: GovState, epoch: U64, accepts: Accepts)
    ensures var f := FatesOf(g, epoch, accepts);
            Sum(f.left.Keys, DepositOf(f.left)) + VanishedDeposits(g, epoch, accepts) == ProposalDepositTotal(g)
  {
    hide Sum, FatesOf, Vanished;
    VanishOnce(g, epoch, accepts);
    var f := FatesOf(g, epoch, accepts);
    assert f.left.Keys + Vanished(f) == g.proposals.Keys by {
      forall id | id in f.left.Keys ensures id in g.proposals { assert id in f.left; }
    }
    SumUnion(f.left.Keys, Vanished(f), DepositOf(g.proposals));
    SumSame(f.left.Keys, DepositOf(f.left), DepositOf(g.proposals));
  }

  lemma GovernanceKeepsObligation(l: Ledger, epoch: U64, accepts: Accepts)
    requires l.deposits.proposals == ProposalDepositTotal(l.gov)
    ensures var l' := AfterGovernance(l, epoch, accepts);
            l'.deposits.proposals == ProposalDepositTotal(l'.gov)
  {
    hide Sum, FatesOf, Pay, Lost, VanishedDeposits;
    LeftAndVanished(l.gov, epoch, accepts);
    VanishedWithinPending(l.gov, epoch, accepts);
  }

  lemma PoolsKeepObligation(l: Ledger, epoch: U64)
    requires l.deposits.pools == PoolDepositTotal(l)
    ensures var l' := AfterPools(l, epoch);
            l'.deposits.pools == PoolDepositTotal(l')
  {
    hide Sum, Pay;
    var pools := Adopt(l.poolState).pools;
    var gone := Retiring(pools, epoch);
    var left := pools - gone;
    assert pools.Keys == l.poolState.pools.Keys && left.Keys + gone == pools.Keys;
    SumSame(pools.Keys, PoolDeposit(pools), PoolDeposit(l.poolState.pools));
    SumUnion(left.Keys, gone, PoolDeposit(pools));
    SumSame(left.Keys, PoolDeposit(left), PoolDeposit(pools));
    SumBounds(left.Keys, PoolDeposit(pools));
    SumBounds(gone, PoolDeposit(pools));
  }

  lemma BoundaryKeepsObligations(l: Ledger, epoch: U64, r: Rewards, accepts: Accepts)
    requires Obligations(l)
    ensures Obligations(AfterBoundary(l, epoch, r, accepts))
  {
    hide Sum, AfterMir, AfterPools, BeforeGovernance, FatesOf, Pay, Lost, VanishedDeposits;
    var l2, l4 := AfterMir(Rewarded(l, r)), BeforeGovernance(l, epoch, r);
    MirFields(Rewarded(l, r));
    PoolsKeepObligation(l2, epoch);
    GovernanceInput(l, epoch, r);
    GovernanceKeepsObligation(l4, epoch, accepts);
  }

  /** After every run of transactions and boundaries the pending proposals form a forest on the
      enacted roots, and the deposit pots hold exactly what they owe. */
  lemma {:induction false} RunInvariant(w: World, events: seq<Event>)
    requires Forest(w.ledger.gov.proposals, w.ledger.gov.enactState) && Obligations(w.ledger)
    requires AdmissibleRun(w, events)
    ensures var l' := After(w, events).ledger;
            Forest(l'.gov.proposals, l'.gov.enactState) && Obligations(l')
    decreases |events|
  {
    hide Forest, Sum, AfterBoundary, LineageAccepted;
    if events != [] {
      var front, e := events[..|events|-1], events[|events|-1];
      AdmissibleFront(w, events);
      RunInvariant(w, front);
      var w1 := After(w, front);
      var l1 := w1.ledger;
      match e {
        case RegisterPool(_, _, _, _) => PoolEventKeepsObligations(w1, e);
        case RetirePool(_, _, _) => PoolEventKeepsObligations(w1, e);
        case OtherTransaction(next) => UntouchedKeeps(l1, next.ledger);
        case EpochBoundary(epoch, r, accepts) =>
          BoundaryKeepsForest(l1, epoch, r, accepts);
          BoundaryKeepsObligations(l1, epoch, r, accepts);
        case Submit(id, p, otherChecks) =>
          if Accepted(l1, e) {
            SubmitKeepsForest(l1.gov, id, p);
            SubmitKeepsObligations(l1, id, p);
          }
      }
    }
  }

  lemma AdmissibleFront(w: World, events: seq<Event>)
    requires events != [] && AdmissibleRun(w, events)
    ensures AdmissibleRun(w, events[..|events|-1])
    ensures Admissible(After(w, events[..|events|-1]).ledger, events[|events|-1])
  {
    hide Apply, Admissible;
    var front := events[..|events|-1];
    forall i | 0 <= i < |front|
      ensures Admissible(After(w, front[..i]).ledger, front[i])
    {
      assert front[..i] == events[..i] && front[i] == events[i];
    }
  }

  // ----- lovelace over runs -----------------------------------------------------------------------

  ghost function Supply(w: World): nat {
    Total(w.ledger) + w.feePot + w.previousFeePot
  }

  /** What an event brings in from outside: deposits of proposals and new pools, and whatever another
      transaction pays in or takes out. A boundary brings nothing. */
  ghost function Brought(w: World, e: Event): int {
    match e
    case Submit(_, p, _) => if Accepted(w.ledger, e) then p.deposit else 0
    case RegisterPool(pool, _, deposit, _) =>
      if Accepted(w.ledger, e) && pool !in w.ledger.poolState.pools then deposit else 0
    case RetirePool(_, _, _) => 0
    case OtherTransaction(next) => Supply(next) - Supply(w)
    case EpochBoundary(_, _, _) => 0
  }

  ghost function BroughtBy(w: World, events: seq<Event>): int {
    if events == [] then 0
    else
      var front := events[..|events|-1];
      BroughtBy(w, front) + Brought(After(w, front), events[|events|-1])
  }

  /** The reward calculation balances and amounts are of the size of the supply. */
  ghost predicate Balanced(w: World, e: Event) {
    e.EpochBoundary? ==>
      && InSupply(w.ledger, w.previousFeePot, e.rewards)
      && w.ledger.instantRewards.deltaReserves + w.ledger.instantRewards.deltaTreasury == 0
  }

  ghost predicate BalancedRun(w: World, events: seq<Event>) {
    forall i :: 0 <= i < |events| ==> Balanced(After(w, events[..i]), events[i])
  }

  /** No subtraction of a boundary stops at zero. */
  ghost predicate Unclamped(w: World, e: Event) {
    e.EpochBoundary? ==> NothingClamps(w.ledger, e.epoch, e.rewards, e.accepts)
  }

  ghost predicate UnclampedRun(w: World, events: seq<Event>) {
    forall i :: 0 <= i < |events| ==> Unclamped(After(w, events[..i]), events[i])
  }

  lemma EventSupply(w: World, e: Event)
    requires Admissible(w.ledger, e) && Balanced(w, e)
    ensures Supply(Apply(w, e)) >= Supply(w) + Brought(w, e)
    ensures Supply(Apply(w, e)) == Supply(w) + Brought(w, e) <==> Unclamped(w, e)
  {
    hide MapTotal, AfterBoundary, InSupply, NothingClamps, LineageAccepted;
    if e.EpochBoundary? {
      LovelaceConserved(w.ledger, e.epoch, w.previousFeePot, e.rewards, e.accepts);
    }
  }

  lemma RunFronts(w: World, events: seq<Event>)
    requires events != []
    ensures var front, e := events[..|events|-1], events[|events|-1];
            && (BalancedRun(w, events) ==> BalancedRun(w, front) && Balanced(After(w, front), e))
            && (UnclampedRun(w, events) <==> UnclampedRun(w, front) && Unclamped(After(w, front), e))
  {
    hide After, Balanced, Unclamped;
    var front := events[..|events|-1];
    forall i | 0 <= i < |front|
      ensures front[..i] == events[..i] && front[i] == events[i]
    {
    }
  }

  /** Over a whole run the supply never falls short of what was there and what was brought in, and is
      exactly that if and only if no boundary of the run clamps. */
  lemma {:induction false} RunSupply(w: World, events: seq<Event>)
    requires AdmissibleRun(w, events) && BalancedRun(w, events)
    ensures Supply(After(w, events)) >= Supply(w) + BroughtBy(w, events)
    ensures Supply(After(w, events)) == Supply(w) + BroughtBy(w, events) <==> UnclampedRun(w, events)
    decreases |events|
  {
    hide Supply, Apply, Brought, AdmissibleRun, BalancedRun, UnclampedRun, Admissible, Balanced, Unclamped;
    if events != [] {
      var front := events[..|events|-1];
      AdmissibleFront(w, events);
      RunFronts(w, events);
      RunSupply(w, front);
      EventSupply(After(w, front), events[|events|-1]);
    } else {
      NoEvents(w);
    }
  }

  lemma NoEvents(w: World)
    ensures UnclampedRun(w, [])
  {
  }

  /** In such a state no deposit refund clamps, so a boundary conserves lovelace exactly when the MIR
      transfers and debits, the expansion and the enacted withdrawals do not overdraw pots or accounts. */
  lemma ReachableConserves(l: Ledger, epoch: U64, previousFeePot: U64, r: Rewards, accepts: Accepts)
    requires Obligations(l) && InSupply(l, previousFeePot, r)
    requires l.instantRewards.deltaReserves + l.instantRewards.deltaTreasury == 0
    ensures var l1, ir := Rewarded(l, r), l.instantRewards;
            Total(AfterBoundary(l, epoch, r, accepts)) == Total(l) + previousFeePot
            <==> (PaysMir(l1) ==> 0 <= l.reserves + ir.deltaReserves && 0 <= l.gov.treasury + ir.deltaTreasury
                                  && DebitsCovered(l1))
                 && r.deltaReserves <= AfterMir(l1).reserves
                 && WithdrawalsCovered(BeforeGovernance(l, epoch, r).gov, epoch, accepts)
  {
    hide Total, AfterBoundary, InSupply, AfterMir, PaysMir, RetiredDeposits, VanishedDeposits, BeforeGovernance, Sum,
         AfterRewards, WithdrawalsCovered, DebitsCovered;
    LovelaceConserved(l, epoch, previousFeePot, r, accepts);
    RetiredWithinPools(l, epoch);
    GovernanceInput(l, epoch, r);
    VanishedWithinPending(BeforeGovernance(l, epoch, r).gov, epoch, accepts);
  }

  /** The guard on withdrawals holds whatever the votes, exactly when the ledger that governance meets
      always covers them; a budget that holds is enough. */
  lemma AlwaysCovered(g: GovState, epoch: U64)
    ensures AlwaysCovers(g, epoch) <==> forall accepts: Accepts :: WithdrawalsCovered(g, epoch, accepts)
    ensures BudgetHolds(g, epoch) ==> AlwaysCovers(g, epoch)
  {
    hide AlwaysCovers, BudgetHolds, Covered;
    var order := RatifyOrder(g.proposals);
    CoveredWhateverVotes(g, order, epoch);
    assert forall accepts: Accepts :: WithdrawalsCovered(g, epoch, accepts) <==>
             Covered(g, order, |order|, epoch, accepts);
    if BudgetHolds(g, epoch) {
      forall accepts: Accepts
        ensures Covered(g, order, |order|, epoch, accepts)
      {
        BudgetConserves(g, order, epoch, accepts);
      }
    }
  }
}
