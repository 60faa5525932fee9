/** The part of the ledger state that the epoch boundary reads and writes, as a value. */
module LedgerValue {
  import opened Options
  import opened Addresses
  import opened Saturating
  import opened Governance
  import opened Lineage
  import opened Payout

  datatype PoolId = PoolId(hash: nat)

  datatype Pool = Pool(rewardAccount: RewardAccount, deposit: U64, retiring: Option<U64>)

  /** Accumulated MIR: deltas per credential and per pot. */
  datatype InstantRewards = InstantRewards(
    reserves: map<Credential, I64>,
    treasury: map<Credential, I64>,
    deltaReserves: I64,
    deltaTreasury: I64)

  /** What governance reads and writes. */
  datatype GovState = GovState(
    treasury: U64,
    balances: Balances,
    proposals: Proposals,
    enactState: EnactState,
    termLimit: Option<U64>)

  datatype Deposits = Deposits(keys: U64, pools: U64, dreps: U64, proposals: U64)

  datatype PoolState = PoolState(pools: map<PoolId, Pool>, futureParams: map<PoolId, RewardAccount>)

  datatype Ledger = Ledger(
    reserves: U64,
    gov: GovState,
    deposits: Deposits,
    donations: U64,
    instantRewards: InstantRewards,
    poolState: PoolState)
}

/** `ratify_and_enact` up to the end of its loop, over every order, vote outcome and ledger. */
module Ratify {
  import opened Options
  import opened Bytes
  import opened Addresses
  import opened Saturating
  import opened Sums
  import opened Governance
  import opened Lineage
  import opened Payout
  import opened LedgerValue

  /** Whether the votes accept a proposal. Everything the thresholds depend on
      is fixed by the ledger at loop entry and by what the loop enacted so far. */
  type Accepts = (seq<GovActionId>, GovActionId) -> bool

  datatype RatifyState = RatifyState(gov: GovState, enacted: seq<GovActionId>, delayed: bool, budget: U64)

  ghost function WithdrawalTotal(action: GovAction): nat {
    if action.TreasuryWithdrawals? then MapTotal(action.withdrawals) else 0
  }

  /** The u64 sum wraps around in a release build. */
  ghost predicate CanWithdraw(action: GovAction, budget: U64) {
    action.TreasuryWithdrawals? ==> Wrap64(WithdrawalTotal(action)) <= budget
  }

  predicate PrevAsExpected(p: Proposal, es: EnactState) {
    match PrevActionId(p.action)
    case None => true
    case Some(prev) => prev == EnactedRoot(es, PurposeOf(p.action))
  }

  predicate ValidCommitteeTerm(action: GovAction, termLimit: Option<U64>, epoch: U64) {
    termLimit.Some? && action.UpdateCommittee? ==>
      forall c :: c in action.newMembers ==> action.newMembers[c] <= SatAdd(epoch, termLimit.value)
  }

  function AdvanceRoot(es: EnactState, id: GovActionId, action: GovAction): EnactState {
    match action
    case ParameterChange(_, _) => es.(pparams := Some(id))
    case HardForkInitiation(_) => es.(hardFork := Some(id))
    case NoConfidence(_) => es.(committee := Some(id))
    case UpdateCommittee(_, _) => es.(committee := Some(id))
    case NewConstitution(_) => es.(constitution := Some(id))
    case TreasuryWithdrawals(_) => es
    case InfoAction => es
  }

  /** A withdrawal goes to its own account, if that is registered. */
  ghost function Own(b: Balances): RewardAccount -> Option<RewardAccount> {
    a => if a in b then Some(a) else None
  }

  /** What registered accounts receive. */
  ghost function Paid(withdrawals: Balances, b: Balances): nat {
    InflowBounds(withdrawals.Keys, Own(b), At(withdrawals));
    MapTotal(withdrawals) - Lost(withdrawals.Keys, Own(b), At(withdrawals))
  }

  /** `enact_gov_action`, on the fields kept here. */
  ghost function Enact(l: GovState, id: GovActionId, action: GovAction): GovState {
    var l' := l.(enactState := AdvanceRoot(l.enactState, id, action));
    match action
    case TreasuryWithdrawals(w) =>
      l'.(balances := Pay(l.balances, w.Keys, Own(l.balances), At(w)),
          treasury := SatSub(l.treasury, Paid(w, l.balances)))
    case ParameterChange(_, Some(limit)) => l'.(termLimit := Some(limit))
    case _ => l'
  }

  ghost predicate Passes(s: RatifyState, id: GovActionId, epoch: U64, accepts: Accepts)
    requires id in s.gov.proposals
  {
    var p := s.gov.proposals[id];
    && PrevAsExpected(p, s.gov.enactState)
    && ValidCommitteeTerm(p.action, s.gov.termLimit, epoch)
    && !s.delayed
    && CanWithdraw(p.action, s.budget)
    && accepts(s.enacted, id)
  }

  /** One iteration of the ratification loop. */
  ghost function Step(s: RatifyState, id: GovActionId, epoch: U64, accepts: Accepts): RatifyState {
    if id !in s.gov.proposals then s
    else
      var p := s.gov.proposals[id];
      if Passes(s, id, epoch, accepts) then
        RatifyState(
          Enact(s.gov.(proposals := s.gov.proposals - {id}), id, p.action),
          s.enacted + [id],
          s.delayed || Delaying(p.action),
          SatSub(s.budget, Wrap64(WithdrawalTotal(p.action))))
      else
        s.(delayed := s.delayed || (Delaying(p.action) && !Expired(p, epoch)))
  }

  ghost function Run(l: GovState, order: seq<GovActionId>, n: nat, epoch: U64, accepts: Accepts): RatifyState
    requires n <= |order|
  {
    if n == 0 then RatifyState(l, [], false, l.treasury)
    else Step(Run(l, order, n - 1, epoch, accepts), order[n-1], epoch, accepts)
  }

  predicate Before(props: Proposals, a: GovActionId, b: GovActionId)
    requires a in props && b in props
  {
    var pa, pb := ActionPriority(props[a].action), ActionPriority(props[b].action);
    pa < pb || (pa == pb && IdLess(a, b))
  }

  /** All pending ids, by priority and then by id. */
  ghost predicate IsRatifyOrder(order: seq<GovActionId>, props: Proposals) {
    && (forall id :: id in order <==> id in props)
    && (forall i, j :: 0 <= i < j < |order| ==> Before(props, order[i], order[j]))
  }

  lemma HeadUnique(a: seq<GovActionId>, b: seq<GovActionId>, props: Proposals)
    requires IsRatifyOrder(a, props) && IsRatifyOrder(b, props) && a != []
    ensures b != [] && a[0] == b[0]
  {
    assert forall k :: 0 < k < |a| ==> Before(props, a[0], a[k]);
    assert forall k :: 0 < k < |b| ==> Before(props, b[0], b[k]);
    assert a[0] in b;
    assert b[0] in a;
  }

  /** The order is determined by the pending proposals. */
  lemma {:induction false} OrderUnique(a: seq<GovActionId>, b: seq<GovActionId>, props: Proposals)
    requires IsRatifyOrder(a, props) && IsRatifyOrder(b, props)
    ensures a == b
    decreases |a|
  {
    if a == [] {
      if b != [] { HeadUnique(b, a, props); }
    } else {
      HeadUnique(a, b, props);
      TailOrder(a, props);
      TailOrder(b, props);
      OrderUnique(a[1..], b[1..], props - {a[0]});
      assert a == [a[0]] + a[1..] && b == [b[0]] + b[1..];
    }
  }

  lemma TailOrder(a: seq<GovActionId>, props: Proposals)
    requires IsRatifyOrder(a, props) && a != []
    ensures IsRatifyOrder(a[1..], props - {a[0]})
  {
    forall id
      ensures id in a[1..] <==> id in props - {a[0]}
    {
      if id in a && id != a[0] {
        var i :| 0 <= i < |a| && a[i] == id;
        assert a[1..][i-1] == id;
      }
      if id in a[1..] {
        var i :| 0 <= i < |a[1..]| && a[1..][i] == id;
        assert a[i+1] == id && Before(props, a[0], a[i+1]);
      }
    }
  }

  function Insert(props: Proposals, order: seq<GovActionId>, id: GovActionId): seq<GovActionId>
    requires id in props && forall x :: x in order ==> x in props
  {
    if order == [] || Before(props, id, order[0]) then [id] + order
    else [order[0]] + Insert(props, order[1..], id)
  }

  ghost predicate Sorted(props: Proposals, order: seq<GovActionId>) {
    && (forall x :: x in order ==> x in props)
    && (forall i, j :: 0 <= i < j < |order| ==> Before(props, order[i], order[j]))
  }

  lemma {:induction false} InsertSorted(props: Proposals, order: seq<GovActionId>, id: GovActionId)
    requires Sorted(props, order) && id in props && id !in order
    ensures Sorted(props, Insert(props, order, id))
    ensures forall x :: x in Insert(props, order, id) <==> x == id || x in order
    decreases |order|
  {
    if order == [] || Before(props, id, order[0]) {
      var longer := [id] + order;
      assert forall i :: 0 < i < |longer| ==> longer[i] == order[i-1];
    } else {
      var head, tail := order[0], Insert(props, order[1..], id);
      InsertSorted(props, order[1..], id);
      assert order == [head] + order[1..];
      ConsSorted(props, head, tail);
    }
  }

  lemma ConsSorted(props: Proposals, head: GovActionId, tail: seq<GovActionId>)
    requires head in props && Sorted(props, tail)
    requires forall x :: x in tail ==> Before(props, head, x)
    ensures Sorted(props, [head] + tail)
  {
    var longer := [head] + tail;
    assert forall i :: 0 < i < |longer| ==> longer[i] == tail[i-1] && longer[i] in tail;
  }

  /** The sort of the pending ids. */
  method SortIds(props: Proposals) returns (order: seq<GovActionId>)
    ensures IsRatifyOrder(order, props)
  {
    order := [];
    var todo := props.Keys;
    while todo != {}
      invariant todo <= props.Keys && Sorted(props, order)
      invariant forall id :: id in order <==> id in props && id !in todo
      decreases todo
    {
      var id :| id in todo;
      InsertSorted(props, order, id);
      order := Insert(props, order, id);
      todo := todo - {id};
    }
  }

  lemma OrderExists(props: Proposals)
    ensures exists order :: IsRatifyOrder(order, props)
  {
    var order := SortedPart(props, props.Keys);
    assert IsRatifyOrder(order, props);
  }

  lemma {:induction false} SortedPart(props: Proposals, ids: set<GovActionId>) returns (order: seq<GovActionId>)
    requires ids <= props.Keys
    ensures Sorted(props, order) && forall id :: id in order <==> id in ids
    decreases ids
  {
    if ids == {} {
      order := [];
    } else {
      var id :| id in ids;
      order := SortedPart(props, ids - {id});
      InsertSorted(props, order, id);
      order := Insert(props, order, id);
    }
  }

  ghost function RatifyOrder(props: Proposals): (order: seq<GovActionId>)
    ensures IsRatifyOrder(order, props)
  {
    OrderExists(props);
    var order :| IsRatifyOrder(order, props);
    order
  }

  ghost function Members(ids: seq<GovActionId>): set<GovActionId> {
    set id | id in ids
  }

  ghost predicate Distinct(ids: seq<GovActionId>) {
    forall i, j :: 0 <= i < j < |ids| ==> ids[i] != ids[j]
  }

  lemma StepFacts(s: RatifyState, id: GovActionId, epoch: U64, accepts: Accepts)
    requires id in s.gov.proposals
    ensures var s' := Step(s, id, epoch, accepts);
            var passes := Passes(s, id, epoch, accepts);
            && s'.gov.proposals == (if passes then s.gov.proposals - {id} else s.gov.proposals)
            && s'.enacted == (if passes then s.enacted + [id] else s.enacted)
            && s'.gov.balances.Keys == s.gov.balances.Keys
            && s'.budget == s.budget - (if passes then Wrap64(WithdrawalTotal(s.gov.proposals[id].action)) else 0)
            && s'.delayed == (s.delayed || (Delaying(s.gov.proposals[id].action)
              && (passes || !Expired(s.gov.proposals[id], epoch))))
            && (passes ==> !s.delayed)
  {
  }

  /** The loop removes exactly what it enacts and reaches every pending proposal once. */
  ghost predicate Shape(l: GovState, order: seq<GovActionId>, n: nat, s: RatifyState) {
    && n <= |order|
    && s.gov.proposals == l.proposals - Members(s.enacted)
    && Distinct(s.enacted)
    && (forall id :: id in s.enacted ==> id in order[..n] && id in l.proposals)
    && s.gov.balances.Keys == l.balances.Keys
  }

  lemma ShapePending(l: GovState, order: seq<GovActionId>, n: nat, s: RatifyState)
    requires IsRatifyOrder(order, l.proposals) && n < |order| && Shape(l, order, n, s)
    ensures order[n] in l.proposals && order[n] in s.gov.proposals && order[n] !in s.enacted
  {
    assert order[n] in order;
    assert forall i :: 0 <= i < n ==> Before(l.proposals, order[i], order[n]);
  }

  lemma ShapeStep(l: GovState, order: seq<GovActionId>, n: nat, s: RatifyState, s': RatifyState, passes: bool)
    requires n < |order| && Shape(l, order, n, s)
    requires order[n] in l.proposals && order[n] !in s.enacted
    requires s'.gov.proposals == (if passes then s.gov.proposals - {order[n]} else s.gov.proposals)
    requires s'.enacted == (if passes then s.enacted + [order[n]] else s.enacted)
    requires s'.gov.balances.Keys == s.gov.balances.Keys
    ensures Shape(l, order, n + 1, s')
  {
    assert order[..n+1] == order[..n] + [order[n]];
    assert Members(s.enacted + [order[n]]) == Members(s.enacted) + {order[n]};
  }

  lemma {:induction false} RunShape(l: GovState, order: seq<GovActionId>, n: nat, epoch: U64, accepts: Accepts)
    requires IsRatifyOrder(order, l.proposals) && n <= |order|
    ensures Shape(l, order, n, Run(l, order, n, epoch, accepts))
    decreases n
  {
    hide Step, Passes, IsRatifyOrder;
    if n > 0 {
      RunShape(l, order, n - 1, epoch, accepts);
      var s, id := Run(l, order, n - 1, epoch, accepts), order[n-1];
      ShapePending(l, order, n - 1, s);
      StepFacts(s, id, epoch, accepts);
      ShapeStep(l, order, n - 1, s, Step(s, id, epoch, accepts), Passes(s, id, epoch, accepts));
    }
  }

  ghost predicate DelayInvariant(l: GovState, order: seq<GovActionId>, n: nat, s: RatifyState, epoch: U64) {
    && n <= |order|
    && (forall id :: id in order <==> id in l.proposals)
    && (forall id :: id in s.enacted ==> id in l.proposals)
    && (!s.delayed ==> forall i :: 0 <= i < n && Delaying(l.proposals[order[i]].action) ==>
                         Expired(l.proposals[order[i]], epoch) && order[i] !in s.enacted)
    && (forall id :: id in s.enacted && Delaying(l.proposals[id].action) ==> s.delayed && s.enacted == [id])
    && (forall id, d ::
          id in s.enacted && !Delaying(l.proposals[id].action)
          && d in l.proposals && Delaying(l.proposals[d].action) ==>
          Expired(l.proposals[d], epoch) && d !in s.enacted)
  }

  lemma EmptyOrHead(ids: seq<GovActionId>)
    ensures ids == [] || ids[0] in ids
  {
  }

  /** Nothing that comes before a delaying action in the order can have been enacted. */
  lemma NoneEnactedBefore(l: GovState, order: seq<GovActionId>, n: nat, s: RatifyState, epoch: U64)
    requires IsRatifyOrder(order, l.proposals) && n < |order|
    requires Shape(l, order, n, s) && DelayInvariant(l, order, n, s, epoch)
    requires order[n] in l.proposals && Delaying(l.proposals[order[n]].action) && !s.delayed
    ensures s.enacted == []
  {
    EmptyOrHead(s.enacted);
  }

  /** Every delaying action comes before a non-delaying one. */
  lemma DelayingExpired(l: GovState, order: seq<GovActionId>, n: nat, s: RatifyState, epoch: U64, d: GovActionId)
    requires IsRatifyOrder(order, l.proposals) && n < |order|
    requires DelayInvariant(l, order, n, s, epoch)
    requires order[n] in l.proposals && !Delaying(l.proposals[order[n]].action) && !s.delayed
    requires d in l.proposals && Delaying(l.proposals[d].action)
    ensures Expired(l.proposals[d], epoch) && d !in s.enacted
  {
    assert d in order;
    var i :| 0 <= i < |order| && order[i] == d;
  }

  lemma DelayStep(l: GovState, order: seq<GovActionId>, n: nat, s: RatifyState, s': RatifyState, epoch: U64,
                  passes: bool)
    requires IsRatifyOrder(order, l.proposals) && n < |order|
    requires Shape(l, order, n, s) && DelayInvariant(l, order, n, s, epoch)
    requires order[n] in l.proposals && order[n] !in s.enacted
    requires s'.enacted == (if passes then s.enacted + [order[n]] else s.enacted)
    requires var p := l.proposals[order[n]];
             s'.delayed == (s.delayed || (Delaying(p.action) && (passes || !Expired(p, epoch))))
    requires passes ==> !s.delayed
    ensures DelayInvariant(l, order, n + 1, s', epoch)
  {
    hide Delaying, Expired, IsRatifyOrder, Shape;
    if passes && Delaying(l.proposals[order[n]].action) {
      NoneEnactedBefore(l, order, n, s, epoch);
      assert s'.enacted == [order[n]];
    } else if passes {
      forall d | d in l.proposals && Delaying(l.proposals[d].action)
        ensures Expired(l.proposals[d], epoch) && d !in s.enacted
      {
        DelayingExpired(l, order, n, s, epoch, d);
      }
    }
  }

  lemma DelayStart(l: GovState, order: seq<GovActionId>, epoch: U64, accepts: Accepts)
    requires IsRatifyOrder(order, l.proposals)
    ensures DelayInvariant(l, order, 0, Run(l, order, 0, epoch, accepts), epoch)
  {
  }

  lemma {:induction false} DelayInvariantHolds(l: GovState, order: seq<GovActionId>, n: nat, epoch: U64,
                                               accepts: Accepts)
    requires IsRatifyOrder(order, l.proposals) && n <= |order|
    ensures DelayInvariant(l, order, n, Run(l, order, n, epoch, accepts), epoch)
    decreases n
  {
    hide Step, Passes, Delaying, Expired, DelayInvariant, IsRatifyOrder;
    if n > 0 {
      DelayInvariantHolds(l, order, n - 1, epoch, accepts);
      RunShape(l, order, n - 1, epoch, accepts);
      var s, id := Run(l, order, n - 1, epoch, accepts), order[n-1];
      ShapePending(l, order, n - 1, s);
      StepFacts(s, id, epoch, accepts);
      DelayStep(l, order, n - 1, s, Step(s, id, epoch, accepts), epoch, Passes(s, id, epoch, accepts));
    } else {
      DelayStart(l, order, epoch, accepts);
    }
  }

  /** A boundary that enacts a delaying action enacts nothing else; one that enacts any
      other action has only expired delaying proposals and enacts none of them. */
  lemma DelayingIsExclusive(l: GovState, order: seq<GovActionId>, epoch: U64, accepts: Accepts)
    requires IsRatifyOrder(order, l.proposals)
    ensures var enacted := Run(l, order, |order|, epoch, accepts).enacted;
            forall id :: id in enacted ==>
              && id in l.proposals
              && (Delaying(l.proposals[id].action) ==> enacted == [id])
              && (!Delaying(l.proposals[id].action) ==>
                    forall d :: d in l.proposals && Delaying(l.proposals[d].action) ==>
                      Expired(l.proposals[d], epoch) && d !in enacted)
  {
    DelayInvariantHolds(l, order, |order|, epoch, accepts);
  }

  /** The full amount each proposal asks of the treasury, and the u64 sum the code compares. */
  ghost function Asked(props: Proposals): GovActionId -> int {
    id => if id in props then WithdrawalTotal(props[id].action) else 0
  }

  ghost function AskedWrapped(props: Proposals): GovActionId -> int {
    id => if id in props then Wrap64(WithdrawalTotal(props[id].action)) else 0
  }

  lemma BudgetStep(props: Proposals, s: RatifyState, s': RatifyState, id: GovActionId, treasury: U64, passes: bool)
    requires s.budget + Sum(Members(s.enacted), AskedWrapped(props)) == treasury
    requires id in props && id !in s.enacted
    requires s'.enacted == (if passes then s.enacted + [id] else s.enacted)
    requires s'.budget == s.budget - (if passes then Wrap64(WithdrawalTotal(props[id].action)) else 0)
    ensures s'.budget + Sum(Members(s'.enacted), AskedWrapped(props)) == treasury
  {
    assert Members(s.enacted + [id]) == Members(s.enacted) + {id};
    SumInsert(Members(s.enacted), AskedWrapped(props), id);
  }

  lemma {:induction false} BudgetRun(l: GovState, order: seq<GovActionId>, n: nat, epoch: U64, accepts: Accepts)
    requires IsRatifyOrder(order, l.proposals) && n <= |order|
    ensures var s := Run(l, order, n, epoch, accepts);
            s.budget + Sum(Members(s.enacted), AskedWrapped(l.proposals)) == l.treasury
    decreases n
  {
    hide Step, Passes, IsRatifyOrder;
    if n > 0 {
      BudgetRun(l, order, n - 1, epoch, accepts);
      RunShape(l, order, n - 1, epoch, accepts);
      var s, id := Run(l, order, n - 1, epoch, accepts), order[n-1];
      ShapePending(l, order, n - 1, s);
      StepFacts(s, id, epoch, accepts);
      BudgetStep(l.proposals, s, Step(s, id, epoch, accepts), id, l.treasury, Passes(s, id, epoch, accepts));
    }
  }

  /** For one vote outcome: all enacted withdrawals together ask for no more than the treasury held at
      loop entry, exactly when no enacted withdrawal overflows the u64 sum that is compared with the budget. */
  lemma EnactedWithinTreasury(l: GovState, order: seq<GovActionId>, epoch: U64, accepts: Accepts)
    requires IsRatifyOrder(order, l.proposals)
    ensures var enacted := Members(Run(l, order, |order|, epoch, accepts).enacted);
            Sum(enacted, Asked(l.proposals)) <= l.treasury
            <==> forall id :: id in enacted ==> Asked(l.proposals)(id) <= U64_MAX
  {
    hide Run, Sum;
    BudgetRun(l, order, |order|, epoch, accepts);
    var enacted := Members(Run(l, order, |order|, epoch, accepts).enacted);
    SumBounds(enacted, Asked(l.proposals));
    if forall id :: id in enacted ==> Asked(l.proposals)(id) <= U64_MAX {
      SumSame(enacted, Asked(l.proposals), AskedWrapped(l.proposals));
    }
  }

  /** An enacted withdrawal passed the budget with its wrapped total. */
  lemma EnactedFits(l: GovState, order: seq<GovActionId>, epoch: U64, accepts: Accepts, id: GovActionId)
    requires IsRatifyOrder(order, l.proposals)
    requires id in Run(l, order, |order|, epoch, accepts).enacted
    ensures AskedWrapped(l.proposals)(id) <= l.treasury
  {
    hide Run, Sum;
    BudgetRun(l, order, |order|, epoch, accepts);
    SumBounds(Members(Run(l, order, |order|, epoch, accepts).enacted), AskedWrapped(l.proposals));
  }

  /** A pending delaying proposal that is still alive. */
  ghost predicate DelayPending(props: Proposals, epoch: U64) {
    exists d :: d in props && Delaying(props[d].action) && !Expired(props[d], epoch)
  }

  /** Checked on the ledger before the boundary: no pending withdrawal can slip past the budget by
      wrapping around, or a live delaying proposal keeps withdrawals from being enacted at all. */
  ghost predicate BudgetHolds(l: GovState, epoch: U64) {
    DelayPending(l.proposals, epoch)
    || forall id :: id in l.proposals && AskedWrapped(l.proposals)(id) <= l.treasury ==>
      Asked(l.proposals)(id) <= U64_MAX
  }

  lemma EnactedTotalsFit(l: GovState, order: seq<GovActionId>, epoch: U64, accepts: Accepts)
    requires IsRatifyOrder(order, l.proposals) && BudgetHolds(l, epoch)
    ensures forall id :: id in Run(l, order, |order|, epoch, accepts).enacted ==> Asked(l.proposals)(id) <= U64_MAX
  {
    hide Run, Sum;
    DelayingIsExclusive(l, order, epoch, accepts);
    forall id | id in Run(l, order, |order|, epoch, accepts).enacted
      ensures Asked(l.proposals)(id) <= U64_MAX
    {
      EnactedFits(l, order, epoch, accepts, id);
    }
  }

  ghost function Only(x: GovActionId): Accepts { (_, id) => id == x }

  lemma {:induction false} OnlyBefore(l: GovState, order: seq<GovActionId>, n: nat, epoch: U64, x: GovActionId)
    requires IsRatifyOrder(order, l.proposals) && n <= |order| && x !in order[..n]
    requires !DelayPending(l.proposals, epoch)
    ensures Run(l, order, n, epoch, Only(x)) == RatifyState(l, [], false, l.treasury)
    decreases n
  {
    hide IsRatifyOrder;
    if n > 0 {
      assert order[..n][n-1] == order[n-1] && order[..n][..n-1] == order[..n-1];
      OnlyBefore(l, order, n - 1, epoch, x);
    }
  }

  /** If only `x` finds votes and no delaying proposal is alive, a withdrawal that passes the budget is enacted. */
  lemma OnlyEnacts(l: GovState, order: seq<GovActionId>, epoch: U64, x: GovActionId)
    requires IsRatifyOrder(order, l.proposals) && !DelayPending(l.proposals, epoch)
    requires x in l.proposals && l.proposals[x].action.TreasuryWithdrawals?
               && AskedWrapped(l.proposals)(x) <= l.treasury
    ensures x in Run(l, order, |order|, epoch, Only(x)).enacted
  {
    hide Step, Passes, DelayPending, IsRatifyOrder;
    var i := PlaceOf(l, order, x);
    OnlyBefore(l, order, i, epoch, x);
    var s := Run(l, order, i, epoch, Only(x));
    WithdrawalPasses(l, epoch, x);
    StepFacts(s, x, epoch, Only(x));
    assert x in s.enacted + [x];
    EnactedStays(l, order, i + 1, |order|, epoch, Only(x), x);
  }

  lemma PlaceOf(l: GovState, order: seq<GovActionId>, x: GovActionId) returns (i: nat)
    requires IsRatifyOrder(order, l.proposals) && x in l.proposals
    ensures i < |order| && order[i] == x && x !in order[..i]
  {
    assert x in order;
    i :| 0 <= i < |order| && order[i] == x;
    assert forall j :: 0 <= j < i ==> Before(l.proposals, order[j], order[i]);
  }

  lemma WithdrawalPasses(l: GovState, epoch: U64, x: GovActionId)
    requires x in l.proposals && l.proposals[x].action.TreasuryWithdrawals?
               && AskedWrapped(l.proposals)(x) <= l.treasury
    ensures Passes(RatifyState(l, [], false, l.treasury), x, epoch, Only(x))
  {
    hide MapTotal;
  }

  lemma {:induction false} EnactedStays(l: GovState, order: seq<GovActionId>, m: nat, n: nat, epoch: U64,
                                        accepts: Accepts, x: GovActionId)
    requires m <= n <= |order| && x in Run(l, order, m, epoch, accepts).enacted
    ensures x in Run(l, order, n, epoch, accepts).enacted
    decreases n
  {
    hide Enact, Passes;
    if m < n {
      EnactedStays(l, order, m, n - 1, epoch, accepts, x);
    }
  }

  /** Whatever the votes, all enacted withdrawals together ask for no more than the treasury held at loop
      entry, exactly when the budget holds on the ledger before the loop. */
  lemma WithdrawalsWithinTreasury(l: GovState, order: seq<GovActionId>, epoch: U64)
    requires IsRatifyOrder(order, l.proposals)
    ensures BudgetHolds(l, epoch) <==>
              forall accepts: Accepts ::
                Sum(Members(Run(l, order, |order|, epoch, accepts).enacted), Asked(l.proposals)) <= l.treasury
  {
    hide Run, Sum, Members, DelayPending;
    if BudgetHolds(l, epoch) {
      forall accepts: Accepts
        ensures Sum(Members(Run(l, order, |order|, epoch, accepts).enacted), Asked(l.proposals)) <= l.treasury
      {
        EnactedTotalsFit(l, order, epoch, accepts);
        EnactedWithinTreasury(l, order, epoch, accepts);
        MembersOf(Run(l, order, |order|, epoch, accepts).enacted);
      }
    } else {
      var x :| x in l.proposals && AskedWrapped(l.proposals)(x) <= l.treasury && Asked(l.proposals)(x) > U64_MAX;
      OnlyEnacts(l, order, epoch, x);
      EnactedWithinTreasury(l, order, epoch, Only(x));
      MembersOf(Run(l, order, |order|, epoch, Only(x)).enacted);
    }
  }

  lemma MembersOf(ids: seq<GovActionId>)
    ensures forall id :: id in Members(ids) <==> id in ids
  {
  }

  /** The enacted actions of one purpose, in order. */
  ghost function LineageOf(enacted: seq<GovActionId>, props: Proposals, q: Purpose): seq<GovActionId> {
    if enacted == [] then []
    else
      var front, last := enacted[..|enacted|-1], enacted[|enacted|-1];
      LineageOf(front, props, q) + (if OfPurpose(props, q, last) then [last] else [])
  }

  ghost predicate IsChain(props: Proposals, root: Option<GovActionId>, chain: seq<GovActionId>) {
    && (forall i :: 0 <= i < |chain| ==> chain[i] in props)
    && (chain != [] ==> Parent(props[chain[0]]) == root)
    && (forall i :: 0 < i < |chain| ==> Parent(props[chain[i]]) == Some(chain[i-1]))
  }

  ghost function ChainEnd(root: Option<GovActionId>, chain: seq<GovActionId>): Option<GovActionId> {
    if chain == [] then root else Some(chain[|chain|-1])
  }

  predicate HasLineage(q: Purpose) {
    q != WithdrawalPurpose && q != InfoPurpose
  }

  lemma StepRoot(s: RatifyState, id: GovActionId, epoch: U64, accepts: Accepts, q: Purpose)
    requires id in s.gov.proposals
    ensures var root, root' := EnactedRoot(s.gov.enactState, q),
              EnactedRoot(Step(s, id, epoch, accepts).gov.enactState, q);
            var p := s.gov.proposals[id];
            if Passes(s, id, epoch, accepts) && PurposeOf(p.action) == q && HasLineage(q)
              then Parent(p) == root && root' == Some(id)
              else root' == root
  {
  }

  ghost predicate LineageTo(props: Proposals, enacted: seq<GovActionId>, q: Purpose, first: Option<GovActionId>,
                            last: Option<GovActionId>) {
    var chain := LineageOf(enacted, props, q);
    IsChain(props, first, chain) && last == ChainEnd(first, chain)
  }

  lemma LineageStep(
      props: Proposals, enacted: seq<GovActionId>, q: Purpose, id: GovActionId,
      root0: Option<GovActionId>, root: Option<GovActionId>, root': Option<GovActionId>)
    requires LineageTo(props, enacted, q, root0, root) && id in props
    requires if PurposeOf(props[id].action) == q then Parent(props[id]) == root && root' == Some(id) else root' == root
    ensures LineageTo(props, enacted + [id], q, root0, root')
  {
    hide LineageOf, IsChain;
    LineageMore(props, enacted, q, id);
    if PurposeOf(props[id].action) == q {
      ChainMore(props, root0, LineageOf(enacted, props, q), id);
    }
  }

  lemma LineageMore(props: Proposals, enacted: seq<GovActionId>, q: Purpose, id: GovActionId)
    ensures LineageOf(enacted + [id], props, q)
         == if OfPurpose(props, q, id) then LineageOf(enacted, props, q) + [id] else LineageOf(enacted, props, q)
  {
    var longer := enacted + [id];
    assert longer[..|longer|-1] == enacted && longer[|longer|-1] == id;
  }

  lemma ChainMore(props: Proposals, root: Option<GovActionId>, chain: seq<GovActionId>, id: GovActionId)
    requires IsChain(props, root, chain) && id in props && Parent(props[id]) == ChainEnd(root, chain)
    ensures IsChain(props, root, chain + [id])
  {
  }

  /** The enacted actions of a purpose form an unbroken chain from the old root to the new one. */
  lemma {:induction false} EnactedChain(l: GovState, order: seq<GovActionId>, n: nat, epoch: U64, accepts: Accepts,
                                        q: Purpose)
    requires IsRatifyOrder(order, l.proposals) && n <= |order| && HasLineage(q)
    ensures var s := Run(l, order, n, epoch, accepts);
            LineageTo(l.proposals, s.enacted, q, EnactedRoot(l.enactState, q), EnactedRoot(s.gov.enactState, q))
    decreases n
  {
    hide Step, Passes, IsRatifyOrder;
    if n > 0 {
      EnactedChain(l, order, n - 1, epoch, accepts, q);
      RunShape(l, order, n - 1, epoch, accepts);
      var s, id := Run(l, order, n - 1, epoch, accepts), order[n-1];
      ShapePending(l, order, n - 1, s);
      StepFacts(s, id, epoch, accepts);
      StepRoot(s, id, epoch, accepts, q);
      if Passes(s, id, epoch, accepts) {
        LineageStep(l.proposals, s.enacted, q, id, EnactedRoot(l.enactState, q), EnactedRoot(s.gov.enactState, q),
                    EnactedRoot(Step(s, id, epoch, accepts).gov.enactState, q));
      }
    }
  }

  ghost function EnactedPurposes(props: Proposals, enacted: seq<GovActionId>): set<Purpose> {
    set id | id in enacted && id in props :: PurposeOf(props[id].action)
  }

  lemma {:induction false} LineageEmpty(enacted: seq<GovActionId>, props: Proposals, q: Purpose)
    requires q !in EnactedPurposes(props, enacted)
    ensures LineageOf(enacted, props, q) == []
    decreases |enacted|
  {
    if enacted != [] {
      var front, last := enacted[..|enacted|-1], enacted[|enacted|-1];
      assert last in enacted;
      LineageEmpty(front, props, q);
    }
  }

  /** The root of a purpose moves only when an action of that purpose is enacted. */
  lemma RootStays(l: GovState, order: seq<GovActionId>, epoch: U64, accepts: Accepts, q: Purpose)
    requires IsRatifyOrder(order, l.proposals)
    requires q !in EnactedPurposes(l.proposals, Run(l, order, |order|, epoch, accepts).enacted)
    ensures EnactedRoot(Run(l, order, |order|, epoch, accepts).gov.enactState, q) == EnactedRoot(l.enactState, q)
  {
    hide Run, IsRatifyOrder;
    if HasLineage(q) {
      EnactedChain(l, order, |order|, epoch, accepts, q);
      LineageEmpty(Run(l, order, |order|, epoch, accepts).enacted, l.proposals, q);
    }
  }

  /** The forest survives ratification: enactment moves roots, and pruning removes what no longer reaches them. */
  lemma RatifyKeepsForest(l: GovState, order: seq<GovActionId>, epoch: U64, accepts: Accepts)
    requires IsRatifyOrder(order, l.proposals) && Forest(l.proposals, l.enactState)
    ensures var s := Run(l, order, |order|, epoch, accepts);
            var stale := StaleIds(s.gov.proposals, s.gov.enactState, EnactedPurposes(l.proposals, s.enacted));
            Forest(s.gov.proposals - stale, s.gov.enactState)
  {
    hide Run, Forest, StaleIds, EnactedRoot;
    var s := Run(l, order, |order|, epoch, accepts);
    var purposes := EnactedPurposes(l.proposals, s.enacted);
    RunShape(l, order, |order|, epoch, accepts);
    forall q | q !in purposes
      ensures EnactedRoot(s.gov.enactState, q) == EnactedRoot(l.enactState, q)
    {
      RootStays(l, order, epoch, accepts, q);
    }
    PruneRestoresForest(l.proposals, l.enactState, s.gov.proposals, s.gov.enactState, purposes);
  }

  // ----- money in the loop ------------------------------------------------------------------

  ghost function Money(l: GovState): nat { MapTotal(l.balances) + l.treasury }

  /** What a withdrawal pays beyond what the treasury holds. */
  ghost function Uncovered(l: GovState, action: GovAction): nat {
    if action.TreasuryWithdrawals? then Below0(l.treasury - Paid(action.withdrawals, l.balances)) else 0
  }

  /** What overfull accounts fail to take. */
  ghost function Spilled(l: GovState, action: GovAction): nat {
    if action.TreasuryWithdrawals?
    then Surplus(l.balances, Inflow(action.withdrawals.Keys, Own(l.balances), At(action.withdrawals))) else 0
  }

  /** The exact effect of an enactment on treasury plus balances. */
  lemma EnactAccounting(l: GovState, id: GovActionId, action: GovAction)
    ensures var l' := Enact(l, id, action);
            && Money(l') == Money(l) + Uncovered(l, action) - Spilled(l, action)
            && (Spilled(l, action) > 0 ==> Money(l') >= U64_MAX)
            && l.treasury - l'.treasury <= WithdrawalTotal(action)
            && l'.proposals == l.proposals
  {
    hide Sum, Surplus, Inflow;
    if action.TreasuryWithdrawals? {
      var w := action.withdrawals;
      PayAccounting(l.balances, w.Keys, Own(l.balances), At(w));
    }
  }

  /** A covered withdrawal fits into the accounts. */
  lemma CoveredFits(l: GovState, action: GovAction)
    requires Uncovered(l, action) == 0 && Money(l) <= U64_MAX
    ensures Spilled(l, action) == 0
  {
    hide Sum, Surplus;
    if action.TreasuryWithdrawals? {
      var w := action.withdrawals;
      PayAccounting(l.balances, w.Keys, Own(l.balances), At(w));
      InflowTotal(l.balances.Keys, w.Keys, Own(l.balances), At(w));
      InflowBounds(w.Keys, Own(l.balances), At(w));
      SumBounds(l.balances.Keys, Inflow(w.Keys, Own(l.balances), At(w)));
      SumBounds(l.balances.Keys, At(l.balances));
      forall a | a in l.balances
        ensures l.balances[a] + Inflow(w.Keys, Own(l.balances), At(w))(a) <= U64_MAX
      {
        assert At(l.balances)(a) <= MapTotal(l.balances);
      }
      NoSurplus(l.balances, Inflow(w.Keys, Own(l.balances), At(w)));
    }
  }

  /** The guard of the treasury's saturating subtraction, at one iteration. */
  ghost predicate CoveredAt(s: RatifyState, id: GovActionId, epoch: U64, accepts: Accepts) {
    id in s.gov.proposals && Passes(s, id, epoch, accepts) ==> Uncovered(s.gov, s.gov.proposals[id].action) == 0
  }

  /** At every withdrawal enacted in the first `n` iterations, the treasury covers what is paid. */
  ghost predicate Covered(l: GovState, order: seq<GovActionId>, n: nat, epoch: U64, accepts: Accepts)
    requires n <= |order|
  {
    forall i :: 0 <= i < n ==> CoveredAt(Run(l, order, i, epoch, accepts), order[i], epoch, accepts)
  }

  lemma StepMoney(s: RatifyState, id: GovActionId, epoch: U64, accepts: Accepts, floor: nat)
    requires id in s.gov.proposals && floor <= Money(s.gov) && floor < U64_MAX
    ensures var s' := Step(s, id, epoch, accepts);
            && floor <= Money(s'.gov)
            && (Money(s'.gov) == floor <==> Money(s.gov) == floor && CoveredAt(s, id, epoch, accepts))
  {
    hide Money, Enact, Uncovered, Spilled, Sum;
    if Passes(s, id, epoch, accepts) {
      var action := s.gov.proposals[id].action;
      var without := s.gov.(proposals := s.gov.proposals - {id});
      SameMoney(s.gov, without, action);
      EnactAccounting(without, id, action);
      if Money(s.gov) == floor && Uncovered(s.gov, action) == 0 {
        CoveredFits(s.gov, action);
      }
    } else {
      SameMoney(s.gov, Step(s, id, epoch, accepts).gov, s.gov.proposals[id].action);
    }
  }

  lemma SameMoney(l: GovState, l': GovState, action: GovAction)
    requires l'.balances == l.balances && l'.treasury == l.treasury
    ensures Money(l') == Money(l) && Uncovered(l', action) == Uncovered(l, action)
              && Spilled(l', action) == Spilled(l, action)
  {
  }

  /** Treasury plus balances never shrink in the loop, and are conserved exactly when the treasury covers
      every withdrawal that is enacted. */
  lemma {:induction false} RunConserves(l: GovState, order: seq<GovActionId>, n: nat, epoch: U64, accepts: Accepts)
    requires IsRatifyOrder(order, l.proposals) && n <= |order| && Money(l) < U64_MAX
    ensures var s := Run(l, order, n, epoch, accepts);
            && Money(l) <= Money(s.gov)
            && (Money(s.gov) == Money(l) <==> Covered(l, order, n, epoch, accepts))
    decreases n
  {
    hide Step, CoveredAt, IsRatifyOrder, Money;
    if n > 0 {
      RunConserves(l, order, n - 1, epoch, accepts);
      RunShape(l, order, n - 1, epoch, accepts);
      var s := Run(l, order, n - 1, epoch, accepts);
      ShapePending(l, order, n - 1, s);
      StepMoney(s, order[n-1], epoch, accepts, Money(l));
    }
  }

  ghost predicate TotalsFit(l: GovState, enacted: seq<GovActionId>) {
    forall id :: id in enacted ==> Asked(l.proposals)(id) <= U64_MAX
  }

  lemma PaidWithin(w: Balances, b: Balances)
    ensures Paid(w, b) <= MapTotal(w)
  {
    hide Sum;
    InflowBounds(w.Keys, Own(b), At(w));
  }

  /** Totals that do not wrap keep the budget below the treasury. */
  lemma StepBudget(s: RatifyState, id: GovActionId, epoch: U64, accepts: Accepts)
    requires id in s.gov.proposals && s.budget <= s.gov.treasury
    requires Passes(s, id, epoch, accepts) ==> WithdrawalTotal(s.gov.proposals[id].action) <= U64_MAX
    ensures CoveredAt(s, id, epoch, accepts)
    ensures var s' := Step(s, id, epoch, accepts);
            s'.budget <= s'.gov.treasury
  {
    hide Sum, MapTotal, Pay, Paid;
    var action := s.gov.proposals[id].action;
    if Passes(s, id, epoch, accepts) && action.TreasuryWithdrawals? {
      PaidWithin(action.withdrawals, s.gov.balances);
    }
  }

  lemma {:induction false} FittingTotalsCovered(l: GovState, order: seq<GovActionId>, n: nat, epoch: U64,
                                                accepts: Accepts)
    requires IsRatifyOrder(order, l.proposals) && n <= |order|
    requires TotalsFit(l, Run(l, order, n, epoch, accepts).enacted)
    ensures Covered(l, order, n, epoch, accepts)
    ensures var s := Run(l, order, n, epoch, accepts);
            s.budget <= s.gov.treasury
    decreases n
  {
    hide Step, Passes, CoveredAt, IsRatifyOrder;
    if n > 0 {
      var s, id := Run(l, order, n - 1, epoch, accepts), order[n-1];
      RunShape(l, order, n - 1, epoch, accepts);
      ShapePending(l, order, n - 1, s);
      StepFacts(s, id, epoch, accepts);
      var enacted := Step(s, id, epoch, accepts).enacted;
      assert forall x :: x in s.enacted ==> x in enacted;
      FittingTotalsCovered(l, order, n - 1, epoch, accepts);
      assert Passes(s, id, epoch, accepts) ==> id in enacted;
      assert s.gov.proposals[id] == l.proposals[id];
      StepBudget(s, id, epoch, accepts);
    }
  }

  /** A ledger on which the budget holds conserves treasury plus balances, whatever the votes. */
  lemma BudgetConserves(l: GovState, order: seq<GovActionId>, epoch: U64, accepts: Accepts)
    requires IsRatifyOrder(order, l.proposals) && BudgetHolds(l, epoch)
    ensures Covered(l, order, |order|, epoch, accepts)
  {
    hide Run, IsRatifyOrder, BudgetHolds, Covered;
    EnactedTotalsFit(l, order, epoch, accepts);
    FittingTotalsCovered(l, order, |order|, epoch, accepts);
  }

  // ----- covered whatever the votes -------------------------------------------------------------

  /** What each proposal pays to accounts that are registered. */
  ghost function PaidAt(props: Proposals, b: Balances): GovActionId -> int {
    id => if id in props && props[id].action.TreasuryWithdrawals? then Paid(props[id].action.withdrawals, b) else 0
  }

  /** Checked on the ledger before the boundary: a live delaying proposal is pending, or whatever set of
      pending proposals fits the treasury by its wrapped totals also pays no more than the treasury. */
  ghost predicate AlwaysCovers(l: GovState, epoch: U64) {
    DelayPending(l.proposals, epoch)
    || forall ids :: ids <= l.proposals.Keys && Sum(ids, AskedWrapped(l.proposals)) <= l.treasury ==>
         Sum(ids, PaidAt(l.proposals, l.balances)) <= l.treasury
  }

  /** What is paid depends on which accounts are registered, not on what they hold. */
  lemma PaidByKeys(w: Balances, b: Balances, b': Balances)
    requires b.Keys == b'.Keys
    ensures Paid(w, b) == Paid(w, b')
  {
    hide Sum;
    SumSame(w.Keys, Share(Own(b), At(w), None), Share(Own(b'), At(w), None));
  }

  /** One iteration that is covered takes from the treasury exactly what it pays. */
  lemma StepTreasury(l: GovState, s: RatifyState, id: GovActionId, epoch: U64, accepts: Accepts)
    requires id in s.gov.proposals && id in l.proposals && s.gov.proposals[id] == l.proposals[id]
    requires s.gov.balances.Keys == l.balances.Keys && CoveredAt(s, id, epoch, accepts)
    ensures Step(s, id, epoch, accepts).gov.treasury
         == s.gov.treasury - (if Passes(s, id, epoch, accepts) then PaidAt(l.proposals, l.balances)(id) else 0)
  {
    hide Sum, MapTotal, Pay, Paid;
    var action := l.proposals[id].action;
    if action.TreasuryWithdrawals? {
      PaidByKeys(action.withdrawals, s.gov.balances, l.balances);
    }
  }

  lemma {:induction false} CoveredTreasury(l: GovState, order: seq<GovActionId>, n: nat, epoch: U64, accepts: Accepts)
    requires IsRatifyOrder(order, l.proposals) && n <= |order| && Covered(l, order, n, epoch, accepts)
    ensures var s := Run(l, order, n, epoch, accepts);
            s.gov.treasury == l.treasury - Sum(Members(s.enacted), PaidAt(l.proposals, l.balances))
    decreases n
  {
    hide Step, Passes, CoveredAt, IsRatifyOrder, PaidAt;
    if n > 0 {
      var s, id := Run(l, order, n - 1, epoch, accepts), order[n-1];
      CoveredTreasury(l, order, n - 1, epoch, accepts);
      RunShape(l, order, n - 1, epoch, accepts);
      ShapePending(l, order, n - 1, s);
      StepFacts(s, id, epoch, accepts);
      StepTreasury(l, s, id, epoch, accepts);
      MembersMore(s.enacted, id);
      SumInsert(Members(s.enacted), PaidAt(l.proposals, l.balances), id);
    }
  }

  lemma MembersMore(ids: seq<GovActionId>, id: GovActionId)
    ensures Members(ids + [id]) == Members(ids) + {id}
    ensures id in Members(ids) <==> id in ids
  {
  }

  lemma {:induction false} FittingSetsCovered(l: GovState, order: seq<GovActionId>, n: nat, epoch: U64,
                                              accepts: Accepts)
    requires IsRatifyOrder(order, l.proposals) && n <= |order|
    requires AlwaysCovers(l, epoch) && !DelayPending(l.proposals, epoch)
    ensures Covered(l, order, n, epoch, accepts)
    decreases n
  {
    hide Step, Passes, IsRatifyOrder, PaidAt, DelayPending, CoveredAt, Sum, AlwaysCovers, Members;
    if n > 0 {
      FittingSetsCovered(l, order, n - 1, epoch, accepts);
      CoveredTreasury(l, order, n - 1, epoch, accepts);
      var s, id := Run(l, order, n - 1, epoch, accepts), order[n-1];
      RunShape(l, order, n - 1, epoch, accepts);
      ShapePending(l, order, n - 1, s);
      if Passes(s, id, epoch, accepts) {
        StepFacts(s, id, epoch, accepts);
        BudgetRun(l, order, n, epoch, accepts);
        MembersMore(s.enacted, id);
        MembersOf(s.enacted);
        FittingPays(l, epoch, Members(s.enacted), id);
      }
      SmallPaidCovered(l, s, id, epoch, accepts);
    }
  }

  lemma FittingPays(l: GovState, epoch: U64, done: set<GovActionId>, id: GovActionId)
    requires AlwaysCovers(l, epoch) && !DelayPending(l.proposals, epoch)
    requires done <= l.proposals.Keys && id in l.proposals && id !in done
    requires Sum(done + {id}, AskedWrapped(l.proposals)) <= l.treasury
    ensures PaidAt(l.proposals, l.balances)(id) <= l.treasury - Sum(done, PaidAt(l.proposals, l.balances))
  {
    hide Sum, PaidAt, DelayPending;
    SumInsert(done, PaidAt(l.proposals, l.balances), id);
  }

  lemma SmallPaidCovered(l: GovState, s: RatifyState, id: GovActionId, epoch: U64, accepts: Accepts)
    requires id in s.gov.proposals && id in l.proposals && s.gov.proposals[id] == l.proposals[id]
    requires s.gov.balances.Keys == l.balances.Keys
    requires Passes(s, id, epoch, accepts) ==> PaidAt(l.proposals, l.balances)(id) <= s.gov.treasury
    ensures CoveredAt(s, id, epoch, accepts)
  {
    hide Sum, MapTotal, Paid, Passes;
    var action := l.proposals[id].action;
    if action.TreasuryWithdrawals? {
      PaidByKeys(action.withdrawals, s.gov.balances, l.balances);
    }
  }

  ghost function In(ids: set<GovActionId>): Accepts { (_, id) => id in ids }

  ghost predicate WithdrawalsThatFit(l: GovState, ids: set<GovActionId>) {
    && (forall id :: id in ids ==> id in l.proposals && l.proposals[id].action.TreasuryWithdrawals?)
    && Sum(ids, AskedWrapped(l.proposals)) <= l.treasury
  }

  /** If exactly a fitting set of withdrawals finds votes and nothing delays, it is enacted. */
  lemma {:induction false} ChosenRun(l: GovState, order: seq<GovActionId>, n: nat, epoch: U64, ids: set<GovActionId>)
    requires IsRatifyOrder(order, l.proposals) && n <= |order|
    requires WithdrawalsThatFit(l, ids) && !DelayPending(l.proposals, epoch)
    ensures var s := Run(l, order, n, epoch, In(ids));
            !s.delayed && Chosen(order, n, s.enacted, ids)
    decreases n
  {
    hide Step, Passes, IsRatifyOrder, WithdrawalsThatFit, DelayPending, Sum, Delaying, Expired, AskedWrapped, Chosen;
    if n > 0 {
      ChosenRun(l, order, n - 1, epoch, ids);
      var s, id := Run(l, order, n - 1, epoch, In(ids)), order[n-1];
      RunShape(l, order, n - 1, epoch, In(ids));
      ShapePending(l, order, n - 1, s);
      StepFacts(s, id, epoch, In(ids));
      BudgetRun(l, order, n - 1, epoch, In(ids));
      ChosenIn(order, n - 1, s.enacted, ids);
      ChosenStep(l, s, id, epoch, ids);
      NotBefore(l.proposals, order, n - 1);
      ChosenMore(order, n - 1, s.enacted, Step(s, id, epoch, In(ids)).enacted, ids);
    } else {
      ChosenNone(order, ids);
    }
  }

  /** Of the first n of the order exactly the members of the set are enacted, and nothing else. */
  ghost predicate Chosen(order: seq<GovActionId>, n: nat, enacted: seq<GovActionId>, ids: set<GovActionId>)
    requires n <= |order|
  {
    && (forall i :: 0 <= i < n ==> (order[i] in enacted <==> order[i] in ids))
    && forall id :: id in enacted ==> id in ids
  }

  lemma ChosenNone(order: seq<GovActionId>, ids: set<GovActionId>)
    ensures Chosen(order, 0, [], ids)
  {
  }

  lemma ChosenIn(order: seq<GovActionId>, n: nat, enacted: seq<GovActionId>, ids: set<GovActionId>)
    requires n <= |order| && Chosen(order, n, enacted, ids)
    ensures forall id :: id in enacted ==> id in ids
  {
  }

  lemma ChosenMore(order: seq<GovActionId>, n: nat, enacted: seq<GovActionId>, enacted': seq<GovActionId>,
                   ids: set<GovActionId>)
    requires n < |order| && Chosen(order, n, enacted, ids) && order[n] !in enacted
    requires forall i :: 0 <= i < n ==> order[i] != order[n]
    requires enacted' == if order[n] in ids then enacted + [order[n]] else enacted
    ensures Chosen(order, n + 1, enacted', ids)
  {
  }

  lemma NotBefore(props: Proposals, order: seq<GovActionId>, n: nat)
    requires IsRatifyOrder(order, props) && n < |order|
    ensures forall i :: 0 <= i < n ==> order[i] != order[n]
  {
    assert forall i :: 0 <= i < n ==> Before(props, order[i], order[n]);
  }

  lemma ChosenStep(l: GovState, s: RatifyState, id: GovActionId, epoch: U64, ids: set<GovActionId>)
    requires id in s.gov.proposals && id in l.proposals && s.gov.proposals[id] == l.proposals[id] && id !in s.enacted
    requires WithdrawalsThatFit(l, ids) && !DelayPending(l.proposals, epoch) && !s.delayed
    requires forall x :: x in s.enacted ==> x in ids
    requires s.budget + Sum(Members(s.enacted), AskedWrapped(l.proposals)) == l.treasury
    ensures Passes(s, id, epoch, In(ids)) <==> id in ids
    ensures Delaying(l.proposals[id].action) ==> id !in ids && Expired(l.proposals[id], epoch)
  {
    hide Sum, MapTotal;
    if id in ids {
      SumInsert(Members(s.enacted), AskedWrapped(l.proposals), id);
      SumSubset(Members(s.enacted) + {id}, ids, AskedWrapped(l.proposals));
    }
  }

  lemma ChosenEnacted(l: GovState, order: seq<GovActionId>, epoch: U64, ids: set<GovActionId>)
    requires IsRatifyOrder(order, l.proposals)
    requires WithdrawalsThatFit(l, ids) && !DelayPending(l.proposals, epoch)
    ensures Members(Run(l, order, |order|, epoch, In(ids)).enacted) == ids
  {
    hide Run, Sum, DelayPending;
    ChosenRun(l, order, |order|, epoch, ids);
    forall id | id in ids
      ensures id in Run(l, order, |order|, epoch, In(ids)).enacted
    {
      var i := PlaceOf(l, order, id);
    }
  }

  /** The withdrawals of a set carry all that it asks for and pays. */
  lemma OnlyWithdrawals(l: GovState, ids: set<GovActionId>) returns (w: set<GovActionId>)
    requires ids <= l.proposals.Keys
    ensures w <= ids && forall id :: id in w ==> id in l.proposals && l.proposals[id].action.TreasuryWithdrawals?
    ensures Sum(w, AskedWrapped(l.proposals)) == Sum(ids, AskedWrapped(l.proposals))
    ensures Sum(w, PaidAt(l.proposals, l.balances)) == Sum(ids, PaidAt(l.proposals, l.balances))
  {
    hide Sum, MapTotal;
    w := set id | id in ids && l.proposals[id].action.TreasuryWithdrawals?;
    assert w + (ids - w) == ids;
    SumUnion(w, ids - w, AskedWrapped(l.proposals));
    SumZero(ids - w, AskedWrapped(l.proposals));
    SumUnion(w, ids - w, PaidAt(l.proposals, l.balances));
    SumZero(ids - w, PaidAt(l.proposals, l.balances));
  }

  /** Whatever the votes, the treasury covers every enacted withdrawal, exactly when this can be seen on
      the ledger before the loop. */
  lemma CoveredWhateverVotes(l: GovState, order: seq<GovActionId>, epoch: U64)
    requires IsRatifyOrder(order, l.proposals)
    ensures AlwaysCovers(l, epoch) <==> forall accepts: Accepts :: Covered(l, order, |order|, epoch, accepts)
  {
    hide Run, Sum, DelayPending, Covered, IsRatifyOrder, Members;
    if AlwaysCovers(l, epoch) {
      forall accepts: Accepts
        ensures Covered(l, order, |order|, epoch, accepts)
      {
        if DelayPending(l.proposals, epoch) {
          BudgetConserves(l, order, epoch, accepts);
        } else {
          FittingSetsCovered(l, order, |order|, epoch, accepts);
        }
      }
    } else {
      var ids :| ids <= l.proposals.Keys && Sum(ids, AskedWrapped(l.proposals)) <= l.treasury
                 && Sum(ids, PaidAt(l.proposals, l.balances)) > l.treasury;
      var w := OnlyWithdrawals(l, ids);
      ChosenEnacted(l, order, epoch, w);
      if Covered(l, order, |order|, epoch, In(w)) {
        CoveredTreasury(l, order, |order|, epoch, In(w));
      }
    }
  }

  function Account(n: byte): RewardAccount { RewardAccount(0, AddrKeyHash(Filled(28, n))) }

  lemma TwoAccounts()
    ensures Account(0) != Account(1)
  {
    assert Filled(28, 0)[0] != Filled(28, 1)[0];
  }

  /** One pending proposal to pay 2^63 to each of two accounts, and an empty treasury. */
  ghost function TwoHalves(registered: bool): GovState {
    var a, b := Account(0), Account(1);
    var w: Balances := map[a := 0x8000_0000_0000_0000, b := 0x8000_0000_0000_0000];
    GovState(0, if registered then map[a := 0, b := 0] else map[],
             map[GovActionId(0, 0) := Proposal(TreasuryWithdrawals(w), 0, Some(a), None)],
             EnactState(None, None, None, None), None)
  }

  lemma TwoSum(m: Balances, a: RewardAccount, b: RewardAccount)
    requires m.Keys == {a, b} && a != b
    ensures MapTotal(m) == At(m)(a) + At(m)(b)
  {
    SumTake(m.Keys, At(m), a);
    assert m.Keys - {a} == {b};
    SumTake({b}, At(m), b);
    assert {b} - {b} == {};
  }

  lemma TwoHalvesEnacted(registered: bool)
    ensures var l, id := TwoHalves(registered), GovActionId(0, 0);
            && IsRatifyOrder([id], l.proposals)
            && Asked(l.proposals)(id) == 0x1_0000_0000_0000_0000
            && var s := Run(l, [id], 1, 0, (_, _) => true);
               s.enacted == [id] && s.gov == Enact(l.(proposals := map[]), id, l.proposals[id].action)
  {
    hide Enact, MapTotal;
    var l, id := TwoHalves(registered), GovActionId(0, 0);
    var a, b := Account(0), Account(1);
    TwoAccounts();
    TwoSum(l.proposals[id].action.withdrawals, a, b);
    assert l.proposals - {id} == map[];
    var s0 := Run(l, [id], 0, 0, (_, _) => true);
    assert Passes(s0, id, 0, (_, _) => true);
  }

  /** Two withdrawals of 2^63 each add up to 0 in u64, so the check lets them pass an empty treasury. */
  lemma OverflowDefeatsBudget()
    ensures var l, id := TwoHalves(false), GovActionId(0, 0);
            && IsRatifyOrder([id], l.proposals) && l.treasury == 0
            && Sum(Members(Run(l, [id], 1, 0, (_, _) => true).enacted), Asked(l.proposals)) == 0x1_0000_0000_0000_0000
  {
    hide Run, Enact;
    var l, id := TwoHalves(false), GovActionId(0, 0);
    TwoHalvesEnacted(false);
    assert Members([id]) == {id};
    SumTake({id}, Asked(l.proposals), id);
    assert {id} - {id} == {};
  }

  /** With both accounts registered, one iteration turns no lovelace at all into 2^64. */
  lemma OverflowCreatesLovelace()
    ensures var l, id := TwoHalves(true), GovActionId(0, 0);
            && IsRatifyOrder([id], l.proposals) && Money(l) == 0
            && Money(Run(l, [id], 1, 0, (_, _) => true).gov) == 0x1_0000_0000_0000_0000
  {
    hide Run, Sum, MapTotal, Pay, Paid;
    var l, id := TwoHalves(true), GovActionId(0, 0);
    TwoHalvesEnacted(true);
    TwoAccounts();
    TwoSum(l.balances, Account(0), Account(1));
    HalvesPaid();
  }

  /** Both accounts receive their half, and the whole is paid. */
  lemma HalvesPaid()
    ensures var l := TwoHalves(true);
            var w := l.proposals[GovActionId(0, 0)].action.withdrawals;
            && MapTotal(Pay(l.balances, w.Keys, Own(l.balances), At(w))) == 0x1_0000_0000_0000_0000
  {
    hide Sum, MapTotal;
    var l := TwoHalves(true);
    var a, b := Account(0), Account(1);
    var w, dest := l.proposals[GovActionId(0, 0)].action.withdrawals, Own(l.balances);
    TwoAccounts();
    SumOnly(w.Keys, Share(dest, At(w), Some(a)), a);
    SumOnly(w.Keys, Share(dest, At(w), Some(b)), b);
    TwoSum(Pay(l.balances, w.Keys, dest, At(w)), a, b);
  }
}
