/** The ledger state and the methods that update it in place at an epoch boundary. */
module LedgerStates {
  import opened Options
  import opened Addresses
  import opened Saturating
  import opened Sums
  import opened Governance
  import opened Lineage
  import opened Payout
  import opened LedgerValue
  import opened Ratify
  import opened Boundary
  import opened BoundaryTheorems

  class StakeSnapshots {
    var feePot: U64
    var previousFeePot: U64

    /** The fees of the closed epoch become the previous pot. */
    method Rotate()
      modifies this
      ensures feePot == 0 && previousFeePot == old(feePot)
    {
      previousFeePot := feePot;
      feePot := 0;
    }
  }

  class LedgerState {
    var reserves: U64
    var treasury: U64
    var balances: Balances
    var proposals: Proposals
    var enactState: EnactState
    var termLimit: Option<U64>
    var deposits: Deposits
    var donations: U64
    var instantRewards: InstantRewards
    var poolState: PoolState
    var currentEpoch: U64
    var hasParams: bool
    var hasPreviousParams: bool

    function Gov(): GovState
      reads this
    {
      GovState(treasury, balances, proposals, enactState, termLimit)
    }

    function View(): Ledger
      reads this
    {
      Ledger(reserves, Gov(), deposits, donations, instantRewards, poolState)
    }

    /** All lovelace outside the UTxO, both fee pots included. */
    ghost function Supply(snapshots: StakeSnapshots): nat
      reads this, snapshots
    {
      Total(View()) + snapshots.feePot + snapshots.previousFeePot
    }

    // ----- rewards -----------------------------------------------------------

    /** The first registered account of a credential, in key order. */
    method FindAccount(c: Credential) returns (found: Option<RewardAccount>)
      ensures found == FirstOf(balances.Keys)(c)
    {
      found := None;
      var todo := balances.Keys;
      while todo != {}
        invariant todo <= balances.Keys
        invariant found.Some? ==> found.value in balances && found.value.credential == c
        invariant forall a :: a in balances && a !in todo && a.credential == c ==>
                    found.Some? && found.value.network <= a.network
        decreases todo
      {
        var a :| a in todo;
        todo := todo - {a};
        if a.credential == c && (found.None? || a.network < found.value.network) {
          found := Some(a);
        }
      }
      if found.Some? {
        FirstOfIs(balances.Keys, found.value);
      }
    }

    method PayLeaders(leader: Balances) returns (unregistered: U64)
      modifies this`balances
      ensures Progress(old(balances), leader.Keys, Own(old(balances)), At(leader), balances, unregistered)
    {
      hide Progress, Sum;
      ghost var b0 := balances;
      unregistered := 0;
      var todo := leader.Keys;
      ghost var done := {};
      ProgressStart(b0, Own(b0), At(leader));
      while todo != {}
        invariant todo <= leader.Keys && done == leader.Keys - todo
        invariant balances.Keys == b0.Keys
        invariant Progress(b0, done, Own(b0), At(leader), balances, unregistered)
        decreases todo
      {
        var a :| a in todo;
        ProgressStep(b0, done, a, Own(b0), At(leader), balances, unregistered);
        var amount := leader[a];
        if amount == 0 {
        } else if a in balances {
          balances := balances[a := SatAdd(balances[a], amount)];
        } else {
          unregistered := SatAdd(unregistered, amount);
        }
        todo, done := todo - {a}, done + {a};
      }
      assert done == leader.Keys;
    }

    method PayMembers(member: map<Credential, U64>) returns (unregistered: U64)
      modifies this`balances
      ensures Progress(old(balances), member.Keys, FirstOf(old(balances).Keys), At(member), balances, unregistered)
    {
      hide Progress, Sum, FirstOf;
      ghost var b0 := balances;
      unregistered := 0;
      var todo := member.Keys;
      ghost var done := {};
      ProgressStart(b0, FirstOf(b0.Keys), At(member));
      while todo != {}
        invariant todo <= member.Keys && done == member.Keys - todo
        invariant balances.Keys == b0.Keys
        invariant Progress(b0, done, FirstOf(b0.Keys), At(member), balances, unregistered)
        decreases todo
      {
        var c :| c in todo;
        FirstOfRegistered(b0.Keys, c);
        ProgressStep(b0, done, c, FirstOf(b0.Keys), At(member), balances, unregistered);
        var amount := member[c];
        var account := FindAccount(c);
        if amount == 0 {
        } else if account.Some? {
          balances := balances[account.value := SatAdd(balances[account.value], amount)];
        } else {
          unregistered := SatAdd(unregistered, amount);
        }
        todo, done := todo - {c}, done + {c};
      }
      assert done == member.Keys;
    }

    method DistributeRewards(r: Rewards) returns (unregistered: U64)
      modifies this`balances
      ensures balances == AfterRewards(old(balances), r)
      ensures unregistered == Clamp(UnregisteredRewards(old(balances), r))
    {
      hide Sum, FirstOf, Own;
      unregistered := PayLeaders(r.leader);
      var more := PayMembers(r.member);
      unregistered := SatAdd(unregistered, more);
    }

    // ----- MIR ---------------------------------------------------------------

    /** The last account of each credential, in key order. */
    method AccountsByCredential() returns (m: map<Credential, RewardAccount>)
      ensures forall c :: (c in m <==> LastOf(balances.Keys)(c).Some?)
                && (c in m ==> LastOf(balances.Keys)(c) == Some(m[c]))
    {
      m := map[];
      var todo := balances.Keys;
      while todo != {}
        invariant todo <= balances.Keys
        invariant forall c :: c in m ==> m[c] in balances && m[c].credential == c
        invariant forall a :: a in balances && a !in todo ==> a.credential in m && a.network <= m[a.credential].network
        decreases todo
      {
        var a :| a in todo;
        todo := todo - {a};
        if a.credential !in m || m[a.credential].network <= a.network {
          m := m[a.credential := a];
        }
      }
      forall c
        ensures (c in m <==> LastOf(balances.Keys)(c).Some?) && (c in m ==> LastOf(balances.Keys)(c) == Some(m[c]))
      {
        if c in m {
          LastOfIs(balances.Keys, m[c]);
        }
      }
    }

    /** The total of the entries with a registered account. */
    method SumRegistered(ir: map<Credential, I64>, known: map<Credential, RewardAccount>) returns (total: I64)
      requires forall c :: c in known <==> LastOf(balances.Keys)(c).Some?
      ensures total == MirSum(ir, balances.Keys)
    {
      hide Sum, LastOf;
      var keys := set c | c in ir && c in known;
      assert keys == Filtered(ir, balances.Keys);
      var todo := keys;
      total := 0;
      SumZero({}, IrAt(ir));
      ghost var done := {};
      while todo != {}
        invariant todo <= keys && done == keys - todo
        invariant total == WrapI64(Sum(done, IrAt(ir)))
        decreases todo
      {
        var c :| c in todo;
        SumInsert(done, IrAt(ir), c);
        total := WrapI64(total + ir[c]);
        todo, done := todo - {c}, done + {c};
      }
      assert done == keys;
    }

    method CreditMir(ir: InstantRewards, known: map<Credential, RewardAccount>)
      requires forall c :: (c in known <==> LastOf(balances.Keys)(c).Some?)
                 && (c in known ==> LastOf(balances.Keys)(c) == Some(known[c]))
      modifies this`balances
      ensures balances == Pay(old(balances), MergedKeys(ir, old(balances).Keys), LastOf(old(balances).Keys), Merged(ir))
    {
      hide Sum, Pay, LastOf, MergedAmount;
      ghost var b0 := balances;
      ghost var dest, amount := LastOf(b0.Keys), Merged(ir);
      var keys := set c | c in ir.reserves.Keys + ir.treasury.Keys && c in known;
      assert keys == MergedKeys(ir, b0.Keys);
      var todo := keys;
      ghost var done := {};
      PayNothing(b0, dest, amount);
      while todo != {}
        invariant todo <= keys && done == keys - todo
        invariant balances.Keys == b0.Keys
        invariant balances == Pay(b0, done, dest, amount)
        decreases todo
      {
        var c :| c in todo;
        LastOfRegistered(b0.Keys);
        var delta: int := MergedAmount(ir, c);
        var account := known[c];
        CreditStep(b0, done, c, dest, amount, account, delta);
        if delta > 0 {
          balances := balances[account := SatAdd(balances[account], delta)];
        } else if delta < 0 {
          balances := balances[account := SatSub(balances[account], -delta)];
        }
        todo, done := todo - {c}, done + {c};
      }
      assert done == keys;
    }

    /** Applies the accumulated MIR, all or nothing. */
    method ApplyMir()
      modifies this`reserves, this`treasury, this`balances, this`instantRewards
      ensures View() == AfterMir(old(View()))
    {
      hide Sum, Pay, LastOf, MirSum, MergedKeys, Merged, NegateI64;
      var ir := instantRewards;
      instantRewards := NO_MIR;
      if ir == NO_MIR {
        return;
      }
      var known := AccountsByCredential();
      var totalReserves := SumRegistered(ir.reserves, known);
      var totalTreasury := SumRegistered(ir.treasury, known);
      if PotCovers(reserves, ir.deltaReserves, totalReserves) && PotCovers(treasury, ir.deltaTreasury, totalTreasury) {
        if totalReserves != 0 || totalTreasury != 0 {
          CreditMir(ir, known);
        }
        reserves := ApplyDelta(reserves, ir.deltaReserves);
        treasury := ApplyDelta(treasury, ir.deltaTreasury);
        reserves := ApplyDelta(reserves, NegateI64(totalReserves));
        treasury := ApplyDelta(treasury, NegateI64(totalTreasury));
      }
    }

    // ----- pools -------------------------------------------------------------

    method AdoptFutureParams()
      modifies this`poolState
      ensures poolState == Adopt(old(poolState))
    {
      var staged := poolState.futureParams;
      poolState := poolState.(futureParams := map[]);
      ghost var pools0 := poolState.pools;
      var todo := staged.Keys;
      while todo != {}
        invariant todo <= staged.Keys && poolState.futureParams == map[]
        invariant poolState.pools == map p | p in pools0 ::
                    if p in staged && p !in todo then pools0[p].(rewardAccount := staged[p]) else pools0[p]
        decreases todo
      {
        var p :| p in todo;
        todo := todo - {p};
        if p in poolState.pools {
          poolState := poolState.(pools := poolState.pools[p := poolState.pools[p].(rewardAccount := staged[p])]);
        }
      }
    }

    /** Removes the pools that retire and refunds their deposits. */
    method RetirePools(epoch: U64) returns (unclaimed: U64)
      modifies this`poolState, this`balances, this`deposits
      ensures var pools, gone := old(poolState.pools), Retiring(old(poolState.pools), epoch);
              && poolState == PoolState(pools - gone, old(poolState.futureParams) - gone)
              && Progress(old(balances), gone, PoolDest(pools, old(balances)), PoolDeposit(pools), balances, unclaimed)
              && deposits == old(deposits).(pools := Clamp(old(deposits.pools) - Sum(gone, PoolDeposit(pools))))
    {
      hide Progress, Sum;
      var pools := poolState.pools;
      var gone := Retiring(pools, epoch);
      ghost var b0, deposits0 := balances, deposits;
      ghost var dest, amount := PoolDest(pools, b0), PoolDeposit(pools);
      unclaimed := 0;
      poolState := PoolState(pools - gone, poolState.futureParams - gone);
      ghost var poolState' := poolState;
      var todo := gone;
      ghost var done := {};
      ProgressStart(b0, dest, amount);
      SumZero({}, amount);
      while todo != {}
        invariant todo <= gone && done == gone - todo && poolState == poolState'
        invariant balances.Keys == b0.Keys
        invariant Progress(b0, done, dest, amount, balances, unclaimed)
        invariant 0 <= Sum(done, amount) && deposits == deposits0.(pools := Clamp(deposits0.pools - Sum(done, amount)))
        decreases todo
      {
        var p :| p in todo;
        ProgressStep(b0, done, p, dest, amount, balances, unclaimed);
        SumInsert(done, amount, p);
        var deposit, account := pools[p].deposit, pools[p].rewardAccount;
        if deposit == 0 {
        } else {
          if account in balances {
            balances := balances[account := SatAdd(balances[account], deposit)];
          } else {
            unclaimed := SatAdd(unclaimed, deposit);
          }
          deposits := deposits.(pools := SatSub(deposits.pools, deposit));
        }
        todo, done := todo - {p}, done + {p};
      }
      assert done == gone;
    }

    // ----- governance --------------------------------------------------------

    /** The wrapping u64 sum of the withdrawn amounts. */
    method SumWithdrawals(w: Balances) returns (total: U64)
      ensures total == Wrap64(MapTotal(w))
    {
      hide Sum;
      var todo := w.Keys;
      ghost var done := {};
      total := 0;
      SumZero({}, At(w));
      while todo != {}
        invariant todo <= w.Keys && done == w.Keys - todo
        invariant 0 <= Sum(done, At(w)) && total == Wrap64(Sum(done, At(w)))
        decreases todo
      {
        var a :| a in todo;
        SumInsert(done, At(w), a);
        total := Wrap64(total + w[a]);
        todo, done := todo - {a}, done + {a};
      }
      assert done == w.Keys;
    }

    method PayWithdrawals(w: Balances)
      modifies this`balances, this`treasury
      ensures balances == Pay(old(balances), w.Keys, Own(old(balances)), At(w))
      ensures treasury == SatSub(old(treasury), Paid(w, old(balances)))
    {
      hide Sum, Pay, Lost;
      ghost var b0, t0 := balances, treasury;
      ghost var dest := Own(b0);
      var todo := w.Keys;
      ghost var done := {};
      PayNothing(b0, dest, At(w));
      InflowEmpty(dest, At(w));
      SumZero({}, At(w));
      while todo != {}
        invariant todo <= w.Keys && done == w.Keys - todo
        invariant balances.Keys == b0.Keys && balances == Pay(b0, done, dest, At(w))
        invariant 0 <= PaidBy(done, w, b0) && treasury == SatSub(t0, PaidBy(done, w, b0))
        decreases todo
      {
        var a :| a in todo;
        WithdrawalStep(b0, done, a, w, t0);
        var amount := w[a];
        if amount != 0 && a in balances {
          balances := balances[a := SatAdd(balances[a], amount)];
          treasury := SatSub(treasury, amount);
        }
        todo, done := todo - {a}, done + {a};
      }
      assert done == w.Keys;
    }

    /** Enacts one ratified action. */
    method EnactAction(id: GovActionId, action: GovAction)
      modifies this`enactState, this`termLimit, this`balances, this`treasury
      ensures Gov() == Enact(old(Gov()), id, action)
    {
      hide Pay, Paid;
      match action {
        case InfoAction =>
        case NewConstitution(_) => enactState := enactState.(constitution := Some(id));
        case NoConfidence(_) => enactState := enactState.(committee := Some(id));
        case UpdateCommittee(_, _) => enactState := enactState.(committee := Some(id));
        case HardForkInitiation(_) => enactState := enactState.(hardFork := Some(id));
        case TreasuryWithdrawals(w) => PayWithdrawals(w);
        case ParameterChange(_, limit) =>
          if limit.Some? { termLimit := limit; }
          enactState := enactState.(pparams := Some(id));
      }
    }

    /** Returns the deposits of `ids` to their return accounts. */
    method RefundDeposits(props: Proposals, ids: set<GovActionId>) returns (refunded: U64, unclaimed: U64)
      requires ids <= props.Keys
      modifies this`balances
      ensures Progress(old(balances), ids, RefundDest(props, old(balances).Keys), DepositOf(props), balances, unclaimed)
      ensures refunded
           == Clamp(Sum(ids, DepositOf(props)) - Lost(ids, RefundDest(props, old(balances).Keys), DepositOf(props)))
    {
      hide Progress, Sum, Lost;
      ghost var b0 := balances;
      ghost var dest, amount := RefundDest(props, b0.Keys), DepositOf(props);
      refunded, unclaimed := 0, 0;
      var todo := ids;
      ghost var done := {};
      ProgressStart(b0, dest, amount);
      InflowEmpty(dest, amount);
      SumZero({}, amount);
      while todo != {}
        invariant todo <= ids && done == ids - todo
        invariant balances.Keys == b0.Keys
        invariant Progress(b0, done, dest, amount, balances, unclaimed)
        invariant 0 <= Sum(done, amount) - Lost(done, dest, amount)
                    && refunded == Clamp(Sum(done, amount) - Lost(done, dest, amount))
        decreases todo
      {
        var id :| id in todo;
        ProgressStep(b0, done, id, dest, amount, balances, unclaimed);
        LostOne(done, id, dest, amount);
        SumInsert(done, amount, id);
        var deposit, account := props[id].deposit, props[id].returnAccount;
        if account.Some? && account.value in balances {
          balances := balances[account.value := SatAdd(balances[account.value], deposit)];
          refunded := SatAdd(refunded, deposit);
        } else {
          unclaimed := SatAdd(unclaimed, deposit);
        }
        todo, done := todo - {id}, done + {id};
      }
      assert done == ids;
    }

    /** The ratification loop. */
    method RatifyLoop(epoch: U64, accepts: Accepts) returns (enacted: seq<GovActionId>)
      modifies this`proposals, this`enactState, this`termLimit, this`balances, this`treasury
      ensures var order := RatifyOrder(old(proposals));
              var run := Run(old(Gov()), order, |order|, epoch, accepts);
              Gov() == run.gov && enacted == run.enacted
    {
      hide Enact, IsRatifyOrder, Sum;
      ghost var g0 := Gov();
      var order := SortIds(proposals);
      OrderUnique(order, RatifyOrder(proposals), proposals);
      enacted := [];
      var delayed := false;
      var budget := treasury;
      var i := 0;
      while i < |order|
        invariant i <= |order|
        invariant Run(g0, order, i, epoch, accepts) == RatifyState(Gov(), enacted, delayed, budget)
      {
        var id := order[i];
        ghost var s := RatifyState(Gov(), enacted, delayed, budget);
        if id in proposals {
          var p := proposals[id];
          var total: U64 := 0;
          if p.action.TreasuryWithdrawals? {
            total := SumWithdrawals(p.action.withdrawals);
          }
          if PrevAsExpected(p, enactState) && ValidCommitteeTerm(p.action, termLimit, epoch) && !delayed
             && total <= budget && accepts(enacted, id) {
            proposals := proposals - {id};
            EnactAction(id, p.action);
            enacted := enacted + [id];
            budget := SatSub(budget, total);
            if Delaying(p.action) { delayed := true; }
          } else if !Expired(p, epoch) && Delaying(p.action) {
            delayed := true;
          }
        }
        assert RatifyState(Gov(), enacted, delayed, budget) == Step(s, id, epoch, accepts);
        i := i + 1;
      }
    }

    /** Ratifies, enacts, prunes what lost its lineage and refunds both kinds. */
    method RatifyAndEnact(epoch: U64, accepts: Accepts)
      returns (enacted: seq<GovActionId>, pruned: set<GovActionId>, refunded: U64, unclaimed: U64)
      modifies this`proposals, this`enactState, this`termLimit, this`balances, this`treasury
      ensures var f := FatesOf(old(Gov()), epoch, accepts);
              && enacted == f.run.enacted && pruned == f.pruned
              && Gov() == f.run.gov.(proposals := f.run.gov.proposals - f.pruned, balances := balances)
              && Refunded(old(Gov()), f.run.gov.balances, f.enacted + f.pruned, balances, refunded, unclaimed)
    {
      hide Run, Progress, Sum, Lost, StaleIds, Descendants, Refunded, DepositOf, RefundDest;
      ghost var g0 := Gov();
      var before := proposals;
      enacted := RatifyLoop(epoch, accepts);
      ghost var b1 := balances;
      VanishOnce(g0, epoch, accepts);
      var ids := set id | id in enacted;
      pruned := {};
      refunded, unclaimed := 0, 0;
      RefundedNone(g0, b1);
      if enacted == [] {
        NothingStale(proposals, enactState);
        assert EnactedPurposes(before, enacted) == {} && Members(enacted) == {};
        assert proposals - {} == proposals && ids + pruned == {};
        return;
      }
      pruned := StaleProposals(proposals, enactState, set id | id in enacted
        && id in before :: PurposeOf(before[id].action));
      proposals := proposals - pruned;
      refunded, unclaimed := RefundDeposits(before, ids);
      RefundedNext(g0, b1, {}, b1, 0, 0, before, ids, balances, refunded, unclaimed);
      ghost var b2 := balances;
      var more, lost := RefundDeposits(before, pruned);
      RefundedNext(g0, b1, ids, b2, refunded, unclaimed, before, pruned, balances, more, lost);
      refunded, unclaimed := SatAdd(refunded, more), SatAdd(unclaimed, lost);
    }

    /** Removes the proposals whose lifetime ended before `epoch`. */
    method RemoveExpired(epoch: U64) returns (expired: set<GovActionId>, refunded: U64, unclaimed: U64)
      modifies this`proposals, this`balances
      ensures expired == set id | id in old(proposals) && Expired(old(proposals)[id], epoch)
      ensures proposals == old(proposals) - expired
      ensures Refunded(old(Gov()), old(balances), expired, balances, refunded, unclaimed)
    {
      hide Progress, Sum, Lost, Refunded, DepositOf, RefundDest;
      ghost var g0 := Gov();
      var before := proposals;
      expired := set id | id in before && Expired(before[id], epoch);
      refunded, unclaimed := 0, 0;
      RefundedNone(g0, balances);
      if expired != {} {
        proposals := proposals - expired;
        ghost var b0 := balances;
        refunded, unclaimed := RefundDeposits(before, expired);
        RefundedNext(g0, b0, {}, b0, 0, 0, before, expired, balances, refunded, unclaimed);
      }
    }

    /** Removes every proposal that hangs below a removed one. */
    method RemoveDescendants(removed: set<GovActionId>) returns (refunded: U64, unclaimed: U64)
      modifies this`proposals, this`balances
      ensures proposals == old(proposals) - Descendants(old(proposals), removed)
      ensures Refunded(old(Gov()), old(balances), Descendants(old(proposals), removed), balances, refunded, unclaimed)
    {
      hide Progress, Sum, Lost, Refunded, DepositOf, RefundDest, Descends;
      ghost var g0 := Gov();
      var before := proposals;
      var descendants := FindDescendants(before, removed);
      proposals := proposals - descendants;
      ghost var b0 := balances;
      RefundedNone(g0, b0);
      refunded, unclaimed := RefundDeposits(before, descendants);
      RefundedNext(g0, b0, {}, b0, 0, 0, before, descendants, balances, refunded, unclaimed);
    }

    /** Removes expired proposals and what hangs below them. */
    method ExpireProposals(epoch: U64) returns (refunded: U64, unclaimed: U64)
      modifies this`proposals, this`balances
      ensures var expired := set id | id in old(proposals) && Expired(old(proposals)[id], epoch);
              var descendants := Descendants(old(proposals) - expired, expired);
              && proposals == old(proposals) - expired - descendants
              && Refunded(old(Gov()), old(balances), expired + descendants, balances, refunded, unclaimed)
    {
      hide Progress, Sum, Lost, Refunded, DepositOf, RefundDest, Descends;
      ghost var g0 := Gov();
      var expired;
      expired, refunded, unclaimed := RemoveExpired(epoch);
      ghost var g1 := Gov();
      if expired == {} {
        NoDescendants(proposals);
        assert expired + Descendants(proposals, expired) == expired && proposals - {} == proposals;
        return;
      }
      var more, lost := RemoveDescendants(expired);
      RefundedKeys(g0, g0.balances, expired, g1.balances, refunded, unclaimed);
      RefundedMore(g0, g0.balances, expired, g1.balances, refunded, unclaimed, g1, Descendants(g1.proposals, expired),
        balances, more, lost);
      refunded, unclaimed := SatAdd(refunded, more), SatAdd(unclaimed, lost);
    }

    /** Steps 5 to 5c: ratification, expiry, refunds and donations. */
    method Govern(epoch: U64, accepts: Accepts)
      modifies this`proposals, this`enactState, this`termLimit, this`balances, this`treasury, this`donations,
               this`deposits
      ensures View() == AfterGovernance(old(View()), epoch, accepts)
    {
      hide Run, Progress, Sum, Lost, Pay, StaleIds, Descendants, Refunded, DepositOf, RefundDest;
      ghost var g0 := Gov();
      ghost var f := FatesOf(g0, epoch, accepts);
      VanishOnce(g0, epoch, accepts);
      VanishedWithinPending(g0, epoch, accepts);
      var enacted, pruned, refunded, unclaimed := RatifyAndEnact(epoch, accepts);
      ghost var g1 := Gov();
      var more, lost := ExpireProposals(epoch);
      assert f.enacted + f.pruned + (f.expired + f.descendants) == Vanished(f);
      RefundedKeys(g0, f.run.gov.balances, f.enacted + f.pruned, g1.balances, refunded, unclaimed);
      RefundedMore(g0, f.run.gov.balances, f.enacted + f.pruned, g1.balances, refunded, unclaimed,
                   g1, f.expired + f.descendants, balances, more, lost);
      refunded, unclaimed := SatAdd(refunded, more), SatAdd(unclaimed, lost);
      RefundedTotals(g0, f.run.gov.balances, Vanished(f), balances, refunded, unclaimed);
      treasury := SatAdd(treasury, unclaimed);
      treasury := SatAdd(treasury, donations);
      donations := 0;
      deposits := deposits.(proposals := SatSub(deposits.proposals, SatAdd(refunded, unclaimed)));
    }

    /** Steps 1 to 4: rewards, MIR, snapshots, pools and pots. */
    method UntilGovernance(snapshots: StakeSnapshots, epoch: U64, r: Rewards)
      modifies this`reserves, this`treasury, this`balances, this`instantRewards, this`poolState, this`deposits,
               snapshots
      ensures View() == BeforeGovernance(old(View()), epoch, r)
      ensures snapshots.feePot == 0 && snapshots.previousFeePot == old(snapshots.feePot)
    {
      hide AfterRewards, AfterMir, AfterPools, UnregisteredRewards, UnclaimedPools, Progress, Sum, Adopt, Retiring,
           PoolDest, PoolDeposit;
      ghost var l0 := View();
      var unregistered := DistributeRewards(r);
      assert View() == Rewarded(l0, r);
      ApplyMir();
      ghost var l2 := View();
      snapshots.Rotate();
      AdoptFutureParams();
      var unclaimedPools := RetirePools(epoch);
      PoolsStep(l2, epoch, View(), unclaimedPools);
      NonNegativeLosses(l0.gov.balances, r);
      reserves := SatAdd(SatSub(reserves, r.deltaReserves), r.unclaimed);
      treasury := SatAdd(SatAdd(SatAdd(treasury, r.treasuryCut), unregistered), unclaimedPools);
    }

    /** The whole boundary. Without protocol parameters only the epoch number changes. */
    method ApplyEpochBoundary(snapshots: StakeSnapshots, epoch: U64, r: Rewards, accepts: Accepts) returns (ok: bool)
      modifies this, snapshots
      ensures ok == old(hasParams && hasPreviousParams) && currentEpoch == epoch
      ensures ok ==> View() == AfterBoundary(old(View()), epoch, r, accepts)
                     && snapshots.feePot == 0 && snapshots.previousFeePot == old(snapshots.feePot)
      ensures !ok ==> View() == old(View()) && snapshots.feePot == old(snapshots.feePot)
                      && snapshots.previousFeePot == old(snapshots.previousFeePot)
      ensures ok && InSupply(old(View()), old(snapshots.previousFeePot), r)
              && old(instantRewards.deltaReserves) + old(instantRewards.deltaTreasury) == 0 ==>
                && Supply(snapshots) >= old(Supply(snapshots))
                && (Supply(snapshots) == old(Supply(snapshots)) <==> NothingClamps(old(View()), epoch, r, accepts))
    {
      hide BeforeGovernance, AfterGovernance, InSupply, NothingClamps, Total;
      ghost var l, fees := View(), snapshots.previousFeePot;
      currentEpoch := epoch;
      if !hasParams || !hasPreviousParams {
        return false;
      }
      hasPreviousParams := hasParams;
      UntilGovernance(snapshots, epoch, r);
      Govern(epoch, accepts);
      if InSupply(l, fees, r) && l.instantRewards.deltaReserves + l.instantRewards.deltaTreasury == 0 {
        LovelaceConserved(l, epoch, fees, r, accepts);
      }
      return true;
    }
  }

  /** `ids`, pending in `g`, were refunded: `b` are the balances after, and the two sums say who got the deposits. */
  ghost predicate Refunded(g: GovState, b0: Balances, ids: set<GovActionId>, b: Balances, refunded: U64,
                           unclaimed: U64) {
    var dest, amount := RefundDest(g.proposals, g.balances.Keys), DepositOf(g.proposals);
    && Progress(b0, ids, dest, amount, b, unclaimed)
    && refunded == Clamp(Sum(ids, amount) - Lost(ids, dest, amount))
    && 0 <= Sum(ids, amount) - Lost(ids, dest, amount)
  }

  lemma RefundedNone(g: GovState, b: Balances)
    ensures Refunded(g, b, {}, b, 0, 0)
  {
    ProgressStart(b, RefundDest(g.proposals, g.balances.Keys), DepositOf(g.proposals));
    InflowEmpty(RefundDest(g.proposals, g.balances.Keys), DepositOf(g.proposals));
  }

  /** Refunds of disjoint sets of proposals add up. */
  lemma RefundedNext(
      g: GovState, b0: Balances, ids: set<GovActionId>, b1: Balances, r1: U64, u1: U64,
      props: Proposals, more: set<GovActionId>, b2: Balances, r2: U64, u2: U64)
    requires Refunded(g, b0, ids, b1, r1, u1) && b0.Keys == g.balances.Keys
    requires ids !! more && more <= props.Keys
    requires forall id :: id in more ==> id in g.proposals && props[id] == g.proposals[id]
    requires Progress(b1, more, RefundDest(props, b1.Keys), DepositOf(props), b2, u2)
    requires r2 == Clamp(Sum(more, DepositOf(props)) - Lost(more, RefundDest(props, b1.Keys), DepositOf(props)))
    ensures Refunded(g, b0, ids + more, b2, SatAdd(r1, r2), SatAdd(u1, u2))
    ensures {} + more == more
  {
    hide Sum, Pay, Lost;
    var dest, amount := RefundDest(g.proposals, g.balances.Keys), DepositOf(g.proposals);
    ProgressLost(b0, ids, dest, amount, b1, u1);
    PaySame(b1, more, RefundDest(props, b1.Keys), DepositOf(props), dest, amount);
    SumSame(more, DepositOf(props), amount);
    PayTwice(b0, ids, more, dest, amount);
    SumUnion(ids, more, amount);
    InflowBounds(more, dest, amount);
  }

  lemma RefundedKeys(g: GovState, b0: Balances, ids: set<GovActionId>, b: Balances, refunded: U64, unclaimed: U64)
    requires Refunded(g, b0, ids, b, refunded, unclaimed)
    ensures b.Keys == b0.Keys
  {
  }

  lemma RefundedMore(
      g: GovState, b0: Balances, ids: set<GovActionId>, b1: Balances, r1: U64, u1: U64,
      g1: GovState, more: set<GovActionId>, b2: Balances, r2: U64, u2: U64)
    requires Refunded(g, b0, ids, b1, r1, u1) && b0.Keys == g.balances.Keys
    requires Refunded(g1, b1, more, b2, r2, u2) && g1.balances == b1
    requires ids !! more && more <= g1.proposals.Keys
    requires forall id :: id in more ==> id in g.proposals && g1.proposals[id] == g.proposals[id]
    ensures Refunded(g, b0, ids + more, b2, SatAdd(r1, r2), SatAdd(u1, u2))
  {
    hide Progress, Sum, Lost;
    RefundedNext(g, b0, ids, b1, r1, u1, g1.proposals, more, b2, r2, u2);
  }

  lemma RefundedTotals(g: GovState, b0: Balances, ids: set<GovActionId>, b: Balances, refunded: U64, unclaimed: U64)
    requires Refunded(g, b0, ids, b, refunded, unclaimed)
    ensures var dest, amount := RefundDest(g.proposals, g.balances.Keys), DepositOf(g.proposals);
            && b == Pay(b0, ids, dest, amount)
            && 0 <= Lost(ids, dest, amount) && unclaimed == Clamp(Lost(ids, dest, amount))
            && SatAdd(refunded, unclaimed) == Clamp(Sum(ids, amount))
  {
    hide Sum, Pay, Lost;
  }

  /** What the withdrawals of `done` pay to registered accounts. */
  ghost function PaidBy(done: set<RewardAccount>, w: Balances, b: Balances): int {
    Sum(done, At(w)) - Lost(done, Own(b), At(w))
  }

  lemma WithdrawalStep(b0: Balances, done: set<RewardAccount>, a: RewardAccount, w: Balances, t: U64)
    requires a in w && a !in done && 0 <= PaidBy(done, w, b0)
    ensures var b, paid := Pay(b0, done, Own(b0), At(w)), PaidBy(done, w, b0);
            var paid' := PaidBy(done + {a}, w, b0);
            && b.Keys == b0.Keys && 0 <= paid'
            && (w[a] == 0 || a !in b0 ==> Pay(b0, done + {a}, Own(b0), At(w)) == b && paid' == paid)
            && (w[a] != 0 && a in b0 ==>
                  Pay(b0, done + {a}, Own(b0), At(w)) == b[a := SatAdd(b[a], w[a])]
                  && SatSub(t, paid') == SatSub(SatSub(t, paid), w[a]))
  {
    hide Sum, Lost, Inflow;
    PayOne(b0, done, a, Own(b0), At(w));
    LostOne(done, a, Own(b0), At(w));
    SumInsert(done, At(w), a);
    var b := Pay(b0, done, Own(b0), At(w));
    assert a in b ==> b[a := b[a]] == b;
  }

  /** One merged amount, of either sign, on the account of its credential. */
  lemma CreditStep(b0: Balances, done: set<Credential>, c: Credential, dest: Credential -> Option<RewardAccount>,
                   amount: Credential -> int, account: RewardAccount, delta: int)
    requires c !in done && dest(c) == Some(account) && account in b0 && amount(c) == delta
    requires forall d :: d in done ==> dest(d) != dest(c)
    ensures var b := Pay(b0, done, dest, amount);
            Pay(b0, done + {c}, dest, amount) ==
              if delta > 0 then b[account := SatAdd(b[account], delta)]
              else if delta < 0 then b[account := SatSub(b[account], -delta)]
              else b
  {
    hide Sum, Inflow, PayBy;
    PayOneSigned(b0, done, c, dest, amount);
    var b := Pay(b0, done, dest, amount);
    assert b[account := b[account]] == b;
  }

  lemma PoolsStep(l: Ledger, epoch: U64, l': Ledger, unclaimed: U64)
    requires var ps := Adopt(l.poolState);
             var gone := Retiring(ps.pools, epoch);
             && l'.poolState == PoolState(ps.pools - gone, ps.futureParams - gone)
             && Progress(l.gov.balances, gone, PoolDest(ps.pools, l.gov.balances), PoolDeposit(ps.pools),
               l'.gov.balances, unclaimed)
             && l'.deposits == l.deposits.(pools := Clamp(l.deposits.pools - Sum(gone, PoolDeposit(ps.pools))))
             && l' == l.(poolState := l'.poolState, deposits := l'.deposits, gov := l.gov.(balances := l'.gov.balances))
    ensures l' == AfterPools(l, epoch)
    ensures 0 <= UnclaimedPools(l, epoch) && unclaimed == Clamp(UnclaimedPools(l, epoch))
  {
    hide Sum, Pay, Lost;
  }

  lemma NonNegativeLosses(b: Balances, r: Rewards)
    ensures 0 <= UnregisteredRewards(b, r)
  {
    hide Sum;
    InflowBounds(r.leader.Keys, Own(b), At(r.leader));
    InflowBounds(r.member.Keys, FirstOf(b.Keys), At(r.member));
  }

  lemma NoDescendants(props: Proposals)
    ensures Descendants(props, {}) == {}
  {
  }

  lemma NothingStale(props: Proposals, es: EnactState)
    ensures StaleIds(props, es, {}) == {}
  {
  }

  lemma FirstOfRegistered(accounts: set<RewardAccount>, c: Credential)
    ensures FirstOf(accounts)(c).Some? ==> FirstOf(accounts)(c).value in accounts
  {
  }

  lemma LastOfRegistered(accounts: set<RewardAccount>)
    ensures forall c :: LastOf(accounts)(c).Some? ==>
              LastOf(accounts)(c).value in accounts && LastOf(accounts)(c).value.credential == c
  {
  }
}
