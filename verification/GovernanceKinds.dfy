/** The rules of governance spelled out kind by kind of action, epoch by epoch and pool by pool. */
module GovernanceKinds {
  import opened Options
  import opened Addresses
  import opened Saturating
  import opened Sums
  import opened Governance
  import opened Lineage
  import opened Payout
  import opened LedgerValue
  import opened Ratify
  import opened Boundary
  import opened AccountTheorems
  import opened GovernanceRuns

  // ----- ratification --------------------------------------------------------------------------

  /** The order of ratification: no confidence, committee, constitution, hard fork, parameters, withdrawals
      and information, and within a kind by transaction and index. */
  lemma KindsInOrder(order: seq<GovActionId>, props: Proposals, i: nat, j: nat)
    requires IsRatifyOrder(order, props) && i < j < |order|
    ensures order[i] in props && order[j] in props
    ensures var x, y := props[order[i]].action, props[order[j]].action;
            && (x.UpdateCommittee? ==> !y.NoConfidence?)
            && (x.NewConstitution? ==> !y.NoConfidence? && !y.UpdateCommittee?)
            && (x.HardForkInitiation? ==>
                  y.HardForkInitiation? || y.ParameterChange? || y.TreasuryWithdrawals? || y.InfoAction?)
            && (x.ParameterChange? ==> y.ParameterChange? || y.TreasuryWithdrawals? || y.InfoAction?)
            && (x.TreasuryWithdrawals? ==> y.TreasuryWithdrawals? || y.InfoAction?)
            && (x.InfoAction? ==> y.InfoAction?)
    ensures var x, y := props[order[i]].action, props[order[j]].action;
            (x.NoConfidence? && y.NoConfidence?) || (x.UpdateCommittee? && y.UpdateCommittee?)
            || (x.NewConstitution? && y.NewConstitution?) || (x.HardForkInitiation? && y.HardForkInitiation?)
            || (x.ParameterChange? && y.ParameterChange?) || (x.TreasuryWithdrawals? && y.TreasuryWithdrawals?)
            || (x.InfoAction? && y.InfoAction?) ==>
              order[i].txId < order[j].txId || (order[i].txId == order[j].txId && order[i].index < order[j].index)
  {
    assert order[i] in order && order[j] in order;
    assert Before(props, order[i], order[j]);
  }

  /** The last enacted action of the kind; a committee may be updated or dismissed. */
  function LastEnacted(es: EnactState, action: GovAction): Option<GovActionId> {
    match action
    case ParameterChange(_, _) => es.pparams
    case HardForkInitiation(_) => es.hardFork
    case NoConfidence(_) => es.committee
    case UpdateCommittee(_, _) => es.committee
    case NewConstitution(_) => es.constitution
    case TreasuryWithdrawals(_) => None
    case InfoAction => None
  }

  predicate NamesPrevious(action: GovAction) {
    !action.TreasuryWithdrawals? && !action.InfoAction?
  }

  /** When an action is enacted: it names the last enacted action of its kind, new members serve at most the
      term limit, nothing was enacted or is pending that delays it, the wrapped total of a withdrawal is left
      in the budget, and the votes accept it. */
  lemma PassesExactly(s: RatifyState, id: GovActionId, epoch: U64, accepts: Accepts)
    requires id in s.gov.proposals
    ensures var action, g := s.gov.proposals[id].action, s.gov;
            Passes(s, id, epoch, accepts) <==>
              && (NamesPrevious(action) ==> action.prev == LastEnacted(g.enactState, action))
              && (action.UpdateCommittee? && g.termLimit.Some? ==>
                    forall c :: c in action.newMembers ==> action.newMembers[c] <= epoch + g.termLimit.value)
              && !s.delayed
              && (action.TreasuryWithdrawals? ==> MapTotal(action.withdrawals) % 0x1_0000_0000_0000_0000 <= s.budget)
              && accepts(s.enacted, id)
  {
  }

  /** The kinds that keep everything behind them from being enacted. */
  predicate Halts(action: GovAction) {
    match action
    case NoConfidence(_) => true
    case UpdateCommittee(_, _) => true
    case NewConstitution(_) => true
    case HardForkInitiation(_) => true
    case ParameterChange(_, _) => false
    case TreasuryWithdrawals(_) => false
    case InfoAction => false
  }

  /** The last epoch of a proposal lies before this one. */
  predicate Over(p: Proposal, epoch: U64) {
    match p.expiresAfter
    case None => false
    case Some(last) => last + 1 <= epoch
  }

  /** A boundary that changes the committee, the constitution or the protocol version changes nothing else, and
      one that enacts anything else leaves no such proposal alive. */
  lemma OneChangeAtATime(g: GovState, epoch: U64, accepts: Accepts)
    ensures var f := FatesOf(g, epoch, accepts);
            forall id :: id in f.enacted ==>
              && id in g.proposals
              && (Halts(g.proposals[id].action) ==> f.enacted == {id})
              && (!Halts(g.proposals[id].action) ==>
                    forall d :: d in g.proposals && Halts(g.proposals[d].action) ==>
                      Over(g.proposals[d], epoch) && d !in f.enacted)
  {
    hide Run, StaleIds, Descendants;
    var order := RatifyOrder(g.proposals);
    DelayingIsExclusive(g, order, epoch, accepts);
    var enacted := Run(g, order, |order|, epoch, accepts).enacted;
    forall id | id in enacted && enacted == [id]
      ensures Members(enacted) == {id}
    {
    }
  }

  /** What is enacted becomes the last enacted action of its kind, and changes nothing of the other kinds. */
  lemma EnactedBecomesLast(g: GovState, id: GovActionId, action: GovAction)
    ensures var es, es' := g.enactState, Enact(g, id, action).enactState;
            && es'.pparams == (if action.ParameterChange? then Some(id) else es.pparams)
            && es'.hardFork == (if action.HardForkInitiation? then Some(id) else es.hardFork)
            && es'.committee == (if action.NoConfidence? || action.UpdateCommittee? then Some(id) else es.committee)
            && es'.constitution == (if action.NewConstitution? then Some(id) else es.constitution)
    ensures Enact(g, id, action).termLimit
         == if action.ParameterChange? && action.termLimit.Some? then action.termLimit else g.termLimit
  {
    hide Pay, Paid;
  }

  /** A withdrawal takes out of the treasury what its registered accounts receive. */
  lemma EnactedTakes(g: GovState, id: GovActionId, action: GovAction)
    ensures action.TreasuryWithdrawals? ==>
              var paid := Sum(action.withdrawals.Keys * g.balances.Keys, At(action.withdrawals));
              Enact(g, id, action).treasury == if paid <= g.treasury then g.treasury - paid else 0
    ensures !action.TreasuryWithdrawals? ==>
              Enact(g, id, action).treasury == g.treasury && Enact(g, id, action).balances == g.balances
  {
    hide Sum, Pay;
    if action.TreasuryWithdrawals? {
      var w := action.withdrawals;
      var paid, lost := w.Keys * g.balances.Keys, w.Keys - g.balances.Keys;
      PaidToNobody(w.Keys, Own(g.balances), At(w), lost);
      SumUnion(paid, lost, At(w));
      assert paid + lost == w.Keys;
      SumBounds(paid, At(w));
    }
  }

  // ----- expiry --------------------------------------------------------------------------------

  /** Behind ratification exactly the proposals whose last epoch is over expire, and with them what descends
      from them; no proposal that stays is over. */
  lemma ExpireWhenOver(g: GovState, epoch: U64, accepts: Accepts)
    ensures var f := FatesOf(g, epoch, accepts);
            && (forall id :: id in f.expired <==>
                  id in g.proposals && id !in f.enacted && id !in f.pruned && Over(g.proposals[id], epoch))
            && (forall id :: id in f.left ==> id in g.proposals && !Over(g.proposals[id], epoch))
  {
    hide Run, StaleIds, EnactedPurposes, Descendants, Sum, IsRatifyOrder;
    var order := RatifyOrder(g.proposals);
    RunShape(g, order, |order|, epoch, accepts);
  }

  // ----- submission ----------------------------------------------------------------------------

  predicate SameLine(a: GovAction, b: GovAction) {
    match a
    case ParameterChange(_, _) => b.ParameterChange?
    case HardForkInitiation(_) => b.HardForkInitiation?
    case NoConfidence(_) => b.NoConfidence? || b.UpdateCommittee?
    case UpdateCommittee(_, _) => b.NoConfidence? || b.UpdateCommittee?
    case NewConstitution(_) => b.NewConstitution?
    case TreasuryWithdrawals(_) => b.TreasuryWithdrawals?
    case InfoAction => b.InfoAction?
  }

  /** A submitted proposal must name the last enacted action of its kind, or a pending one that was not
      submitted behind it in the same transaction; withdrawals and information name none. */
  lemma SubmissionExactly(g: GovState, id: GovActionId, p: Proposal)
    ensures LineageAccepted(g, id, p) <==>
              (NamesPrevious(p.action) ==>
                 match p.action.prev
                 case None => LastEnacted(g.enactState, p.action) == None
                 case Some(x) =>
                   && (x.txId != id.txId || x.index < id.index)
                   && (LastEnacted(g.enactState, p.action) == Some(x)
                       || (x in g.proposals && SameLine(p.action, g.proposals[x].action))))
  {
  }

  // ----- the forest ----------------------------------------------------------------------------

  /** Names the last enacted action of its kind, or a pending one of its line. */
  predicate Attached(props: Proposals, es: EnactState, action: GovAction, gone: set<GovActionId>) {
    NamesPrevious(action) ==>
      || action.prev == LastEnacted(es, action)
      || (action.prev.Some? && action.prev.value in props && action.prev.value !in gone
          && SameLine(action, props[action.prev.value].action))
  }

  lemma LinesArePurposes(a: GovAction, b: GovAction, p: Proposal, es: EnactState)
    ensures SameLine(a, b) <==> PurposeOf(a) == PurposeOf(b)
    ensures LastEnacted(es, a) == EnactedRoot(es, PurposeOf(a))
    ensures Parent(p) == if NamesPrevious(p.action) then p.action.prev else None
  {
  }

  /** A proposal reaches the root exactly when it names the root, or a proposal of its line that does. */
  lemma ChainsStep(props: Proposals, purpose: Purpose, root: Option<GovActionId>, id: GovActionId)
    ensures Chains(props, purpose, root, id) <==>
              OfPurpose(props, purpose, id)
              && (Parent(props[id]) == root
                  || (Parent(props[id]).Some? && Chains(props, purpose, root, Parent(props[id]).value)))
  {
    if Chains(props, purpose, root, id) {
      var path :| IsLineage(props, purpose, root, path) && path[|path|-1] == id;
      if |path| > 1 {
        var front := path[..|path|-1];
        assert IsLineage(props, purpose, root, front) && front[|front|-1] == Parent(props[id]).value;
      }
    } else if OfPurpose(props, purpose, id) {
      if Parent(props[id]) == root {
        ChainStart(props, purpose, root, id);
      } else if Parent(props[id]).Some? && Chains(props, purpose, root, Parent(props[id]).value) {
        ChainExtend(props, purpose, root, id);
      }
    }
  }

  /** In the forest every proposal names the last enacted action of its kind or a pending one of its line. */
  lemma ForestIsAttached(props: Proposals, es: EnactState, id: GovActionId)
    requires Forest(props, es) && id in props
    ensures Attached(props, es, props[id].action, {})
  {
    hide Chains;
    var p := props[id];
    var q := PurposeOf(p.action);
    LinesArePurposes(p.action, p.action, p, es);
    assert Live(props, es, id);
    ChainsStep(props, q, EnactedRoot(es, q), id);
    if Parent(p).Some? && Chains(props, q, EnactedRoot(es, q), Parent(p).value) {
      ChainsStep(props, q, EnactedRoot(es, q), Parent(p).value);
      LinesArePurposes(p.action, props[Parent(p).value].action, p, es);
    }
  }

  /** Behind the loop a proposal is pruned exactly when an action of its line was enacted and it is attached
      neither to the new last action nor to a proposal that is not pruned. */
  lemma PrunedExactly(g: GovState, epoch: U64, accepts: Accepts, id: GovActionId)
    requires id in FatesOf(g, epoch, accepts).run.gov.proposals
    ensures var f := FatesOf(g, epoch, accepts);
            var props, es := f.run.gov.proposals, f.run.gov.enactState;
            id in f.pruned <==>
              && (exists e :: e in f.enacted && e in g.proposals && SameLine(g.proposals[e].action, props[id].action))
              && !Attached(props, es, props[id].action, f.pruned)
  {
    hide Run, Descendants, Chains, IsRatifyOrder;
    var f := FatesOf(g, epoch, accepts);
    var props, es := f.run.gov.proposals, f.run.gov.enactState;
    var order := RatifyOrder(g.proposals);
    RunShape(g, order, |order|, epoch, accepts);
    var p := props[id];
    var q := PurposeOf(p.action);
    forall e | e in f.enacted
      ensures e in g.proposals && (SameLine(g.proposals[e].action, p.action) <==> PurposeOf(g.proposals[e].action) == q)
    {
      LinesArePurposes(g.proposals[e].action, p.action, p, es);
    }
    TouchedLines(g.proposals, f.run.enacted, q);
    LinesArePurposes(p.action, p.action, p, es);
    ChainsStep(props, q, EnactedRoot(es, q), id);
    if Parent(p).Some? {
      ChainsStep(props, q, EnactedRoot(es, q), Parent(p).value);
      if Parent(p).value in props {
        LinesArePurposes(p.action, props[Parent(p).value].action, p, es);
      }
    }
  }

  lemma TouchedLines(props: Proposals, enacted: seq<GovActionId>, q: Purpose)
    ensures q in EnactedPurposes(props, enacted) <==>
              exists e :: e in Members(enacted) && e in props && PurposeOf(props[e].action) == q
  {
  }

  /** Of what neither was pruned nor expires, exactly the proposals below an expired one go with it. */
  lemma DescendantsExactly(g: GovState, epoch: U64, accepts: Accepts, id: GovActionId)
    requires var f := FatesOf(g, epoch, accepts);
             id in f.run.gov.proposals && id !in f.pruned && id !in f.expired
    ensures var f := FatesOf(g, epoch, accepts);
            var action := f.run.gov.proposals[id].action;
            id in f.descendants <==>
              NamesPrevious(action) && action.prev.Some?
              && (action.prev.value in f.expired || action.prev.value in f.descendants)
  {
    hide Run, StaleIds, EnactedPurposes, IsRatifyOrder;
    var f := FatesOf(g, epoch, accepts);
    var live := f.run.gov.proposals - f.pruned - f.expired;
    var p := live[id];
    LinesArePurposes(p.action, p.action, p, f.run.gov.enactState);
    if Descends(live, f.expired, id) {
      var path :| IsDescent(live, f.expired, path) && path[|path|-1] == id;
      if |path| > 1 {
        var front := path[..|path|-1];
        assert IsDescent(live, f.expired, front) && front[|front|-1] == Parent(p).value;
      }
    } else if Parent(p).Some? && (Parent(p).value in f.expired || Descends(live, f.expired, Parent(p).value)) {
      DescendsStep(live, f.expired, id);
    }
  }

  // ----- pools ---------------------------------------------------------------------------------

  /** A registered pool is due from the epoch its retirement names, with the account and the deposit it was
      registered with; registering it again cancels that, keeps its deposit and stages the new account. */
  lemma PoolLife(l: Ledger, p: PoolId, account: RewardAccount, deposit: U64, at: U64, epoch: U64,
                 account': RewardAccount, deposit': U64)
    requires p !in l.poolState.pools && p !in l.poolState.futureParams
    ensures var registered := WithPool(l, p, account, deposit);
            var retiring := MarkedRetiring(registered, p, at);
            var again := WithPool(retiring, p, account', deposit');
            && !Due(registered.poolState, p, epoch) && !Due(again.poolState, p, epoch)
            && (Due(retiring.poolState, p, epoch) <==> at <= epoch)
            && AccountNamed(retiring.poolState, p) == account && AccountNamed(again.poolState, p) == account'
            && Deposit(retiring.poolState)(p) == Deposit(again.poolState)(p) == deposit
            && registered.deposits.pools == again.deposits.pools == SatAdd(l.deposits.pools, deposit)
  {
  }
}
