/** What each single account receives at the boundary, from rewards, MIR, pools and governance. */
module AccountTheorems {
  import opened Options
  import opened Addresses
  import opened Saturating
  import opened Sums
  import opened Governance
  import opened Lineage
  import opened Payout
  import opened LedgerValue
  import opened Ratify
  import opened Boundary
  import opened BoundaryTheorems

  lemma OnlyThese<I(!new)>(items: set<I>, mine: set<I>, f: I -> int, amount: I -> int)
    requires mine <= items
    requires forall i :: i in items ==> f(i) == if i in mine then amount(i) else 0
    ensures Sum(items, f) == Sum(mine, amount)
  {
    SumPadded(mine, items, f);
    SumSame(mine, f, amount);
  }

  /** An account receives what is addressed to it and nothing else. */
  lemma PaidInto<I(!new)>(b: Balances, items: set<I>, dest: I -> Option<RewardAccount>, amount: I -> int,
                          a: RewardAccount, mine: set<I>)
    requires a in b && mine <= items
    requires forall i :: i in items ==> (i in mine <==> dest(i) == Some(a))
    ensures Pay(b, items, dest, amount)[a] == Clamp(b[a] + Sum(mine, amount))
  {
    OnlyThese(items, mine, Share(dest, amount, Some(a)), amount);
  }

  /** What is lost is what is addressed to nobody. */
  lemma PaidToNobody<I(!new)>(items: set<I>, dest: I -> Option<RewardAccount>, amount: I -> int, homeless: set<I>)
    requires homeless <= items
    requires forall i :: i in items ==> (i in homeless <==> dest(i) == None)
    ensures Lost(items, dest, amount) == Sum(homeless, amount)
  {
    OnlyThese(items, homeless, Share(dest, amount, None), amount);
  }

  lemma SumOfOne<I(!new)>(x: I, f: I -> int)
    ensures Sum({x}, f) == f(x) && Sum({}, f) == 0
  {
    SumOnly({x}, f, x);
  }

  /** Amounts that are not negative may be added up before they are clamped. */
  lemma ClampTwice(x: nat, y: nat)
    ensures Clamp(Clamp(x) + y) == Clamp(x + y)
  {
  }

  // ----- the account of a credential -----------------------------------------------------------

  /** No account of the same credential has a lower network. */
  ghost predicate LowestNetwork(b: Balances, a: RewardAccount) {
    forall x :: x in b && x.credential == a.credential ==> a.network <= x.network
  }

  ghost predicate HighestNetwork(b: Balances, a: RewardAccount) {
    forall x :: x in b && x.credential == a.credential ==> x.network <= a.network
  }

  ghost predicate HasAccount(b: Balances, c: Credential) {
    exists x :: x in b && x.credential == c
  }

  lemma {:induction false} SomeFirst(b: Balances, a: RewardAccount)
    requires a in b
    ensures exists f :: IsFirst(b.Keys, f) && f.credential == a.credential
    decreases a.network
  {
    if !IsFirst(b.Keys, a) {
      var x :| x in b && x.credential == a.credential && x.network < a.network;
      SomeFirst(b, x);
    }
  }

  lemma {:induction false} SomeLast(b: Balances, a: RewardAccount)
    requires a in b
    ensures exists f :: IsLast(b.Keys, f) && f.credential == a.credential
    decreases 255 - a.network
  {
    if !IsLast(b.Keys, a) {
      var x :| x in b && x.credential == a.credential && x.network > a.network;
      SomeLast(b, x);
    }
  }

  /** A credential's rewards go to its account of the lowest network ... */
  lemma FirstAccount(b: Balances, c: Credential, a: RewardAccount)
    requires a in b
    ensures FirstOf(b.Keys)(c) == Some(a) <==> a.credential == c && LowestNetwork(b, a)
  {
    if a.credential == c && LowestNetwork(b, a) {
      FirstOfIs(b.Keys, a);
    }
  }

  /** ... and its MIR to that of the highest. */
  lemma LastAccount(b: Balances, c: Credential, a: RewardAccount)
    requires a in b
    ensures LastOf(b.Keys)(c) == Some(a) <==> a.credential == c && HighestNetwork(b, a)
  {
    if a.credential == c && HighestNetwork(b, a) {
      LastOfIs(b.Keys, a);
    }
  }

  /** Both find an account whenever there is one. */
  lemma NoAccountOf(b: Balances, c: Credential)
    ensures FirstOf(b.Keys)(c).Some? <==> HasAccount(b, c)
    ensures LastOf(b.Keys)(c).Some? <==> HasAccount(b, c)
  {
    if x :| x in b && x.credential == c {
      SomeFirst(b, x);
      SomeLast(b, x);
    }
  }

  // ----- rewards -------------------------------------------------------------------------------

  /** An account's leader reward, and its credential's member reward if it is the account of the lowest network. */
  ghost function RewardDue(b: Balances, r: Rewards, a: RewardAccount): nat {
    var leader: int := if a in r.leader then r.leader[a] else 0;
    var member: int := if a.credential in r.member && LowestNetwork(b, a) then r.member[a.credential] else 0;
    leader + member
  }

  /** Each account receives its leader reward, and the account of the lowest network the member reward of
      its credential. */
  lemma RewardsOf(b: Balances, r: Rewards, a: RewardAccount)
    requires a in b
    ensures a in AfterRewards(b, r) && AfterRewards(b, r)[a] == Clamp(b[a] + RewardDue(b, r, a))
  {
    hide Sum, Pay, FirstOf, LowestNetwork;
    var paid := Pay(b, r.leader.Keys, Own(b), At(r.leader));
    OwnPaid(b, r.leader, a);
    MemberPaid(b, paid, r.member, a);
    if LowestNetwork(b, a) {
      ClampTwice(b[a] + At(r.leader)(a), At(r.member)(a.credential));
    }
  }

  /** Amounts that name accounts, as leader rewards and withdrawals do. */
  lemma OwnPaid(b: Balances, m: Balances, a: RewardAccount)
    requires a in b
    ensures var paid := Pay(b, m.Keys, Own(b), At(m));
            paid.Keys == b.Keys && paid[a] == Clamp(b[a] + At(m)(a))
  {
    hide Sum, Pay;
    PayKeys(b, m.Keys, Own(b), At(m));
    PaidInto(b, m.Keys, Own(b), At(m), a, if a in m then {a} else {});
    SumOfOne(a, At(m));
  }

  lemma MemberPaid(b: Balances, paid: Balances, m: map<Credential, U64>, a: RewardAccount)
    requires a in b && paid.Keys == b.Keys
    ensures Pay(paid, m.Keys, FirstOf(b.Keys), At(m))[a]
         == if LowestNetwork(b, a) then Clamp(paid[a] + At(m)(a.credential)) else paid[a]
  {
    hide Sum, Pay, FirstOf, LowestNetwork;
    forall c
      ensures FirstOf(b.Keys)(c) == Some(a) <==> a.credential == c && LowestNetwork(b, a)
    {
      FirstAccount(b, c, a);
    }
    PayKeys(paid, m.Keys, FirstOf(b.Keys), At(m));
    PaidInto(paid, m.Keys, FirstOf(b.Keys), At(m), a,
             if a.credential in m && LowestNetwork(b, a) then {a.credential} else {});
    SumOfOne(a.credential, At(m));
  }

  lemma PayKeys<I(!new)>(b: Balances, items: set<I>, dest: I -> Option<RewardAccount>, amount: I -> int)
    ensures Pay(b, items, dest, amount).Keys == b.Keys
  {
  }

  /** What goes to the treasury instead: leader rewards of unregistered accounts and member rewards of
      credentials without an account. */
  lemma RewardsWithoutAccount(b: Balances, r: Rewards)
    ensures var homeless := set c | c in r.member && !HasAccount(b, c);
            UnregisteredRewards(b, r) == Sum(r.leader.Keys - b.Keys, At(r.leader)) + Sum(homeless, At(r.member))
  {
    hide Sum, FirstOf, HasAccount;
    forall c
      ensures FirstOf(b.Keys)(c).Some? <==> HasAccount(b, c)
    {
      NoAccountOf(b, c);
    }
    PaidToNobody(r.leader.Keys, Own(b), At(r.leader), r.leader.Keys - b.Keys);
    var homeless := set c | c in r.member && !HasAccount(b, c);
    PaidToNobody(r.member.Keys, FirstOf(b.Keys), At(r.member), homeless);
  }

  // ----- MIR -----------------------------------------------------------------------------------

  /** The amounts of the credentials that have an account. */
  ghost function PayableTotal(m: map<Credential, I64>, b: Balances): int {
    var payable := set c | c in m && HasAccount(b, c);
    Sum(payable, (c: Credential) => if c in m then m[c] else 0)
  }

  /** The amounts of a credential from both pots. */
  function MirDue(ir: InstantRewards, c: Credential): int {
    var fromReserves: int := if c in ir.reserves then ir.reserves[c] else 0;
    var fromTreasury: int := if c in ir.treasury then ir.treasury[c] else 0;
    fromReserves + fromTreasury
  }

  lemma PayableTotalIs(m: map<Credential, I64>, b: Balances)
    ensures MirTotal(m, b.Keys) == PayableTotal(m, b)
  {
    hide Sum, LastOf, HasAccount;
    forall c
      ensures LastOf(b.Keys)(c).Some? <==> HasAccount(b, c)
    {
      NoAccountOf(b, c);
    }
    assert Filtered(m, b.Keys) == set c | c in m && HasAccount(b, c);
    SumSame(Filtered(m, b.Keys), IrAt(m), (c: Credential) => if c in m then m[c] else 0);
  }

  /** Whether a pot, after its transfer, holds the total. */
  predicate Suffices(pot: U64, delta: I64, total: int) {
    total <= 0 || pot + delta >= total
  }

  /** Both pots pay exactly when each holds its total after its transfer. Then each pot moves by its transfer less
      its total, and, unless both totals are zero, the account of the highest network of each credential by the
      credential's two amounts. Otherwise nothing moves. */
  lemma MirOf(l: Ledger, a: RewardAccount)
    requires a in l.gov.balances && MirExact(l)
    ensures var ir, b, l' := l.instantRewards, l.gov.balances, AfterMir(l);
            var totR, totT := PayableTotal(ir.reserves, b), PayableTotal(ir.treasury, b);
            l'.gov.balances.Keys == b.Keys &&
            if Suffices(l.reserves, ir.deltaReserves, totR) && Suffices(l.gov.treasury, ir.deltaTreasury, totT)
            then
              && l'.reserves == Clamp(Clamp(l.reserves + ir.deltaReserves) - totR)
              && l'.gov.treasury == Clamp(Clamp(l.gov.treasury + ir.deltaTreasury) - totT)
              && l'.gov.balances[a] == (if HighestNetwork(b, a) && (totR != 0 || totT != 0)
                                        then Clamp(b[a] + MirDue(ir, a.credential)) else b[a])
            else l' == l.(instantRewards := NO_MIR)
  {
    hide Sum, MapTotal, LastOf, HighestNetwork, Pay, MergedKeys, WrapI64, MirTotal;
    var ir, b := l.instantRewards, l.gov.balances;
    SumsExact(ir, b.Keys);
    PayableTotalIs(ir.reserves, b);
    PayableTotalIs(ir.treasury, b);
    CoversExactly(l.reserves, ir.deltaReserves, MirTotal(ir.reserves, b.Keys));
    CoversExactly(l.gov.treasury, ir.deltaTreasury, MirTotal(ir.treasury, b.Keys));
    MirPaid(ir, b, a);
    PayKeys(b, MergedKeys(ir, b.Keys), LastOf(b.Keys), Merged(ir));
    NothingTotals(ir, b);
  }

  /** The account of the highest network of every credential moves by the credential's amounts. */
  ghost predicate MirDelivered(l: Ledger) {
    forall a :: a in l.gov.balances && a in AfterMir(l).gov.balances && HighestNetwork(l.gov.balances, a) ==>
      AfterMir(l).gov.balances[a] == Clamp(l.gov.balances[a] + MirDue(l.instantRewards, a.credential))
  }

  /** When both pots suffice, the amounts reach the accounts exactly when some total is not zero or no amount
      would move an account. */
  lemma DeliveredExactly(l: Ledger)
    requires MirExact(l)
    requires Suffices(l.reserves, l.instantRewards.deltaReserves,
                      PayableTotal(l.instantRewards.reserves, l.gov.balances))
    requires Suffices(l.gov.treasury, l.instantRewards.deltaTreasury,
                      PayableTotal(l.instantRewards.treasury, l.gov.balances))
    ensures var ir, b := l.instantRewards, l.gov.balances;
            MirDelivered(l) <==>
              || PayableTotal(ir.reserves, b) != 0 || PayableTotal(ir.treasury, b) != 0
              || forall a :: a in b && HighestNetwork(b, a) ==> Clamp(b[a] + MirDue(ir, a.credential)) == b[a]
  {
    hide Sum, PayableTotal, MirExact, AfterMir, HighestNetwork, MirDue, Clamp;
    var ir, b := l.instantRewards, l.gov.balances;
    var nothing := PayableTotal(ir.reserves, b) == 0 && PayableTotal(ir.treasury, b) == 0;
    forall a | a in b
      ensures a in AfterMir(l).gov.balances
      ensures nothing ==> AfterMir(l).gov.balances[a] == b[a]
      ensures !nothing && HighestNetwork(b, a) ==>
                AfterMir(l).gov.balances[a] == Clamp(b[a] + MirDue(ir, a.credential))
    {
      MirOf(l, a);
    }
  }

  /** An amount for one credential and its opposite for another are both dropped, though the pots suffice. */
  lemma OffsettingMir(l: Ledger, c: RewardAccount, d: RewardAccount, x: I64)
    requires c in l.gov.balances && d in l.gov.balances && c.credential != d.credential
    requires HighestNetwork(l.gov.balances, c) && 0 < x && l.gov.balances[c] + x <= U64_MAX
    requires l.instantRewards == InstantRewards(map[c.credential := x, d.credential := -x], map[], 0, 0)
    ensures CanPay(l) && AfterMir(l) == l.(instantRewards := NO_MIR) && !MirDelivered(l)
  {
    hide Sum, LastOf, Pay, MergedKeys, MirTotal;
    OffsettingTotals(l.gov.balances, c, d, x);
    assert MirDue(l.instantRewards, c.credential) == x;
  }

  lemma OffsettingTotals(b: Balances, c: RewardAccount, d: RewardAccount, x: I64)
    requires c in b && d in b && c.credential != d.credential && 0 < x
    ensures MirTotal(map[c.credential := x, d.credential := -x], b.Keys) == MirTotal(map[], b.Keys) == 0
  {
    hide Sum, LastOf;
    var m: map<Credential, I64> := map[c.credential := x, d.credential := -x];
    NoAccountOf(b, c.credential);
    NoAccountOf(b, d.credential);
    assert Filtered(m, b.Keys) == {d.credential} + {c.credential} && Filtered(map[], b.Keys) == {};
    SumInsert({d.credential}, IrAt(m), c.credential);
    SumOfOne(d.credential, IrAt(m));
    SumOfOne(d.credential, IrAt(map[]));
  }

  lemma CoversExactly(pot: U64, delta: I64, total: int)
    requires pot + delta <= U64_MAX
    ensures PotCovers(pot, delta, total) <==> Suffices(pot, delta, total)
  {
  }

  lemma NothingTotals(ir: InstantRewards, b: Balances)
    ensures ir == NO_MIR ==> PayableTotal(ir.reserves, b) == PayableTotal(ir.treasury, b) == 0
  {
    if ir == NO_MIR {
      assert (set c | c in ir.reserves && HasAccount(b, c)) == {};
      assert (set c | c in ir.treasury && HasAccount(b, c)) == {};
    }
  }

  lemma MirPaid(ir: InstantRewards, b: Balances, a: RewardAccount)
    requires a in b && SumsFit(ir, b.Keys)
    ensures Pay(b, MergedKeys(ir, b.Keys), LastOf(b.Keys), Merged(ir))[a]
         == if HighestNetwork(b, a) then Clamp(b[a] + MirDue(ir, a.credential)) else b[a]
  {
    hide Sum, Pay, LastOf, HighestNetwork, WrapI64, MirTotal;
    var c := a.credential;
    SumsExact(ir, b.Keys);
    forall x
      ensures LastOf(b.Keys)(x) == Some(a) <==> a.credential == x && HighestNetwork(b, a)
    {
      LastAccount(b, x, a);
    }
    NoAccountOf(b, c);
    assert a in b && HasAccount(b, c);
    var keys := MergedKeys(ir, b.Keys);
    PaidInto(b, keys, LastOf(b.Keys), Merged(ir), a, if HighestNetwork(b, a) && c in keys then {c} else {});
    SumOfOne(c, Merged(ir));
  }

  // ----- pools ---------------------------------------------------------------------------------

  /** The account a pool names at the boundary, with staged parameters adopted. */
  function AccountNamed(ps: PoolState, p: PoolId): RewardAccount
    requires p in ps.pools
  {
    if p in ps.futureParams then ps.futureParams[p] else ps.pools[p].rewardAccount
  }

  predicate Due(ps: PoolState, p: PoolId, epoch: U64) {
    p in ps.pools && ps.pools[p].retiring.Some? && ps.pools[p].retiring.value <= epoch
  }

  function RetiringTo(ps: PoolState, epoch: U64, a: RewardAccount): set<PoolId> {
    set p | p in ps.pools && Due(ps, p, epoch) && AccountNamed(ps, p) == a
  }

  function Deposit(ps: PoolState): PoolId -> int {
    p => if p in ps.pools then ps.pools[p].deposit else 0
  }

  /** A pool whose retirement epoch has come leaves, and its deposit goes to the account it names; every other
      pool stays as it is with that account. */
  lemma PoolsOf(l: Ledger, epoch: U64, a: RewardAccount)
    requires a in l.gov.balances
    ensures var ps, l' := l.poolState, AfterPools(l, epoch);
            && l'.gov.balances.Keys == l.gov.balances.Keys
            && l'.gov.balances[a] == Clamp(l.gov.balances[a] + Sum(RetiringTo(ps, epoch, a), Deposit(ps)))
            && l'.gov.proposals == l.gov.proposals
            && l'.poolState == PoolState(map p | p in ps.pools && !Due(ps, p, epoch) ::
                                           ps.pools[p].(rewardAccount := AccountNamed(ps, p)), map[])
  {
    hide Sum, Pay;
    var ps := l.poolState;
    var pools := Adopt(ps).pools;
    var gone := Retiring(pools, epoch);
    var mine := RetiringTo(ps, epoch, a);
    PayKeys(l.gov.balances, gone, PoolDest(pools, l.gov.balances), PoolDeposit(pools));
    PaidInto(l.gov.balances, gone, PoolDest(pools, l.gov.balances), PoolDeposit(pools), a, mine);
    SumSame(mine, PoolDeposit(pools), Deposit(ps));
  }

  lemma PoolsWithoutAccount(l: Ledger, epoch: U64)
    ensures var ps := l.poolState;
            var homeless := set p | p in ps.pools && Due(ps, p, epoch) && AccountNamed(ps, p) !in l.gov.balances;
            UnclaimedPools(l, epoch) == Sum(homeless, Deposit(ps))
  {
    hide Sum;
    var ps := l.poolState;
    var pools := Adopt(ps).pools;
    var homeless := set p | p in ps.pools && Due(ps, p, epoch) && AccountNamed(ps, p) !in l.gov.balances;
    PaidToNobody(Retiring(pools, epoch), PoolDest(pools, l.gov.balances), PoolDeposit(pools), homeless);
    SumSame(homeless, PoolDeposit(pools), Deposit(ps));
  }

  // ----- governance ----------------------------------------------------------------------------

  /** What a proposal asks to be paid into an account. */
  function Withdrawn(action: GovAction, a: RewardAccount): nat {
    if action.TreasuryWithdrawals? && a in action.withdrawals then action.withdrawals[a] else 0
  }

  function AskedFor(props: Proposals, a: RewardAccount): GovActionId -> int {
    id => if id in props then Withdrawn(props[id].action, a) else 0
  }

  function DepositPaid(props: Proposals): GovActionId -> int {
    id => if id in props then props[id].deposit else 0
  }

  /** The proposals that name an account for their refund. */
  function Naming(props: Proposals, ids: set<GovActionId>, a: RewardAccount): set<GovActionId> {
    set id | id in ids && id in props && props[id].returnAccount == Some(a)
  }

  predicate Returnable(p: Proposal, b: Balances) {
    p.returnAccount.Some? && p.returnAccount.value in b
  }

  lemma EnactPays(g: GovState, id: GovActionId, action: GovAction, a: RewardAccount)
    requires a in g.balances
    ensures var b := Enact(g, id, action).balances;
            b.Keys == g.balances.Keys && b[a] == Clamp(g.balances[a] + Withdrawn(action, a))
  {
    hide Sum, Pay;
    if action.TreasuryWithdrawals? {
      OwnPaid(g.balances, action.withdrawals, a);
    }
  }

  /** The ratification loop pays each registered account what the enacted withdrawals ask for it. */
  lemma {:induction false} RunPays(g: GovState, order: seq<GovActionId>, n: nat, epoch: U64, accepts: Accepts,
                                   a: RewardAccount)
    requires IsRatifyOrder(order, g.proposals) && n <= |order| && a in g.balances
    ensures var s := Run(g, order, n, epoch, accepts);
            && s.gov.balances.Keys == g.balances.Keys
            && s.gov.balances[a] == Clamp(g.balances[a] + Sum(Members(s.enacted), AskedFor(g.proposals, a)))
    decreases n
  {
    hide Sum, Enact, Passes, Withdrawn, IsRatifyOrder;
    if n > 0 {
      RunPays(g, order, n - 1, epoch, accepts, a);
      RunShape(g, order, n - 1, epoch, accepts);
      var s, id := Run(g, order, n - 1, epoch, accepts), order[n-1];
      ShapePending(g, order, n - 1, s);
      if Passes(s, id, epoch, accepts) {
        EnactPays(s.gov.(proposals := s.gov.proposals - {id}), id, s.gov.proposals[id].action, a);
        MembersMore(s.enacted, id);
        SumInsert(Members(s.enacted), AskedFor(g.proposals, a), id);
        SumBounds(Members(s.enacted), AskedFor(g.proposals, a));
        ClampTwice(g.balances[a] + Sum(Members(s.enacted), AskedFor(g.proposals, a)), AskedFor(g.proposals, a)(id));
      }
    } else {
      assert Members([]) == {};
      SumOfOne(GovActionId(0, 0), AskedFor(g.proposals, a));
    }
  }

  /** Governance pays each account what the enacted withdrawals ask for it and the deposit of every proposal
      that is gone and names it; the treasury takes the deposits that name no registered account. */
  lemma GovernanceOf(l: Ledger, epoch: U64, accepts: Accepts, a: RewardAccount)
    requires a in l.gov.balances
    ensures var props, f, l' := l.gov.proposals, FatesOf(l.gov, epoch, accepts), AfterGovernance(l, epoch, accepts);
            var gone := props.Keys - l'.gov.proposals.Keys;
            var homeless := set id | id in gone && !Returnable(props[id], l.gov.balances);
            && l'.gov.balances.Keys == l.gov.balances.Keys
            && l'.gov.balances[a]
               == Clamp(l.gov.balances[a] + Sum(f.enacted, AskedFor(props, a))
                        + Sum(Naming(props, gone, a), DepositPaid(props)))
            && l'.gov.treasury == Clamp(f.run.gov.treasury + l.donations + Sum(homeless, DepositPaid(props)))
  {
    hide Sum, Pay, Run, Descendants, StaleIds, EnactedPurposes, Members;
    var props, f := l.gov.proposals, FatesOf(l.gov, epoch, accepts);
    var gone := Vanished(f);
    VanishOnce(l.gov, epoch, accepts);
    var order := RatifyOrder(props);
    RunPays(l.gov, order, |order|, epoch, accepts, a);
    var dest := RefundDest(props, l.gov.balances.Keys);
    var mine := Naming(props, gone, a);
    var homeless := set id | id in gone && !Returnable(props[id], l.gov.balances);
    PayKeys(f.run.gov.balances, gone, dest, DepositOf(props));
    PaidInto(f.run.gov.balances, gone, dest, DepositOf(props), a, mine);
    SumSame(mine, DepositOf(props), DepositPaid(props));
    PaidToNobody(gone, dest, DepositOf(props), homeless);
    SumSame(homeless, DepositOf(props), DepositPaid(props));
    SumBounds(f.enacted, AskedFor(props, a));
    SumBounds(mine, DepositPaid(props));
    ClampTwice(l.gov.balances[a] + Sum(f.enacted, AskedFor(props, a)), Sum(mine, DepositPaid(props)));
  }

  /** Whether both pots hold what MIR takes from them, and there is anything to pay. */
  ghost predicate MirCredited(l: Ledger) {
    var ir, b := l.instantRewards, l.gov.balances;
    var totR, totT := PayableTotal(ir.reserves, b), PayableTotal(ir.treasury, b);
    && Suffices(l.reserves, ir.deltaReserves, totR) && Suffices(l.gov.treasury, ir.deltaTreasury, totT)
    && (totR != 0 || totT != 0)
  }

  /** Rewards and MIR: an account gets its leader reward, the account of the lowest network the member reward
      of its credential, and then that of the highest network what MIR gives or takes. */
  lemma IncomeOf(l: Ledger, r: Rewards, a: RewardAccount)
    requires a in l.gov.balances && MirExact(l)
    ensures var l2, rewarded := AfterMir(Rewarded(l, r)), Clamp(l.gov.balances[a] + RewardDue(l.gov.balances, r, a));
            && l2.gov.balances.Keys == l.gov.balances.Keys
            && l2.gov.balances[a] == if MirCredited(l) && HighestNetwork(l.gov.balances, a)
                                     then Clamp(rewarded + MirDue(l.instantRewards, a.credential)) else rewarded
  {
    hide Sum, Pay, AfterRewards, AfterMir, SumsFit, MapTotal;
    var l1 := Rewarded(l, r);
    RewardsOf(l.gov.balances, r, a);
    SameAccounts(l.gov.balances, l1.gov.balances, l.instantRewards, a);
    MirOf(l1, a);
  }

  /** Who has an account, and which is the highest, does not depend on the balances. */
  lemma SameAccounts(b: Balances, b': Balances, ir: InstantRewards, a: RewardAccount)
    requires b.Keys == b'.Keys
    ensures HighestNetwork(b, a) <==> HighestNetwork(b', a)
    ensures PayableTotal(ir.reserves, b) == PayableTotal(ir.reserves, b')
    ensures PayableTotal(ir.treasury, b) == PayableTotal(ir.treasury, b')
  {
    hide Sum;
    assert forall c :: HasAccount(b, c) <==> HasAccount(b', c);
    assert (set c | c in ir.reserves && HasAccount(b, c)) == (set c | c in ir.reserves && HasAccount(b', c));
    assert (set c | c in ir.treasury && HasAccount(b, c)) == (set c | c in ir.treasury && HasAccount(b', c));
  }

  /** The whole boundary, from the balance of an account before it: rewards, MIR, the deposits of the pools that
      retire to it, the enacted withdrawals for it, and the deposits of the vanished proposals that name it. */
  lemma BoundaryOf(l: Ledger, epoch: U64, r: Rewards, accepts: Accepts, a: RewardAccount)
    requires a in l.gov.balances && MirExact(l)
    ensures var ps, props, b' := l.poolState, l.gov.proposals, AfterBoundary(l, epoch, r, accepts).gov.balances;
            var rewarded := Clamp(l.gov.balances[a] + RewardDue(l.gov.balances, r, a));
            var income := if MirCredited(l) && HighestNetwork(l.gov.balances, a)
                          then Clamp(rewarded + MirDue(l.instantRewards, a.credential)) else rewarded;
            var f := FatesOf(BeforeGovernance(l, epoch, r).gov, epoch, accepts);
            var gone := props.Keys - AfterBoundary(l, epoch, r, accepts).gov.proposals.Keys;
            && b'.Keys == l.gov.balances.Keys
            && b'[a] == Clamp(income + Sum(RetiringTo(ps, epoch, a), Deposit(ps)) + Sum(f.enacted, AskedFor(props, a))
                              + Sum(Naming(props, gone, a), DepositPaid(props)))
  {
    hide Sum, Pay, AfterRewards, AfterMir, FatesOf, AfterGovernance, AfterPools, BeforeGovernance, RetiringTo, Naming,
         MirExact, MirCredited, HighestNetwork, MirDue, RewardDue;
    var l2 := AfterMir(Rewarded(l, r));
    IncomeOf(l, r, a);
    RewardedSame(l, r);
    UntilGovernanceSame(l, epoch, r);
    PoolsOf(l2, epoch, a);
    GovernanceOf(BeforeGovernance(l, epoch, r), epoch, accepts, a);
    var pools := RetiringTo(l.poolState, epoch, a);
    SumBounds(pools, Deposit(l.poolState));
    var f := FatesOf(BeforeGovernance(l, epoch, r).gov, epoch, accepts);
    SumBounds(f.enacted, AskedFor(l.gov.proposals, a));
    var gone := l.gov.proposals.Keys - AfterBoundary(l, epoch, r, accepts).gov.proposals.Keys;
    var refunds := Naming(l.gov.proposals, gone, a);
    SumBounds(refunds, DepositPaid(l.gov.proposals));
    ClampTwice(l2.gov.balances[a] + Sum(pools, Deposit(l.poolState)),
               Sum(f.enacted, AskedFor(l.gov.proposals, a)) + Sum(refunds, DepositPaid(l.gov.proposals)));
  }

  lemma UntilGovernanceSame(l: Ledger, epoch: U64, r: Rewards)
    ensures var l3, l4 := AfterPools(AfterMir(Rewarded(l, r)), epoch), BeforeGovernance(l, epoch, r);
            l4.gov.balances == l3.gov.balances && l4.gov.proposals == l3.gov.proposals
  {
    hide AfterPools, AfterMir, Rewarded;
  }

  lemma RewardedSame(l: Ledger, r: Rewards)
    ensures var l2 := AfterMir(Rewarded(l, r));
            && l2.gov.balances.Keys == l.gov.balances.Keys
            && l2.gov.proposals == l.gov.proposals && l2.poolState == l.poolState
  {
    hide AfterRewards, Pay, MirSum, MergedKeys, CanPay;
    var b := Rewarded(l, r).gov.balances;
    PayKeys(b, MergedKeys(l.instantRewards, b.Keys), LastOf(b.Keys), Merged(l.instantRewards));
  }
}
