/** Paying a batch of amounts into reward accounts, in any order. */
module Payout {
  import opened Options
  import opened Addresses
  import opened Saturating
  import opened Sums

  type Balances = map<RewardAccount, U64>

  function At<K>(m: map<K, U64>): K -> int {
    k => if k in m then m[k] else 0
  }

  ghost function MapTotal<K(!new)>(m: map<K, U64>): nat {
    SumBounds(m.Keys, At(m));
    Sum(m.Keys, At(m))
  }

  /** Every account receives its inflow, clamped to u64. */
  ghost function PayBy(b: Balances, inflow: RewardAccount -> int): (b': Balances)
    ensures b'.Keys == b.Keys
  {
    map a | a in b :: Clamp(b[a] + inflow(a))
  }

  lemma PayByOne(b: Balances, f: RewardAccount -> int, g: RewardAccount -> int, to: Option<RewardAccount>, x: int)
    requires forall a :: g(a) == f(a) + (if to == Some(a) then x else 0)
    requires (x >= 0 && forall a :: f(a) >= 0) || (to.Some? && f(to.value) == 0)
    ensures PayBy(b, g) ==
              if to.Some? && to.value in b
              then PayBy(b, f)[to.value := Clamp(PayBy(b, f)[to.value] + x)]
              else PayBy(b, f)
  {
    forall a | a in b
      ensures PayBy(b, g)[a] == if to == Some(a) then Clamp(PayBy(b, f)[a] + x) else PayBy(b, f)[a]
    {
      assert g(a) == f(a) + (if to == Some(a) then x else 0);
    }
  }

  lemma PayBySame(b: Balances, f: RewardAccount -> int, g: RewardAccount -> int)
    requires forall a :: f(a) == g(a)
    ensures PayBy(b, f) == PayBy(b, g)
  {
  }

  lemma PayByTwice(b: Balances, f: RewardAccount -> int, g: RewardAccount -> int, h: RewardAccount -> int)
    requires forall a :: f(a) >= 0 && g(a) >= 0 && h(a) == f(a) + g(a)
    ensures PayBy(PayBy(b, f), g) == PayBy(b, h)
  {
  }

  /** How far below zero a payment would push the account. */
  ghost function Below(b: Balances, inflow: RewardAccount -> int): RewardAccount -> int {
    a => if a in b && b[a] + inflow(a) < 0 then -(b[a] + inflow(a)) else 0
  }

  ghost function Overdraft(b: Balances, inflow: RewardAccount -> int): nat {
    SumBounds(b.Keys, Below(b, inflow));
    Sum(b.Keys, Below(b, inflow))
  }

  /** How far a payment would push the account past the largest balance. */
  ghost function Above(b: Balances, inflow: RewardAccount -> int): RewardAccount -> int {
    a => if a in b && b[a] + inflow(a) > U64_MAX then b[a] + inflow(a) - U64_MAX else 0
  }

  ghost function Surplus(b: Balances, inflow: RewardAccount -> int): nat {
    SumBounds(b.Keys, Above(b, inflow));
    Sum(b.Keys, Above(b, inflow))
  }

  /** The exact effect of a payout on the total of all balances. */
  lemma PayByTotal(b: Balances, inflow: RewardAccount -> int)
    ensures MapTotal(PayBy(b, inflow)) == MapTotal(b) + Sum(b.Keys, inflow) + Overdraft(b, inflow) - Surplus(b, inflow)
  {
    hide Sum;
    var clamps: RewardAccount -> int := a => Below(b, inflow)(a) - Above(b, inflow)(a);
    var gain: RewardAccount -> int := a => inflow(a) + clamps(a);
    SumLinear(b.Keys, clamps, Above(b, inflow), Below(b, inflow));
    SumLinear(b.Keys, inflow, clamps, gain);
    SumLinear(b.Keys, At(b), gain, At(PayBy(b, inflow)));
  }

  /** An account that runs over holds the largest balance afterwards. */
  lemma SurplusFills(b: Balances, inflow: RewardAccount -> int)
    requires Surplus(b, inflow) > 0
    ensures MapTotal(PayBy(b, inflow)) >= U64_MAX
  {
    hide Sum;
    if forall a :: a in b ==> b[a] + inflow(a) <= U64_MAX {
      SumZero(b.Keys, Above(b, inflow));
      assert false;
    }
    var a :| a in b && b[a] + inflow(a) > U64_MAX;
    var paid := PayBy(b, inflow);
    SumBounds(paid.Keys, At(paid));
    assert At(paid)(a) == U64_MAX;
  }

  lemma NoSurplus(b: Balances, inflow: RewardAccount -> int)
    requires forall a :: a in b ==> b[a] + inflow(a) <= U64_MAX
    ensures Surplus(b, inflow) == 0
  {
    SumZero(b.Keys, Above(b, inflow));
  }

  /** The part of the item amounts that goes to one account, or to nobody. */
  ghost function Share<I>(dest: I -> Option<RewardAccount>, amount: I -> int, to: Option<RewardAccount>): I -> int {
    i => if dest(i) == to then amount(i) else 0
  }

  ghost function Inflow<I(!new)>(items: set<I>, dest: I -> Option<RewardAccount>,
                                 amount: I -> int): RewardAccount -> int {
    a => Sum(items, Share(dest, amount, Some(a)))
  }

  ghost function Lost<I(!new)>(items: set<I>, dest: I -> Option<RewardAccount>, amount: I -> int): int {
    Sum(items, Share(dest, amount, None))
  }

  ghost function Pay<I(!new)>(b: Balances, items: set<I>, dest: I -> Option<RewardAccount>,
                              amount: I -> int): Balances {
    PayBy(b, Inflow(items, dest, amount))
  }

  ghost predicate Registered<I(!new)>(b: Balances, items: set<I>, dest: I -> Option<RewardAccount>) {
    forall i :: i in items && dest(i).Some? ==> dest(i).value in b
  }

  lemma InflowEmpty<I(!new)>(dest: I -> Option<RewardAccount>, amount: I -> int)
    ensures forall a :: Inflow({}, dest, amount)(a) == 0
    ensures Lost({}, dest, amount) == 0
  {
  }

  lemma PayNothing<I(!new)>(b: Balances, dest: I -> Option<RewardAccount>, amount: I -> int)
    ensures Pay(b, {}, dest, amount) == b
  {
    InflowEmpty(dest, amount);
  }

  lemma InflowOne<I(!new)>(items: set<I>, i: I, dest: I -> Option<RewardAccount>, amount: I -> int)
    requires i !in items
    ensures forall a :: Inflow(items + {i}, dest, amount)(a)
                        == Inflow(items, dest, amount)(a) + (if dest(i) == Some(a) then amount(i) else 0)
  {
    forall a
      ensures Inflow(items + {i}, dest, amount)(a)
              == Inflow(items, dest, amount)(a) + (if dest(i) == Some(a) then amount(i) else 0)
    {
      SumInsert(items, Share(dest, amount, Some(a)), i);
    }
  }

  lemma LostOne<I(!new)>(items: set<I>, i: I, dest: I -> Option<RewardAccount>, amount: I -> int)
    requires i !in items
    ensures Lost(items + {i}, dest, amount) == Lost(items, dest, amount) + (if dest(i) == None then amount(i) else 0)
  {
    SumInsert(items, Share(dest, amount, None), i);
  }

  lemma ShareBounds<I(!new)>(items: set<I>, dest: I -> Option<RewardAccount>, amount: I -> int,
                             to: Option<RewardAccount>)
    requires forall i :: i in items ==> 0 <= amount(i)
    ensures 0 <= Sum(items, Share(dest, amount, to)) <= Sum(items, amount)
  {
    SumBounds(items, Share(dest, amount, to));
    SumMonotone(items, Share(dest, amount, to), amount);
  }

  lemma InflowBounds<I(!new)>(items: set<I>, dest: I -> Option<RewardAccount>, amount: I -> int)
    requires forall i :: i in items ==> 0 <= amount(i)
    ensures forall a :: 0 <= Inflow(items, dest, amount)(a) <= Sum(items, amount)
    ensures 0 <= Lost(items, dest, amount) <= Sum(items, amount)
  {
    ShareBounds(items, dest, amount, None);
    forall a
      ensures 0 <= Inflow(items, dest, amount)(a) <= Sum(items, amount)
    {
      ShareBounds(items, dest, amount, Some(a));
    }
  }

  /** Larger amounts leave more in the accounts. */
  lemma PayMonotone<I(!new)>(b: Balances, items: set<I>, dest: I -> Option<RewardAccount>, f: I -> int, g: I -> int)
    requires forall i :: i in items ==> f(i) <= g(i)
    ensures MapTotal(Pay(b, items, dest, f)) <= MapTotal(Pay(b, items, dest, g))
  {
    hide Sum;
    var less, more := Pay(b, items, dest, f), Pay(b, items, dest, g);
    forall a | a in b
      ensures At(less)(a) <= At(more)(a)
    {
      SumMonotone(items, Share(dest, f, Some(a)), Share(dest, g, Some(a)));
    }
    SumMonotone(b.Keys, At(less), At(more));
  }

  /** One more payment is one more saturating credit, when payments are not negative. */
  lemma PayOne<I(!new)>(b: Balances, done: set<I>, i: I, dest: I -> Option<RewardAccount>, amount: I -> int)
    requires i !in done
    requires forall j :: j in done + {i} ==> 0 <= amount(j)
    ensures var paid := Pay(b, done, dest, amount);
            Pay(b, done + {i}, dest, amount) ==
              if dest(i).Some? && dest(i).value in b
              then paid[dest(i).value := SatAdd(paid[dest(i).value], amount(i))]
              else paid
  {
    hide Sum, Inflow, PayBy;
    InflowOne(done, i, dest, amount);
    InflowBounds(done, dest, amount);
    PayByOne(b, Inflow(done, dest, amount), Inflow(done + {i}, dest, amount), dest(i), amount(i));
  }

  /** Payments to distinct accounts may have either sign. */
  lemma PayOneSigned<I(!new)>(b: Balances, done: set<I>, i: I, dest: I -> Option<RewardAccount>, amount: I -> int)
    requires i !in done && dest(i).Some? && dest(i).value in b
    requires forall j :: j in done ==> dest(j) != dest(i)
    ensures var paid := Pay(b, done, dest, amount);
            Pay(b, done + {i}, dest, amount) == paid[dest(i).value := Clamp(paid[dest(i).value] + amount(i))]
  {
    InflowOne(done, i, dest, amount);
    SumZero(done, Share(dest, amount, Some(dest(i).value)));
    PayByOne(b, Inflow(done, dest, amount), Inflow(done + {i}, dest, amount), dest(i), amount(i));
  }

  lemma SumStep(accounts: set<RewardAccount>, f: RewardAccount -> int, g: RewardAccount -> int,
                to: Option<RewardAccount>, x: int)
    requires forall a :: g(a) == f(a) + (if to == Some(a) then x else 0)
    requires to.Some? ==> to.value in accounts
    ensures Sum(accounts, g) == Sum(accounts, f) + (if to.Some? then x else 0)
  {
    match to {
      case None => SumSame(accounts, f, g);
      case Some(d) => SumChange(accounts, f, g, d);
    }
  }

  /** What the accounts receive and what is lost add up to what was paid out. */
  lemma {:induction false} InflowTotal<I(!new)>(
      accounts: set<RewardAccount>, items: set<I>, dest: I -> Option<RewardAccount>, amount: I -> int)
    requires forall i :: i in items && dest(i).Some? ==> dest(i).value in accounts
    ensures Sum(accounts, Inflow(items, dest, amount)) + Lost(items, dest, amount) == Sum(items, amount)
    decreases |items|
  {
    if items == {} {
      InflowEmpty(dest, amount);
      SumZero(accounts, Inflow(items, dest, amount));
    } else {
      var i :| i in items;
      var rest := items - {i};
      assert rest + {i} == items;
      InflowTotal(accounts, rest, dest, amount);
      SumTake(items, amount, i);
      LostOne(rest, i, dest, amount);
      InflowOne(rest, i, dest, amount);
      SumStep(accounts, Inflow(rest, dest, amount), Inflow(items, dest, amount), dest(i), amount(i));
    }
  }

  /** A payout moves exactly its amounts, up to overdrawn and overfull accounts and lost payments. */
  lemma PayTotal<I(!new)>(b: Balances, items: set<I>, dest: I -> Option<RewardAccount>, amount: I -> int)
    requires Registered(b, items, dest)
    ensures MapTotal(Pay(b, items, dest, amount)) + Lost(items, dest, amount)
            == MapTotal(b) + Sum(items, amount) + Overdraft(b, Inflow(items, dest, amount))
               - Surplus(b, Inflow(items, dest, amount))
  {
    InflowTotal(b.Keys, items, dest, amount);
    PayByTotal(b, Inflow(items, dest, amount));
  }

  /** Payments that are not negative and fit below the supply are conserved. */
  lemma PayConserves<I(!new)>(b: Balances, items: set<I>, dest: I -> Option<RewardAccount>, amount: I -> int)
    requires Registered(b, items, dest)
    requires forall i :: i in items ==> 0 <= amount(i)
    requires MapTotal(b) + Sum(items, amount) <= U64_MAX
    ensures MapTotal(Pay(b, items, dest, amount)) + Lost(items, dest, amount) == MapTotal(b) + Sum(items, amount)
    ensures 0 <= Lost(items, dest, amount) <= Sum(items, amount)
  {
    InflowBounds(items, dest, amount);
    NoOverdraft(b, Inflow(items, dest, amount), Sum(items, amount));
    PayTotal(b, items, dest, amount);
  }

  lemma NoOverdraft(b: Balances, inflow: RewardAccount -> int, bound: int)
    requires forall a :: 0 <= inflow(a) <= bound
    requires MapTotal(b) + bound <= U64_MAX
    ensures Surplus(b, inflow) == Overdraft(b, inflow) == 0
  {
    SumBounds(b.Keys, At(b));
    SumZero(b.Keys, Below(b, inflow));
    forall a | a in b
      ensures b[a] + inflow(a) <= U64_MAX
    {
      assert At(b)(a) <= MapTotal(b);
    }
    NoSurplus(b, inflow);
  }

  /** The same without a bound on the supply: what is not negative can only run over. */
  lemma PayAccounting<I(!new)>(b: Balances, items: set<I>, dest: I -> Option<RewardAccount>, amount: I -> int)
    requires Registered(b, items, dest)
    requires forall i :: i in items ==> 0 <= amount(i)
    ensures var over := Surplus(b, Inflow(items, dest, amount));
            && MapTotal(Pay(b, items, dest, amount)) + Lost(items, dest, amount)
            == MapTotal(b) + Sum(items, amount) - over
            && (over > 0 ==> MapTotal(Pay(b, items, dest, amount)) >= U64_MAX)
    ensures 0 <= Lost(items, dest, amount) <= Sum(items, amount)
  {
    hide Sum;
    InflowBounds(items, dest, amount);
    SumZero(b.Keys, Below(b, Inflow(items, dest, amount)));
    PayTotal(b, items, dest, amount);
    if Surplus(b, Inflow(items, dest, amount)) > 0 {
      SurplusFills(b, Inflow(items, dest, amount));
    }
  }

  /** Two batches may be paid one after the other or together. */
  lemma PayTwice<I(!new)>(b: Balances, first: set<I>, second: set<I>, dest: I -> Option<RewardAccount>,
                          amount: I -> int)
    requires first !! second
    requires forall i :: i in first + second ==> 0 <= amount(i)
    ensures Pay(Pay(b, first, dest, amount), second, dest, amount) == Pay(b, first + second, dest, amount)
    ensures Lost(first + second, dest, amount) == Lost(first, dest, amount) + Lost(second, dest, amount)
  {
    SumUnion(first, second, Share(dest, amount, None));
    InflowBounds(first, dest, amount);
    InflowBounds(second, dest, amount);
    InflowUnion(first, second, dest, amount);
    PayByTwice(b, Inflow(first, dest, amount), Inflow(second, dest, amount), Inflow(first + second, dest, amount));
  }

  lemma InflowUnion<I(!new)>(first: set<I>, second: set<I>, dest: I -> Option<RewardAccount>, amount: I -> int)
    requires first !! second
    ensures forall a :: Inflow(first + second, dest, amount)(a)
                     == Inflow(first, dest, amount)(a) + Inflow(second, dest, amount)(a)
  {
    forall a
      ensures Inflow(first + second, dest, amount)(a)
           == Inflow(first, dest, amount)(a) + Inflow(second, dest, amount)(a)
    {
      SumUnion(first, second, Share(dest, amount, Some(a)));
    }
  }

  /** Only the destinations and amounts of the items themselves matter. */
  lemma PaySame<I(!new)>(b: Balances, items: set<I>, dest: I -> Option<RewardAccount>, amount: I -> int,
                         dest': I -> Option<RewardAccount>, amount': I -> int)
    requires forall i :: i in items ==> dest(i) == dest'(i) && amount(i) == amount'(i)
    ensures Pay(b, items, dest, amount) == Pay(b, items, dest', amount')
    ensures Lost(items, dest, amount) == Lost(items, dest', amount')
  {
    hide Sum, PayBy;
    SumSame(items, Share(dest, amount, None), Share(dest', amount', None));
    forall a
      ensures Inflow(items, dest, amount)(a) == Inflow(items, dest', amount')(a)
    {
      SumSame(items, Share(dest, amount, Some(a)), Share(dest', amount', Some(a)));
    }
    PayBySame(b, Inflow(items, dest, amount), Inflow(items, dest', amount'));
  }

  /** A payout loop that has handled the items `done`: `b` holds what was paid, `lost` what found no account. */
  ghost predicate Progress<I(!new)>(b0: Balances, done: set<I>, dest: I -> Option<RewardAccount>, amount: I -> int,
                                    b: Balances, lost: U64) {
    && b == Pay(b0, done, dest, amount)
    && 0 <= Lost(done, dest, amount) && lost == Clamp(Lost(done, dest, amount))
  }

  lemma ProgressStart<I(!new)>(b0: Balances, dest: I -> Option<RewardAccount>, amount: I -> int)
    ensures Progress(b0, {}, dest, amount, b0, 0)
  {
    PayNothing(b0, dest, amount);
    InflowEmpty(dest, amount);
  }

  lemma ProgressStep<I(!new)>(b0: Balances, done: set<I>, i: I, dest: I -> Option<RewardAccount>, amount: I -> int,
                              b: Balances, lost: U64)
    requires Progress(b0, done, dest, amount, b, lost) && i !in done
    requires forall j :: 0 <= amount(j)
    requires dest(i).Some? ==> dest(i).value in b0
    ensures b.Keys == b0.Keys
    ensures dest(i).Some? ==>
              Progress(b0, done + {i}, dest, amount, b[dest(i).value := SatAdd(b[dest(i).value], amount(i))], lost)
    ensures dest(i).None? ==> Progress(b0, done + {i}, dest, amount, b, SatAdd(lost, amount(i)))
    ensures amount(i) == 0 ==> Progress(b0, done + {i}, dest, amount, b, lost)
  {
    hide Sum;
    PayOne(b0, done, i, dest, amount);
    LostOne(done, i, dest, amount);
  }

  lemma ProgressLost<I(!new)>(b0: Balances, items: set<I>, dest: I -> Option<RewardAccount>, amount: I -> int,
                              b: Balances, lost: U64)
    requires Progress(b0, items, dest, amount, b, lost)
    ensures b == Pay(b0, items, dest, amount) && b.Keys == b0.Keys
    ensures 0 <= Lost(items, dest, amount) && lost == Clamp(Lost(items, dest, amount))
  {
  }
}
