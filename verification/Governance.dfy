/** Conway governance values: actions, proposals, purposes and the enacted roots. */
module Governance {
  import opened Options
  import opened Addresses
  import opened Saturating

  /** The 32-byte transaction hash is read as a big-endian number, so that the
      lexicographic order of the pairs is the source's derived order. */
  datatype GovActionId = GovActionId(txId: nat, index: nat)

  predicate IdLess(a: GovActionId, b: GovActionId) {
    a.txId < b.txId || (a.txId == b.txId && a.index < b.index)
  }

  datatype Purpose =
    | ParameterPurpose
    | HardForkPurpose
    | CommitteePurpose
    | ConstitutionPurpose
    | WithdrawalPurpose
    | InfoPurpose

  datatype GovAction =
    | ParameterChange(prev: Option<GovActionId>, termLimit: Option<U64>)
    | HardForkInitiation(prev: Option<GovActionId>)
    | TreasuryWithdrawals(withdrawals: map<RewardAccount, U64>)
    | NoConfidence(prev: Option<GovActionId>)
    | UpdateCommittee(prev: Option<GovActionId>, newMembers: map<Credential, U64>)
    | NewConstitution(prev: Option<GovActionId>)
    | InfoAction

  /** `returnAccount` is None when the stored bytes are no reward account. */
  datatype Proposal = Proposal(
    action: GovAction,
    deposit: U64,
    returnAccount: Option<RewardAccount>,
    expiresAfter: Option<U64>)

  /** The last enacted action of each purpose that keeps a lineage. */
  datatype EnactState = EnactState(
    pparams: Option<GovActionId>,
    hardFork: Option<GovActionId>,
    committee: Option<GovActionId>,
    constitution: Option<GovActionId>)

  function PurposeOf(action: GovAction): Purpose {
    match action
    case ParameterChange(_, _) => ParameterPurpose
    case HardForkInitiation(_) => HardForkPurpose
    case NoConfidence(_) => CommitteePurpose
    case UpdateCommittee(_, _) => CommitteePurpose
    case NewConstitution(_) => ConstitutionPurpose
    case TreasuryWithdrawals(_) => WithdrawalPurpose
    case InfoAction => InfoPurpose
  }

  function EnactedRoot(es: EnactState, purpose: Purpose): Option<GovActionId> {
    match purpose
    case ParameterPurpose => es.pparams
    case HardForkPurpose => es.hardFork
    case CommitteePurpose => es.committee
    case ConstitutionPurpose => es.constitution
    case WithdrawalPurpose => None
    case InfoPurpose => None
  }

  /** The outer None marks the actions that have no lineage. */
  function PrevActionId(action: GovAction): Option<Option<GovActionId>> {
    match action
    case ParameterChange(prev, _) => Some(prev)
    case HardForkInitiation(prev) => Some(prev)
    case NoConfidence(prev) => Some(prev)
    case UpdateCommittee(prev, _) => Some(prev)
    case NewConstitution(prev) => Some(prev)
    case TreasuryWithdrawals(_) => None
    case InfoAction => None
  }

  function Parent(p: Proposal): Option<GovActionId> {
    match PrevActionId(p.action)
    case None => None
    case Some(prev) => prev
  }

  function ActionPriority(action: GovAction): nat {
    match action
    case NoConfidence(_) => 0
    case UpdateCommittee(_, _) => 1
    case NewConstitution(_) => 2
    case HardForkInitiation(_) => 3
    case ParameterChange(_, _) => 4
    case TreasuryWithdrawals(_) => 5
    case InfoAction => 6
  }

  predicate Delaying(action: GovAction) {
    action.NoConfidence? || action.HardForkInitiation? || action.UpdateCommittee? || action.NewConstitution?
  }

  predicate Expired(p: Proposal, epoch: nat) {
    p.expiresAfter.Some? && p.expiresAfter.value < epoch
  }
}

/**
 The proposal forest. Pending proposals point to their predecessor by
 `prev_action_id`; a proposal is live when following those links through pending
 proposals of its own purpose ends at the enacted root of that purpose.
 */
module Lineage {
  import opened Options
  import opened Governance

  type Proposals = map<GovActionId, Proposal>

  predicate OfPurpose(props: Proposals, purpose: Purpose, id: GovActionId) {
    id in props && PurposeOf(props[id].action) == purpose
  }

  /** `path` starts below `root` and follows the links down, within one purpose. */
  ghost predicate IsLineage(props: Proposals, purpose: Purpose, root: Option<GovActionId>, path: seq<GovActionId>) {
    && |path| > 0
    && (forall i :: 0 <= i < |path| ==> OfPurpose(props, purpose, path[i]))
    && Parent(props[path[0]]) == root
    && (forall i :: 0 < i < |path| ==> Parent(props[path[i]]) == Some(path[i-1]))
  }

  ghost predicate Chains(props: Proposals, purpose: Purpose, root: Option<GovActionId>, id: GovActionId) {
    exists path :: IsLineage(props, purpose, root, path) && path[|path|-1] == id
  }

  ghost predicate Live(props: Proposals, es: EnactState, id: GovActionId)
    requires id in props
  {
    var purpose := PurposeOf(props[id].action);
    Chains(props, purpose, EnactedRoot(es, purpose), id)
  }

  /** Every pending proposal reaches the enacted root of its purpose. */
  ghost predicate Forest(props: Proposals, es: EnactState) {
    forall id :: id in props ==> Live(props, es, id)
  }

  lemma ChainStart(props: Proposals, purpose: Purpose, root: Option<GovActionId>, id: GovActionId)
    requires OfPurpose(props, purpose, id) && Parent(props[id]) == root
    ensures Chains(props, purpose, root, id)
  {
    assert IsLineage(props, purpose, root, [id]);
  }

  lemma ChainExtend(props: Proposals, purpose: Purpose, root: Option<GovActionId>, id: GovActionId)
    requires OfPurpose(props, purpose, id)
    requires Parent(props[id]).Some? && Chains(props, purpose, root, Parent(props[id]).value)
    ensures Chains(props, purpose, root, id)
  {
    var path :| IsLineage(props, purpose, root, path) && path[|path|-1] == Parent(props[id]).value;
    var longer := path + [id];
    assert longer[|longer|-1] == id;
    assert IsLineage(props, purpose, root, longer);
  }

  /** A set that contains the children of the root and of its own members contains every lineage. */
  lemma {:induction false} ClosedContains(
      props: Proposals, purpose: Purpose, root: Option<GovActionId>, valid: set<GovActionId>, path: seq<GovActionId>)
    requires IsLineage(props, purpose, root, path)
    requires forall id :: OfPurpose(props, purpose, id) ==>
               (Parent(props[id]) == root || (Parent(props[id]).Some? && Parent(props[id]).value in valid)) ==>
                 id in valid
    ensures path[|path|-1] in valid
    decreases |path|
  {
    if |path| > 1 {
      var front := path[..|path|-1];
      assert IsLineage(props, purpose, root, front);
      ClosedContains(props, purpose, root, valid, front);
      assert Parent(props[path[|path|-1]]) == Some(front[|front|-1]);
    }
  }

  /** The fixpoint loop that collects the proposals of one purpose that chain from its root. */
  method ValidProposals(props: Proposals, purpose: Purpose, root: Option<GovActionId>) returns (valid: set<GovActionId>)
    ensures forall id :: id in valid <==> OfPurpose(props, purpose, id) && Chains(props, purpose, root, id)
  {
    var mine := set id | id in props && OfPurpose(props, purpose, id);
    valid := {};
    var changed := true;
    while changed
      invariant valid <= mine
      invariant forall id :: id in valid ==> Chains(props, purpose, root, id)
      invariant !changed ==> forall id :: id in mine ==>
                  (Parent(props[id]) == root || (Parent(props[id]).Some? && Parent(props[id]).value in valid)) ==>
                    id in valid
      decreases mine - valid, changed
    {
      changed := false;
      var todo := mine;
      ghost var before := valid;
      while todo != {}
        invariant todo <= mine && before <= valid <= mine
        invariant forall id :: id in valid ==> Chains(props, purpose, root, id)
        invariant if changed then valid - before != {} else before == valid
        invariant !changed ==> forall id :: id in mine - todo ==>
                    (Parent(props[id]) == root || (Parent(props[id]).Some? && Parent(props[id]).value in valid)) ==>
                      id in valid
        decreases todo
      {
        var id :| id in todo;
        todo := todo - {id};
        if id !in valid {
          var prev := Parent(props[id]);
          if prev == root {
            ChainStart(props, purpose, root, id);
            valid, changed := valid + {id}, true;
          } else if prev.Some? && prev.value in valid {
            ChainExtend(props, purpose, root, id);
            valid, changed := valid + {id}, true;
          }
        }
      }
      if changed {
        ghost var x :| x in valid - before;
        assert x in mine - before && x !in mine - valid;
      }
    }
    forall id | OfPurpose(props, purpose, id) && Chains(props, purpose, root, id)
      ensures id in valid
    {
      var path :| IsLineage(props, purpose, root, path) && path[|path|-1] == id;
      ClosedContains(props, purpose, root, valid, path);
    }
  }

  ghost predicate Stale(props: Proposals, es: EnactState, purposes: set<Purpose>, id: GovActionId) {
    id in props && PurposeOf(props[id].action) in purposes && !Live(props, es, id)
  }

  ghost function StaleIds(props: Proposals, es: EnactState, purposes: set<Purpose>): set<GovActionId> {
    set id | id in props && Stale(props, es, purposes, id)
  }

  /** `remove_lineage_conflicting_proposals`: the proposals of the enacted purposes that lost their root. */
  method StaleProposals(props: Proposals, es: EnactState, purposes: set<Purpose>) returns (stale: set<GovActionId>)
    ensures stale == StaleIds(props, es, purposes)
  {
    stale := {};
    var todo := purposes;
    while todo != {}
      invariant todo <= purposes
      invariant forall id :: id in stale <==> Stale(props, es, purposes - todo, id)
      decreases todo
    {
      var purpose :| purpose in todo;
      todo := todo - {purpose};
      var valid := ValidProposals(props, purpose, EnactedRoot(es, purpose));
      stale := stale + set id | id in props && OfPurpose(props, purpose, id) && id !in valid;
    }
    assert purposes - todo == purposes;
  }

  /** `path` hangs below a removed proposal. */
  ghost predicate IsDescent(props: Proposals, removed: set<GovActionId>, path: seq<GovActionId>) {
    && |path| > 0
    && (forall i :: 0 <= i < |path| ==> path[i] in props && path[i] !in removed)
    && Parent(props[path[0]]).Some? && Parent(props[path[0]]).value in removed
    && (forall i :: 0 < i < |path| ==> Parent(props[path[i]]) == Some(path[i-1]))
  }

  ghost predicate Descends(props: Proposals, removed: set<GovActionId>, id: GovActionId) {
    exists path :: IsDescent(props, removed, path) && path[|path|-1] == id
  }

  ghost function Descendants(props: Proposals, removed: set<GovActionId>): set<GovActionId> {
    set id | id in props && Descends(props, removed, id)
  }

  lemma DescendsStep(props: Proposals, removed: set<GovActionId>, id: GovActionId)
    requires id in props && id !in removed && Parent(props[id]).Some?
    requires Parent(props[id]).value in removed || Descends(props, removed, Parent(props[id]).value)
    ensures Descends(props, removed, id)
  {
    if Parent(props[id]).value in removed {
      assert IsDescent(props, removed, [id]);
    } else {
      var path :| IsDescent(props, removed, path) && path[|path|-1] == Parent(props[id]).value;
      var longer := path + [id];
      assert longer[|longer|-1] == id;
      assert IsDescent(props, removed, longer);
    }
  }

  lemma {:induction false} ClosedContainsDescent(
      props: Proposals, removed: set<GovActionId>, all: set<GovActionId>, path: seq<GovActionId>)
    requires IsDescent(props, removed, path) && removed <= all
    requires forall id :: id in props && Parent(props[id]).Some? && Parent(props[id]).value in all ==> id in all
    ensures path[|path|-1] in all
    decreases |path|
  {
    if |path| > 1 {
      var front := path[..|path|-1];
      assert IsDescent(props, removed, front);
      ClosedContainsDescent(props, removed, all, front);
      assert Parent(props[path[|path|-1]]) == Some(front[|front|-1]);
    }
  }

  /** The wave loop of `remove_descendants_of`. */
  method FindDescendants(props: Proposals, removed: set<GovActionId>) returns (descendants: set<GovActionId>)
    ensures descendants == Descendants(props, removed)
  {
    var all := removed;
    var wave := set id | id in props && id !in all && Parent(props[id]).Some? && Parent(props[id]).value in all;
    while wave != {}
      invariant removed <= all <= removed + props.Keys
      invariant wave == set id | id in props && id !in all && Parent(props[id]).Some? && Parent(props[id]).value in all
      invariant forall id :: id in all && id !in removed ==> Descends(props, removed, id)
      decreases props.Keys - all
    {
      forall id | id in wave
        ensures Descends(props, removed, id)
      {
        DescendsStep(props, removed, id);
      }
      ghost var before := all;
      all := all + wave;
      var x :| x in wave;
      assert x in props.Keys - before && x !in props.Keys - all;
      assert props.Keys - all < props.Keys - before;
      wave := set id | id in props && id !in all && Parent(props[id]).Some? && Parent(props[id]).value in all;
    }
    forall id | id in props && Parent(props[id]).Some? && Parent(props[id]).value in all
      ensures id in all
    {
      assert id !in wave;
    }
    descendants := all - removed;
    forall id | Descends(props, removed, id)
      ensures id in descendants
    {
      var path :| IsDescent(props, removed, path) && path[|path|-1] == id;
      ClosedContainsDescent(props, removed, all, path);
    }
  }

  /** A lineage that survives in a smaller pending set still witnesses the chain there. */
  lemma {:induction false} ChainsIn(
      props: Proposals, small: Proposals, purpose: Purpose, root: Option<GovActionId>, path: seq<GovActionId>)
    requires IsLineage(props, purpose, root, path)
    requires forall i :: 0 <= i < |path| ==> path[i] in small && small[path[i]] == props[path[i]]
    ensures Chains(small, purpose, root, path[|path|-1])
  {
    assert IsLineage(small, purpose, root, path);
  }

  /** Every proposal on the lineage of a live proposal is live. */
  lemma PrefixChains(props: Proposals, purpose: Purpose, root: Option<GovActionId>, path: seq<GovActionId>, i: nat)
    requires IsLineage(props, purpose, root, path) && i < |path|
    ensures Chains(props, purpose, root, path[i])
  {
    var front := path[..i+1];
    assert front[|front|-1] == path[i];
    assert IsLineage(props, purpose, root, front);
  }

  /** Pruning the purposes whose root moved restores the forest. */
  lemma PruneRestoresForest(before: Proposals, es: EnactState, after: Proposals, es': EnactState,
                            purposes: set<Purpose>)
    requires Forest(before, es)
    requires forall id :: id in after ==> id in before && after[id] == before[id]
    requires forall q :: q !in purposes ==> EnactedRoot(es', q) == EnactedRoot(es, q)
    requires forall id :: id in before && PurposeOf(before[id].action) !in purposes ==> id in after
    ensures Forest(after - StaleIds(after, es', purposes), es')
  {
    hide Chains, Stale;
    var kept := after - StaleIds(after, es', purposes);
    forall id | id in kept
      ensures Live(kept, es', id)
    {
      var q := PurposeOf(kept[id].action);
      if q in purposes {
        PrunedChains(after, es', purposes, q, id);
      } else {
        assert Live(before, es, id);
        UntouchedChains(before, after, es', purposes, q, id);
      }
    }
  }

  /** Within a pruned purpose, whatever is left keeps its lineage. */
  lemma PrunedChains(after: Proposals, es: EnactState, purposes: set<Purpose>, q: Purpose, id: GovActionId)
    requires q in purposes && OfPurpose(after, q, id) && id !in StaleIds(after, es, purposes)
    ensures Chains(after - StaleIds(after, es, purposes), q, EnactedRoot(es, q), id)
  {
    var kept, root := after - StaleIds(after, es, purposes), EnactedRoot(es, q);
    var path :| IsLineage(after, q, root, path) && path[|path|-1] == id;
    forall i | 0 <= i < |path|
      ensures path[i] in kept
    {
      PrefixChains(after, q, root, path, i);
      PathPurpose(after, q, root, path, i);
    }
    ChainsIn(after, kept, q, root, path);
  }

  lemma PathPurpose(props: Proposals, q: Purpose, root: Option<GovActionId>, path: seq<GovActionId>, i: nat)
    requires IsLineage(props, q, root, path) && i < |path|
    ensures OfPurpose(props, q, path[i])
  {
  }

  /** Outside the pruned purposes nothing is removed, so every lineage stays. */
  lemma UntouchedChains(before: Proposals, after: Proposals, es: EnactState, purposes: set<Purpose>, q: Purpose,
                        id: GovActionId)
    requires q !in purposes && Chains(before, q, EnactedRoot(es, q), id)
    requires forall x :: x in after ==> x in before && after[x] == before[x]
    requires forall x :: x in before && PurposeOf(before[x].action) !in purposes ==> x in after
    ensures Chains(after - StaleIds(after, es, purposes), q, EnactedRoot(es, q), id)
  {
    hide Live;
    var kept, root := after - StaleIds(after, es, purposes), EnactedRoot(es, q);
    var path :| IsLineage(before, q, root, path) && path[|path|-1] == id;
    forall i | 0 <= i < |path|
      ensures path[i] in kept && kept[path[i]] == before[path[i]]
    {
      PathPurpose(before, q, root, path, i);
    }
    ChainsIn(before, kept, q, root, path);
  }

  /** Removing proposals together with all their descendants keeps the forest. */
  lemma RemovalKeepsForest(props: Proposals, es: EnactState, removed: set<GovActionId>)
    requires Forest(props, es)
    ensures var rest := props - removed;
            Forest(rest - Descendants(rest, removed), es)
  {
    var rest := props - removed;
    var kept := rest - Descendants(rest, removed);
    forall id | id in kept
      ensures Live(kept, es, id)
    {
      var q := PurposeOf(props[id].action);
      var root := EnactedRoot(es, q);
      assert Live(props, es, id);
      var path :| IsLineage(props, q, root, path) && path[|path|-1] == id;
      KeptPath(props, removed, q, root, path);
      ChainsIn(props, kept, q, root, path);
    }
  }

  lemma {:induction false} KeptPath(
      props: Proposals, removed: set<GovActionId>, purpose: Purpose, root: Option<GovActionId>, path: seq<GovActionId>)
    requires IsLineage(props, purpose, root, path)
    requires path[|path|-1] in props - removed - Descendants(props - removed, removed)
    ensures forall i :: 0 <= i < |path| ==> path[i] in props - removed - Descendants(props - removed, removed)
    decreases |path|
  {
    if |path| > 1 {
      var front := path[..|path|-1];
      var last, parent := path[|path|-1], front[|front|-1];
      assert Parent(props[last]) == Some(parent);
      if parent in removed || Descends(props - removed, removed, parent) {
        DescendsStep(props - removed, removed, last);
        assert false;
      }
      assert IsLineage(props, purpose, root, front);
      KeptPath(props, removed, purpose, root, front);
      forall i | 0 <= i < |path|
        ensures path[i] in props - removed - Descendants(props - removed, removed)
      {
        if i < |front| { assert path[i] == front[i]; }
      }
    }
  }
}
