/** The volatile chain window with rollback bounded by the security parameter `k`. */
module ChainStates {
  import opened Options
  type Hash = nat

  datatype ChainEntry = ChainEntry(hash: Hash, slot: nat, blockNo: nat, prevHash: Option<Hash>)

  datatype Point = Origin | BlockPoint(slot: nat, hash: Hash)

  datatype Error =
    | NonContiguousBlock(expected: nat, got: nat)
    | SlotNotIncreasing(tipSlot: nat, blockSlot: nat)
    | PrevHashMismatch(expectedHash: Hash, gotHash: Hash)
    | RollbackTooDeep(requested: nat, max: nat)
    | RollbackPointNotFound(slot: nat, hash: Hash)

  datatype Outcome = Ok | Err(error: Error)

  // ----- chains -------------------------------------------------------------------

  predicate Follows(last: ChainEntry, e: ChainEntry) {
    && e.blockNo == last.blockNo + 1
    && last.slot <= e.slot
    && (e.prevHash.Some? ==> e.prevHash.value == last.hash)
  }

  /** Consecutive block numbers, slots that do not decrease, and previous hashes that match where given. */
  ghost predicate Linked(chain: seq<ChainEntry>) {
    forall i :: 0 < i < |chain| ==> Follows(chain[i-1], chain[i])
  }

  predicate At(e: ChainEntry, target: Point) {
    target.BlockPoint? && e.slot == target.slot && e.hash == target.hash
  }

  class ChainState {
    const k: nat
    var entries: seq<ChainEntry>

    constructor (k: nat)
      ensures this.k == k && entries == []
    {
      this.k := k;
      entries := [];
    }

    method SeedFromEntries(recovered: seq<ChainEntry>)
      modifies this
      ensures |recovered| <= k ==> entries == recovered
      ensures |recovered| > k ==> entries == recovered[|recovered| - k..]
      ensures entries == Seeded(k, recovered).window
    {
      if |recovered| > k {
        entries := recovered[|recovered| - k..];
      } else {
        entries := recovered;
      }
    }

    method RollForward(e: ChainEntry) returns (r: Outcome)
      modifies this
      ensures r == ForwardCheck(old(entries), e)
      ensures entries == if r.Ok? then old(entries) + [e] else old(entries)
    {
      if entries != [] {
        var last := entries[|entries|-1];
        if e.blockNo != last.blockNo + 1 {
          return Err(NonContiguousBlock(last.blockNo + 1, e.blockNo));
        }
        if e.slot < last.slot {
          return Err(SlotNotIncreasing(last.slot, e.slot));
        }
        if e.prevHash.Some? && e.prevHash.value != last.hash {
          return Err(PrevHashMismatch(last.hash, e.prevHash.value));
        }
      }
      entries := entries + [e];
      return Ok;
    }

    /** The last entry at the given point, searched from the tip. */
    method FindLast(target: Point) returns (idx: int)
      ensures -1 <= idx < |entries|
      ensures idx >= 0 ==> At(entries[idx], target)
      ensures forall i :: idx < i < |entries| ==> !At(entries[i], target)
    {
      idx := |entries| - 1;
      while idx >= 0 && !At(entries[idx], target)
        invariant -1 <= idx < |entries|
        invariant forall i :: idx < i < |entries| ==> !At(entries[i], target)
      {
        idx := idx - 1;
      }
    }

    method RollBackward(target: Point) returns (r: Outcome)
      modifies this
      ensures r.Ok? <==> CanRollBack(k, old(entries), target)
      ensures r.Ok? ==> entries == RolledBack(old(entries), target)
      ensures !r.Ok? ==> entries == old(entries)
      ensures !r.Ok? ==> r.error == if target.BlockPoint? && forall e :: e in old(entries) ==> !At(e, target)
                                    then RollbackPointNotFound(target.slot, target.hash)
                                    else RollbackTooDeep(|old(entries)| - |RolledBack(old(entries), target)|, k)
    {
      match target
      case Origin =>
        if |entries| > k {
          return Err(RollbackTooDeep(|entries|, k));
        }
        entries := [];
        return Ok;
      case BlockPoint(slot, hash) =>
        var idx := FindLast(target);
        KeepIs(entries, target, idx);
        if idx < 0 {
          return Err(RollbackPointNotFound(slot, hash));
        }
        assert entries[idx] in entries;
        var depth := |entries| - 1 - idx;
        if depth > k {
          return Err(RollbackTooDeep(depth, k));
        }
        entries := entries[..idx+1];
        return Ok;
    }

    method DrainStable() returns (stable: seq<ChainEntry>)
      modifies this
      ensures |old(entries)| <= k ==> stable == [] && entries == old(entries)
      ensures |old(entries)| > k ==> |entries| == k && stable + entries == old(entries)
      ensures State(stable, entries) == Step(k, State([], old(entries)), Drain)
    {
      var n := if |entries| >= k then |entries| - k else 0;
      if n == 0 {
        return [];
      }
      stable := entries[..n];
      entries := entries[n..];
    }
  }

  function ForwardCheck(window: seq<ChainEntry>, e: ChainEntry): (r: Outcome)
    ensures r.Ok? <==> window == [] || Follows(window[|window|-1], e)
    ensures window != [] ==>
              var tip := window[|window|-1];
              r.Ok? <==> e.blockNo == tip.blockNo + 1 && e.slot >= tip.slot && e.prevHash in {None, Some(tip.hash)}
  {
    if window == [] then Ok
    else
      var last := window[|window|-1];
      if e.blockNo != last.blockNo + 1 then Err(NonContiguousBlock(last.blockNo + 1, e.blockNo))
      else if e.slot < last.slot then Err(SlotNotIncreasing(last.slot, e.slot))
      else if e.prevHash.Some? && e.prevHash.value != last.hash then Err(PrevHashMismatch(last.hash, e.prevHash.value))
      else Ok
  }

  /** How many entries a rollback to `target` keeps. */
  function Keep(window: seq<ChainEntry>, target: Point): (n: nat)
    ensures n <= |window|
    ensures n > 0 ==> At(window[n-1], target)
    ensures target.BlockPoint? ==> forall i :: n <= i < |window| ==> !At(window[i], target)
    ensures target.Origin? ==> n == 0
  {
    if window == [] || target.Origin? then 0
    else if At(window[|window|-1], target) then |window|
    else Keep(window[..|window|-1], target)
  }

  lemma KeepIs(window: seq<ChainEntry>, target: Point, idx: int)
    requires -1 <= idx < |window| && target.BlockPoint?
    requires idx >= 0 ==> At(window[idx], target)
    requires forall i :: idx < i < |window| ==> !At(window[i], target)
    ensures Keep(window, target) == idx + 1
  {
  }

  function RolledBack(window: seq<ChainEntry>, target: Point): seq<ChainEntry> {
    window[..Keep(window, target)]
  }

  predicate CanRollBack(k: nat, window: seq<ChainEntry>, target: Point) {
    (target.BlockPoint? ==> Keep(window, target) > 0) && |window| - Keep(window, target) <= k
  }

  /** A block that is not repeated later in the window can be rolled back to exactly when at most `k`
      blocks lie behind it, and then it is the tip; the origin when the window holds at most `k`. */
  lemma RollBackReaches(k: nat, window: seq<ChainEntry>, i: nat)
    requires i < |window|
    requires forall j :: i < j < |window| ==> window[j].slot != window[i].slot || window[j].hash != window[i].hash
    ensures var target := BlockPoint(window[i].slot, window[i].hash);
            && (CanRollBack(k, window, target) <==> |window| - 1 - i <= k)
            && RolledBack(window, target) == window[..i + 1]
    ensures CanRollBack(k, window, Origin) <==> |window| <= k
    ensures RolledBack(window, Origin) == []
  {
    KeepIs(window, BlockPoint(window[i].slot, window[i].hash), i);
  }

  // ----- runs ----------------------------------------------------------------------

  /** The drained entries, which are immutable, and the volatile window. */
  datatype State = State(drained: seq<ChainEntry>, window: seq<ChainEntry>)

  datatype Op = Forward(entry: ChainEntry) | Backward(target: Point) | Drain

  function Step(k: nat, s: State, op: Op): State {
    match op
    case Forward(e) => if ForwardCheck(s.window, e).Ok? then s.(window := s.window + [e]) else s
    case Backward(target) => if CanRollBack(k, s.window, target) then s.(window := RolledBack(s.window, target)) else s
    case Drain =>
      if |s.window| <= k then s
      else State(s.drained + s.window[..|s.window| - k], s.window[|s.window| - k..])
  }

  function Run(k: nat, s: State, ops: seq<Op>): State {
    if ops == [] then s else Step(k, Run(k, s, ops[..|ops|-1]), ops[|ops|-1])
  }

  /** A new state, or one seeded from the end of a recovered chain whose rest is already immutable. */
  function Seeded(k: nat, recovered: seq<ChainEntry>): State {
    if |recovered| <= k then State([], recovered)
    else State(recovered[..|recovered| - k], recovered[|recovered| - k..])
  }

  /** One chain, and the window never runs empty once something was drained. */
  ghost predicate Safe(s: State) {
    Linked(s.drained + s.window) && (s.drained != [] ==> s.window != [])
  }

  /** A rollback to the origin that goes through finds nothing drained, and a drain that keeps
      nothing finds nothing in the window. */
  predicate Guarded(k: nat, s: State, op: Op) {
    && (op == Backward(Origin) && CanRollBack(k, s.window, Origin) ==> s.drained == [])
    && (op == Drain && k == 0 ==> s.window == [])
  }

  ghost predicate GuardedRun(k: nat, s: State, ops: seq<Op>) {
    forall i :: 0 <= i < |ops| ==> Guarded(k, Run(k, s, ops[..i]), ops[i])
  }

  lemma LinkedAppend(chain: seq<ChainEntry>, e: ChainEntry)
    requires Linked(chain) && (chain != [] ==> Follows(chain[|chain|-1], e))
    ensures Linked(chain + [e])
  {
  }

  lemma LinkedPrefix(chain: seq<ChainEntry>, n: nat)
    requires Linked(chain) && n <= |chain|
    ensures Linked(chain[..n])
  {
  }

  /** What no operation does: shrink the drained history, remove an entry that lies deeper than
      `k`, or change one that stays. */
  ghost predicate Kept(k: nat, s: State, s': State) {
    var all, all' := s.drained + s.window, s'.drained + s'.window;
    s.drained <= s'.drained && |all| - |all'| <= k && (all <= all' || all' <= all)
  }

  lemma ForwardSafe(k: nat, s: State, e: ChainEntry)
    requires Safe(s)
    ensures var s' := Step(k, s, Forward(e));
            Safe(s') && Kept(k, s, s')
  {
    if ForwardCheck(s.window, e).Ok? {
      LinkedAppend(s.drained + s.window, e);
      assert s.drained + (s.window + [e]) == s.drained + s.window + [e];
    }
  }

  lemma BackwardSafe(k: nat, s: State, target: Point)
    requires Safe(s)
    ensures var s' := Step(k, s, Backward(target));
            (Safe(s') <==> Guarded(k, s, Backward(target))) && Kept(k, s, s')
  {
    hide Linked, Kept, Keep;
    var n := Keep(s.window, target);
    LinkedPrefix(s.drained + s.window, |s.drained| + n);
    assert s.drained + s.window[..n] == (s.drained + s.window)[..|s.drained| + n];
    BackwardKept(k, s, target);
  }

  lemma BackwardKept(k: nat, s: State, target: Point)
    ensures Kept(k, s, Step(k, s, Backward(target)))
  {
    hide Keep;
    var n := Keep(s.window, target);
    assert s.drained + s.window[..n] == (s.drained + s.window)[..|s.drained| + n];
  }

  lemma DrainSafe(k: nat, s: State)
    requires Safe(s)
    ensures var s' := Step(k, s, Drain);
            (Safe(s') <==> Guarded(k, s, Drain)) && Kept(k, s, s')
  {
    if |s.window| > k {
      var n := |s.window| - k;
      assert s.drained + s.window[..n] + s.window[n..] == s.drained + s.window;
    }
  }

  /** Every operation keeps the invariant exactly when it is guarded; none shrinks what was drained
      or removes an entry that lies deeper than `k`. */
  lemma StepSafe(k: nat, s: State, op: Op)
    requires Safe(s)
    ensures Safe(Step(k, s, op)) <==> Guarded(k, s, op)
    ensures Kept(k, s, Step(k, s, op))
  {
    hide Step, Safe, Kept;
    match op
    case Forward(e) => ForwardSafe(k, s, e);
    case Backward(target) => BackwardSafe(k, s, target);
    case Drain => DrainSafe(k, s);
  }

  /** Drained history and window are one chain, and stay one whatever block comes next. */
  ghost predicate OneChain(k: nat, s: State) {
    && Linked(s.drained + s.window)
    && forall e :: Linked(Step(k, s, Forward(e)).drained + Step(k, s, Forward(e)).window)
  }

  /** The law for one operation: it leaves one chain that every next block extends exactly when it
      is guarded. */
  lemma StepLaw(k: nat, s: State, op: Op)
    requires Safe(s)
    ensures OneChain(k, Step(k, s, op)) <==> Guarded(k, s, op)
  {
    hide Safe, Step;
    StepSafe(k, s, op);
    if Guarded(k, s, op) {
      SafeIsOneChain(k, Step(k, s, op));
    } else if op.Drain? {
      ZeroBreaks(s, s.window[|s.window|-1]);
    } else {
      UnguardedBreaks(k, s, s.drained[|s.drained|-1]);
    }
  }

  lemma SafeIsOneChain(k: nat, s: State)
    requires Safe(s)
    ensures OneChain(k, s)
  {
    forall e
      ensures Linked(Step(k, s, Forward(e)).drained + Step(k, s, Forward(e)).window)
    {
      ForwardSafe(k, s, e);
    }
  }

  /** Whatever is done, drained history only grows. */
  lemma {:induction false} DrainedGrows(k: nat, s: State, ops: seq<Op>)
    ensures s.drained <= Run(k, s, ops).drained
    decreases |ops|
  {
    if ops != [] {
      DrainedGrows(k, s, ops[..|ops|-1]);
    }
  }

  /** The law over whole runs: the invariant holds after a guarded run ... */
  lemma {:induction false} RunSafe(k: nat, s: State, ops: seq<Op>)
    requires Safe(s) && GuardedRun(k, s, ops)
    ensures Safe(Run(k, s, ops))
    decreases |ops|
  {
    if ops != [] {
      var front, op := ops[..|ops|-1], ops[|ops|-1];
      assert forall i :: 0 <= i < |front| ==> front[..i] == ops[..i];
      assert forall i :: 0 <= i < |front| ==> Guarded(k, Run(k, s, ops[..i]), ops[i]);
      RunSafe(k, s, front);
      StepSafe(k, Run(k, s, front), op);
    }
  }

  /** ... and the runs that are one chain at every point, whatever block comes next, are exactly the
      guarded ones. */
  lemma {:induction false} RunLaw(k: nat, s: State, ops: seq<Op>)
    requires Safe(s)
    ensures GuardedRun(k, s, ops) <==> forall i :: 0 <= i <= |ops| ==> OneChain(k, Run(k, s, ops[..i]))
    decreases |ops|
  {
    hide Safe, OneChain, GuardedRun;
    if ops == [] {
      SafeIsOneChain(k, s);
      GuardedSplit(k, s, ops);
    } else {
      var front, op := ops[..|ops|-1], ops[|ops|-1];
      RunLaw(k, s, front);
      GuardedSplit(k, s, ops);
      PointsSplit(k, s, ops);
      if GuardedRun(k, s, front) {
        RunSafe(k, s, front);
        StepLaw(k, Run(k, s, front), op);
      }
    }
  }

  lemma GuardedSplit(k: nat, s: State, ops: seq<Op>)
    ensures ops == [] ==> GuardedRun(k, s, ops)
    ensures ops != [] ==>
              var front := ops[..|ops|-1];
              GuardedRun(k, s, ops) <==> GuardedRun(k, s, front) && Guarded(k, Run(k, s, front), ops[|ops|-1])
  {
    hide Run, Guarded;
    if ops != [] {
      var front := ops[..|ops|-1];
      assert forall i :: 0 <= i < |front| ==> front[..i] == ops[..i] && front[i] == ops[i];
    }
  }

  lemma PointsSplit(k: nat, s: State, ops: seq<Op>)
    requires ops != []
    ensures var front := ops[..|ops|-1];
            (forall i :: 0 <= i <= |ops| ==> OneChain(k, Run(k, s, ops[..i]))) <==>
              (forall i :: 0 <= i <= |front| ==> OneChain(k, Run(k, s, front[..i]))) && OneChain(k, Run(k, s, ops))
  {
    hide Run, OneChain;
    var front := ops[..|ops|-1];
    assert forall i :: 0 <= i <= |front| ==> front[..i] == ops[..i];
    assert ops[..|ops|] == ops;
  }

  /** A drain keeps every block within `k` of the tip, and every rollback to one of them does to history
      and window what it did before. A rollback by exactly `k` needs the block in front of them: a drain
      that drains anything ends it. */
  lemma DrainKeepsRollbacks(k: nat, s: State, i: nat)
    requires i < |s.window|
    ensures var s' := Step(k, s, Drain);
            var target := BlockPoint(s.window[i].slot, s.window[i].hash);
            && (|s.window| - i <= k ==>
                  && s.window[i] in s'.window
                  && CanRollBack(k, s.window, target) && CanRollBack(k, s'.window, target)
                  && s'.drained + RolledBack(s'.window, target) == s.drained + RolledBack(s.window, target))
            && (|s.window| > k && |s.window| - Keep(s.window, target) == k ==>
                  CanRollBack(k, s.window, target) && !CanRollBack(k, s'.window, target))
  {
    hide Keep;
    var target := BlockPoint(s.window[i].slot, s.window[i].hash);
    assert Keep(s.window, target) > i;
    if |s.window| > k {
      var n, keep := |s.window| - k, Keep(s.window, target);
      KeepBehind(s.window, target, n);
      if i >= n {
        assert s.window[n..][i - n] == s.window[i];
        assert s.window[n..][..keep - n] == s.window[n..keep];
        assert s.drained + s.window[..n] + s.window[n..keep] == s.drained + s.window[..keep];
      }
    }
  }

  lemma KeepBehind(window: seq<ChainEntry>, target: Point, n: nat)
    requires n <= |window| && target.BlockPoint?
    ensures var keep := Keep(window, target);
            Keep(window[n..], target) == if keep > n then keep - n else 0
  {
    hide Keep;
    var keep := Keep(window, target);
    KeepIs(window[n..], target, if keep > n then keep - n - 1 else -1);
  }

  /** Seeding keeps the last `k` entries, oldest first, and loses none. */
  lemma SeedKeeps(k: nat, recovered: seq<ChainEntry>, i: nat)
    requires i < |recovered|
    ensures var s := Seeded(k, recovered);
            if |recovered| - i <= k
            then |recovered| - i <= |s.window| && s.window[|s.window| - (|recovered| - i)] == recovered[i]
            else i < |s.drained| && s.drained[i] == recovered[i]
  {
  }

  lemma SeededSafe(k: nat, recovered: seq<ChainEntry>)
    requires Linked(recovered)
    ensures Safe(State([], [])) && (Safe(Seeded(k, recovered)) <==> k >= 1 || recovered == [])
    ensures Seeded(k, recovered).drained + Seeded(k, recovered).window == recovered
  {
    if |recovered| > k {
      assert recovered[..|recovered| - k] + recovered[|recovered| - k..] == recovered;
    }
  }

  /** Without the guard the law fails: after a successful rollback to the origin behind drained
      history, the next block may be anything. */
  lemma UnguardedBreaks(k: nat, s: State, e: ChainEntry)
    requires s.drained != [] && CanRollBack(k, s.window, Origin)
    requires !Follows(s.drained[|s.drained|-1], e)
    ensures var s' := Step(k, Step(k, s, Backward(Origin)), Forward(e));
            s'.window == [e] && !Linked(s'.drained + s'.window)
  {
    var chain := s.drained + [e];
    assert chain[|chain|-1] == e && chain[|chain|-2] == s.drained[|s.drained|-1];
    assert !Follows(chain[|chain|-2], chain[|chain|-1]);
  }

  /** With `k` zero a drain empties the window, and the next block may be anything too. */
  lemma ZeroBreaks(s: State, e: ChainEntry)
    requires s.window != [] && !Follows(s.window[|s.window|-1], e)
    ensures var s' := Step(0, Step(0, s, Drain), Forward(e));
            s'.window == [e] && !Linked(s'.drained + s'.window)
  {
    var chain := s.drained + s.window + [e];
    assert s.drained + s.window[..|s.window|] == s.drained + s.window;
    assert chain[|chain|-1] == e && chain[|chain|-2] == s.window[|s.window|-1];
    assert !Follows(chain[|chain|-2], chain[|chain|-1]);
  }
}
