/** Native (timelock) scripts: the recursive meaning and the two-stack evaluator. */
module NativeScripts {
  import opened Options
  type KeyHash = nat

  datatype Script =
    | Pubkey(keyHash: KeyHash)
    | All(scripts: seq<Script>)
    | Any(scripts: seq<Script>)
    | NOfK(n: int, scripts: seq<Script>)
    | InvalidBefore(slot: nat)
    | InvalidHereafter(slot: nat)

  datatype Context = Context(vkeyHashes: set<KeyHash>, currentSlot: nat)

  /** The recursive meaning of a script. */
  predicate Holds(s: Script, ctx: Context)
    decreases s
  {
    match s
    case Pubkey(h) => h in ctx.vkeyHashes
    case InvalidBefore(slot) => slot <= ctx.currentSlot
    case InvalidHereafter(slot) => ctx.currentSlot < slot
    case All(scripts) => forall i :: 0 <= i < |scripts| ==> Holds(scripts[i], ctx)
    case Any(scripts) => exists i :: 0 <= i < |scripts| && Holds(scripts[i], ctx)
    case NOfK(n, scripts) => |Satisfied(scripts, ctx)| >= n
  }

  /** The positions of the scripts that hold. */
  function Satisfied(scripts: seq<Script>, ctx: Context): set<int>
    decreases scripts
  {
    set i | 0 <= i < |scripts| && Holds(scripts[i], ctx)
  }

  /** A validity interval is half open: from its first slot on and before the slot that ends it. */
  lemma ValidityInterval(first: nat, end: nat, ctx: Context)
    ensures Holds(All([InvalidBefore(first), InvalidHereafter(end)]), ctx) <==> first <= ctx.currentSlot < end
  {
    var scripts := [InvalidBefore(first), InvalidHereafter(end)];
    assert Holds(scripts[0], ctx) <==> first <= ctx.currentSlot;
    assert Holds(scripts[1], ctx) <==> ctx.currentSlot < end;
  }

  /** A multi-signature counts the listed keys that signed. */
  lemma MultiSignature(n: int, keys: seq<KeyHash>, ctx: Context)
    ensures Holds(NOfK(n, seq(|keys|, i requires 0 <= i < |keys| => Pubkey(keys[i]))), ctx)
       <==> |set i | 0 <= i < |keys| && keys[i] in ctx.vkeyHashes| >= n
  {
    var scripts := seq(|keys|, i requires 0 <= i < |keys| => Pubkey(keys[i]));
    assert Satisfied(scripts, ctx) == set i | 0 <= i < |keys| && keys[i] in ctx.vkeyHashes;
  }

  // ----- the machine -----------------------------------------------------------

  datatype Combine = CombineAll | CombineAny | CombineN(required: nat)

  datatype Action = Eval(script: Script) | Join(kind: Combine, childCount: nat)

  function CountTrue(bs: seq<bool>): (n: nat)
    ensures n <= |bs|
  {
    if bs == [] then 0 else CountTrue(bs[..|bs|-1]) + (if bs[|bs|-1] then 1 else 0)
  }

  function Joined(kind: Combine, bs: seq<bool>): bool {
    match kind
    case CombineAll => CountTrue(bs) == |bs|
    case CombineAny => CountTrue(bs) > 0
    case CombineN(required) => CountTrue(bs) >= required
  }

  predicate Composite(s: Script) {
    s.All? || s.Any? || s.NOfK?
  }

  function KindOf(s: Script): Combine
    requires Composite(s)
  {
    match s
    case All(_) => CombineAll
    case Any(_) => CombineAny
    case NOfK(n, _) => CombineN(if n < 0 then 0 else n)
  }

  /** The results of a list of scripts, in order. */
  ghost function Results(scripts: seq<Script>, ctx: Context): seq<bool> {
    seq(|scripts|, i requires 0 <= i < |scripts| => Holds(scripts[i], ctx))
  }

  /** The top of the work stack is its last element. `Final` runs the rest of the work, reading
      each script by its meaning; None stands for a result stack that underflows. */
  ghost function Final(work: seq<Action>, results: seq<bool>, ctx: Context): Option<seq<bool>> {
    if work == [] then Some(results)
    else
      var rest := work[..|work|-1];
      match work[|work|-1]
      case Eval(s) => Final(rest, results + [Holds(s, ctx)], ctx)
      case Join(kind, n) =>
        if n > |results| then None
        else Final(rest, results[..|results| - n] + [Joined(kind, results[|results| - n..])], ctx)
  }

  /** The children of a composite, pushed so that the first one is on top. */
  function Pushed(scripts: seq<Script>): (work: seq<Action>)
    ensures |work| == |scripts|
  {
    if scripts == [] then [] else Pushed(scripts[1..]) + [Eval(scripts[0])]
  }

  lemma FinalEval(work: seq<Action>, s: Script, results: seq<bool>, ctx: Context)
    ensures Final(work + [Eval(s)], results, ctx) == Final(work, results + [Holds(s, ctx)], ctx)
  {
    hide Holds, Joined;
    var all := work + [Eval(s)];
    assert all[..|all|-1] == work && all[|all|-1] == Eval(s);
  }

  lemma {:induction false} FinalPushed(work: seq<Action>, scripts: seq<Script>, results: seq<bool>, ctx: Context)
    ensures Final(work + Pushed(scripts), results, ctx) == Final(work, results + Results(scripts, ctx), ctx)
    decreases |scripts|
  {
    hide Holds, Final;
    if scripts == [] {
      assert work + Pushed(scripts) == work && results + Results(scripts, ctx) == results;
    } else {
      var head, tail := scripts[0], scripts[1..];
      assert work + Pushed(scripts) == work + Pushed(tail) + [Eval(head)];
      FinalEval(work + Pushed(tail), head, results, ctx);
      FinalPushed(work, tail, results + [Holds(head, ctx)], ctx);
      assert results + [Holds(head, ctx)] + Results(tail, ctx) == results + Results(scripts, ctx);
    }
  }

  lemma {:induction false} CountIs(bs: seq<bool>)
    ensures CountTrue(bs) == |set i | 0 <= i < |bs| && bs[i]|
  {
    var trues := set i | 0 <= i < |bs| && bs[i];
    if bs != [] {
      var front, last := bs[..|bs|-1], |bs| - 1;
      CountIs(front);
      var before := set i | 0 <= i < |front| && front[i];
      assert forall i :: 0 <= i < last ==> front[i] == bs[i];
      var at := if bs[last] then {last} else {};
      assert trues == before + at && before * at == {};
    }
  }

  lemma {:induction false} CountAll(bs: seq<bool>)
    ensures CountTrue(bs) == |bs| <==> forall i :: 0 <= i < |bs| ==> bs[i]
  {
    if bs != [] {
      var front, last := bs[..|bs|-1], |bs| - 1;
      CountAll(front);
      assert (forall i :: 0 <= i < |bs| ==> bs[i]) <==> (forall i :: 0 <= i < |front| ==> front[i]) && bs[last];
    }
  }

  lemma CountAny(bs: seq<bool>)
    ensures CountTrue(bs) > 0 <==> exists i :: 0 <= i < |bs| && bs[i]
  {
    var trues := set i | 0 <= i < |bs| && bs[i];
    CountIs(bs);
    if trues != {} {
      var i :| i in trues;
    } else {
      assert forall i :: 0 <= i < |bs| && bs[i] ==> i in trues;
    }
  }

  /** Joining the children's results gives the meaning of a composite. */
  lemma JoinedIsMeaning(s: Script, ctx: Context)
    requires Composite(s)
    ensures Joined(KindOf(s), Results(s.scripts, ctx)) == Holds(s, ctx)
  {
    var bs := Results(s.scripts, ctx);
    CountAll(bs);
    CountAny(bs);
    match s
    case All(scripts) =>
      assert forall i :: 0 <= i < |scripts| ==> Holds(scripts[i], ctx) == bs[i];
    case Any(scripts) =>
      assert forall i :: 0 <= i < |bs| ==> bs[i] == Holds(scripts[i], ctx);
      assert forall i :: 0 <= i < |scripts| ==> Holds(scripts[i], ctx) == bs[i];
    case NOfK(_, scripts) =>
      CountIs(bs);
      assert (set i | 0 <= i < |bs| && bs[i]) == Satisfied(scripts, ctx);
  }

  /** One of all is any, all of all is all, none is always met and more than all never. */
  lemma Thresholds(n: int, scripts: seq<Script>, ctx: Context)
    ensures Holds(NOfK(1, scripts), ctx) <==> Holds(Any(scripts), ctx)
    ensures Holds(NOfK(|scripts|, scripts), ctx) <==> Holds(All(scripts), ctx)
    ensures n <= 0 ==> Holds(NOfK(n, scripts), ctx)
    ensures n > |scripts| ==> !Holds(NOfK(n, scripts), ctx)
    ensures Holds(NOfK(n + 1, scripts), ctx) ==> Holds(NOfK(n, scripts), ctx)
  {
    hide Holds;
    JoinedIsMeaning(Any(scripts), ctx);
    JoinedIsMeaning(All(scripts), ctx);
    JoinedIsMeaning(NOfK(1, scripts), ctx);
    JoinedIsMeaning(NOfK(|scripts|, scripts), ctx);
    JoinedIsMeaning(NOfK(n, scripts), ctx);
    JoinedIsMeaning(NOfK(n + 1, scripts), ctx);
  }

  /** Expanding a composite into a join and its children does not change the outcome. */
  lemma ExpandSame(work: seq<Action>, s: Script, results: seq<bool>, ctx: Context)
    requires Composite(s)
    ensures Final(work + [Join(KindOf(s), |s.scripts|)] + Pushed(s.scripts), results, ctx)
            == Final(work, results + [Holds(s, ctx)], ctx)
  {
    var join := Join(KindOf(s), |s.scripts|);
    var bs := Results(s.scripts, ctx);
    FinalPushed(work + [join], s.scripts, results, ctx);
    assert (work + [join])[..|work|] == work;
    assert (results + bs)[..|results|] == results && (results + bs)[|results|..] == bs;
    JoinedIsMeaning(s, ctx);
  }

  // ----- termination measure -----------------------------------------------------

  ghost function Size(s: Script): nat {
    if Composite(s) then 2 + Sizes(s.scripts) else 1
  }

  ghost function Sizes(scripts: seq<Script>): nat {
    if scripts == [] then 0 else Size(scripts[0]) + Sizes(scripts[1..])
  }

  ghost function WorkSize(work: seq<Action>): nat {
    if work == [] then 0
    else WorkSize(work[..|work|-1]) + (match work[|work|-1] case Eval(s) => Size(s) case Join(_, _) => 1)
  }

  lemma {:induction false} WorkSizePushed(work: seq<Action>, scripts: seq<Script>)
    ensures WorkSize(work + Pushed(scripts)) == WorkSize(work) + Sizes(scripts)
    decreases |scripts|
  {
    if scripts == [] {
      assert work + Pushed(scripts) == work;
    } else {
      var all := work + Pushed(scripts);
      assert all[..|all|-1] == work + Pushed(scripts[1..]) && all[|all|-1] == Eval(scripts[0]);
      WorkSizePushed(work, scripts[1..]);
    }
  }

  /** Pushes the children last to first, so that the first is evaluated first. */
  method PushChildren(work0: seq<Action>, scripts: seq<Script>) returns (work: seq<Action>)
    ensures work == work0 + Pushed(scripts)
  {
    work := work0;
    var i := |scripts|;
    assert scripts[i..] == [];
    while i > 0
      invariant 0 <= i <= |scripts|
      invariant work == work0 + Pushed(scripts[i..])
    {
      i := i - 1;
      assert scripts[i..][1..] == scripts[i+1..];
      work := work + [Eval(scripts[i])];
    }
    assert scripts[0..] == scripts;
  }

  method CountSatisfied(bs: seq<bool>) returns (n: nat)
    ensures n == CountTrue(bs)
  {
    n := 0;
    var i := 0;
    while i < |bs|
      invariant i <= |bs| && n == CountTrue(bs[..i])
    {
      assert bs[..i+1][..i] == bs[..i];
      if bs[i] { n := n + 1; }
      i := i + 1;
    }
    assert bs[..i] == bs;
  }

  /** The evaluator terminates, never underflows its result stack, and returns the meaning of the script. */
  method Evaluate(script: Script, ctx: Context) returns (b: bool)
    ensures b == Holds(script, ctx)
  {
    var work, results: seq<bool> := [Eval(script)], [];
    assert work[..0] == [] && results + [Holds(script, ctx)] == [Holds(script, ctx)];
    while work != []
      invariant Final(work, results, ctx) == Some([Holds(script, ctx)])
      decreases WorkSize(work)
    {
      var action, rest := work[|work|-1], work[..|work|-1];
      match action
      case Eval(node) =>
        if Composite(node) {
          ExpandSame(rest, node, results, ctx);
          var joined := rest + [Join(KindOf(node), |node.scripts|)];
          WorkSizePushed(joined, node.scripts);
          assert joined[..|rest|] == rest;
          work := PushChildren(joined, node.scripts);
        } else {
          work := rest;
          match node
          case Pubkey(h) => results := results + [h in ctx.vkeyHashes];
          case InvalidBefore(slot) => results := results + [ctx.currentSlot >= slot];
          case InvalidHereafter(slot) => results := results + [ctx.currentSlot < slot];
        }
      case Join(kind, childCount) =>
        work := rest;
        var start := |results| - childCount;
        var satisfied := CountSatisfied(results[start..]);
        var combined := match kind
          case CombineAll => satisfied == childCount
          case CombineAny => satisfied > 0
          case CombineN(required) => satisfied >= required;
        results := results[..start] + [combined];
    }
    b := results[|results|-1];
  }
}
