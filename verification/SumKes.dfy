/**
 Sum-composition key-evolving signatures over the flat byte layout of keys and signatures.
 Ed25519 and Blake2b-256 are parameters; all that is asked of them is in `Sound`.
 */
module SumKes {
  import opened Options
  import opened Division
  import B = Bytes

  type Bytes = seq<B.byte>

  datatype Crypto = Crypto(
    hash: Bytes -> Bytes,
    edKey: Bytes -> Bytes,
    edSign: (Bytes, Bytes) -> Bytes,
    edVerify: (Bytes, Bytes, Bytes) -> bool)

  /** Output sizes, and that honest base signatures verify. */
  ghost predicate Sound(c: Crypto) {
    && (forall x :: |c.hash(x)| == 32)
    && (forall s :: |c.edKey(s)| == 32)
    && (forall s, m :: |c.edSign(s, m)| == 64 && c.edVerify(c.edKey(s), m, c.edSign(s, m)))
  }

  const SEED_SIZE := 32
  const VK_SIZE := 32
  const SIG_SIZE := 64

  function ZeroSeed(): (z: Bytes)
    ensures |z| == SEED_SIZE
  {
    seq(SEED_SIZE, _ => 0)
  }

  datatype SigningKey = SigningKey(depth: nat, data: Bytes)
  datatype Signature = Signature(depth: nat, data: Bytes)

  datatype Error = InvalidPeriod | KeyMismatch | BadSignature
  datatype Result<+T> = Ok(value: T) | Err(error: Error)

  function SkSize(depth: nat): nat {
    if depth == 0 then SEED_SIZE else SkSize(depth - 1) + SEED_SIZE + 2 * VK_SIZE
  }

  function SigSize(depth: nat): nat {
    SIG_SIZE + depth * (2 * VK_SIZE)
  }

  // ----- fields of a key -------------------------------------------------------

  predicate SizedKey(sk: SigningKey) {
    |sk.data| == SkSize(sk.depth)
  }

  function ChildKey(sk: SigningKey): SigningKey
    requires SizedKey(sk) && sk.depth > 0
  {
    SigningKey(sk.depth - 1, sk.data[..SkSize(sk.depth - 1)])
  }

  function SeedRight(sk: SigningKey): Bytes
    requires SizedKey(sk) && sk.depth > 0
  {
    sk.data[SkSize(sk.depth - 1)..SkSize(sk.depth - 1) + SEED_SIZE]
  }

  function VkLeft(sk: SigningKey): Bytes
    requires SizedKey(sk) && sk.depth > 0
  {
    var off := SkSize(sk.depth - 1) + SEED_SIZE;
    sk.data[off..off + VK_SIZE]
  }

  function VkRight(sk: SigningKey): Bytes
    requires SizedKey(sk) && sk.depth > 0
  {
    var off := SkSize(sk.depth - 1) + SEED_SIZE + VK_SIZE;
    sk.data[off..off + VK_SIZE]
  }

  // ----- operations --------------------------------------------------------------

  function LeftSeed(c: Crypto, seed: Bytes): Bytes { c.hash([1] + seed) }
  function RightSeed(c: Crypto, seed: Bytes): Bytes { c.hash([2] + seed) }

  function DeriveVk(c: Crypto, sk: SigningKey): Bytes
    requires SizedKey(sk)
  {
    if sk.depth == 0 then c.edKey(sk.data[..SEED_SIZE])
    else c.hash(VkLeft(sk) + VkRight(sk))
  }

  function Generate(c: Crypto, seed: Bytes, depth: nat): (sk: SigningKey)
    requires Sound(c) && |seed| == SEED_SIZE
    ensures sk.depth == depth && SizedKey(sk)
    decreases depth
  {
    if depth == 0 then SigningKey(0, seed)
    else
      var left, right := Generate(c, LeftSeed(c, seed), depth - 1), Generate(c, RightSeed(c, seed), depth - 1);
      DeriveSize(c, left);
      DeriveSize(c, right);
      SigningKey(depth, left.data + RightSeed(c, seed) + DeriveVk(c, left) + DeriveVk(c, right))
  }

  lemma DeriveSize(c: Crypto, sk: SigningKey)
    requires Sound(c) && SizedKey(sk)
    ensures |DeriveVk(c, sk)| == VK_SIZE
  {
  }

  function Sign(c: Crypto, sk: SigningKey, period: nat, message: Bytes): Result<Signature>
    requires SizedKey(sk)
    decreases sk.depth
  {
    var total := Pow2(sk.depth);
    if period >= total then Err(InvalidPeriod)
    else if sk.depth == 0 then Ok(Signature(0, c.edSign(sk.data[..SEED_SIZE], message)))
    else
      var half := total / 2;
      match Sign(c, ChildKey(sk), if period < half then period else period - half, message)
      case Err(e) => Err(e)
      case Ok(sig) => Ok(Signature(sk.depth, sig.data + VkLeft(sk) + VkRight(sk)))
  }

  predicate SizedSig(sig: Signature) {
    |sig.data| == SigSize(sig.depth)
  }

  /** The pair of keys stored at composition level `level`, 0 being the innermost. */
  function SigLeft(sig: Signature, level: nat): Bytes
    requires SizedSig(sig) && level < sig.depth
  {
    var off := SigSize(level);
    sig.data[off..off + VK_SIZE]
  }

  function SigRight(sig: Signature, level: nat): Bytes
    requires SizedSig(sig) && level < sig.depth
  {
    var off := SigSize(level) + VK_SIZE;
    sig.data[off..off + VK_SIZE]
  }

  function Strip(sig: Signature): Signature
    requires SizedSig(sig) && sig.depth > 0
  {
    Signature(sig.depth - 1, sig.data[..SigSize(sig.depth - 1)])
  }

  function Verify(c: Crypto, vk: Bytes, period: nat, message: Bytes, sig: Signature): Result<()>
    requires SizedSig(sig)
    decreases sig.depth
  {
    if sig.depth == 0 then
      if c.edVerify(vk, message, sig.data[..SIG_SIZE]) then Ok(()) else Err(BadSignature)
    else
      var total := Pow2(sig.depth);
      if period >= total then Err(InvalidPeriod)
      else
        var left, right := SigLeft(sig, sig.depth - 1), SigRight(sig, sig.depth - 1);
        if vk != c.hash(left + right) then Err(KeyMismatch)
        else
          var half := total / 2;
          if period < half then Verify(c, left, period, message, Strip(sig))
          else Verify(c, right, period - half, message, Strip(sig))
  }

  /** None when the key is in its last period. */
  function Update(c: Crypto, sk: SigningKey, period: nat): Option<SigningKey>
    requires Sound(c) && SizedKey(sk)
    decreases sk.depth
  {
    var total := Pow2(sk.depth);
    if period + 1 >= total then None
    else if sk.depth == 0 then None
    else
      var half := total / 2;
      if period + 1 < half then
        match Update(c, ChildKey(sk), period)
        case None => None
        case Some(child) => Some(SigningKey(sk.depth, child.data + SeedRight(sk) + VkLeft(sk) + VkRight(sk)))
      else if period + 1 == half then
        var child := Generate(c, SeedRight(sk), sk.depth - 1);
        Some(SigningKey(sk.depth, child.data + ZeroSeed() + VkLeft(sk) + VkRight(sk)))
      else
        match Update(c, ChildKey(sk), period - half)
        case None => None
        case Some(child) => Some(SigningKey(sk.depth, child.data + ZeroSeed() + VkLeft(sk) + VkRight(sk)))
  }

  // ----- the tree ----------------------------------------------------------------

  /** The Merkle root of the subtree of a seed. */
  function TreeVk(c: Crypto, seed: Bytes, depth: nat): Bytes
    decreases depth
  {
    if depth == 0 then c.edKey(seed)
    else c.hash(TreeVk(c, LeftSeed(c, seed), depth - 1) + TreeVk(c, RightSeed(c, seed), depth - 1))
  }

  /** The seeds of the leaves, period by period. */
  function Leaves(c: Crypto, seed: Bytes, depth: nat): (leaves: seq<Bytes>)
    ensures |leaves| == Pow2(depth)
    decreases depth
  {
    if depth == 0 then [seed]
    else Leaves(c, LeftSeed(c, seed), depth - 1) + Leaves(c, RightSeed(c, seed), depth - 1)
  }

  /** The key of period `p` in closed form: each level keeps the right-hand seed while `p` lies
      in its left half and zeros afterwards. */
  function KeyAt(c: Crypto, seed: Bytes, depth: nat, p: nat): Bytes
    decreases depth, 1
  {
    if depth == 0 then seed
    else
      ChildAt(c, seed, depth, p) + SeedAt(c, seed, depth, p)
      + TreeVk(c, LeftSeed(c, seed), depth - 1) + TreeVk(c, RightSeed(c, seed), depth - 1)
  }

  function ChildAt(c: Crypto, seed: Bytes, depth: nat, p: nat): Bytes
    requires depth > 0
    decreases depth, 0
  {
    var half := Pow2(depth - 1);
    if p < half then KeyAt(c, LeftSeed(c, seed), depth - 1, p) else KeyAt(c, RightSeed(c, seed), depth - 1, p - half)
  }

  function SeedAt(c: Crypto, seed: Bytes, depth: nat, p: nat): Bytes
    requires depth > 0
  {
    if p < Pow2(depth - 1) then RightSeed(c, seed) else ZeroSeed()
  }

  lemma {:induction false} SkSizeClosed(depth: nat)
    ensures SkSize(depth) == 32 + 96 * depth
  {
    if depth > 0 { SkSizeClosed(depth - 1); }
  }

  lemma TreeVkSize(c: Crypto, seed: Bytes, depth: nat)
    requires Sound(c)
    ensures |TreeVk(c, seed, depth)| == VK_SIZE
  {
  }

  lemma {:induction false} KeyAtSize(c: Crypto, seed: Bytes, depth: nat, p: nat)
    requires Sound(c) && |seed| == SEED_SIZE
    ensures |KeyAt(c, seed, depth, p)| == SkSize(depth) == 32 + 96 * depth
    ensures depth > 0 ==> |ChildAt(c, seed, depth, p)| == SkSize(depth - 1) && |SeedAt(c, seed, depth, p)| == SEED_SIZE
    decreases depth
  {
    hide TreeVk, Pow2, ZeroSeed;
    SkSizeClosed(depth);
    if depth > 0 {
      var l, r := LeftSeed(c, seed), RightSeed(c, seed);
      TreeVkSize(c, l, depth - 1);
      TreeVkSize(c, r, depth - 1);
      if p < Pow2(depth - 1) {
        KeyAtSize(c, l, depth - 1, p);
      } else {
        KeyAtSize(c, r, depth - 1, p - Pow2(depth - 1));
      }
    }
  }

  /** The four fields of a key come back out of their concatenation. */
  lemma Fields(depth: nat, child: Bytes, seed: Bytes, left: Bytes, right: Bytes)
    requires |child| == SkSize(depth) && |seed| == SEED_SIZE && |left| == VK_SIZE && |right| == VK_SIZE
    ensures var sk := SigningKey(depth + 1, child + seed + left + right);
            && SizedKey(sk) && ChildKey(sk) == SigningKey(depth, child)
            && SeedRight(sk) == seed && VkLeft(sk) == left && VkRight(sk) == right
  {
  }

  /** The fields of the key of period `p`. */
  lemma KeyFields(c: Crypto, seed: Bytes, depth: nat, p: nat)
    requires Sound(c) && |seed| == SEED_SIZE && depth > 0
    ensures var sk := SigningKey(depth, KeyAt(c, seed, depth, p));
            && SizedKey(sk)
            && ChildKey(sk) == SigningKey(depth - 1, ChildAt(c, seed, depth, p))
            && SeedRight(sk) == SeedAt(c, seed, depth, p)
            && VkLeft(sk) == TreeVk(c, LeftSeed(c, seed), depth - 1)
            && VkRight(sk) == TreeVk(c, RightSeed(c, seed), depth - 1)
  {
    hide TreeVk, ChildAt, SeedAt, SkSize, ChildKey, SeedRight, VkLeft, VkRight;
    var l, r := LeftSeed(c, seed), RightSeed(c, seed);
    TreeVkSize(c, l, depth - 1);
    TreeVkSize(c, r, depth - 1);
    KeyAtSize(c, seed, depth, p);
    Fields(depth - 1, ChildAt(c, seed, depth, p), SeedAt(c, seed, depth, p), TreeVk(c, l, depth - 1),
      TreeVk(c, r, depth - 1));
  }

  /** Every evolved key derives the same verification key. */
  lemma SameVk(c: Crypto, seed: Bytes, depth: nat, p: nat)
    requires Sound(c) && |seed| == SEED_SIZE
    ensures var sk := SigningKey(depth, KeyAt(c, seed, depth, p));
            SizedKey(sk) && DeriveVk(c, sk) == TreeVk(c, seed, depth)
  {
    hide SkSize, ChildKey, SeedRight, VkLeft, VkRight, ChildAt, SeedAt;
    KeyAtSize(c, seed, depth, p);
    if depth == 0 {
      assert seed[..SEED_SIZE] == seed;
    } else {
      KeyFields(c, seed, depth, p);
    }
  }

  /** Generation yields the key of period 0. */
  lemma {:induction false} GenerateIsFirst(c: Crypto, seed: Bytes, depth: nat)
    requires Sound(c) && |seed| == SEED_SIZE
    ensures Generate(c, seed, depth) == SigningKey(depth, KeyAt(c, seed, depth, 0))
    decreases depth
  {
    hide DeriveVk, TreeVk, SkSize;
    if depth > 0 {
      var l, r := LeftSeed(c, seed), RightSeed(c, seed);
      GenerateIsFirst(c, l, depth - 1);
      GenerateIsFirst(c, r, depth - 1);
      SameVk(c, l, depth - 1, 0);
      SameVk(c, r, depth - 1, 0);
    }
  }

  /** One update leads from the key of period `p` to the key of period `p + 1`, or to None at the end. */
  lemma {:induction false} UpdateStep(c: Crypto, seed: Bytes, depth: nat, p: nat)
    requires Sound(c) && |seed| == SEED_SIZE && p < Pow2(depth)
    ensures var sk := SigningKey(depth, KeyAt(c, seed, depth, p));
            && SizedKey(sk)
            && Update(c, sk, p) == if p + 1 < Pow2(depth) then Some(SigningKey(depth, KeyAt(c, seed, depth, p + 1)))
              else None
    decreases depth
  {
    hide TreeVk, SkSize, ChildKey, SeedRight, VkLeft, VkRight, Generate;
    KeyAtSize(c, seed, depth, p);
    if depth > 0 && p + 1 < Pow2(depth) {
      var l, r, half := LeftSeed(c, seed), RightSeed(c, seed), Pow2(depth - 1);
      KeyFields(c, seed, depth, p);
      if p + 1 < half {
        UpdateStep(c, l, depth - 1, p);
      } else if p + 1 == half {
        GenerateIsFirst(c, r, depth - 1);
      } else {
        UpdateStep(c, r, depth - 1, p - half);
      }
    }
  }

  /** The key after `p` updates of a generated key. */
  function Evolve(c: Crypto, seed: Bytes, depth: nat, p: nat): (sk: Option<SigningKey>)
    requires Sound(c) && |seed| == SEED_SIZE
  {
    if p == 0 then Some(Generate(c, seed, depth))
    else
      match Evolve(c, seed, depth, p - 1)
      case None => None
      case Some(sk) => if SizedKey(sk) then Update(c, sk, p - 1) else None
  }

  /** Updating succeeds up to the last period, where it returns None, and reaches the closed form. */
  lemma {:induction false} EvolveClosed(c: Crypto, seed: Bytes, depth: nat, p: nat)
    requires Sound(c) && |seed| == SEED_SIZE && p <= Pow2(depth)
    ensures Evolve(c, seed, depth, p) == if p < Pow2(depth) then Some(SigningKey(depth, KeyAt(c, seed, depth, p)))
              else None
    decreases p
  {
    hide KeyAt, Update, Generate, SkSize;
    if p == 0 {
      GenerateIsFirst(c, seed, depth);
    } else {
      EvolveClosed(c, seed, depth, p - 1);
      UpdateStep(c, seed, depth, p - 1);
    }
  }

  lemma SigFields(depth: nat, child: Bytes, left: Bytes, right: Bytes)
    requires |child| == SigSize(depth) && |left| == VK_SIZE && |right| == VK_SIZE
    ensures var sig := Signature(depth + 1, child + left + right);
            && SizedSig(sig) && Strip(sig) == Signature(depth, child)
            && SigLeft(sig, depth) == left && SigRight(sig, depth) == right
  {
  }

  /** Verification of a signature that wraps `child` continues with `child`. */
  lemma VerifyStep(c: Crypto, child: Signature, left: Bytes, right: Bytes, p: nat, message: Bytes)
    requires SizedSig(child) && |left| == |right| == VK_SIZE && p < Pow2(child.depth + 1)
    ensures var sig := Signature(child.depth + 1, child.data + left + right);
            var half := Pow2(child.depth);
            && SizedSig(sig)
            && Verify(c, c.hash(left + right), p, message, sig) ==
                 if p < half then Verify(c, left, p, message, child) else Verify(c, right, p - half, message, child)
  {
    hide SigLeft, SigRight, Strip, SigSize;
    SigFields(child.depth, child.data, left, right);
  }

  /** Signing with a key wraps the signature of its child key. */
  lemma SignStep(c: Crypto, sk: SigningKey, p: nat, message: Bytes)
    requires SizedKey(sk) && sk.depth > 0 && p < Pow2(sk.depth)
    ensures var half := Pow2(sk.depth - 1);
            var child := Sign(c, ChildKey(sk), if p < half then p else p - half, message);
            Sign(c, sk, p, message) ==
              if child.Err? then child else Ok(Signature(sk.depth, child.value.data + VkLeft(sk) + VkRight(sk)))
  {
    hide SkSize, VkLeft, VkRight;
  }

  lemma SignLeaf(c: Crypto, seed: Bytes, message: Bytes)
    requires Sound(c) && |seed| == SEED_SIZE
    ensures var sig := Signature(0, c.edSign(seed, message));
            && Sign(c, SigningKey(0, seed), 0, message) == Ok(sig)
            && SizedSig(sig) && Verify(c, c.edKey(seed), 0, message, sig) == Ok(())
  {
    assert seed[..SEED_SIZE] == seed;
    var s := c.edSign(seed, message);
    assert s[..SIG_SIZE] == s;
  }

  /** The signature of the key of period `p` verifies at period `p` under the tree's key. */
  lemma {:induction false} SignVerifies(c: Crypto, seed: Bytes, depth: nat, p: nat, message: Bytes)
    requires Sound(c) && |seed| == SEED_SIZE && p < Pow2(depth)
    ensures var sk := SigningKey(depth, KeyAt(c, seed, depth, p));
            && SizedKey(sk)
            && var sig := Sign(c, sk, p, message);
               sig.Ok? && sig.value.depth == depth && SizedSig(sig.value)
               && Verify(c, TreeVk(c, seed, depth), p, message, sig.value) == Ok(())
    decreases depth
  {
    hide SkSize, SigSize, ChildKey, SeedRight, VkLeft, VkRight, Sign, Verify, TreeVk;
    KeyAtSize(c, seed, depth, p);
    TreeVkUnfold(c, seed, depth);
    if depth == 0 {
      SignLeaf(c, seed, message);
    } else {
      var sk := SigningKey(depth, KeyAt(c, seed, depth, p));
      var l, r, half := LeftSeed(c, seed), RightSeed(c, seed), Pow2(depth - 1);
      KeyFields(c, seed, depth, p);
      TreeVkSize(c, l, depth - 1);
      TreeVkSize(c, r, depth - 1);
      SignStep(c, sk, p, message);
      if p < half {
        SignVerifies(c, l, depth - 1, p, message);
      } else {
        SignVerifies(c, r, depth - 1, p - half, message);
      }
      var child := Sign(c, ChildKey(sk), if p < half then p else p - half, message).value;
      VerifyStep(c, child, VkLeft(sk), VkRight(sk), p, message);
    }
  }

  /** For every depth and period: the evolved key exists, keeps the verification key, and signs for its period. */
  lemma EvolvedKeySigns(c: Crypto, seed: Bytes, depth: nat, p: nat, message: Bytes)
    requires Sound(c) && |seed| == SEED_SIZE && p < Pow2(depth)
    ensures var sk := Evolve(c, seed, depth, p);
            && sk.Some? && sk.value.depth == depth && SizedKey(sk.value) && |sk.value.data| == 32 + 96 * depth
            && DeriveVk(c, sk.value) == DeriveVk(c, Generate(c, seed, depth))
            && var sig := Sign(c, sk.value, p, message);
               sig.Ok? && SizedSig(sig.value) && Verify(c, DeriveVk(c, sk.value), p, message, sig.value) == Ok(())
    ensures Evolve(c, seed, depth, Pow2(depth)) == None
  {
    hide KeyAt, Evolve, Generate, DeriveVk, Sign, Verify, TreeVk, SkSize;
    EvolveClosed(c, seed, depth, p);
    EvolveClosed(c, seed, depth, Pow2(depth));
    GenerateIsFirst(c, seed, depth);
    SameVk(c, seed, depth, 0);
    SameVk(c, seed, depth, p);
    KeyAtSize(c, seed, depth, p);
    SignVerifies(c, seed, depth, p, message);
  }

  // ----- forward security of the layout -----------------------------------------

  /** The leaf seeds that the seed fields of a key can regenerate. Nothing but the key is read:
      a right-hand seed counts unless it is erased to zeros. */
  function Held(c: Crypto, sk: SigningKey): seq<Bytes>
    requires SizedKey(sk)
    decreases sk.depth
  {
    if sk.depth == 0 then [sk.data]
    else
      Held(c, ChildKey(sk))
      + (if SeedRight(sk) == ZeroSeed() then [] else Leaves(c, SeedRight(sk), sk.depth - 1))
  }

  /** No right-hand seed of the tree looks like an erased one. */
  predicate NoZeroSeed(c: Crypto, seed: Bytes, depth: nat)
    decreases depth
  {
    depth > 0 ==>
      && RightSeed(c, seed) != ZeroSeed()
      && NoZeroSeed(c, LeftSeed(c, seed), depth - 1)
      && NoZeroSeed(c, RightSeed(c, seed), depth - 1)
  }

  /** What the key of period `p` holds. */
  function HeldAt(c: Crypto, seed: Bytes, depth: nat, p: nat): seq<Bytes>
    requires Sound(c) && |seed| == SEED_SIZE
  {
    KeyAtSize(c, seed, depth, p);
    Held(c, SigningKey(depth, KeyAt(c, seed, depth, p)))
  }

  lemma DropConcat<T>(a: seq<T>, b: seq<T>, p: nat)
    requires p <= |a| + |b|
    ensures (a + b)[p..] == if p < |a| then a[p..] + b else b[p - |a|..]
  {
  }

  lemma LeavesStep(c: Crypto, seed: Bytes, depth: nat, p: nat)
    requires depth > 0 && p < Pow2(depth)
    ensures var l, r, half := LeftSeed(c, seed), RightSeed(c, seed), Pow2(depth - 1);
            Leaves(c, seed, depth)[p..] ==
              if p < half then Leaves(c, l, depth - 1)[p..] + Leaves(c, r, depth - 1)
              else Leaves(c, r, depth - 1)[p - half..]
  {
    DropConcat(Leaves(c, LeftSeed(c, seed), depth - 1), Leaves(c, RightSeed(c, seed), depth - 1), p);
  }

  lemma HeldStep(c: Crypto, seed: Bytes, depth: nat, p: nat)
    requires Sound(c) && |seed| == SEED_SIZE && depth > 0
    ensures var l, r, half := LeftSeed(c, seed), RightSeed(c, seed), Pow2(depth - 1);
            HeldAt(c, seed, depth, p) ==
              if p >= half then HeldAt(c, r, depth - 1, p - half)
              else HeldAt(c, l, depth - 1, p) + (if r == ZeroSeed() then [] else Leaves(c, r, depth - 1))
  {
    hide TreeVk, KeyAt, Leaves, SkSize, ChildKey, SeedRight, VkLeft, VkRight, ZeroSeed;
    KeyFields(c, seed, depth, p);
    KeyAtSize(c, seed, depth, p);
  }

  lemma HeldLeaf(c: Crypto, seed: Bytes)
    requires Sound(c) && |seed| == SEED_SIZE
    ensures HeldAt(c, seed, 0, 0) == Leaves(c, seed, 0) == [seed]
  {
  }

  lemma {:induction false} HeldBound(c: Crypto, seed: Bytes, depth: nat, p: nat)
    requires Sound(c) && |seed| == SEED_SIZE && p < Pow2(depth)
    ensures |HeldAt(c, seed, depth, p)| <= Pow2(depth) - p
    decreases depth
  {
    hide HeldAt, Leaves, ZeroSeed;
    if depth == 0 {
      HeldLeaf(c, seed);
    } else {
      var l, r, half := LeftSeed(c, seed), RightSeed(c, seed), Pow2(depth - 1);
      HeldStep(c, seed, depth, p);
      if p < half {
        HeldBound(c, l, depth - 1, p);
      } else {
        HeldBound(c, r, depth - 1, p - half);
      }
    }
  }

  lemma ZeroSeedStep(c: Crypto, seed: Bytes, depth: nat)
    ensures NoZeroSeed(c, seed, depth) <==>
              depth == 0 ||
              (RightSeed(c, seed) != ZeroSeed() && NoZeroSeed(c, LeftSeed(c, seed), depth - 1)
               && NoZeroSeed(c, RightSeed(c, seed), depth - 1))
  {
    hide ZeroSeed;
  }

  lemma {:induction false} HeldAreFuture(c: Crypto, seed: Bytes, depth: nat, p: nat)
    requires Sound(c) && |seed| == SEED_SIZE && p < Pow2(depth) && NoZeroSeed(c, seed, depth)
    ensures HeldAt(c, seed, depth, p) == Leaves(c, seed, depth)[p..]
    decreases depth
  {
    hide HeldAt, Leaves, ZeroSeed, NoZeroSeed;
    if depth == 0 {
      HeldLeaf(c, seed);
    } else {
      var half := Pow2(depth - 1);
      ZeroSeedStep(c, seed, depth);
      HeldStep(c, seed, depth, p);
      LeavesStep(c, seed, depth, p);
      if p < half {
        HeldAreFuture(c, LeftSeed(c, seed), depth - 1, p);
      } else {
        HeldAreFuture(c, RightSeed(c, seed), depth - 1, p - half);
      }
    }
  }

  /** A right-hand seed of zeros makes some key of the tree look as if it held less. */
  lemma {:induction false} HeldMisses(c: Crypto, seed: Bytes, depth: nat) returns (p: nat)
    requires Sound(c) && |seed| == SEED_SIZE && !NoZeroSeed(c, seed, depth)
    ensures p < Pow2(depth) && HeldAt(c, seed, depth, p) != Leaves(c, seed, depth)[p..]
    decreases depth
  {
    hide HeldAt, Leaves, ZeroSeed, NoZeroSeed;
    ZeroSeedStep(c, seed, depth);
    var l, r, half := LeftSeed(c, seed), RightSeed(c, seed), Pow2(depth - 1);
    if r == ZeroSeed() {
      p := 0;
      HeldBound(c, l, depth - 1, 0);
    } else if !NoZeroSeed(c, l, depth - 1) {
      p := HeldMisses(c, l, depth - 1);
      FrontsDiffer(HeldAt(c, l, depth - 1, p), Leaves(c, l, depth - 1)[p..], Leaves(c, r, depth - 1));
    } else {
      var q := HeldMisses(c, r, depth - 1);
      p := q + half;
    }
    HeldStep(c, seed, depth, p);
    LeavesStep(c, seed, depth, p);
  }

  lemma FrontsDiffer<T>(a: seq<T>, b: seq<T>, tail: seq<T>)
    requires a != b
    ensures a + tail != b + tail
  {
    assert a == (a + tail)[..|a|];
    assert b == (b + tail)[..|b|];
  }

  /** After `p` updates the key holds the leaves of the periods from `p` on and no earlier one, for
      every `p`, exactly when no right-hand seed of the tree is the string that marks erasure. */
  lemma OnlyFutureLeaves(c: Crypto, seed: Bytes, depth: nat)
    requires Sound(c) && |seed| == SEED_SIZE
    ensures NoZeroSeed(c, seed, depth)
       <==> forall p :: 0 <= p < Pow2(depth) ==>
              var sk := Evolve(c, seed, depth, p);
              sk.Some? && SizedKey(sk.value) && Held(c, sk.value) == Leaves(c, seed, depth)[p..]
  {
    hide Evolve, KeyAt, SizedKey, Held, Leaves, NoZeroSeed, Pow2;
    forall p | 0 <= p < Pow2(depth)
      ensures var sk := Evolve(c, seed, depth, p);
              sk.Some? && SizedKey(sk.value) && Held(c, sk.value) == HeldAt(c, seed, depth, p)
    {
      EvolveClosed(c, seed, depth, p);
      HeldEvolved(c, seed, depth, p);
    }
    if NoZeroSeed(c, seed, depth) {
      forall p | 0 <= p < Pow2(depth)
        ensures HeldAt(c, seed, depth, p) == Leaves(c, seed, depth)[p..]
      {
        HeldAreFuture(c, seed, depth, p);
      }
    } else {
      var p := HeldMisses(c, seed, depth);
    }
  }

  lemma HeldEvolved(c: Crypto, seed: Bytes, depth: nat, p: nat)
    requires Sound(c) && |seed| == SEED_SIZE
    ensures var sk := SigningKey(depth, KeyAt(c, seed, depth, p));
            SizedKey(sk) && Held(c, sk) == HeldAt(c, seed, depth, p)
  {
    KeyAtSize(c, seed, depth, p);
  }

  /** Leaves of different periods, or of different seeds, differ, or two colliding inputs are found. */
  lemma {:induction false} SeedsDiffer(c: Crypto, s: Bytes, t: Bytes, depth: nat, i: nat, j: nat)
    returns (a: Bytes, b: Bytes)
    requires (s != t || i != j) && i < Pow2(depth) && j < Pow2(depth)
    ensures Leaves(c, s, depth)[i] != Leaves(c, t, depth)[j] || (a != b && c.hash(a) == c.hash(b))
    decreases depth
  {
    a, b := [], [];
    if depth > 0 {
      var half := Pow2(depth - 1);
      var x, y := [if i < half then 1 else 2] + s, [if j < half then 1 else 2] + t;
      var i', j' := if i < half then i else i - half, if j < half then j else j - half;
      assert x[1..] == s && y[1..] == t;
      if x != y && c.hash(x) == c.hash(y) {
        a, b := x, y;
      } else {
        assert x == y ==> x[0] == y[0];
        a, b := SeedsDiffer(c, c.hash(x), c.hash(y), depth - 1, i', j');
      }
    }
  }

  /** What an evolved key regenerates holds no leaf of an earlier period, or two colliding inputs are found. */
  lemma PastLeavesGone(c: Crypto, seed: Bytes, depth: nat, p: nat, q: nat) returns (a: Bytes, b: Bytes)
    requires Sound(c) && |seed| == SEED_SIZE && NoZeroSeed(c, seed, depth) && q < p < Pow2(depth)
    ensures var sk := Evolve(c, seed, depth, p);
            && sk.Some? && SizedKey(sk.value)
            && (Leaves(c, seed, depth)[q] !in Held(c, sk.value) || (a != b && c.hash(a) == c.hash(b)))
  {
    hide Evolve, KeyAt, SizedKey, Held, Leaves, NoZeroSeed, Pow2;
    a, b := [], [];
    OnlyFutureLeaves(c, seed, depth);
    var leaves := Leaves(c, seed, depth);
    if leaves[q] in leaves[p..] {
      var k :| 0 <= k < |leaves[p..]| && leaves[p..][k] == leaves[q];
      assert leaves[p + k] == leaves[q];
      a, b := SeedsDiffer(c, seed, seed, depth, q, p + k);
    }
  }

  /** A key of two periods, byte by byte: the left seed is the hash behind a byte 1, the right one behind a
      byte 2; the key starts with the left leaf, and its update leaves the right leaf and 32 zeros. */
  lemma TwoPeriods(c: Crypto, seed: Bytes, message: Bytes)
    requires Sound(c) && |seed| == 32
    ensures var l, r := c.hash([1] + seed), c.hash([2] + seed);
            var keys, zeros := c.edKey(l) + c.edKey(r), seq(32, _ => 0);
            var first, second := SigningKey(1, l + r + keys), SigningKey(1, r + zeros + keys);
            && Generate(c, seed, 1) == first && SizedKey(first) && SizedKey(second)
            && DeriveVk(c, first) == DeriveVk(c, second) == c.hash(keys)
            && Update(c, first, 0) == Some(second) && Update(c, second, 1) == None
            && Sign(c, first, 0, message) == Ok(Signature(1, c.edSign(l, message) + keys))
            && Sign(c, second, 1, message) == Ok(Signature(1, c.edSign(r, message) + keys))
  {
    hide VkLeft, VkRight, ChildKey, SeedRight, SkSize, Generate, Update, Sign;
    var l, r := c.hash([1] + seed), c.hash([2] + seed);
    var kl, kr, zeros := c.edKey(l), c.edKey(r), seq(32, _ => 0);
    LeafKeys(c, l, message);
    LeafKeys(c, r, message);
    Fields(0, l, r, kl, kr);
    Fields(0, r, zeros, kl, kr);
    TwoPeriodsGenerated(c, seed);
    assert l + r + kl + kr == l + r + (kl + kr) && r + zeros + kl + kr == r + zeros + (kl + kr);
    var first, second := SigningKey(1, l + r + kl + kr), SigningKey(1, r + zeros + kl + kr);
    TwoPeriodsUpdate(c, first, r);
    TwoPeriodsSign(c, first, 0, message);
    TwoPeriodsSign(c, second, 1, message);
    var sl, sr := c.edSign(l, message), c.edSign(r, message);
    assert sl + kl + kr == sl + (kl + kr) && sr + kl + kr == sr + (kl + kr);
  }

  lemma LeafKeys(c: Crypto, leaf: Bytes, message: Bytes)
    requires Sound(c) && |leaf| == 32
    ensures SizedKey(SigningKey(0, leaf)) && Generate(c, leaf, 0) == SigningKey(0, leaf)
    ensures DeriveVk(c, SigningKey(0, leaf)) == c.edKey(leaf)
    ensures Sign(c, SigningKey(0, leaf), 0, message) == Ok(Signature(0, c.edSign(leaf, message)))
  {
    assert leaf[..SEED_SIZE] == leaf;
  }

  lemma TwoPeriodsGenerated(c: Crypto, seed: Bytes)
    requires Sound(c) && |seed| == 32
    ensures var l, r := c.hash([1] + seed), c.hash([2] + seed);
            Generate(c, seed, 1) == SigningKey(1, l + r + c.edKey(l) + c.edKey(r))
  {
    hide DeriveVk, SizedKey;
    LeafKeys(c, c.hash([1] + seed), []);
    LeafKeys(c, c.hash([2] + seed), []);
  }

  lemma TwoPeriodsUpdate(c: Crypto, sk: SigningKey, r: Bytes)
    requires Sound(c) && sk.depth == 1 && SizedKey(sk) && SeedRight(sk) == r && |r| == 32
    ensures Update(c, sk, 0) == Some(SigningKey(1, r + seq(32, _ => 0) + VkLeft(sk) + VkRight(sk)))
    ensures forall other: SigningKey :: other.depth == 1 && SizedKey(other) ==> Update(c, other, 1) == None
  {
    hide VkLeft, VkRight, SeedRight, DeriveVk;
    assert ZeroSeed() == seq(32, _ => 0);
    assert Pow2(1) == 2;
  }

  lemma TwoPeriodsSign(c: Crypto, sk: SigningKey, p: nat, message: Bytes)
    requires sk.depth == 1 && SizedKey(sk) && p < 2 && |ChildKey(sk).data| == 32 && ChildKey(sk).depth == 0
    ensures Sign(c, sk, p, message)
         == Ok(Signature(1, c.edSign(ChildKey(sk).data, message) + VkLeft(sk) + VkRight(sk)))
  {
    hide VkLeft, VkRight, ChildKey, SkSize;
    assert Pow2(1) == 2 && Pow2(0) == 1;
    SignStep(c, sk, p, message);
    var leaf := ChildKey(sk).data;
    assert leaf[..SEED_SIZE] == leaf;
  }

  /** A signature over two periods: 64 bytes and the two keys, of which the period picks one. */
  lemma TwoPeriodsVerify(c: Crypto, vk: Bytes, p: nat, message: Bytes, base: Bytes, left: Bytes, right: Bytes)
    requires |base| == 64 && |left| == |right| == 32
    ensures var sig := Signature(1, base + left + right);
            && SizedSig(sig)
            && Verify(c, vk, p, message, sig) ==
                 if p > 1 then Err(InvalidPeriod)
                 else if vk != c.hash(left + right) then Err(KeyMismatch)
                 else if c.edVerify(if p == 0 then left else right, message, base) then Ok(())
                 else Err(BadSignature)
  {
    hide SigLeft, SigRight, Strip;
    assert Pow2(1) == 2;
    SigFields(0, base, left, right);
    assert base[..SIG_SIZE] == base;
  }

  // ----- binding -----------------------------------------------------------------

  /** The signature stores the tree's own key pairs along the path to leaf `p`. */
  ghost predicate OnPath(c: Crypto, seed: Bytes, depth: nat, p: nat, sig: Signature)
    requires sig.depth == depth && SizedSig(sig)
    decreases depth
  {
    depth > 0 ==>
      var l, r, half := LeftSeed(c, seed), RightSeed(c, seed), Pow2(depth - 1);
      && SigLeft(sig, depth - 1) == TreeVk(c, l, depth - 1)
      && SigRight(sig, depth - 1) == TreeVk(c, r, depth - 1)
      && (if p < half then OnPath(c, l, depth - 1, p, Strip(sig)) else OnPath(c, r, depth - 1, p - half, Strip(sig)))
  }

  ghost predicate Collision(c: Crypto, a: Bytes, b: Bytes) {
    a != b && |a| == |b| == 2 * VK_SIZE && c.hash(a) == c.hash(b)
  }

  /** Whatever verifies under the tree's key either follows the tree to leaf `p` and carries a base
      signature valid under that leaf's key, or exhibits a hash collision. */
  lemma {:induction false} PathBinding(c: Crypto, seed: Bytes, depth: nat, p: nat, message: Bytes, sig: Signature)
    returns (a: Bytes, b: Bytes)
    requires Sound(c) && |seed| == SEED_SIZE && p < Pow2(depth)
    requires sig.depth == depth && SizedSig(sig)
    requires Verify(c, TreeVk(c, seed, depth), p, message, sig) == Ok(())
    ensures Collision(c, a, b) ||
            (OnPath(c, seed, depth, p, sig)
             && c.edVerify(c.edKey(Leaves(c, seed, depth)[p]), message, sig.data[..SIG_SIZE]))
    decreases depth
  {
    hide TreeVk, SigLeft, SigRight, Strip;
    a, b := [], [];
    TreeVkUnfold(c, seed, depth);
    if depth > 0 {
      var l, r, half := LeftSeed(c, seed), RightSeed(c, seed), Pow2(depth - 1);
      a := SigLeft(sig, depth - 1) + SigRight(sig, depth - 1);
      b := TreeVk(c, l, depth - 1) + TreeVk(c, r, depth - 1);
      PairSizes(c, sig, l, r);
      if a == b {
        PairSplit(SigLeft(sig, depth - 1), SigRight(sig, depth - 1), TreeVk(c, l, depth - 1), TreeVk(c, r, depth - 1));
        if p < half {
          a, b := PathBinding(c, l, depth - 1, p, message, Strip(sig));
        } else {
          a, b := PathBinding(c, r, depth - 1, p - half, message, Strip(sig));
        }
      }
    }
  }

  /** The period does not enter a signature, as long as it is in range. */
  lemma {:induction false} PeriodNotSigned(c: Crypto, sk: SigningKey, p: nat, q: nat, message: Bytes)
    requires SizedKey(sk) && p < Pow2(sk.depth) && q < Pow2(sk.depth)
    ensures Sign(c, sk, p, message) == Sign(c, sk, q, message)
    decreases sk.depth
  {
    hide VkLeft, VkRight;
    if sk.depth > 0 {
      var half := Pow2(sk.depth - 1);
      SignStep(c, sk, p, message);
      SignStep(c, sk, q, message);
      PeriodNotSigned(c, ChildKey(sk), if p < half then p else p - half, if q < half then q else q - half, message);
    }
  }

  /** The base signature of the key of period `p` is that of leaf `p`. */
  lemma {:induction false} SignedByLeaf(c: Crypto, seed: Bytes, depth: nat, p: nat, message: Bytes)
    requires Sound(c) && |seed| == SEED_SIZE && p < Pow2(depth)
    ensures var sk := SigningKey(depth, KeyAt(c, seed, depth, p));
            && SizedKey(sk)
            && var sig := Sign(c, sk, p, message);
               sig.Ok? && |sig.value.data| >= SIG_SIZE
               && sig.value.data[..SIG_SIZE] == c.edSign(Leaves(c, seed, depth)[p], message)
    decreases depth
  {
    hide SkSize, ChildKey, SeedRight, VkLeft, VkRight, Sign, TreeVk;
    KeyAtSize(c, seed, depth, p);
    if depth == 0 {
      SignLeaf(c, seed, message);
      var s := c.edSign(seed, message);
      assert s[..SIG_SIZE] == s;
    } else {
      var sk := SigningKey(depth, KeyAt(c, seed, depth, p));
      var half := Pow2(depth - 1);
      KeyFields(c, seed, depth, p);
      SignStep(c, sk, p, message);
      if p < half {
        SignedByLeaf(c, LeftSeed(c, seed), depth - 1, p, message);
      } else {
        SignedByLeaf(c, RightSeed(c, seed), depth - 1, p - half, message);
      }
    }
  }

  /** Whatever period the key evolved to `p` is asked to sign for, it gives the signature of period `p`, or
      refuses a period out of range. That signature verifies at `p`; for it to verify at another period
      the base signature of leaf `p` must verify under the key of another leaf, or a collision is found. */
  lemma SignsOnePeriod(c: Crypto, seed: Bytes, depth: nat, p: nat, q: nat, message: Bytes) returns (a: Bytes, b: Bytes)
    requires Sound(c) && |seed| == SEED_SIZE && p < Pow2(depth)
    ensures var sk := Evolve(c, seed, depth, p);
            && sk.Some? && SizedKey(sk.value)
            && var sig := Sign(c, sk.value, q, message);
               if q >= Pow2(depth) then sig == Err(InvalidPeriod)
               else
                 && sig.Ok? && SizedSig(sig.value)
                 && Verify(c, TreeVk(c, seed, depth), p, message, sig.value) == Ok(())
                 && (Verify(c, TreeVk(c, seed, depth), q, message, sig.value) == Ok(()) ==>
                       var leaves := Leaves(c, seed, depth);
                       Collision(c, a, b) || c.edVerify(c.edKey(leaves[q]), message, c.edSign(leaves[p], message)))
  {
    hide KeyAt, Evolve, Verify, TreeVk, SkSize, Leaves, SigSize;
    a, b := [], [];
    EvolveClosed(c, seed, depth, p);
    KeyAtSize(c, seed, depth, p);
    if q < Pow2(depth) {
      var sk := SigningKey(depth, KeyAt(c, seed, depth, p));
      PeriodNotSigned(c, sk, p, q, message);
      SignVerifies(c, seed, depth, p, message);
      SignedByLeaf(c, seed, depth, p, message);
      var sig := Sign(c, sk, q, message).value;
      if Verify(c, TreeVk(c, seed, depth), q, message, sig) == Ok(()) {
        a, b := PathBinding(c, seed, depth, q, message, sig);
      }
    }
  }

  lemma TreeVkUnfold(c: Crypto, seed: Bytes, depth: nat)
    ensures TreeVk(c, seed, depth) ==
              if depth == 0 then c.edKey(seed)
              else c.hash(TreeVk(c, LeftSeed(c, seed), depth - 1) + TreeVk(c, RightSeed(c, seed), depth - 1))
  {
  }

  lemma PairSizes(c: Crypto, sig: Signature, l: Bytes, r: Bytes)
    requires Sound(c) && SizedSig(sig) && sig.depth > 0
    ensures |SigLeft(sig, sig.depth - 1)| == |SigRight(sig, sig.depth - 1)| == VK_SIZE
    ensures |TreeVk(c, l, sig.depth - 1)| == |TreeVk(c, r, sig.depth - 1)| == VK_SIZE
    ensures SizedSig(Strip(sig)) && Strip(sig).depth == sig.depth - 1
              && Strip(sig).data[..SIG_SIZE] == sig.data[..SIG_SIZE]
  {
    TreeVkSize(c, l, sig.depth - 1);
    TreeVkSize(c, r, sig.depth - 1);
  }

  lemma PairSplit(a: Bytes, b: Bytes, a': Bytes, b': Bytes)
    requires |a| == |a'| && a + b == a' + b'
    ensures a == a' && b == b'
  {
    assert a == (a + b)[..|a|] && a' == (a' + b')[..|a|];
    assert b == (a + b)[|a|..] && b' == (a' + b')[|a|..];
  }

  // ----- what verification accepts ------------------------------------------------

  /** Bit `i` of the period: the side taken at composition level `i`. */
  function TurnsRight(period: nat, i: nat): bool {
    (period / Pow2(i)) % 2 == 1
  }

  /** `chain[i]` is the key that level `i` verifies under: each key is the hash of the pair stored
      below it, and the bit of the period at that level says which half of the pair comes next. */
  ghost predicate IsKeyChain(c: Crypto, period: nat, sig: Signature, chain: seq<Bytes>)
    requires SizedSig(sig)
  {
    && |chain| == sig.depth + 1
    && (forall i :: 0 <= i < sig.depth ==> chain[i + 1] == c.hash(SigLeft(sig, i) + SigRight(sig, i)))
    && (forall i :: 0 <= i < sig.depth ==> chain[i] == if TurnsRight(period, i) then SigRight(sig, i)
      else SigLeft(sig, i))
  }

  /** A chain from the given key down to a leaf key under which the base signature verifies. */
  ghost predicate Authentic(c: Crypto, vk: Bytes, period: nat, message: Bytes, sig: Signature, chain: seq<Bytes>)
    requires SizedSig(sig)
  {
    IsKeyChain(c, period, sig, chain) && chain[sig.depth] == vk && c.edVerify(chain[0], message, sig.data[..SIG_SIZE])
  }


  lemma {:induction false} PeriodsSplit(i: nat, n: nat) returns (k: nat)
    requires i < n
    ensures Pow2(n) == Pow2(i) * (2 * k)
    decreases n
  {
    if i + 1 == n {
      k := 1;
    } else {
      var j := PeriodsSplit(i, n - 1);
      k := 2 * j;
      assert Pow2(i) * (2 * k) == 2 * (Pow2(i) * (2 * j));
    }
  }

  /** Taking off the top bit leaves the lower bits alone. */
  lemma LowerBits(period: nat, top: nat, i: nat)
    requires i < top && Pow2(top) <= period
    ensures TurnsRight(period - Pow2(top), i) == TurnsRight(period, i)
  {
    hide Pow2;
    var k := PeriodsSplit(i, top);
    var b := Pow2(i);
    var q, r := period / b, period % b;
    assert period == b * q + r;
    assert period - b * (2 * k) == b * (q - 2 * k) + r;
    DivUnique(period - b * (2 * k), b, q - 2 * k, r);
  }

  lemma TopBit(period: nat, top: nat)
    requires period < 2 * Pow2(top)
    ensures TurnsRight(period, top) <==> Pow2(top) <= period
  {
    hide Pow2;
    var b := Pow2(top);
    DivUnique(period, b, if b <= period then 1 else 0, if b <= period then period - b else period);
  }

  lemma StripPairs(sig: Signature, i: nat)
    requires SizedSig(sig) && sig.depth > 0 && i < sig.depth - 1
    ensures SizedSig(Strip(sig)) && Strip(sig).depth == sig.depth - 1
    ensures SigLeft(Strip(sig), i) == SigLeft(sig, i) && SigRight(Strip(sig), i) == SigRight(sig, i)
  {
    assert SigSize(i) + 2 * VK_SIZE <= SigSize(sig.depth - 1);
  }

  lemma StripBase(sig: Signature)
    requires SizedSig(sig) && sig.depth > 0
    ensures SizedSig(Strip(sig)) && Strip(sig).depth == sig.depth - 1
              && Strip(sig).data[..SIG_SIZE] == sig.data[..SIG_SIZE]
  {
  }

  /** The side of the outermost pair, and the period within it. */
  function NextKey(period: nat, sig: Signature): Bytes
    requires SizedSig(sig) && sig.depth > 0
  {
    if period < Pow2(sig.depth - 1) then SigLeft(sig, sig.depth - 1) else SigRight(sig, sig.depth - 1)
  }

  function NextPeriod(period: nat, depth: nat): nat {
    if period < Pow2(depth) then period else period - Pow2(depth)
  }

  lemma VerifyTop(c: Crypto, vk: Bytes, period: nat, message: Bytes, sig: Signature)
    requires SizedSig(sig) && sig.depth > 0
    ensures SizedSig(Strip(sig))
    ensures Verify(c, vk, period, message, sig) == Ok(()) <==>
              && period < Pow2(sig.depth)
              && vk == c.hash(SigLeft(sig, sig.depth - 1) + SigRight(sig, sig.depth - 1))
              && Verify(c, NextKey(period, sig), NextPeriod(period, sig.depth - 1), message, Strip(sig)) == Ok(())
  {
    hide SigLeft, SigRight;
    StripBase(sig);
  }

  /** One level of a chain: the outermost key on top of a chain of the stripped signature. */
  lemma ChainTop(c: Crypto, period: nat, sig: Signature, chain: seq<Bytes>)
    requires SizedSig(sig) && sig.depth > 0 && SizedSig(Strip(sig)) && period < Pow2(sig.depth)
    requires |chain| == sig.depth + 1
    ensures IsKeyChain(c, period, sig, chain) <==>
              && chain[sig.depth] == c.hash(SigLeft(sig, sig.depth - 1) + SigRight(sig, sig.depth - 1))
              && chain[sig.depth - 1] == NextKey(period, sig)
              && IsKeyChain(c, NextPeriod(period, sig.depth - 1), Strip(sig), chain[..sig.depth])
  {
    hide SigLeft, SigRight, Strip, TurnsRight;
    var d := sig.depth - 1;
    TopBit(period, d);
    StripBase(sig);
    forall i | 0 <= i < d
      ensures SigLeft(Strip(sig), i) == SigLeft(sig, i) && SigRight(Strip(sig), i) == SigRight(sig, i)
      ensures TurnsRight(NextPeriod(period, d), i) == TurnsRight(period, i)
    {
      StripPairs(sig, i);
      if Pow2(d) <= period {
        LowerBits(period, d, i);
      }
    }
    ChainSplit(c, period, sig, chain);
  }

  lemma ChainSplit(c: Crypto, period: nat, sig: Signature, chain: seq<Bytes>)
    requires SizedSig(sig) && sig.depth > 0 && SizedSig(Strip(sig)) && Strip(sig).depth == sig.depth - 1
    requires |chain| == sig.depth + 1
    requires forall i :: 0 <= i < sig.depth - 1 ==>
               && SigLeft(Strip(sig), i) == SigLeft(sig, i) && SigRight(Strip(sig), i) == SigRight(sig, i)
               && TurnsRight(NextPeriod(period, sig.depth - 1), i) == TurnsRight(period, i)
    requires TurnsRight(period, sig.depth - 1) <==> Pow2(sig.depth - 1) <= period
    ensures IsKeyChain(c, period, sig, chain) <==>
              && chain[sig.depth] == c.hash(SigLeft(sig, sig.depth - 1) + SigRight(sig, sig.depth - 1))
              && chain[sig.depth - 1] == NextKey(period, sig)
              && IsKeyChain(c, NextPeriod(period, sig.depth - 1), Strip(sig), chain[..sig.depth])
  {
    hide SigLeft, SigRight, Strip, TurnsRight, Pow2;
    var d := sig.depth - 1;
    if IsKeyChain(c, NextPeriod(period, d), Strip(sig), chain[..sig.depth])
       && chain[sig.depth] == c.hash(SigLeft(sig, d) + SigRight(sig, d)) && chain[d] == NextKey(period, sig) {
      forall i | 0 <= i < sig.depth
        ensures chain[i + 1] == c.hash(SigLeft(sig, i) + SigRight(sig, i))
        ensures chain[i] == if TurnsRight(period, i) then SigRight(sig, i) else SigLeft(sig, i)
      {
        if i < d {
          assert chain[..sig.depth][i + 1] == chain[i + 1] && chain[..sig.depth][i] == chain[i];
        }
      }
    }
  }

  lemma {:induction false} AcceptedHasChain(c: Crypto, vk: Bytes, period: nat, message: Bytes, sig: Signature)
    returns (chain: seq<Bytes>)
    requires SizedSig(sig) && Verify(c, vk, period, message, sig) == Ok(())
    ensures Authentic(c, vk, period, message, sig, chain)
    decreases sig.depth
  {
    hide SigLeft, SigRight, Strip, TurnsRight, Pow2;
    if sig.depth == 0 {
      chain := [vk];
    } else {
      VerifyTop(c, vk, period, message, sig);
      StripBase(sig);
      var below := AcceptedHasChain(c, NextKey(period, sig), NextPeriod(period, sig.depth - 1), message, Strip(sig));
      chain := below + [vk];
      assert chain[..sig.depth] == below;
      ChainTop(c, period, sig, chain);
    }
  }

  lemma {:induction false} ChainIsAccepted(c: Crypto, vk: Bytes, period: nat, message: Bytes, sig: Signature,
                                           chain: seq<Bytes>)
    requires SizedSig(sig) && Authentic(c, vk, period, message, sig, chain)
    requires sig.depth > 0 ==> period < Pow2(sig.depth)
    ensures Verify(c, vk, period, message, sig) == Ok(())
    decreases sig.depth
  {
    hide SigLeft, SigRight, Strip, TurnsRight;
    if sig.depth > 0 {
      VerifyTop(c, vk, period, message, sig);
      StripBase(sig);
      ChainTop(c, period, sig, chain);
      ChainIsAccepted(c, NextKey(period, sig), NextPeriod(period, sig.depth - 1), message, Strip(sig),
        chain[..sig.depth]);
    }
  }

  /** Verification accepts exactly the signatures whose stored pairs hash up to the key along the bits
      of the period, above a leaf key under which the base signature verifies. The period must lie in
      the range of the depth, except at depth 0, where it is not looked at. */
  lemma VerifyExactly(c: Crypto, vk: Bytes, period: nat, message: Bytes, sig: Signature)
    requires SizedSig(sig)
    ensures Verify(c, vk, period, message, sig) == Ok(()) <==>
              (sig.depth > 0 ==> period < Pow2(sig.depth))
                && exists chain :: Authentic(c, vk, period, message, sig, chain)
  {
    hide Authentic;
    if Verify(c, vk, period, message, sig) == Ok(()) {
      var chain := AcceptedHasChain(c, vk, period, message, sig);
    }
    forall chain | (sig.depth > 0 ==> period < Pow2(sig.depth)) && Authentic(c, vk, period, message, sig, chain)
      ensures Verify(c, vk, period, message, sig) == Ok(())
    {
      ChainIsAccepted(c, vk, period, message, sig, chain);
    }
  }
}
