/** The reduction of a 64-byte hash to a 32-byte representative modulo 2^255 - 19. */
module VrfReduce {
  import opened Bytes
  import opened Division
  import opened Saturating

  /** 2^255, as the weight of the top bit of a 32-byte number. */
  ghost function TopBit(): nat { 128 * Pow256(31) }

  /** The field prime 2^255 - 19. */
  ghost function Prime(): (p: nat)
    ensures p > 741
  {
    PowLarge();
    TopBit() - 19
  }

  lemma PowLarge()
    ensures Pow256(31) >= 65536 && Pow256(32) == 256 * Pow256(31)
  {
    PowAtLeast(31);
    PowNext(31);
  }

  lemma PowAtLeast(n: nat)
    requires n >= 2
    ensures Pow256(n) >= 65536
  {
    assert Pow256(n - 1) == 256 * Pow256(n - 2);
  }

  lemma PowNext(n: nat)
    ensures Pow256(n + 1) == 256 * Pow256(n)
  {
  }

  lemma PowOne()
    ensures Pow256(1) == 256
  {
  }

  /** The prime, written out. */
  lemma PrimeIs()
    ensures Prime() == 0x7fff_ffff_ffff_ffff_ffff_ffff_ffff_ffff_ffff_ffff_ffff_ffff_ffff_ffff_ffff_ffed
  {
    hide Pow256;
    PowOne();
    PowAdd(1, 1, 1);
    PowAdd(2, 1, 1);
    PowAdd(2, 2, 1);
    PowAdd(4, 4, 1);
    PowAdd(8, 8, 1);
    PowAdd(16, 8, 1);
    PowAdd(24, 4, 1);
    PowAdd(28, 3, 1);
  }

  // ----- the carry loops ------------------------------------------------------------

  /** Adds a 16-bit number into a buffer, one byte at a time, while a carry is left. */
  method AddCarry(a: array<byte>, extra: U16)
    requires extra <= 741
    requires LittleEndian(a[..]) + extra < Pow256(a.Length)
    modifies a
    ensures LittleEndian(a[..]) == old(LittleEndian(a[..])) + extra
  {
    ghost var total := LittleEndian(a[..]) + extra;
    var carry: U16, i := extra, 0;
    assert carry * Pow256(0) == carry;
    while carry > 0
      invariant 0 <= i <= a.Length && carry <= 741
      invariant LittleEndian(a[..]) + carry * Pow256(i) == total
      decreases a.Length - i
    {
      CarryFits(total, LittleEndian(a[..]), carry, i, a.Length);
      ghost var before := a[..];
      var v: U16 := a[i] + carry % 256;
      var low: byte := v % 256;
      CarryStep(before, i, carry, v, low);
      a[i] := low;
      assert a[..] == before[i := low];
      carry := carry / 256 + v / 256;
      i := i + 1;
    }
  }

  /** A carry at the end of the buffer would exceed the buffer's capacity. */
  lemma CarryFits(total: nat, value: nat, carry: nat, i: nat, n: nat)
    requires i <= n && carry > 0
    requires value + carry * Pow256(i) == total < Pow256(n)
    ensures i < n
  {
    ByteTimes(1, carry, Pow256(i));
  }

  lemma CarryStep(s: seq<byte>, i: nat, carry: nat, v: nat, low: byte)
    requires i < |s| && v == s[i] + carry % 256 && low == v % 256
    ensures LittleEndian(s[i := low]) + (carry / 256 + v / 256) * Pow256(i + 1)
         == LittleEndian(s) + carry * Pow256(i)
  {
    LittleEndianUpdate(s, i, low);
    var p, next := Pow256(i), carry / 256 + v / 256;
    Times256(next, p);
    Regroup(low - s[i], next, p, carry);
  }

  lemma Regroup(low: int, next: int, p: int, carry: int)
    requires low + 256 * next == carry
    ensures low * p + 256 * (next * p) == carry * p
  {
    assert (low + 256 * next) * p == low * p + 256 * (next * p);
  }

  /** The 33-byte value `lower + 38 * upper`. */
  method AddScaled38(lower: seq<byte>, upper: seq<byte>, reduced: array<byte>)
    requires |lower| == |upper| == 32 && reduced.Length == 33
    requires forall k :: 0 <= k < 33 ==> reduced[k] == 0
    modifies reduced
    ensures LittleEndian(reduced[..]) == LittleEndian(lower) + 38 * LittleEndian(upper)
  {
    hide Pow256, LittleEndian;
    var carry: U16 := 0;
    LittleEndianZeros(reduced[..]);
    LittleEndianZeros(lower[..0]);
    LittleEndianZeros(upper[..0]);
    for i := 0 to 32
      invariant carry <= 38
      invariant forall k :: i <= k < 33 ==> reduced[k] == 0
      invariant LittleEndian(reduced[..]) + carry * Pow256(i)
             == LittleEndian(lower[..i]) + 38 * LittleEndian(upper[..i])
    {
      var v: U16 := lower[i] + upper[i] * 38 + carry;
      ghost var before := reduced[..];
      var low: byte := v % 256;
      ScaledStep(before, lower, upper, i, carry, v, low);
      reduced[i] := low;
      assert reduced[..] == before[i := low];
      carry := v / 256;
    }
    ghost var before := reduced[..];
    var top: byte := carry;
    LittleEndianUpdate(before, 32, top);
    reduced[32] := top;
    assert reduced[..] == before[32 := top];
    assert lower[..32] == lower && upper[..32] == upper;
  }

  lemma ScaledStep(s: seq<byte>, lower: seq<byte>, upper: seq<byte>, i: nat, carry: nat, v: nat, low: byte)
    requires i < |s| && s[i] == 0 && i < |lower| && i < |upper|
    requires v == lower[i] + upper[i] * 38 + carry && low == v % 256
    requires LittleEndian(s) + carry * Pow256(i) == LittleEndian(lower[..i]) + 38 * LittleEndian(upper[..i])
    ensures LittleEndian(s[i := low]) + (v / 256) * Pow256(i + 1)
         == LittleEndian(lower[..i + 1]) + 38 * LittleEndian(upper[..i + 1])
  {
    LittleEndianUpdate(s, i, low);
    var p := Pow256(i);
    assert lower[..i + 1][..i] == lower[..i] && upper[..i + 1][..i] == upper[..i];
    Times256(v / 256, p);
    Regroup(low, v / 256, p, v);
    Spread(lower[i], upper[i], carry, p);
  }

  lemma Spread(x: int, y: int, c: int, p: int)
    ensures (x + y * 38 + c) * p == x * p + 38 * (y * p) + c * p
  {
  }

  // ----- clearing the top bit ---------------------------------------------------------

  /** Clears bit 255 of a 32-byte number and returns it. */
  method ClearTopBit(a: array<byte>) returns (bit: U16)
    requires a.Length == 32
    modifies a
    ensures bit <= 1
    ensures LittleEndian(a[..]) < TopBit()
    ensures old(LittleEndian(a[..])) == LittleEndian(a[..]) + bit * TopBit()
  {
    hide Pow256, LittleEndian, TopBit;
    bit := a[31] / 128;
    ghost var before := a[..];
    var low: byte := a[31] % 128;
    TopBitCleared(before, low, bit);
    a[31] := low;
    assert a[..] == before[31 := low];
  }

  lemma TopBitCleared(s: seq<byte>, low: byte, bit: nat)
    requires |s| == 32 && low == s[31] % 128 && bit == s[31] / 128
    ensures LittleEndian(s[31 := low]) < TopBit()
    ensures LittleEndian(s) == LittleEndian(s[31 := low]) + bit * TopBit()
  {
    hide Pow256, LittleEndian;
    LittleEndianUpdate(s, 31, low);
    BelowTop(s[31 := low]);
    Regroup128(low - s[31], bit, Pow256(31));
  }

  lemma Regroup128(low: int, bit: nat, p: nat)
    requires low == -128 * bit
    ensures low * p == -(bit * (128 * p))
  {
    assert bit * (128 * p) == 128 * (bit * p);
    assert (-128 * bit) * p == -128 * (bit * p);
  }

  /** A 32-byte number with its top bit clear is below 2^255. */
  lemma BelowTop(s: seq<byte>)
    requires |s| == 32 && s[31] < 128
    ensures LittleEndian(s) < TopBit()
  {
    LittleEndianBound(s[..31]);
    ByteTimes(s[31], 127, Pow256(31));
  }

  // ----- the folds ----------------------------------------------------------------------

  /** Adds 19 through all 32 bytes; the sum is small enough to leave no carry. */
  method AddNineteen(a: array<byte>)
    requires a.Length == 32 && LittleEndian(a[..]) < 741
    modifies a
    ensures LittleEndian(a[..]) == old(LittleEndian(a[..])) + 19
  {
    hide Pow256, LittleEndian;
    var c: U16 := 19;
    ghost var total := LittleEndian(a[..]) + 19;
    PowZero();
    for i := 0 to 32
      invariant c <= 19
      invariant LittleEndian(a[..]) + c * Pow256(i) == total
    {
      ghost var before := a[..];
      var v: U16 := c + a[i];
      var low: byte := v % 256;
      CarryStep(before, i, c, v, low);
      a[i] := low;
      assert a[..] == before[i := low];
      c := v / 256;
    }
    PowLarge();
    NoCarry(c, Pow256(32), total);
  }

  lemma PowZero()
    ensures Pow256(0) == 1
  {
  }

  lemma NoCarry(c: nat, p: nat, total: nat)
    requires c * p <= total < p
    ensures c == 0
  {
    if c > 0 {
      ByteTimes(1, c, p);
    }
  }

  /** Folds bit 255 once more, if the first fold set it. */
  method SecondFold(a: array<byte>) returns (bit: U16)
    requires a.Length == 32 && LittleEndian(a[..]) < TopBit() + 741
    modifies a
    ensures LittleEndian(a[..]) < TopBit()
    ensures old(LittleEndian(a[..])) == LittleEndian(a[..]) + bit * Prime()
  {
    hide Pow256, LittleEndian;
    PowLarge();
    bit := ClearTopBit(a);
    if bit != 0 {
      AddNineteen(a);
      var spare := ClearTopBit(a);
      NoCarry(spare, TopBit(), LittleEndian(old(a[..])) - TopBit() + 19);
    }
  }

  // ----- the whole reduction --------------------------------------------------------------

  /** Splitting the top byte and the top bit off a 33-byte number. */
  lemma SplitHigh(h: nat, low: nat, bit: nat, top: nat, high: nat)
    requires high == bit + top * 2
    requires low + bit * h + top * (2 * h) < 40 * h
    ensures low + high * h == low + bit * h + top * (2 * h) && high < 40
  {
    assert high * h == bit * h + top * (2 * h);
    SmallFactor(high, 40, h);
  }

  lemma SmallFactor(x: nat, y: nat, h: nat)
    requires x * h < y * h
    ensures x < y
  {
    if x >= y {
      ByteTimes(y, x, h);
      assert false;
    }
  }

  lemma LittleEndianLast(s: seq<byte>, n: nat)
    requires |s| == n + 1
    ensures LittleEndian(s) == LittleEndian(s[..n]) + s[n] * Pow256(n)
  {
  }

  lemma TopTwice()
    ensures Pow256(32) == 2 * TopBit() && Pow256(33) == 512 * TopBit() && TopBit() > 741
  {
    hide Pow256;
    PowLarge();
    PowNext(32);
  }

  /** Both halves folded with 2^255 = 19 and 2^511 = 722. */
  lemma HalvesFold(h: nat, l: nat, lb: nat, u: nat, ub: nat) returns (k: nat)
    requires h > 19
    ensures (l + lb * h) + (u + ub * h) * (2 * h)
         == (l + 38 * u + (lb * 19 + ub * 722)) + k * (h - 19)
  {
    k := lb + 2 * u + 2 * (ub * (h + 19));
    var p := h - 19;
    assert (u + ub * h) * (2 * h) == 2 * (u * h) + 2 * (ub * h * h);
    assert lb * p == lb * h - 19 * lb;
    assert u * p == u * h - 19 * u;
    assert (ub * (h + 19)) * p == ub * h * h - 361 * ub;
    assert k * p == lb * p + 2 * (u * p) + 2 * ((ub * (h + 19)) * p);
  }

  /** The representative is below 2^255 and congruent to the 64-byte little-endian input. */
  method ReduceHashInput(input: seq<byte>) returns (r: seq<byte>)
    requires |input| == 64
    ensures |r| == 32
    ensures LittleEndian(r) < TopBit()
    ensures LittleEndian(r) % Prime() == LittleEndian(input) % Prime()
  {
    hide Pow256, LittleEndian, TopBit, Prime;
    TopTwice();
    var lower := new byte[32](i requires 0 <= i < 32 => input[i]);
    var upper := new byte[32](i requires 0 <= i < 32 => input[i + 32]);
    assert input == lower[..] + upper[..];
    LittleEndianConcat(lower[..], upper[..]);
    var lowerBit := ClearTopBit(lower);
    var upperBit := ClearTopBit(upper);
    ghost var l, u, h := LittleEndian(lower[..]), LittleEndian(upper[..]), TopBit();

    var reduced := new byte[33](_ => 0);
    AddScaled38(lower[..], upper[..], reduced);
    AddCarry(reduced, lowerBit * 19 + upperBit * 722);
    ghost var k1 := HalvesFold(h, l, lowerBit, u, upperBit);
    ghost var sum := LittleEndian(reduced[..]);

    var result := new byte[32](i requires 0 <= i < 32 reads reduced => reduced[i]);
    assert result[..] == reduced[..][..32];
    var bit := ClearTopBit(result);
    ghost var low := LittleEndian(result[..]);
    var top: U16 := reduced[32];
    var high: U16 := bit + top * 2;
    LittleEndianLast(reduced[..], 32);
    SplitHigh(h, low, bit, top, high);
    AddCarry(result, high * 19);
    var again := SecondFold(result);
    r := result[..];
    Residues(LittleEndian(input), sum, k1, low, high, LittleEndian(r), again);
  }

  lemma Residues(input: nat, sum: nat, k: nat, low: nat, high: nat, r: nat, again: nat)
    requires input == sum + k * (TopBit() - 19)
    requires sum == low + high * TopBit()
    requires low + high * 19 == r + again * Prime()
    ensures r % Prime() == input % Prime()
  {
    hide TopBit;
    var p := Prime();
    assert TopBit() == p + 19 by { PrimeTop(); }
    assert high * (p + 19) == high * p + high * 19;
    SameResidue(input, sum, k, p);
    SameResidue(sum, low + high * 19, high, p);
    SameResidue(low + high * 19, r, again, p);
  }

  lemma PrimeTop()
    ensures TopBit() == Prime() + 19
  {
  }
}
