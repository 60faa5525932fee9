/** Powers of two, and division with remainder for divisors that are not literals. */
module Division {
  function Pow2(k: nat): (p: nat)
    ensures p >= 1
  {
    if k == 0 then 1 else 2 * Pow2(k - 1)
  }

  lemma SmallMultiple(b: nat, k: int, d: int)
    requires b * k == d && 0 < d + b && d < b
    ensures k == 0
  {
    assert b * (k - 1) == d - b;
    assert b * (k + 1) == d + b;
    assert k >= 1 ==> b * (k - 1) >= 0;
    assert k <= -1 ==> b * (k + 1) <= 0;
  }

  /** The quotient and the remainder are the only such pair. */
  lemma DivUnique(a: int, b: nat, q: int, r: nat)
    requires a == b * q + r && r < b
    ensures q == a / b && r == a % b
  {
    var q', r' := a / b, a % b;
    assert a == b * q' + r';
    assert b * (q - q') == r' - r;
    SmallMultiple(b, q - q', r' - r);
  }

  lemma SameResidue(x: int, y: int, k: int, b: nat)
    requires b > 0 && x == y + k * b
    ensures x % b == y % b
  {
    assert y == b * (y / b) + y % b;
    assert x == b * (y / b + k) + y % b;
    DivUnique(x, b, y / b + k, y % b);
  }
}

/** Byte strings as numbers, in both byte orders. */
module Bytes {
  type byte = x: int | 0 <= x < 256

  /** 256^k. */
  function Pow256(k: nat): (p: nat)
    ensures p >= 1
  {
    if k == 0 then 1 else 256 * Pow256(k - 1)
  }

  /** The little-endian value: byte i weighs 256^i. */
  function LittleEndian(s: seq<byte>): nat {
    if s == [] then 0
    else LittleEndian(s[..|s| - 1]) + s[|s| - 1] * Pow256(|s| - 1)
  }

  /** The big-endian value: the last byte weighs 1. */
  function BigEndian(s: seq<byte>): nat {
    if s == [] then 0 else BigEndian(s[..|s| - 1]) * 256 + s[|s| - 1]
  }

  lemma {:induction false} LittleEndianBound(s: seq<byte>)
    ensures LittleEndian(s) < Pow256(|s|)
  {
    if s != [] {
      LittleEndianBound(s[..|s| - 1]);
      ByteTimes(s[|s| - 1], 255, Pow256(|s| - 1));
    }
  }

  lemma ByteTimes(x: nat, y: nat, p: nat)
    requires x <= y
    ensures x * p <= y * p
  {
  }

  /** Replacing byte i moves the value by the difference times the weight of i. */
  lemma {:induction false} LittleEndianUpdate(s: seq<byte>, i: nat, x: byte)
    requires i < |s|
    ensures LittleEndian(s[i := x]) == LittleEndian(s) + (x - s[i]) * Pow256(i)
  {
    var n, t := |s| - 1, s[i := x];
    if i == n {
      assert t[..n] == s[..n];
      assert (x - s[n]) * Pow256(n) == x * Pow256(n) - s[n] * Pow256(n);
    } else {
      LittleEndianUpdate(s[..n], i, x);
      assert t[..n] == s[..n][i := x];
      assert t[n] == s[n];
    }
  }

  lemma {:induction false} LittleEndianZeros(s: seq<byte>)
    requires forall k :: 0 <= k < |s| ==> s[k] == 0
    ensures LittleEndian(s) == 0
  {
    if s != [] {
      LittleEndianZeros(s[..|s| - 1]);
    }
  }

  lemma {:induction false} PowAdd(j: nat, k: nat, x: nat)
    ensures x * Pow256(j) * Pow256(k) == x * Pow256(j + k)
    decreases k
  {
    if k > 0 {
      PowAdd(j, k - 1, x);
      Times256(x * Pow256(j), Pow256(k - 1));
      Times256(x, Pow256(j + k - 1));
    }
  }

  lemma Times256(x: nat, p: nat)
    ensures x * (256 * p) == 256 * (x * p)
  {
  }

  /** A concatenation: the high part is shifted past the low part. */
  lemma {:induction false} LittleEndianConcat(a: seq<byte>, b: seq<byte>)
    ensures LittleEndian(a + b) == LittleEndian(a) + LittleEndian(b) * Pow256(|a|)
    decreases |b|
  {
    if b == [] {
      assert a + b == a;
    } else {
      var n := |b| - 1;
      LittleEndianConcat(a, b[..n]);
      assert (a + b)[..|a| + n] == a + b[..n];
      assert (a + b)[|a| + n] == b[n];
      PowAdd(n, |a|, b[n]);
      AddScaled(LittleEndian(b[..n]), b[n] * Pow256(n), Pow256(|a|));
    }
  }

  lemma AddScaled(x: nat, y: nat, p: nat)
    ensures (x + y) * p == x * p + y * p
  {
  }

  lemma {:induction false} BigEndianConcat(a: seq<byte>, b: seq<byte>)
    ensures BigEndian(a + b) == BigEndian(a) * Pow256(|b|) + BigEndian(b)
    decreases |b|
  {
    if b == [] {
      assert a + b == a;
    } else {
      var n := |b| - 1;
      BigEndianConcat(a, b[..n]);
      assert (a + b)[..|a| + n] == a + b[..n];
      assert (a + b)[|a| + n] == b[n];
      var high, low, p := BigEndian(a), BigEndian(b[..n]), Pow256(n);
      assert (high * p + low) * 256 == 256 * (high * p) + low * 256;
      Times256(high, p);
    }
  }

  function Reverse(s: seq<byte>): (r: seq<byte>)
    ensures |r| == |s|
    ensures forall k :: 0 <= k < |s| ==> r[k] == s[|s| - 1 - k]
  {
    seq(|s|, i requires 0 <= i < |s| => s[|s| - 1 - i])
  }

  /** Reading reversed bytes in the other order gives the same number. */
  lemma {:induction false} ReverseValue(s: seq<byte>)
    ensures LittleEndian(Reverse(s)) == BigEndian(s)
    decreases |s|
  {
    if s != [] {
      var n := |s| - 1;
      ReverseValue(s[..n]);
      assert Reverse(s) == [s[n]] + Reverse(s[..n]);
      LittleEndianConcat([s[n]], Reverse(s[..n]));
      LittleEndianOne(s[n]);
    }
  }

  lemma LittleEndianOne(x: byte)
    ensures LittleEndian([x]) == x && Pow256(1) == 256
  {
    assert [x][..0] == [];
    assert Pow256(0) == 1;
    assert x * 1 == x;
  }

  /** Zero bytes past the end do not change a little-endian value. */
  lemma LittleEndianPadded(a: seq<byte>, zeros: seq<byte>)
    requires forall k :: 0 <= k < |zeros| ==> zeros[k] == 0
    ensures LittleEndian(a + zeros) == LittleEndian(a)
  {
    LittleEndianConcat(a, zeros);
    LittleEndianZeros(zeros);
  }
}
