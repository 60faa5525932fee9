/** Finite sums over sets, and saturating 64-bit arithmetic. */
module Sums {

  /** The sum of `f` over the elements of `s`. */
  ghost function Sum<T(!new)>(s: set<T>, f: T -> int): int
  {
    if s == {} then 0
    else
      var x :| x in s;
      f(x) + Sum(s - {x}, f)
  }

  /** Any element may be taken out first. */
  lemma {:induction false} SumTake<T(!new)>(s: set<T>, f: T -> int, x: T)
    requires x in s
    ensures Sum(s, f) == f(x) + Sum(s - {x}, f)
    decreases |s|
  {
    var y :| y in s && Sum(s, f) == f(y) + Sum(s - {y}, f);
    if y != x {
      SumTake(s - {y}, f, x);
      SumTake(s - {x}, f, y);
      assert s - {y} - {x} == s - {x} - {y};
    }
  }

  lemma SumInsert<T(!new)>(s: set<T>, f: T -> int, x: T)
    requires x !in s
    ensures Sum(s + {x}, f) == f(x) + Sum(s, f)
  {
    SumTake(s + {x}, f, x);
    assert s + {x} - {x} == s;
  }

  lemma {:induction false} SumSame<T(!new)>(s: set<T>, f: T -> int, g: T -> int)
    requires forall x :: x in s ==> f(x) == g(x)
    ensures Sum(s, f) == Sum(s, g)
    decreases |s|
  {
    if s != {} {
      var x :| x in s;
      SumTake(s, f, x);
      SumTake(s, g, x);
      SumSame(s - {x}, f, g);
    }
  }

  /** Changing `f` at one point changes the sum by the difference there. */
  lemma SumChange<T(!new)>(s: set<T>, f: T -> int, g: T -> int, x: T)
    requires x in s
    requires forall y :: y in s && y != x ==> f(y) == g(y)
    ensures Sum(s, g) == Sum(s, f) - f(x) + g(x)
  {
    SumTake(s, f, x);
    SumTake(s, g, x);
    SumSame(s - {x}, f, g);
  }

  lemma {:induction false} SumUnion<T(!new)>(s: set<T>, t: set<T>, f: T -> int)
    requires s !! t
    ensures Sum(s + t, f) == Sum(s, f) + Sum(t, f)
    decreases |t|
  {
    if t == {} {
      assert s + t == s;
    } else {
      var x :| x in t;
      SumTake(t, f, x);
      SumTake(s + t, f, x);
      assert s + t - {x} == s + (t - {x});
      SumUnion(s, t - {x}, f);
    }
  }

  lemma {:induction false} SumLinear<T(!new)>(s: set<T>, f: T -> int, g: T -> int, h: T -> int)
    requires forall x :: x in s ==> h(x) == f(x) + g(x)
    ensures Sum(s, h) == Sum(s, f) + Sum(s, g)
    decreases |s|
  {
    if s != {} {
      var x :| x in s;
      SumTake(s, f, x);
      SumTake(s, g, x);
      SumTake(s, h, x);
      SumLinear(s - {x}, f, g, h);
    }
  }

  /** A pointwise lower bound of 0 bounds the sum, and every single term. */
  lemma {:induction false} SumBounds<T(!new)>(s: set<T>, f: T -> int)
    requires forall x :: x in s ==> 0 <= f(x)
    ensures 0 <= Sum(s, f)
    ensures forall x :: x in s ==> f(x) <= Sum(s, f)
    decreases |s|
  {
    if s != {} {
      var y :| y in s;
      SumTake(s, f, y);
      SumBounds(s - {y}, f);
    }
  }

  lemma {:induction false} SumZero<T(!new)>(s: set<T>, f: T -> int)
    requires forall x :: x in s ==> f(x) == 0
    ensures Sum(s, f) == 0
    decreases |s|
  {
    if s != {} {
      var x :| x in s;
      SumTake(s, f, x);
      SumZero(s - {x}, f);
    }
  }

  lemma SumOnly<T(!new)>(s: set<T>, f: T -> int, x: T)
    requires forall y :: y in s && y != x ==> f(y) == 0
    ensures Sum(s, f) == if x in s then f(x) else 0
  {
    SumZero(s - {x}, f);
    if x in s {
      SumTake(s, f, x);
    } else {
      assert s - {x} == s;
    }
  }

  lemma {:induction false} SumMonotone<T(!new)>(s: set<T>, f: T -> int, g: T -> int)
    requires forall x :: x in s ==> f(x) <= g(x)
    ensures Sum(s, f) <= Sum(s, g)
    decreases |s|
  {
    if s != {} {
      var x :| x in s;
      SumTake(s, f, x);
      SumTake(s, g, x);
      SumMonotone(s - {x}, f, g);
    }
  }

  lemma SumSubset<T(!new)>(s: set<T>, t: set<T>, f: T -> int)
    requires s <= t
    requires forall x :: x in t ==> 0 <= f(x)
    ensures Sum(s, f) <= Sum(t, f)
  {
    SumUnion(s, t - s, f);
    SumBounds(t - s, f);
    assert s + (t - s) == t;
  }
}

module Saturating {
  const U64_MAX: int := 0xFFFF_FFFF_FFFF_FFFF

  type U64 = x: int | 0 <= x <= U64_MAX

  type U16 = x: int | 0 <= x < 0x1_0000

  function SatAdd(a: U64, b: nat): (r: U64)
    ensures a <= r
    ensures a + b <= U64_MAX <==> r == a + b
  {
    if a + b <= U64_MAX then a + b else U64_MAX
  }

  function SatSub(a: U64, b: nat): (r: U64)
    ensures r <= a
    ensures b <= a <==> r == a - b
  {
    if b <= a then a - b else 0
  }

  /** An integer brought into the u64 range. */
  function Clamp(n: int): U64 {
    if n < 0 then 0 else if n > U64_MAX then U64_MAX else n
  }

  /** How far a number lies below zero. */
  function Below0(n: int): nat {
    if n < 0 then -n else 0
  }

  function Wrap64(n: nat): U64 {
    n % 0x1_0000_0000_0000_0000
  }

  const I64_MAX: int := 0x7FFF_FFFF_FFFF_FFFF

  type I64 = x: int | -I64_MAX - 1 <= x <= I64_MAX

  /** Two's-complement wrap-around. */
  function WrapI64(n: int): I64 {
    (n + I64_MAX + 1) % 0x1_0000_0000_0000_0000 - I64_MAX - 1
  }

  /** The lowest number is its own negative. */
  function NegateI64(n: I64): I64 {
    if n == -I64_MAX - 1 then n else -n
  }

  /** Wrapping takes off the multiple of 2^64 that leads into the range, and a signed negation wraps. */
  lemma Wraps(u: U64, i: I64, k: int)
    ensures k >= 0 ==> Wrap64(u + k * 0x1_0000_0000_0000_0000) == u
    ensures WrapI64(i + k * 0x1_0000_0000_0000_0000) == i
    ensures var n: int := i;
            NegateI64(i) == WrapI64(-n)
  {
  }
}
