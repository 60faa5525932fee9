/** UTF-8, section 4 of RFC 3629: which byte strings are text. */
module Utf8 {
  import opened Bytes

  predicate Between(s: seq<byte>, i: nat, low: byte, high: byte) {
    i < |s| && low <= s[i] <= high
  }

  predicate Continues(s: seq<byte>, i: nat) { Between(s, i, 0x80, 0xbf) }

  /** The length of the character at the front, or 0 if there is none. */
  function FirstLength(s: seq<byte>): (n: nat)
    ensures n <= |s|
  {
    if s == [] then 0
    else if s[0] < 0x80 then 1
    else if 0xc2 <= s[0] <= 0xdf && Continues(s, 1) then 2
    else if 0xe0 <= s[0] <= 0xef && SecondOfThree(s) && Continues(s, 2) then 3
    else if 0xf0 <= s[0] <= 0xf4 && SecondOfFour(s) && Continues(s, 2) && Continues(s, 3) then 4
    else 0
  }

  /** No overlong form and no surrogate. */
  predicate SecondOfThree(s: seq<byte>)
    requires s != []
  {
    if s[0] == 0xe0 then Between(s, 1, 0xa0, 0xbf)
    else if s[0] == 0xed then Between(s, 1, 0x80, 0x9f)
    else Continues(s, 1)
  }

  /** No overlong form and nothing above 10FFFF. */
  predicate SecondOfFour(s: seq<byte>)
    requires s != []
  {
    if s[0] == 0xf0 then Between(s, 1, 0x90, 0xbf)
    else if s[0] == 0xf4 then Between(s, 1, 0x80, 0x8f)
    else Continues(s, 1)
  }

  predicate IsUtf8(s: seq<byte>)
    decreases |s|
  {
    s == [] || (FirstLength(s) > 0 && IsUtf8(s[FirstLength(s)..]))
  }

  // ----- the same from the characters ------------------------------------------------------------

  /** The code points that are characters: all but the surrogates. */
  type Scalar = c: int | 0 <= c < 0xd800 || 0xe000 <= c < 0x110000

  function EncodeScalar(c: Scalar): (s: seq<byte>)
    ensures s != []
  {
    if c < 0x80 then [c]
    else if c < 0x800 then [0xc0 + c / 64, 0x80 + c % 64]
    else if c < 0x10000 then [0xe0 + c / 4096, 0x80 + c / 64 % 64, 0x80 + c % 64]
    else [0xf0 + c / 262144, 0x80 + c / 4096 % 64, 0x80 + c / 64 % 64, 0x80 + c % 64]
  }

  function EncodeScalars(cs: seq<Scalar>): seq<byte> {
    if cs == [] then [] else EncodeScalar(cs[0]) + EncodeScalars(cs[1..])
  }

  /** A number below 64^4 from its digits. */
  lemma OfBits(v: int, a: nat, b: nat, c: nat, d: nat)
    requires b < 64 && c < 64 && d < 64 && v == ((a * 64 + b) * 64 + c) * 64 + d
    ensures v / 262144 == a && v / 4096 % 64 == b && v / 64 % 64 == c && v % 64 == d
  {
    var high, middle := a * 64 + b, (a * 64 + b) * 64 + c;
    assert v / 262144 == a by { assert v == 262144 * a + (b * 4096 + c * 64 + d); }
    assert v / 4096 == high by { assert v == 4096 * high + (c * 64 + d); }
    assert v / 64 == middle by { assert v == 64 * middle + d; }
  }

  lemma FirstIsScalar(s: seq<byte>) returns (c: Scalar)
    requires FirstLength(s) > 0
    ensures s[..FirstLength(s)] == EncodeScalar(c)
  {
    var n := FirstLength(s);
    if n == 1 {
      c := s[0];
    } else if n == 2 {
      c := TwoBytes(s[0], s[1]);
    } else if n == 3 {
      c := ThreeBytes(s[0], s[1], s[2]);
    } else {
      c := FourBytes(s[0], s[1], s[2], s[3]);
    }
  }

  lemma TwoBytes(x: int, y: int) returns (c: Scalar)
    requires 0xc2 <= x <= 0xdf && 0x80 <= y <= 0xbf
    ensures EncodeScalar(c) == [x, y]
  {
    c := (x - 0xc0) * 64 + (y - 0x80);
    OfBits(c, 0, 0, x - 0xc0, y - 0x80);
  }

  lemma ThreeBytes(x: int, y: int, z: int) returns (c: Scalar)
    requires 0xe0 <= x <= 0xef && 0x80 <= y <= 0xbf && 0x80 <= z <= 0xbf
    requires (x == 0xe0 ==> y >= 0xa0) && (x == 0xed ==> y <= 0x9f)
    ensures EncodeScalar(c) == [x, y, z]
  {
    c := ((x - 0xe0) * 64 + (y - 0x80)) * 64 + (z - 0x80);
    OfBits(c, 0, x - 0xe0, y - 0x80, z - 0x80);
  }

  lemma FourBytes(x: int, y: int, z: int, w: int) returns (c: Scalar)
    requires 0xf0 <= x <= 0xf4 && 0x80 <= y <= 0xbf && 0x80 <= z <= 0xbf && 0x80 <= w <= 0xbf
    requires (x == 0xf0 ==> y >= 0x90) && (x == 0xf4 ==> y <= 0x8f)
    ensures EncodeScalar(c) == [x, y, z, w]
  {
    c := (((x - 0xf0) * 64 + (y - 0x80)) * 64 + (z - 0x80)) * 64 + (w - 0x80);
    OfBits(c, x - 0xf0, y - 0x80, z - 0x80, w - 0x80);
  }

  lemma ScalarIsFirst(c: Scalar, rest: seq<byte>)
    ensures FirstLength(EncodeScalar(c) + rest) == |EncodeScalar(c)|
  {
    hide FirstLength;
    var e := EncodeScalar(c);
    ScalarAlone(c);
    FirstStands(e, rest);
  }

  lemma ScalarAlone(c: Scalar)
    ensures FirstLength(EncodeScalar(c)) == |EncodeScalar(c)|
  {
    hide FirstLength;
    Leads(c);
    if c < 0x80 {
      Alone([c]);
    } else if c < 0x800 {
      Alone([0xc0 + c / 64, 0x80 + c % 64]);
    } else if c < 0x10000 {
      Alone([0xe0 + c / 4096, 0x80 + c / 64 % 64, 0x80 + c % 64]);
    } else {
      Alone([0xf0 + c / 262144, 0x80 + c / 4096 % 64, 0x80 + c / 64 % 64, 0x80 + c % 64]);
    }
  }

  /** The first bits of each length: long enough for it, and no surrogate. */
  lemma Leads(c: Scalar)
    ensures 0x80 <= c < 0x800 ==> 2 <= c / 64 < 32
    ensures 0x800 <= c < 0x10000 ==> c / 4096 < 16 && (c / 4096 == 0 ==> c / 64 % 64 >= 32)
    ensures 0x800 <= c < 0x10000 && c / 4096 == 13 ==> c / 64 % 64 < 32
    ensures 0x10000 <= c ==> c / 262144 <= 4 && (c / 262144 == 0 ==> c / 4096 % 64 >= 16)
    ensures 0x10000 <= c && c / 262144 == 4 ==> c / 4096 % 64 < 16
  {
  }

  lemma Alone(s: seq<byte>)
    requires 1 <= |s| <= 4 && forall i :: 1 <= i < |s| ==> Continues(s, i)
    requires |s| == 1 ==> s[0] < 0x80
    requires |s| == 2 ==> 0xc2 <= s[0] <= 0xdf
    requires |s| == 3 ==> 0xe0 <= s[0] <= 0xef && SecondOfThree(s)
    requires |s| == 4 ==> 0xf0 <= s[0] <= 0xf4 && SecondOfFour(s)
    ensures FirstLength(s) == |s|
  {
  }

  /** What follows a whole character does not matter. */
  lemma FirstStands(s: seq<byte>, rest: seq<byte>)
    requires FirstLength(s) == |s| > 0
    ensures FirstLength(s + rest) == |s|
  {
    assert forall i :: 0 <= i < |s| ==> (s + rest)[i] == s[i];
  }

  /** A byte string is text exactly when it is the encoding of characters. */
  lemma IsUtf8Exactly(s: seq<byte>)
    ensures IsUtf8(s) <==> exists cs :: s == EncodeScalars(cs)
  {
    hide EncodeScalars, IsUtf8;
    if IsUtf8(s) {
      var cs := Characters(s);
    }
    if cs :| s == EncodeScalars(cs) {
      EncodedIsUtf8(cs);
    }
  }

  lemma {:induction false} Characters(s: seq<byte>) returns (cs: seq<Scalar>)
    requires IsUtf8(s)
    ensures s == EncodeScalars(cs)
    decreases |s|
  {
    hide FirstLength, EncodeScalar;
    cs := [];
    if s != [] {
      var n := FirstLength(s);
      var c := FirstIsScalar(s);
      var more := Characters(s[n..]);
      cs := [c] + more;
      assert cs[1..] == more;
      assert s == s[..n] + s[n..];
    }
  }

  lemma {:induction false} EncodedIsUtf8(cs: seq<Scalar>)
    ensures IsUtf8(EncodeScalars(cs))
    decreases |cs|
  {
    hide FirstLength, EncodeScalar;
    if cs != [] {
      var rest := EncodeScalars(cs[1..]);
      EncodedIsUtf8(cs[1..]);
      ScalarIsFirst(cs[0], rest);
      assert (EncodeScalar(cs[0]) + rest)[|EncodeScalar(cs[0])|..] == rest;
    }
  }
}
