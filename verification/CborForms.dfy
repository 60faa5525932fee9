/** What the bytes of CBOR heads and items are, number by number, as section 3 of RFC 8949 gives them. */
module CborForms {
  import opened Bytes
  import opened CborWire
  import opened CborItems
  import opened CborArrays
  import opened Saturating

  // ----- heads ---------------------------------------------------------------------------------

  /** Arguments of all four widths, in network byte order. */
  lemma BigEndianSums(a: byte, b: byte, c: byte, d: byte, more: seq<byte>)
    requires |more| == 4
    ensures BigEndian([a]) == a && BigEndian([a, b]) == 0x100 * a + b
    ensures BigEndian([a, b, c, d]) == 0x100_0000 * a + 0x1_0000 * b + 0x100 * c + d
    ensures BigEndian([a, b, c, d] + more) == 0x1_0000_0000 * BigEndian([a, b, c, d]) + BigEndian(more)
  {
    hide BigEndian;
    assert BigEndian([]) == 0 by { BigEndianNone(); }
    BigEndianPush([], a);
    BigEndianPush([a], b);
    BigEndianPush([a, b], c);
    BigEndianPush([a, b, c], d);
    assert [] + [a] == [a] && [a] + [b] == [a, b] && [a, b] + [c] == [a, b, c] && [a, b, c] + [d] == [a, b, c, d];
    BigEndianAppend([a, b, c, d], more);
    Widths();
  }

  lemma BigEndianNone()
    ensures BigEndian([]) == 0
  {
  }

  lemma BigEndianPush(s: seq<byte>, x: byte)
    ensures BigEndian(s + [x]) == 0x100 * BigEndian(s) + x
  {
    assert (s + [x])[..|s|] == s;
  }

  lemma {:induction false} BigEndianAppend(s: seq<byte>, t: seq<byte>)
    ensures BigEndian(s + t) == Pow256(|t|) * BigEndian(s) + BigEndian(t)
    decreases |t|
  {
    if t == [] {
      assert s + t == s;
    } else {
      var front, last := t[..|t| - 1], t[|t| - 1];
      BigEndianAppend(s, front);
      BigEndianPush(s + front, last);
      assert s + t == (s + front) + [last];
      PowPush(|front|, BigEndian(s));
    }
  }

  lemma PowPush(n: nat, x: nat)
    ensures Pow256(n + 1) * x == 0x100 * (Pow256(n) * x)
  {
  }

  lemma {:induction false} BigEndianUnique(s: seq<byte>)
    ensures BigEndianBytes(BigEndian(s), |s|) == s
  {
    if s != [] {
      BigEndianUnique(s[..|s| - 1]);
      assert BigEndian(s) / 256 == BigEndian(s[..|s| - 1]) && BigEndian(s) % 256 == s[|s| - 1];
    }
  }

  /** Every number is written in its shortest form: in the initial byte, or in one, two, four or
      eight bytes behind it. */
  lemma HeadBytes(major: nat, value: U64, s: seq<byte>)
    requires major < 8 && BigEndian(s) <= U64_MAX
    ensures value < 24 ==> Head(major, value) == [32 * major + value]
    ensures |s| == 1 && 24 <= BigEndian(s) ==> Head(major, BigEndian(s)) == [32 * major + 24] + s
    ensures |s| == 2 && 0x100 <= BigEndian(s) ==> Head(major, BigEndian(s)) == [32 * major + 25] + s
    ensures |s| == 4 && 0x1_0000 <= BigEndian(s) ==> Head(major, BigEndian(s)) == [32 * major + 26] + s
    ensures |s| == 8 && 0x1_0000_0000 <= BigEndian(s) ==> Head(major, BigEndian(s)) == [32 * major + 27] + s
  {
    hide BigEndian, BigEndianBytes, Pow256;
    BigEndianUnique(s);
    BigEndianBound(s);
    Widths();
    NoBytes(value);
  }

  /** An argument of any width is read, shortest or not; the other values of the low five bits are errors. */
  lemma ArgumentBytes(major: nat, info: nat, s: seq<byte>, rest: seq<byte>)
    requires major < 8 && info < 32
    ensures info < 24 ==> ReadArgument(32 * major + info, rest) == Ok(info, rest)
    ensures |s| == 1 ==> ReadArgument(32 * major + 24, s + rest) == Ok(BigEndian(s), rest)
    ensures |s| == 2 ==> ReadArgument(32 * major + 25, s + rest) == Ok(BigEndian(s), rest)
    ensures |s| == 4 ==> ReadArgument(32 * major + 26, s + rest) == Ok(BigEndian(s), rest)
    ensures |s| == 8 ==> ReadArgument(32 * major + 27, s + rest) == Ok(BigEndian(s), rest)
    ensures 27 < info ==> ReadArgument(32 * major + info, rest) == Err(InvalidAdditionalInfo(info))
  {
    hide BigEndian, ReadArgument, Width;
    ArgumentWidths();
    if info < 24 {
      NoArgument(info);
      ArgumentRead(Initial(major, info, []), rest);
      assert [] + rest == rest;
    } else if 27 < info {
      NoSuchArgument(major, info, rest);
    }
    if |s| in {1, 2, 4, 8} {
      var wide := if |s| == 1 then 24 else if |s| == 2 then 25 else if |s| == 4 then 26 else 27;
      ArgumentRead(Initial(major, wide, s), rest);
    }
  }

  lemma ArgumentWidths()
    ensures Width(24) == 1 && Width(25) == 2 && Width(26) == 4 && Width(27) == 8
  {
  }

  lemma NoSuchArgument(major: nat, info: nat, rest: seq<byte>)
    requires major < 8 && 27 < info < 32
    ensures ReadArgument(32 * major + info, rest) == Err(InvalidAdditionalInfo(info))
  {
  }

  // ----- items, by the kind of their head --------------------------------------------------------

  lemma AllSkip(items: seq<Item>)
    requires AllWellFormed(items)
    ensures forall i :: 0 <= i < |items| ==> Skips(items[i])
  {
    forall i | 0 <= i < |items|
      ensures Skips(items[i])
    {
      SkipWire(items[i]);
    }
  }

  /** Integers, simple values and floats are their head. */
  lemma SkipsScalar(h: Initial, rest: seq<byte>)
    requires GoodHead(h) && (h.major == 0 || h.major == 1 || h.major == 7)
    ensures Skip([32 * h.major + h.info] + h.argument + rest) == Ok((), rest)
  {
    hide Skip, SkipMany, ReadExact, Value;
    SkipHead(h, rest);
    ExactRead([], rest);
    SkipNone(rest);
  }

  /** Byte and text strings are as many bytes as the head says. */
  lemma SkipsString(h: Initial, data: seq<byte>, rest: seq<byte>)
    requires GoodHead(h) && (h.major == 2 || h.major == 3) && |data| == Value(h)
    ensures Skip([32 * h.major + h.info] + h.argument + (data + rest)) == Ok((), rest)
  {
    SkipHead(h, data + rest);
    ExactRead(data, rest);
  }

  /** Arrays are as many items as the head says. */
  lemma SkipsArray(h: Initial, items: seq<Item>, rest: seq<byte>)
    requires GoodHead(h) && h.major == 4 && AllWellFormed(items) && |items| == Value(h)
    ensures Skip([0x80 + h.info] + h.argument + (WireAll(items) + rest)) == Ok((), rest)
  {
    AllSkip(items);
    SkipHead(h, WireAll(items) + rest);
    ExactRead([], WireAll(items) + rest);
    SkipWireAll(items, rest);
  }

  /** Maps are twice as many items as the head says, keys and values alternating. */
  lemma SkipsMap(h: Initial, items: seq<Item>, rest: seq<byte>)
    requires GoodHead(h) && h.major == 5 && AllWellFormed(items) && |items| == 2 * Value(h)
    ensures Skip([0xa0 + h.info] + h.argument + (WireAll(items) + rest)) == Ok((), rest)
  {
    AllSkip(items);
    SkipHead(h, WireAll(items) + rest);
    ExactRead([], WireAll(items) + rest);
    SkipWireAll(items, rest);
  }

  /** A tag is followed by one item. */
  lemma SkipsTag(h: Initial, item: Item, rest: seq<byte>)
    requires GoodHead(h) && h.major == 6 && WellFormed(item)
    ensures Skip([0xc0 + h.info] + h.argument + (Wire(item) + rest)) == Ok((), rest)
  {
    AllSkip([item]);
    SkipHead(h, Wire(item) + rest);
    ExactRead([], Wire(item) + rest);
    assert WireAll([item]) == Wire(item);
    SkipWireAll([item], rest);
  }

  /** Indefinite strings and arrays are any number of items up to the break. */
  lemma SkipsIndefinite(initial: byte, items: seq<Item>, rest: seq<byte>)
    requires initial in {0x5f, 0x7f, 0x9f} && AllWellFormed(items)
    ensures Skip([initial] + (WireAll(items) + [0xff] + rest)) == Ok((), rest)
  {
    var s := [initial] + (WireAll(items) + [0xff] + rest);
    assert s[1..] == WireAll(items) + [0xff] + rest;
    AllSkip(items);
    SkipWireGroups(1, items, rest);
  }

  /** An indefinite map ends at a break behind a value, and at none behind a key. */
  lemma SkipsIndefiniteMap(items: seq<Item>, rest: seq<byte>)
    requires AllWellFormed(items)
    ensures Skip([0xbf] + (WireAll(items) + [0xff] + rest))
         == if |items| % 2 == 0 then Ok((), rest) else Err(InvalidAdditionalInfo(31))
  {
    var s := [0xbf] + (WireAll(items) + [0xff] + rest);
    assert s[1..] == WireAll(items) + [0xff] + rest;
    AllSkip(items);
    if |items| % 2 == 0 {
      SkipWireGroups(2, items, rest);
    } else {
      LoneKey(items, rest);
    }
  }

  lemma {:induction false} LoneKey(items: seq<Item>, rest: seq<byte>)
    requires |items| % 2 == 1 && AllWellFormed(items)
    requires forall i :: 0 <= i < |items| ==> Skips(items[i])
    ensures SkipUntilBreak(2, WireAll(items) + [0xff] + rest) == Err(InvalidAdditionalInfo(31))
    decreases |items|
  {
    hide Skip, SkipMany, Skips, Wire, WellFormed;
    var s := WireAll(items) + [0xff] + rest;
    assert s[0] == Wire(items[0])[0];
    if |items| == 1 {
      assert WireAll(items) == Wire(items[0]) + WireAll(items[1..]) == Wire(items[0]);
      assert s == Wire(items[0]) + ([0xff] + rest);
      KeyThenBreak(items[0], rest);
    } else {
      var after := WireAll(items[2..]) + [0xff] + rest;
      SkipWireAll(items[..2], after);
      WireSplit(items, 2);
      assert s == WireAll(items[..2]) + after;
      LoneKey(items[2..], rest);
    }
  }

  lemma KeyThenBreak(item: Item, rest: seq<byte>)
    requires WellFormed(item) && Skips(item)
    ensures SkipMany(2, Wire(item) + ([0xff] + rest)) == Err(InvalidAdditionalInfo(31))
  {
    hide Wire, WellFormed;
    var s := [0xff] + rest;
    assert Skip(Wire(item) + s) == Ok((), s);
    assert Skip(s) == Err(InvalidAdditionalInfo(31));
    assert SkipMany(1, s) == Err(InvalidAdditionalInfo(31));
  }

  /** No item starts with a break or with a reserved head. */
  lemma SkipRefuses(initial: byte, rest: seq<byte>)
    requires initial % 32 >= 28 && initial !in {0x5f, 0x7f, 0x9f, 0xbf}
    ensures Skip([initial] + rest) == Err(InvalidAdditionalInfo(initial % 32))
  {
    assert ([initial] + rest)[1..] == rest;
  }

  // ----- variable-length arrays ------------------------------------------------------------------

  lemma OneByteHead(major: nat, value: nat)
    requires major < 8 && value < 24
    ensures Head(major, value) == [32 * major + value]
  {
    HeadBytes(major, value, []);
  }

  /** Up to 23 items stand behind a one-byte head, more between 0x9f and a break. */
  lemma VariableBytes<T>(items: seq<T>, encode: T -> seq<byte>)
    ensures EncodeVariable(items, encode)
         == if |items| <= 23 then [0x80 + |items|] + EncodeAll(items, encode)
            else [0x9f] + (EncodeAll(items, encode) + [0xff])
  {
    hide Head, EncodeAll;
    if |items| <= 23 {
      OneByteHead(4, |items|);
    }
  }
}
