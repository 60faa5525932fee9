/** CBOR data items as trees, their wire forms, and the recursive skipper. */
module CborItems {
  import opened Bytes
  import opened CborWire
  import opened Saturating

  /** An initial byte with its argument bytes, in any width. */
  datatype Initial = Initial(major: nat, info: nat, argument: seq<byte>)

  /** A data item: a definite head with string content or children, or an indefinite container. */
  datatype Item =
    | Definite(head: Initial, content: seq<byte>, items: seq<Item>)
    | Indefinite(major: nat, items: seq<Item>)

  function Value(h: Initial): nat {
    if h.info < 24 then h.info else BigEndian(h.argument)
  }

  /** How many items follow a head: array elements, map keys and values, or a tagged item. */
  function Count(major: nat, value: nat): nat {
    if major == ARRAY then value else if major == MAP then 2 * value else if major == TAG then 1 else 0
  }

  function ContentLength(major: nat, value: nat): nat {
    if major == BYTES || major == TEXT then value else 0
  }

  /** Items that stand between two break checks: map entries come in pairs. */
  function Group(major: nat): nat { if major == MAP then 2 else 1 }

  predicate GoodHead(h: Initial) {
    h.major < 8 && h.info <= 27 && |h.argument| == Width(h.info)
  }

  /** The items `skip` accepts. */
  predicate WellFormed(item: Item) {
    && (match item
        case Definite(h, content, items) =>
          && GoodHead(h)
          && |content| == ContentLength(h.major, Value(h))
          && |items| == Count(h.major, Value(h))
        case Indefinite(major, items) =>
          BYTES <= major <= MAP && |items| % Group(major) == 0)
    && forall i :: 0 <= i < |item.items| ==> WellFormed(item.items[i])
  }

  function Wire(item: Item): (s: seq<byte>)
    requires WellFormed(item)
    ensures s != [] && s[0] != BREAK
    decreases item, 0
  {
    match item
    case Definite(h, content, items) => [h.major * 32 + h.info] + h.argument + content + WireAll(items)
    case Indefinite(major, items) => [major * 32 + 31] + WireAll(items) + [BREAK]
  }

  function WireAll(items: seq<Item>): seq<byte>
    requires forall i :: 0 <= i < |items| ==> WellFormed(items[i])
    decreases items, 1
  {
    if items == [] then [] else Wire(items[0]) + WireAll(items[1..])
  }

  // ----- skipping --------------------------------------------------------------------------

  function Skip(s: seq<byte>): (r: Parsed<()>)
    ensures r.Ok? ==> |r.rest| < |s|
    decreases |s|, 0
  {
    if s == [] then Err(EndOfInput(0, 1))
    else
      var initial, rest := s[0], s[1..];
      var major, info := initial / 32, initial % 32;
      if BYTES <= major <= MAP && info == AI_INDEF then SkipUntilBreak(Group(major), rest)
      else if major == SIMPLE then
        if info > 27 then Err(InvalidAdditionalInfo(info))
        else
          var (_, end) :- ReadExact(rest, Width(info));
          Ok((), end)
      else
        var (value, body) :- ReadArgument(initial, rest);
        SkipBody(major, value, body)
  }

  /** The string content of an item and its children. */
  function SkipBody(major: nat, value: nat, s: seq<byte>): (r: Parsed<()>)
    ensures r.Ok? ==> |r.rest| <= |s|
    decreases |s|, 2
  {
    var (_, end) :- ReadExact(s, ContentLength(major, value));
    SkipMany(Count(major, value), end)
  }

  function SkipMany(n: nat, s: seq<byte>): (r: Parsed<()>)
    ensures r.Ok? ==> |r.rest| <= |s| && (n > 0 ==> |r.rest| < |s|)
    decreases |s|, 1
  {
    if n == 0 then Ok((), s)
    else
      var (_, rest) :- Skip(s);
      SkipMany(n - 1, rest)
  }

  function SkipUntilBreak(group: nat, s: seq<byte>): (r: Parsed<()>)
    requires group > 0
    ensures r.Ok? ==> |r.rest| < |s|
    decreases |s|, 2
  {
    if s == [] then Err(EndOfInput(0, 1))
    else if s[0] == BREAK then Ok((), s[1..])
    else
      var (_, rest) :- SkipMany(group, s);
      SkipUntilBreak(group, rest)
  }

  // ----- every item is skipped exactly --------------------------------------------------------

  ghost predicate Skips(item: Item)
    requires WellFormed(item)
  {
    forall rest :: Skip(Wire(item) + rest) == Ok((), rest)
  }

  /** Skipping consumes exactly the wire form of any item, before any suffix. */
  lemma {:induction false} SkipWire(item: Item)
    requires WellFormed(item)
    ensures Skips(item)
  {
    forall i | 0 <= i < |item.items|
      ensures Skips(item.items[i])
    {
      SkipWire(item.items[i]);
    }
    forall rest
      ensures Skip(Wire(item) + rest) == Ok((), rest)
    {
      match item
      case Definite(h, content, items) => SkipDefinite(item, rest);
      case Indefinite(major, items) => SkipIndefinite(item, rest);
    }
  }

  lemma SkipDefinite(item: Item, rest: seq<byte>)
    requires item.Definite? && WellFormed(item)
    requires forall i :: 0 <= i < |item.items| ==> Skips(item.items[i])
    ensures Skip(Wire(item) + rest) == Ok((), rest)
  {
    hide Skips, Skip, SkipMany, WireAll, ReadExact;
    var h := item.head;
    var children := WireAll(item.items) + rest;
    assert Wire(item) + rest == [h.major * 32 + h.info] + h.argument + (item.content + children);
    SkipHead(h, item.content + children);
    ExactRead(item.content, children);
    SkipWireAll(item.items, rest);
  }

  lemma SkipHead(h: Initial, body: seq<byte>)
    requires GoodHead(h)
    ensures Skip([h.major * 32 + h.info] + h.argument + body) == SkipBody(h.major, Value(h), body)
  {
    hide SkipMany, ReadArgument, ReadExact, Width, Value;
    var s := [h.major * 32 + h.info] + h.argument + body;
    assert s[0] == h.major * 32 + h.info && s[1..] == h.argument + body;
    assert s[0] / 32 == h.major && s[0] % 32 == h.info;
    ArgumentRead(h, body);
    SkipNone(body);
    ExactRead([], body);
  }

  /** A head's argument reads back before anything. */
  lemma ArgumentRead(h: Initial, body: seq<byte>)
    requires GoodHead(h)
    ensures ReadExact(h.argument + body, Width(h.info)) == Ok(h.argument, body)
    ensures ReadArgument(h.major * 32 + h.info, h.argument + body) == Ok(Value(h), body)
  {
    hide Width;
    ExactRead(h.argument, body);
    if h.info < 24 {
      NoArgument(h.info);
      assert h.argument + body == body;
    }
  }

  lemma NoArgument(info: nat)
    requires info < 24
    ensures Width(info) == 0
  {
  }

  lemma ExactRead(content: seq<byte>, rest: seq<byte>)
    ensures ReadExact(content + rest, |content|) == Ok(content, rest)
    ensures ReadExact(rest, 0) == Ok([], rest)
  {
    assert (content + rest)[..|content|] == content;
    assert (content + rest)[|content|..] == rest;
    assert rest[..0] == [] && rest[0..] == rest;
  }

  lemma SkipNone(s: seq<byte>)
    ensures SkipMany(0, s) == Ok((), s)
  {
  }

  lemma SkipIndefinite(item: Item, rest: seq<byte>)
    requires item.Indefinite? && WellFormed(item)
    requires forall i :: 0 <= i < |item.items| ==> Skips(item.items[i])
    ensures Skip(Wire(item) + rest) == Ok((), rest)
  {
    hide Skip, Skips, SkipMany, SkipUntilBreak, WireAll;
    var s := Wire(item) + rest;
    SkipWireGroups(Group(item.major), item.items, rest);
    assert s[1..] == WireAll(item.items) + [BREAK] + rest;
    assert s[0] == item.major * 32 + 31;
    SkipIndefiniteHead(s);
  }

  lemma {:induction false} SkipWireAll(items: seq<Item>, rest: seq<byte>)
    requires forall i :: 0 <= i < |items| ==> WellFormed(items[i]) && Skips(items[i])
    ensures SkipMany(|items|, WireAll(items) + rest) == Ok((), rest)
    decreases |items|
  {
    hide Skip, Wire, WellFormed;
    if items == [] {
      assert WireAll(items) + rest == rest;
    } else {
      assert Skips(items[0]);
      SkipWireAll(items[1..], rest);
      assert WireAll(items) + rest == Wire(items[0]) + (WireAll(items[1..]) + rest);
    }
  }

  lemma {:induction false} SkipWireGroups(group: nat, items: seq<Item>, rest: seq<byte>)
    requires 1 <= group <= 2 && |items| % group == 0
    requires forall i :: 0 <= i < |items| ==> WellFormed(items[i]) && Skips(items[i])
    ensures SkipUntilBreak(group, WireAll(items) + [BREAK] + rest) == Ok((), rest)
    decreases |items|
  {
    hide Skip, SkipMany, Skips, Wire, WellFormed;
    var s := WireAll(items) + [BREAK] + rest;
    if items == [] {
      assert s[1..] == rest;
    } else {
      var after := WireAll(items[group..]) + [BREAK] + rest;
      SkipWireAll(items[..group], after);
      WireSplit(items, group);
      assert s == WireAll(items[..group]) + after;
      assert s[0] == Wire(items[0])[0];
      SkipWireGroups(group, items[group..], rest);
    }
  }

  lemma {:induction false} WireSplit(items: seq<Item>, n: nat)
    requires n <= |items|
    requires forall i :: 0 <= i < |items| ==> WellFormed(items[i])
    ensures WireAll(items) == WireAll(items[..n]) + WireAll(items[n..])
    decreases n
  {
    hide Wire, WellFormed;
    if n == 0 {
      assert items[n..] == items;
    } else {
      WireSplit(items[1..], n - 1);
      assert items[..n][1..] == items[1..][..n - 1];
      assert items[n..] == items[1..][n - 1..];
    }
  }

  // ----- whatever is skipped is one item ---------------------------------------------------------

  ghost predicate AllWellFormed(items: seq<Item>) {
    forall i :: 0 <= i < |items| ==> WellFormed(items[i])
  }

  /** The bytes consumed by a successful skip are the wire form of one item. */
  lemma {:induction false} SkipParses(s: seq<byte>) returns (item: Item)
    requires Skip(s).Ok?
    ensures WellFormed(item) && s == Wire(item) + Skip(s).rest
    decreases |s|, 0
  {
    hide Skip, SkipBody, SkipMany, SkipUntilBreak, Wire, WireAll, WellFormed, GoodHead, Value;
    SkipSomething(s);
    var end := Skip(s).rest;
    if IsIndefinite(s[0]) {
      SkipIndefiniteHead(s);
      var items := SkipUntilBreakParses(Group(s[0] / 32), s[1..]);
      item := Indefinite(s[0] / 32, items);
      IndefiniteWire(s, item, end);
    } else {
      var h, body := ParseHead(s);
      SkipHead(h, body);
      var n := ContentLength(h.major, Value(h));
      BodyParts(h.major, Value(h), body);
      var items := SkipManyParses(Count(h.major, Value(h)), body[n..]);
      item := Definite(h, body[..n], items);
      DefiniteWire(s, h, body[..n], items, end);
    }
  }

  predicate IsIndefinite(initial: byte) {
    BYTES <= initial / 32 <= MAP && initial % 32 == AI_INDEF
  }

  lemma SkipSomething(s: seq<byte>)
    requires Skip(s).Ok?
    ensures s != []
  {
  }

  lemma SkipIndefiniteHead(s: seq<byte>)
    requires s != [] && IsIndefinite(s[0])
    ensures Skip(s) == SkipUntilBreak(Group(s[0] / 32), s[1..])
  {
  }

  lemma BodyParts(major: nat, value: nat, body: seq<byte>)
    requires SkipBody(major, value, body).Ok?
    ensures ContentLength(major, value) <= |body|
    ensures body == body[..ContentLength(major, value)] + body[ContentLength(major, value)..]
    ensures SkipBody(major, value, body) == SkipMany(Count(major, value), body[ContentLength(major, value)..])
  {
  }

  lemma IndefiniteWire(s: seq<byte>, item: Item, end: seq<byte>)
    requires s != [] && item.Indefinite? && s[0] == item.major * 32 + 31
    requires BYTES <= item.major <= MAP && |item.items| % Group(item.major) == 0
    requires AllWellFormed(item.items) && s[1..] == WireAll(item.items) + [BREAK] + end
    ensures WellFormed(item) && s == Wire(item) + end
  {
    hide WireAll;
    assert s == [s[0]] + s[1..];
  }

  lemma DefiniteWire(s: seq<byte>, h: Initial, content: seq<byte>, items: seq<Item>, end: seq<byte>)
    requires GoodHead(h) && AllWellFormed(items)
    requires |content| == ContentLength(h.major, Value(h)) && |items| == Count(h.major, Value(h))
    requires s == [h.major * 32 + h.info] + h.argument + (content + (WireAll(items) + end))
    ensures WellFormed(Definite(h, content, items)) && s == Wire(Definite(h, content, items)) + end
  {
    hide WireAll;
  }

  /** The head of a skippable item that is not an indefinite container. */
  lemma ParseHead(s: seq<byte>) returns (h: Initial, body: seq<byte>)
    requires Skip(s).Ok? && s != [] && !IsIndefinite(s[0])
    ensures GoodHead(h) && s[0] == h.major * 32 + h.info
    ensures s == [h.major * 32 + h.info] + h.argument + body
  {
    hide SkipMany, SkipUntilBreak;
    var major, info := s[0] / 32, s[0] % 32;
    var w := Width(info);
    assert info <= 27 && w <= |s[1..]|;
    h, body := Initial(major, info, s[1..1 + w]), s[1 + w..];
    ThreeParts(s, w);
  }

  lemma ThreeParts(s: seq<byte>, w: nat)
    requires 1 + w <= |s|
    ensures s == [s[0]] + s[1..1 + w] + s[1 + w..]
  {
  }

  lemma {:induction false} SkipManyParses(n: nat, s: seq<byte>) returns (items: seq<Item>)
    requires SkipMany(n, s).Ok?
    ensures |items| == n && AllWellFormed(items)
    ensures s == WireAll(items) + SkipMany(n, s).rest
    decreases |s|, 1
  {
    hide Skip, Wire, WellFormed;
    if n == 0 {
      items := [];
      assert s == [] + s;
    } else {
      var first := SkipParses(s);
      var others := SkipManyParses(n - 1, Skip(s).rest);
      items := [first] + others;
      assert items[1..] == others;
    }
  }

  lemma {:induction false} SkipUntilBreakParses(group: nat, s: seq<byte>) returns (items: seq<Item>)
    requires 1 <= group <= 2 && SkipUntilBreak(group, s).Ok?
    ensures |items| % group == 0 && AllWellFormed(items)
    ensures s == WireAll(items) + [BREAK] + SkipUntilBreak(group, s).rest
    decreases |s|, 2
  {
    hide Skip, SkipMany, WireAll, WellFormed;
    if s[0] == BREAK {
      items := [];
      NoWire();
      assert s == [BREAK] + s[1..];
    } else {
      var first := SkipManyParses(group, s);
      var others := SkipUntilBreakParses(group, SkipMany(group, s).rest);
      items := first + others;
      WireJoin(first, others);
      assert WireAll(first) + (WireAll(others) + [BREAK] + SkipUntilBreak(group, s).rest)
          == WireAll(items) + [BREAK] + SkipUntilBreak(group, s).rest;
    }
  }

  lemma NoWire()
    ensures WireAll([]) == []
  {
  }

  lemma WireJoin(first: seq<Item>, others: seq<Item>)
    requires AllWellFormed(first) && AllWellFormed(others)
    ensures AllWellFormed(first + others) && WireAll(first + others) == WireAll(first) + WireAll(others)
  {
    hide Wire, WireAll, WellFormed;
    var items := first + others;
    WireSplit(items, |first|);
    assert items[..|first|] == first && items[|first|..] == others;
  }

  // ----- wire forms are unambiguous -----------------------------------------------------------------

  /** No item's wire form is a prefix of another's, and each has one reading. */
  lemma {:induction false} Unambiguous(a: Item, b: Item, r: seq<byte>, t: seq<byte>)
    requires WellFormed(a) && WellFormed(b) && Wire(a) + r == Wire(b) + t
    ensures a == b && r == t
    decreases a, 0
  {
    hide Wire, WireAll, WellFormed;
    WireShape(a, r);
    WireShape(b, t);
    SplitEqual([Wire(a)[0]], AfterFirst(a, r), [Wire(b)[0]], AfterFirst(b, t));
    SameFirst(a, b);
    if a.Definite? {
      SplitEqual(a.head.argument, a.content + (WireAll(a.items) + r),
                 b.head.argument, b.content + (WireAll(b.items) + t));
      SplitEqual(a.content, WireAll(a.items) + r, b.content, WireAll(b.items) + t);
      SameCount(a, b);
      UnambiguousMany(a.items, b.items, r, t);
    } else {
      UnambiguousUntilBreak(a.items, b.items, r, t);
    }
  }

  /** The wire form behind the initial byte, and what follows the item. */
  function AfterFirst(item: Item, r: seq<byte>): seq<byte>
    requires WellFormed(item)
  {
    match item
    case Definite(h, content, items) => h.argument + (content + (WireAll(items) + r))
    case Indefinite(_, items) => WireAll(items) + [BREAK] + r
  }

  lemma WireShape(item: Item, r: seq<byte>)
    requires WellFormed(item)
    ensures Wire(item) + r == [Wire(item)[0]] + AfterFirst(item, r)
    ensures AllWellFormed(item.items)
  {
    hide WireAll;
    assert item.Definite? ==> Wire(item)[0] == item.head.major * 32 + item.head.info;
  }

  lemma SameFirst(a: Item, b: Item)
    requires WellFormed(a) && WellFormed(b) && Wire(a)[0] == Wire(b)[0]
    ensures a.Definite? == b.Definite?
    ensures a.Indefinite? ==> a.major == b.major
    ensures a.Definite? ==> a.head.major == b.head.major && a.head.info == b.head.info
    ensures a.Definite? ==> |a.head.argument| == |b.head.argument|
    ensures a.Definite? && a.head.argument == b.head.argument ==> |a.content| == |b.content|
  {
    hide WireAll;
  }

  lemma SameCount(a: Item, b: Item)
    requires WellFormed(a) && WellFormed(b) && a.Definite? && b.Definite? && a.head == b.head
    ensures |a.items| == |b.items|
  {
  }

  lemma SplitEqual(a: seq<byte>, x: seq<byte>, b: seq<byte>, y: seq<byte>)
    requires a + x == b + y && |a| == |b|
    ensures a == b && x == y
  {
    assert (a + x)[..|a|] == a && (b + y)[..|b|] == b;
    assert (a + x)[|a|..] == x && (b + y)[|b|..] == y;
  }

  lemma {:induction false} UnambiguousMany(a: seq<Item>, b: seq<Item>, r: seq<byte>, t: seq<byte>)
    requires AllWellFormed(a) && AllWellFormed(b) && |a| == |b|
    requires WireAll(a) + r == WireAll(b) + t
    ensures a == b && r == t
    decreases a, 1
  {
    hide Wire, WellFormed;
    if a == [] {
      assert WireAll(a) + r == r && WireAll(b) + t == t;
    } else {
      assert WireAll(a) + r == Wire(a[0]) + (WireAll(a[1..]) + r);
      assert WireAll(b) + t == Wire(b[0]) + (WireAll(b[1..]) + t);
      Unambiguous(a[0], b[0], WireAll(a[1..]) + r, WireAll(b[1..]) + t);
      UnambiguousMany(a[1..], b[1..], r, t);
      assert a == [a[0]] + a[1..] && b == [b[0]] + b[1..];
    }
  }

  lemma {:induction false} UnambiguousUntilBreak(a: seq<Item>, b: seq<Item>, r: seq<byte>, t: seq<byte>)
    requires AllWellFormed(a) && AllWellFormed(b)
    requires WireAll(a) + [BREAK] + r == WireAll(b) + [BREAK] + t
    ensures a == b && r == t
    decreases a, 1
  {
    hide Wire, WellFormed;
    StartsWithBreak(a, r);
    StartsWithBreak(b, t);
    if a == [] {
      assert WireAll(a) + [BREAK] + r == [BREAK] + r && WireAll(b) + [BREAK] + t == [BREAK] + t;
      SplitEqual([BREAK], r, [BREAK], t);
    } else {
      assert WireAll(a) + [BREAK] + r == Wire(a[0]) + (WireAll(a[1..]) + [BREAK] + r);
      assert WireAll(b) + [BREAK] + t == Wire(b[0]) + (WireAll(b[1..]) + [BREAK] + t);
      Unambiguous(a[0], b[0], WireAll(a[1..]) + [BREAK] + r, WireAll(b[1..]) + [BREAK] + t);
      UnambiguousUntilBreak(a[1..], b[1..], r, t);
      assert a == [a[0]] + a[1..] && b == [b[0]] + b[1..];
    }
  }

  /** A break comes first exactly when no item does. */
  lemma StartsWithBreak(items: seq<Item>, r: seq<byte>)
    requires AllWellFormed(items)
    ensures (WireAll(items) + [BREAK] + r)[0] == BREAK <==> items == []
  {
    hide Wire, WellFormed;
    if items != [] {
      assert (WireAll(items) + [BREAK] + r)[0] == Wire(items[0])[0];
    }
  }

  // ----- the main statements ---------------------------------------------------------------------------

  /** Skipping succeeds exactly when one item stands at the front, and stops right behind it. */
  lemma SkipExactly(s: seq<byte>, rest: seq<byte>)
    ensures Skip(s) == Ok((), rest) <==> exists item :: WellFormed(item) && s == Wire(item) + rest
  {
    hide Skip, Wire, WellFormed, Skips;
    if Skip(s) == Ok((), rest) {
      var item := SkipParses(s);
    }
    forall item | WellFormed(item) && s == Wire(item) + rest
      ensures Skip(s) == Ok((), rest)
    {
      SkipWire(item);
      SkipsOne(item, rest);
    }
  }

  lemma SkipsOne(item: Item, rest: seq<byte>)
    requires WellFormed(item) && Skips(item)
    ensures Skip(Wire(item) + rest) == Ok((), rest)
  {
  }

  /** Well-formed by section 3 of RFC 8949: indefinite strings hold definite strings of their own
      type, and a simple value in two bytes is at least 32. */
  predicate Strict(item: Item) {
    && WellFormed(item)
    && (item.Definite? && item.head.major == SIMPLE && item.head.info == 24 ==> item.head.argument[0] >= 32)
    && (item.Indefinite? && item.major <= TEXT ==>
          forall i :: 0 <= i < |item.items| ==> item.items[i].Definite? && item.items[i].head.major == item.major)
    && forall i :: 0 <= i < |item.items| ==> Strict(item.items[i])
  }

  /** The skipper is more lenient than the standard: what it consumed is well-formed by the
      standard exactly when the one tree it stands for is strict. */
  lemma SkippedIsStrict(item: Item)
    requires WellFormed(item)
    ensures Skip(Wire(item)) == Ok((), [])
    ensures (exists other :: Strict(other) && Wire(other) == Wire(item)) <==> Strict(item)
  {
    hide Skip, Wire, WellFormed, Skips;
    SkipWire(item);
    SkipsOne(item, []);
    assert Wire(item) + [] == Wire(item);
    forall other | Strict(other) && Wire(other) == Wire(item)
      ensures Strict(item)
    {
      assert Wire(other) + [] == Wire(item) + [];
      Unambiguous(other, item, [], []);
    }
  }

  /** A chunk that is no definite string of the same type is accepted, against the standard. */
  lemma LooseChunk(major: nat, chunk: Item)
    requires BYTES <= major <= TEXT && WellFormed(chunk)
    requires !(chunk.Definite? && chunk.head.major == major)
    ensures WellFormed(Indefinite(major, [chunk]))
    ensures Skip(Wire(Indefinite(major, [chunk]))) == Ok((), [])
    ensures forall other :: Strict(other) ==> Wire(other) != Wire(Indefinite(major, [chunk]))
  {
    hide Skip, Wire;
    var item := Indefinite(major, [chunk]);
    assert item.items[0] == chunk;
    SkippedIsStrict(item);
  }

  /** An indefinite byte string with the integer 1 as its chunk is skipped as if well-formed. */
  lemma LooseExample()
    ensures Skip([0x5f, 0x01, 0xff]) == Ok((), [])
    ensures forall other :: Strict(other) ==> Wire(other) != [0x5f, 0x01, 0xff]
  {
    hide Skip;
    var one := Definite(Initial(UNSIGNED, 1, []), [], []);
    assert WireAll([one]) == Wire(one) + WireAll([]) by { assert [one][1..] == []; }
    assert Wire(Indefinite(BYTES, [one])) == [0x5f, 0x01, 0xff];
    LooseChunk(BYTES, one);
  }

  /** A simple value below 32 in two bytes is skipped too. */
  lemma LooseSimple(value: byte)
    requires value < 32
    ensures Skip([0xf8, value]) == Ok((), [])
    ensures forall other :: Strict(other) ==> Wire(other) != [0xf8, value]
  {
    hide Skip;
    var item := Definite(Initial(SIMPLE, 24, [value]), [], []);
    assert Wire(item) == [0xf8, value];
    SkippedIsStrict(item);
  }

  // ----- where skipping stops the process -------------------------------------------------------------------

  /** Walking the item at position `pos`, a string is reached whose declared length carries the
      position behind its head past 2^64. */
  predicate SkipAborts(pos: nat, s: seq<byte>)
    decreases |s|, 0
  {
    s != [] &&
    var major, info := s[0] / 32, s[0] % 32;
    if BYTES <= major <= MAP && info == AI_INDEF then UntilBreakAborts(Group(major), pos + 1, s[1..])
    else
      major != SIMPLE &&
      var head := ReadArgument(s[0], s[1..]);
      head.Ok? &&
      var at := pos + |s| - |head.rest|;
      if major == BYTES || major == TEXT then at + head.value > U64_MAX
      else ManyAborts(Count(major, head.value), at, head.rest)
  }

  predicate ManyAborts(n: nat, pos: nat, s: seq<byte>)
    decreases |s|, 1
  {
    n > 0 &&
    (SkipAborts(pos, s) ||
     var item := Skip(s);
     item.Ok? && ManyAborts(n - 1, pos + |s| - |item.rest|, item.rest))
  }

  predicate UntilBreakAborts(group: nat, pos: nat, s: seq<byte>)
    requires group > 0
    decreases |s|, 2
  {
    s != [] && s[0] != BREAK &&
    (ManyAborts(group, pos, s) ||
     var items := SkipMany(group, s);
     items.Ok? && UntilBreakAborts(group, pos + |s| - |items.rest|, items.rest))
  }

  ghost predicate Stops<T>(r: Parsed<T>, total: nat) {
    r.Err? && Surface(r.error, total) == Aborted
  }

  /** A decoder over `pos + |s|` bytes stops in a skip exactly there. */
  lemma {:induction false} SkipStops(pos: nat, s: seq<byte>)
    requires pos + |s| <= I64_MAX
    ensures Stops(Skip(s), pos + |s|) <==> SkipAborts(pos, s)
    decreases |s|, 0
  {
    hide SkipMany, SkipUntilBreak, ManyAborts, UntilBreakAborts;
    if s != [] {
      var major := s[0] / 32;
      if IsIndefinite(s[0]) {
        UntilBreakStops(Group(major), pos + 1, s[1..]);
      } else if major != SIMPLE {
        var head := ReadArgument(s[0], s[1..]);
        if head.Ok? {
          BodyStops(major, head.value, pos + |s| - |head.rest|, head.rest);
          if major != BYTES && major != TEXT {
            ManyStops(Count(major, head.value), pos + |s| - |head.rest|, head.rest);
          }
        }
      }
    }
  }

  lemma BodyStops(major: nat, value: nat, pos: nat, s: seq<byte>)
    requires pos + |s| <= I64_MAX && value <= U64_MAX
    ensures major == BYTES || major == TEXT ==> (Stops(SkipBody(major, value, s), pos + |s|) <==> pos + value > U64_MAX)
    ensures major != BYTES && major != TEXT ==> SkipBody(major, value, s) == SkipMany(Count(major, value), s)
  {
    hide SkipMany;
    SkipNone(if value <= |s| then s[value..] else []);
    assert s[0..] == s;
  }

  lemma {:induction false} ManyStops(n: nat, pos: nat, s: seq<byte>)
    requires pos + |s| <= I64_MAX
    ensures Stops(SkipMany(n, s), pos + |s|) <==> ManyAborts(n, pos, s)
    decreases |s|, 1
  {
    hide Skip, SkipAborts;
    if n > 0 {
      SkipStops(pos, s);
      if Skip(s).Ok? {
        ManyStops(n - 1, pos + |s| - |Skip(s).rest|, Skip(s).rest);
      }
    }
  }

  lemma {:induction false} UntilBreakStops(group: nat, pos: nat, s: seq<byte>)
    requires group > 0 && pos + |s| <= I64_MAX
    ensures Stops(SkipUntilBreak(group, s), pos + |s|) <==> UntilBreakAborts(group, pos, s)
    decreases |s|, 2
  {
    hide SkipMany, ManyAborts;
    if s != [] && s[0] != BREAK {
      ManyStops(group, pos, s);
      if SkipMany(group, s).Ok? {
        UntilBreakStops(group, pos + |s| - |SkipMany(group, s).rest|, SkipMany(group, s).rest);
      }
    }
  }

  /** A byte string that declares 2^64 - 1 bytes and ends there. */
  lemma LongestStringAborts()
    ensures var s := [0x5b, 0xff, 0xff, 0xff, 0xff, 0xff, 0xff, 0xff, 0xff];
            Skip(s) == Err(EndOfInput(0, U64_MAX)) && SkipAborts(0, s)
  {
    hide Skip, SkipAborts, BigEndian, Pow256;
    var eight: seq<byte> := [0xff, 0xff, 0xff, 0xff, 0xff, 0xff, 0xff, 0xff];
    AllOnes(eight);
    Widths();
    LongString(eight);
    assert [0x5b] + eight == [0x5b, 0xff, 0xff, 0xff, 0xff, 0xff, 0xff, 0xff, 0xff];
  }

  lemma LongString(argument: seq<byte>)
    requires |argument| == 8 && BigEndian(argument) == U64_MAX
    ensures Skip([0x5b] + argument) == Err(EndOfInput(0, U64_MAX)) && SkipAborts(0, [0x5b] + argument)
  {
    hide BigEndian, Pow256, SkipMany, SkipUntilBreak;
    assert ([0x5b] + argument)[1..] == argument && argument[..8] == argument && argument[8..] == [];
  }

  lemma {:induction false} AllOnes(s: seq<byte>)
    requires forall i :: 0 <= i < |s| ==> s[i] == 0xff
    ensures BigEndian(s) == Pow256(|s|) - 1
  {
    if s != [] {
      AllOnes(s[..|s| - 1]);
    }
  }
}
