/** The raw byte spans of the transactions in a block. */
module CborSpans {
  import opened Options
  import opened Bytes
  import opened CborWire
  import opened CborItems
  import opened Saturating

  const ELEMENTS_MAX: nat := 1_048_576

  datatype BlockSpans = BlockSpans(bodies: seq<seq<byte>>, witnessSets: seq<seq<byte>>)

  datatype Extracted = Spans(spans: BlockSpans) | Rejected(error: Error)

  /** The bytes of `s` in front of `rest`. */
  function Consumed(s: seq<byte>, rest: seq<byte>): seq<byte>
    requires |rest| <= |s|
  {
    s[..|s| - |rest|]
  }

  function SpansOf(n: nat, s: seq<byte>): (r: Parsed<seq<seq<byte>>>)
    ensures r.Ok? ==> |r.rest| <= |s|
    decreases |s|
  {
    if n == 0 then Ok([], s)
    else
      var (_, rest) :- Skip(s);
      var (others, end) :- SpansOf(n - 1, rest);
      Ok([Consumed(s, rest)] + others, end)
  }

  /** Spans up to the break, when `have` spans were taken already. */
  function SpansUntilBreak(have: nat, s: seq<byte>): (r: Parsed<seq<seq<byte>>>)
    ensures r.Ok? ==> |r.rest| <= |s|
    decreases |s|
  {
    if IsBreak(s) then Ok([], s[1..])
    else if have >= ELEMENTS_MAX then Err(InvalidLength(ELEMENTS_MAX, have + 1))
    else
      var (_, rest) :- Skip(s);
      var (others, end) :- SpansUntilBreak(have + 1, rest);
      Ok([Consumed(s, rest)] + others, end)
  }

  function CollectSpans(s: seq<byte>): Parsed<seq<seq<byte>>> {
    var (count, rest) :- ArrayBegin(s);
    match count
    case Some(n) => SpansOf(n, rest)
    case None => SpansUntilBreak(0, rest)
  }

  /** Header, bodies and witness sets, behind the outer array header of `total` bytes. */
  function ExtractBlock(total: nat, outer: Option<nat>, s: seq<byte>): Extracted {
    if outer.Some? && outer.value < 3 then Rejected(InvalidLength(3, outer.value))
    else
      match Skip(s)
      case Err(e) => Rejected(Surface(e, total))
      case Ok(_, s1) =>
        match CollectSpans(s1)
        case Err(e) => Rejected(Surface(e, total))
        case Ok(bodies, s2) =>
          match CollectSpans(s2)
          case Err(e) => Rejected(Surface(e, total))
          case Ok(witnessSets, _) => Spans(BlockSpans(bodies, witnessSets))
  }

  /** The block inside a definite two-element envelope that ends with it, if there is one. */
  function Unwrapped(raw: seq<byte>): (r: Parsed<Option<seq<byte>>>)
    ensures r.Ok? ==> r.rest == []
    ensures r.Ok? && r.value.Some? ==> |r.value.value| < |raw|
    ensures r.Ok? ==> ArrayBegin(raw).Ok?
  {
    var (outer, s) :- ArrayBegin(raw);
    var era := ExpectMajor(UNSIGNED, s);
    if outer != Some(2) || era.Err? then Ok(None, [])
    else
      var (_, end) :- Skip(era.rest);
      Ok(if end == [] || IsBreak(end) then Some(Consumed(era.rest, end)) else None, [])
  }

  function Extract(raw: seq<byte>): Extracted
    decreases |raw|
  {
    match Unwrapped(raw)
    case Err(e) => Rejected(Surface(e, |raw|))
    case Ok(Some(inner), _) => Extract(inner)
    case Ok(None, _) => ExtractBlock(|raw|, ArrayBegin(raw).value, ArrayBegin(raw).rest)
  }

  // ----- exact spans -----------------------------------------------------------------------

  ghost predicate IsArray(item: Item) {
    WellFormed(item) && (if item.Definite? then item.head.major else item.major) == ARRAY
  }

  ghost function Wires(items: seq<Item>): (w: seq<seq<byte>>)
    requires AllWellFormed(items)
    ensures |w| == |items| && forall i :: 0 <= i < |w| ==> w[i] == Wire(items[i])
  {
    seq(|items|, i requires 0 <= i < |items| => Wire(items[i]))
  }

  lemma ConsumedWire(item: Item, rest: seq<byte>)
    requires WellFormed(item)
    ensures Skip(Wire(item) + rest) == Ok((), rest)
    ensures Consumed(Wire(item) + rest, rest) == Wire(item)
  {
    SkipWire(item);
    SkipsOne(item, rest);
  }

  lemma {:induction false} SpansOfWires(items: seq<Item>, rest: seq<byte>)
    requires AllWellFormed(items)
    ensures SpansOf(|items|, WireAll(items) + rest) == Ok(Wires(items), rest)
    decreases |items|
  {
    hide Skip, Wire, WellFormed, Consumed;
    if items == [] {
      assert WireAll(items) + rest == rest;
    } else {
      var others := WireAll(items[1..]) + rest;
      assert WireAll(items) + rest == Wire(items[0]) + others;
      ConsumedWire(items[0], others);
      SpansOfWires(items[1..], rest);
      assert Wires(items) == [Wire(items[0])] + Wires(items[1..]);
    }
  }

  /** What an indefinite array with `have` elements before these gives, around the cap. */
  ghost function Capped(have: nat, items: seq<Item>, rest: seq<byte>): Parsed<seq<seq<byte>>>
    requires AllWellFormed(items)
  {
    if items != [] && have + |items| > ELEMENTS_MAX then
      Err(InvalidLength(ELEMENTS_MAX, (if have > ELEMENTS_MAX then have else ELEMENTS_MAX) + 1))
    else Ok(Wires(items), rest)
  }

  lemma {:induction false} SpansUntilBreakWires(have: nat, items: seq<Item>, rest: seq<byte>)
    requires AllWellFormed(items)
    ensures SpansUntilBreak(have, WireAll(items) + [BREAK] + rest) == Capped(have, items, rest)
    decreases |items|
  {
    hide Skip, Wire, WellFormed, Consumed;
    var s := WireAll(items) + [BREAK] + rest;
    StartsWithBreak(items, rest);
    if items == [] {
      assert s[1..] == rest;
    } else {
      var others := WireAll(items[1..]) + [BREAK] + rest;
      assert s == Wire(items[0]) + others;
      ConsumedWire(items[0], others);
      SpansUntilBreakWires(have + 1, items[1..], rest);
      assert Wires(items) == [Wire(items[0])] + Wires(items[1..]);
    }
  }

  /** The spans of an array are the wire forms of its elements, in order. */
  ghost function ArraySpans(item: Item, rest: seq<byte>): Parsed<seq<seq<byte>>>
    requires IsArray(item)
  {
    if item.Indefinite? then Capped(0, item.items, rest) else Ok(Wires(item.items), rest)
  }

  lemma ArrayHeader(h: Initial, rest: seq<byte>)
    requires GoodHead(h) && h.major == ARRAY
    ensures ArrayBegin([ARRAY * 32 + h.info] + h.argument + rest) == Ok(Some(Value(h)), rest)
  {
    hide Width, Value;
    var s := [ARRAY * 32 + h.info] + h.argument + rest;
    assert s[0] / 32 == ARRAY && s[0] % 32 == h.info;
    assert s[1..] == h.argument + rest;
    ArgumentRead(h, rest);
  }

  lemma CollectArray(item: Item, rest: seq<byte>)
    requires IsArray(item)
    ensures CollectSpans(Wire(item) + rest) == ArraySpans(item, rest)
  {
    hide SpansOf, SpansUntilBreak, WireAll, Value, Capped;
    var s := Wire(item) + rest;
    if item.Definite? {
      assert s == [ARRAY * 32 + item.head.info] + item.head.argument + (WireAll(item.items) + rest);
      ArrayHeader(item.head, WireAll(item.items) + rest);
      SpansOfWires(item.items, rest);
    } else {
      assert s[0] == 0x9f && s[1..] == WireAll(item.items) + [BREAK] + rest;
      SpansUntilBreakWires(0, item.items, rest);
    }
  }

  /** The outer array header of a block, definite in any width or indefinite. */
  ghost function OuterWire(outer: Option<Initial>): seq<byte>
    requires outer.Some? ==> GoodHead(outer.value) && outer.value.major == ARRAY
  {
    if outer.None? then [0x9f] else [ARRAY * 32 + outer.value.info] + outer.value.argument
  }

  /** The verdict on two arrays: the first one over the cap decides. */
  ghost function Outcome(bodies: Item, witnessSets: Item): Extracted
    requires IsArray(bodies) && IsArray(witnessSets)
  {
    if OverCap(bodies) || OverCap(witnessSets) then Rejected(InvalidLength(1_048_576, 1_048_577))
    else Spans(BlockSpans(Wires(bodies.items), Wires(witnessSets.items)))
  }

  ghost predicate OverCap(item: Item) { item.Indefinite? && |item.items| > 1_048_576 }

  /** On a block of at least three items, extraction returns exactly the wire forms of the bodies
      and of the witness sets, whatever follows, up to the cap on indefinite arrays. */
  lemma ExtractExactly(outer: Option<Initial>, header: Item, bodies: Item, witnessSets: Item, rest: seq<byte>)
    requires outer.Some? ==> GoodHead(outer.value) && outer.value.major == ARRAY && Value(outer.value) >= 3
    requires WellFormed(header) && IsArray(bodies) && IsArray(witnessSets)
    ensures Extract(OuterWire(outer) + (Wire(header) + (Wire(bodies) + (Wire(witnessSets) + rest))))
         == Outcome(bodies, witnessSets)
  {
    hide Skip, CollectSpans, ExpectMajor, Wire, WellFormed, Value, Capped;
    var s3 := Wire(witnessSets) + rest;
    var s2 := Wire(bodies) + s3;
    var s1 := Wire(header) + s2;
    OuterHeader(outer, s1);
    ConsumedWire(header, s2);
    CollectArray(bodies, s3);
    CollectArray(witnessSets, rest);
    CapDecides(bodies, s3);
    CapDecides(witnessSets, rest);
  }

  lemma OuterHeader(outer: Option<Initial>, s: seq<byte>)
    requires outer.Some? ==> GoodHead(outer.value) && outer.value.major == ARRAY
    ensures ArrayBegin(OuterWire(outer) + s)
         == Ok(if outer.None? then None else Some(Value(outer.value)), s)
  {
    if outer.Some? {
      ArrayHeader(outer.value, s);
    }
  }

  lemma CapDecides(item: Item, rest: seq<byte>)
    requires IsArray(item)
    ensures ArraySpans(item, rest) == if OverCap(item)
                                      then Err(InvalidLength(ELEMENTS_MAX, ELEMENTS_MAX + 1))
                                      else Ok(Wires(item.items), rest)
  {
  }

  /** An array of no or one element is no block. */
  lemma TooFewItems(n: nat, rest: seq<byte>)
    requires n < 2
    ensures Extract([0x80 + n] + rest) == Rejected(InvalidLength(3, n))
  {
    hide Skip;
    assert ([0x80 + n] + rest)[1..] == rest;
  }

  /** A definite two-element envelope around a block changes nothing. */
  lemma EnvelopeTransparent(h: Initial, era: Initial, block: Item, tail: seq<byte>)
    requires GoodHead(h) && h.major == ARRAY && Value(h) == 2
    requires GoodHead(era) && era.major == UNSIGNED
    requires WellFormed(block) && (tail == [] || IsBreak(tail))
    ensures Extract(OuterWire(Some(h)) + ([era.info] + era.argument + (Wire(block) + tail)))
         == Extract(Wire(block))
  {
    hide Skip, CollectSpans, ExtractBlock, Wire, WellFormed, Value, ReadArgument, ArrayBegin;
    var s := [era.info] + era.argument + (Wire(block) + tail);
    OuterHeader(Some(h), s);
    assert s[0] == era.info && s[1..] == era.argument + (Wire(block) + tail);
    ArgumentRead(era, Wire(block) + tail);
    ConsumedWire(block, tail);
  }

  /** Two elements with anything else behind them, or without a number in front, are no envelope and too few
      for a block. */
  lemma NotAnEnvelope(era: Initial, block: Item, tail: seq<byte>, first: byte, s: seq<byte>)
    requires GoodHead(era) && era.major == UNSIGNED && WellFormed(block)
    requires tail != [] && tail[0] != 0xff && first / 32 != 0
    ensures Extract([0x82] + ([era.info] + era.argument + (Wire(block) + tail))) == Rejected(InvalidLength(3, 2))
    ensures Extract([0x82] + ([first] + s)) == Rejected(InvalidLength(3, 2))
  {
    hide Skip, CollectSpans, Wire, WellFormed, Value, ReadArgument, ArrayBegin, Consumed;
    var t := [era.info] + era.argument + (Wire(block) + tail);
    assert t[0] == era.info && t[1..] == era.argument + (Wire(block) + tail);
    TwoElements(t);
    TwoElements([first] + s);
    ArgumentRead(era, Wire(block) + tail);
    ConsumedWire(block, tail);
  }

  lemma TwoElements(s: seq<byte>)
    ensures ArrayBegin([0x82] + s) == Ok(Some(2), s)
  {
    assert ([0x82] + s)[1..] == s;
  }

  // ----- whatever is extracted stands in the block ----------------------------------------------

  /** One more item in front of others, with its span. */
  lemma SpanInFront(s: seq<byte>, first: Item, rest: seq<byte>, others: seq<Item>, end: seq<byte>)
    requires WellFormed(first) && AllWellFormed(others)
    requires s == Wire(first) + rest && rest == WireAll(others) + end
    ensures AllWellFormed([first] + others) && s == WireAll([first] + others) + end
    ensures Wires([first] + others) == [Consumed(s, rest)] + Wires(others)
  {
    hide Wire, WellFormed;
    var items := [first] + others;
    assert items[1..] == others;
    assert Consumed(s, rest) == Wire(first);
    assert Wire(first) + (WireAll(others) + end) == Wire(first) + WireAll(others) + end;
  }

  lemma {:induction false} SpansOfParses(n: nat, s: seq<byte>) returns (items: seq<Item>)
    requires SpansOf(n, s).Ok?
    ensures AllWellFormed(items) && |items| == n && SpansOf(n, s).value == Wires(items)
    ensures s == WireAll(items) + SpansOf(n, s).rest
    decreases |s|
  {
    hide Skip, Wire, WellFormed, Consumed, Wires, AllWellFormed;
    if n == 0 {
      items := [];
      NoSpans(s);
    } else {
      var first := SkipParses(s);
      var others := SpansOfParses(n - 1, Skip(s).rest);
      SpanInFront(s, first, Skip(s).rest, others, SpansOf(n, s).rest);
      items := [first] + others;
    }
  }

  lemma NoSpans(s: seq<byte>)
    ensures AllWellFormed([]) && Wires([]) == [] && s == WireAll([]) + s
    ensures IsBreak(s) ==> s == WireAll([]) + [BREAK] + s[1..]
  {
  }

  lemma {:induction false} SpansUntilBreakParses(have: nat, s: seq<byte>) returns (items: seq<Item>)
    requires SpansUntilBreak(have, s).Ok?
    ensures AllWellFormed(items) && SpansUntilBreak(have, s).value == Wires(items)
    ensures s == WireAll(items) + [BREAK] + SpansUntilBreak(have, s).rest
    decreases |s|
  {
    hide Skip, Wire, WellFormed, WireAll, Consumed, Wires;
    var end := SpansUntilBreak(have, s).rest;
    if IsBreak(s) {
      items := [];
      NoSpans(s);
    } else {
      var first := SkipParses(s);
      var others := SpansUntilBreakParses(have + 1, Skip(s).rest);
      assert WireAll(others) + [BREAK] + end == WireAll(others) + ([BREAK] + end);
      SpanInFront(s, first, Skip(s).rest, others, [BREAK] + end);
      items := [first] + others;
      assert WireAll(items) + [BREAK] + end == WireAll(items) + ([BREAK] + end);
    }
  }

  lemma CollectParses(s: seq<byte>) returns (item: Item)
    requires CollectSpans(s).Ok?
    ensures IsArray(item) && s == Wire(item) + CollectSpans(s).rest
    ensures CollectSpans(s).value == Wires(item.items)
  {
    hide Skip, SpansOf, SpansUntilBreak, WireAll;
    var end := CollectSpans(s).rest;
    if s[0] % 32 == AI_INDEF {
      var items := SpansUntilBreakParses(0, s[1..]);
      item := Indefinite(ARRAY, items);
      IndefiniteWire(s, item, end);
    } else {
      var h, body := ParseArrayHead(s);
      var items := SpansOfParses(Value(h), body);
      item := Definite(h, [], items);
      assert s == [h.major * 32 + h.info] + h.argument + ([] + (WireAll(items) + end));
      DefiniteWire(s, h, [], items, end);
    }
  }

  lemma ParseArrayHead(s: seq<byte>) returns (h: Initial, body: seq<byte>)
    requires ExpectMajor(ARRAY, s).Ok?
    ensures GoodHead(h) && h.major == ARRAY && ExpectMajor(ARRAY, s) == Ok(Value(h), body)
    ensures s == [h.major * 32 + h.info] + h.argument + body
  {
    var info := s[0] % 32;
    var w := Width(info);
    h, body := Initial(ARRAY, info, s[1..1 + w]), s[1 + w..];
    assert s[1..][..w] == h.argument && s[1..][w..] == body;
    assert s == [s[0]] + s[1..1 + w] + s[1 + w..];
  }

  /** Extracted spans are the wire forms of consecutive items of the block. */
  lemma ExtractedStandInBlock(total: nat, outer: Option<nat>, s: seq<byte>)
    returns (header: Item, bodies: Item, witnessSets: Item, rest: seq<byte>)
    requires ExtractBlock(total, outer, s).Spans?
    ensures WellFormed(header) && IsArray(bodies) && IsArray(witnessSets)
    ensures s == Wire(header) + (Wire(bodies) + (Wire(witnessSets) + rest))
    ensures ExtractBlock(total, outer, s) == Spans(BlockSpans(Wires(bodies.items), Wires(witnessSets.items)))
  {
    hide Skip, CollectSpans, Wire, WellFormed;
    header := SkipParses(s);
    var s1 := Skip(s).rest;
    bodies := CollectParses(s1);
    var s2 := CollectSpans(s1).rest;
    witnessSets := CollectParses(s2);
    rest := CollectSpans(s2).rest;
  }

  // ----- where extraction stops the process --------------------------------------------------------

  /** The capped walk over an indefinite array at `pos` reaches an item that stops the skipper. */
  predicate CappedAborts(have: nat, pos: nat, s: seq<byte>)
    decreases |s|
  {
    !IsBreak(s) && have < ELEMENTS_MAX &&
    (SkipAborts(pos, s) ||
     var item := Skip(s);
     item.Ok? && CappedAborts(have + 1, pos + |s| - |item.rest|, item.rest))
  }

  predicate CollectAborts(pos: nat, s: seq<byte>) {
    var head := ArrayBegin(s);
    head.Ok? &&
    var at := pos + |s| - |head.rest|;
    match head.value
    case Some(n) => ManyAborts(n, at, head.rest)
    case None => CappedAborts(0, at, head.rest)
  }

  /** Behind the outer header of a block of `total` bytes. */
  predicate BlockAborts(total: nat, outer: Option<nat>, s: seq<byte>)
    requires |s| <= total
  {
    !(outer.Some? && outer.value < 3) &&
    (SkipAborts(total - |s|, s) ||
     var header := Skip(s);
     header.Ok? &&
     (CollectAborts(total - |header.rest|, header.rest) ||
      var bodies := CollectSpans(header.rest);
      bodies.Ok? && |bodies.rest| <= total && CollectAborts(total - |bodies.rest|, bodies.rest)))
  }

  predicate ExtractAborts(raw: seq<byte>)
    decreases |raw|
  {
    var head := ArrayBegin(raw);
    head.Ok? &&
    var era := ExpectMajor(UNSIGNED, head.rest);
    if head.value == Some(2) && era.Ok? then
      SkipAborts(|raw| - |era.rest|, era.rest) ||
      var inner := Unwrapped(raw);
      inner.Ok? && (if inner.value.Some? then ExtractAborts(inner.value.value)
        else BlockAborts(|raw|, head.value, head.rest))
    else BlockAborts(|raw|, head.value, head.rest)
  }

  lemma {:induction false} SpansOfStops(n: nat, pos: nat, s: seq<byte>)
    requires pos + |s| <= I64_MAX
    ensures Stops(SpansOf(n, s), pos + |s|) <==> ManyAborts(n, pos, s)
    decreases |s|
  {
    hide Skip, SkipAborts, Consumed;
    if n > 0 {
      SkipStops(pos, s);
      if Skip(s).Ok? {
        SpansOfStops(n - 1, pos + |s| - |Skip(s).rest|, Skip(s).rest);
      }
    }
  }

  lemma {:induction false} CappedStops(have: nat, pos: nat, s: seq<byte>)
    requires pos + |s| <= I64_MAX
    ensures Stops(SpansUntilBreak(have, s), pos + |s|) <==> CappedAborts(have, pos, s)
    decreases |s|
  {
    hide Skip, SkipAborts, Consumed;
    if !IsBreak(s) && have < ELEMENTS_MAX {
      SkipStops(pos, s);
      if Skip(s).Ok? {
        CappedStops(have + 1, pos + |s| - |Skip(s).rest|, Skip(s).rest);
      }
    }
  }

  lemma HeaderNeverStops(s: seq<byte>, total: nat)
    requires |s| <= total <= I64_MAX
    ensures !Stops(ArrayBegin(s), total) && !Stops(ExpectMajor(UNSIGNED, s), total)
  {
  }

  lemma CollectStops(pos: nat, s: seq<byte>)
    requires pos + |s| <= I64_MAX
    ensures Stops(CollectSpans(s), pos + |s|) <==> CollectAborts(pos, s)
    ensures CollectSpans(s).Ok? ==> |CollectSpans(s).rest| <= |s|
  {
    hide SpansOf, SpansUntilBreak, ManyAborts, CappedAborts, ArrayBegin;
    HeaderNeverStops(s, pos + |s|);
    var head := ArrayBegin(s);
    if head.Ok? {
      var at := pos + |s| - |head.rest|;
      match head.value
      case Some(n) => SpansOfStops(n, at, head.rest);
      case None => CappedStops(0, at, head.rest);
    }
  }

  lemma BlockStops(total: nat, outer: Option<nat>, s: seq<byte>)
    requires |s| <= total <= I64_MAX
    ensures ExtractBlock(total, outer, s) == Rejected(Aborted) <==> BlockAborts(total, outer, s)
  {
    hide Skip, CollectSpans, SkipAborts, CollectAborts;
    SkipStops(total - |s|, s);
    if Skip(s).Ok? {
      var s1 := Skip(s).rest;
      CollectStops(total - |s1|, s1);
      if CollectSpans(s1).Ok? {
        CollectStops(total - |CollectSpans(s1).rest|, CollectSpans(s1).rest);
      }
    }
  }

  /** Extraction stops the process exactly when its walk reaches a string whose declared length
      carries the position past 2^64, in the innermost envelope it opens. */
  lemma {:induction false} ExtractStops(raw: seq<byte>)
    requires |raw| <= I64_MAX
    ensures Extract(raw) == Rejected(Aborted) <==> ExtractAborts(raw)
    decreases |raw|
  {
    hide Skip, SkipAborts, ArrayBegin, ExpectMajor, ExtractBlock, BlockAborts, Consumed;
    HeaderNeverStops(raw, |raw|);
    var head := ArrayBegin(raw);
    if head.Ok? {
      var era := ExpectMajor(UNSIGNED, head.rest);
      HeaderNeverStops(head.rest, |raw|);
      BlockStops(|raw|, head.value, head.rest);
      if head.value == Some(2) && era.Ok? {
        SkipStops(|raw| - |era.rest|, era.rest);
        if Unwrapped(raw).Ok? && Unwrapped(raw).value.Some? {
          ExtractStops(Unwrapped(raw).value.value);
        }
      }
    }
  }
}
