/** The encoder's growing buffer and the decoder's moving position. */
module CborCodec {
  import opened Options
  import opened Bytes
  import opened CborWire
  import opened CborItems
  import opened CborSpans
  import opened CborArrays
  import opened Saturating
  import opened Utf8

  datatype Result<+T> = Success(value: T) | Failure(error: Error) {
    predicate IsFailure() { Failure? }
    function PropagateFailure<U>(): Result<U> requires Failure? { Failure(error) }
    function Extract(): T requires Success? { value }
  }

  class Decoder {
    const data: seq<byte>
    var pos: nat

    ghost predicate Valid()
      reads this
    {
      pos <= |data| <= I64_MAX
    }

    /** The bytes not read yet. */
    ghost function Rest(): seq<byte>
      requires Valid()
      reads this
    {
      data[pos..]
    }

    /** The result is that of the wire-level reader, and the bytes left are those it leaves. */
    ghost predicate Gives<T(!new)>(r: Result<T>, spec: Parsed<T>)
      requires Valid()
      reads this
    {
      match spec
      case Ok(v, rest) => r == Success(v) && Rest() == rest
      case Err(e) => r == Failure(Surface(e, |data|))
    }

    /** A slice holds at most as many bytes as a signed machine word counts. */
    constructor (bytes: seq<byte>)
      requires |bytes| <= I64_MAX
      ensures Valid() && data == bytes && Rest() == bytes
    {
      data := bytes;
      pos := 0;
    }

    /** Moves past `n` bytes. */
    method Advance(n: nat)
      requires Valid() && n <= |Rest()|
      modifies this`pos
      ensures Valid() && pos == old(pos) + n && Rest() == old(Rest())[n..]
    {
      pos := pos + n;
    }

    method IsEmpty() returns (b: bool)
      requires Valid()
      ensures b == (Rest() == [])
    {
      b := pos >= |data|;
    }

    method Peek() returns (r: Result<byte>)
      requires Valid()
      ensures Gives(r, PeekByte(Rest()))
    {
      r := if pos < |data| then Success(data[pos]) else Failure(UnexpectedEof);
    }

    method Byte() returns (r: Result<byte>)
      requires Valid()
      modifies this`pos
      ensures Valid() && pos >= old(pos) && Gives(r, ReadByte(old(Rest())))
    {
      var b :- Peek();
      Advance(1);
      r := Success(b);
    }

    /** The end of the slice is a wrapping sum. When it wraps it lies before the start, passes the
        test against the length, and the slice stops the process. */
    method Exact(n: U64) returns (r: Result<seq<byte>>)
      requires Valid()
      modifies this`pos
      ensures Valid() && pos >= old(pos) && Gives(r, ReadExact(old(Rest()), n))
      ensures r == Failure(Aborted) <==> old(pos) + n > U64_MAX
    {
      var end := Wrap64(pos + n);
      if end > |data| {
        return Failure(UnexpectedEof);
      }
      if end < pos {
        return Failure(Aborted);
      }
      var slice := data[pos..end];
      assert slice == Rest()[..n];
      Advance(n);
      r := Success(slice);
    }

    method Argument(initial: byte) returns (r: Result<nat>)
      requires Valid()
      modifies this`pos
      ensures Valid() && pos >= old(pos) && Gives(r, ReadArgument(initial, old(Rest())))
    {
      var info := initial % 32;
      if info < 24 {
        r := Success(info);
      } else if info <= 27 {
        var bytes :- Exact(Width(info));
        r := Success(BigEndian(bytes));
      } else {
        r := Failure(InvalidAdditionalInfo(info));
      }
    }

    method Major(expected: nat) returns (r: Result<nat>)
      requires Valid()
      modifies this`pos
      ensures Valid() && pos >= old(pos) && Gives(r, ExpectMajor(expected, old(Rest())))
    {
      var initial :- Byte();
      if initial / 32 != expected {
        return Failure(TypeMismatch(expected, initial / 32));
      }
      r := Argument(initial);
    }

    method String(major: nat) returns (r: Result<seq<byte>>)
      requires Valid()
      modifies this`pos
      ensures Valid() && pos >= old(pos) && Gives(r, ReadString(major, old(Rest())))
      ensures var head := ExpectMajor(major, old(Rest()));
              r == Failure(Aborted) <==> head.Ok? && |data| - |head.rest| + head.value > U64_MAX
    {
      var len :- Major(major);
      r := Exact(len);
    }

    /** The bytes of a text string have been read when they turn out not to be text. */
    method Text() returns (r: Result<Text>)
      requires Valid()
      modifies this`pos
      ensures Valid() && pos >= old(pos) && Gives(r, ReadText(old(Rest())))
    {
      hide ReadString, IsUtf8;
      var raw :- String(TEXT);
      r := if IsUtf8(raw) then Success(raw) else Failure(TypeMismatch(TEXT, BYTES));
    }

    method Null() returns (r: Result<()>)
      requires Valid()
      modifies this`pos
      ensures Valid() && pos >= old(pos) && Gives(r, ReadNull(old(Rest())))
    {
      var b :- Byte();
      r := if b == NULL then Success(()) else Failure(TypeMismatch(SIMPLE, b / 32));
    }

    method AtBreak() returns (b: bool)
      requires Valid()
      ensures b == IsBreak(Rest())
    {
      b := pos < |data| && data[pos] == BREAK;
    }

    method Break() returns (r: Result<()>)
      requires Valid()
      modifies this`pos
      ensures Valid() && pos >= old(pos) && Gives(r, ConsumeBreak(old(Rest())))
    {
      var b :- Byte();
      r := if b == BREAK then Success(()) else Failure(TypeMismatch(SIMPLE, b / 32));
    }

    method NextMajor() returns (r: Result<nat>)
      requires Valid()
      ensures Gives(r, PeekMajor(Rest()))
    {
      var b :- Peek();
      r := Success(b / 32);
    }

    method BeginArray() returns (r: Result<Option<nat>>)
      requires Valid()
      modifies this`pos
      ensures Valid() && pos >= old(pos) && Gives(r, ArrayBegin(old(Rest())))
    {
      var initial :- Peek();
      if initial / 32 != ARRAY {
        return Failure(TypeMismatch(ARRAY, initial / 32));
      }
      if initial % 32 == AI_INDEF {
        Advance(1);
        return Success(None);
      }
      var n :- Major(ARRAY);
      r := Success(Some(n));
    }

    /** An array header behind an optional set tag; any other tag is rewound. */
    method BeginArrayOrSet() returns (r: Result<nat>)
      requires Valid()
      modifies this`pos
      ensures Valid() && pos >= old(pos) && Gives(r, ArrayOrSet(old(Rest())))
    {
      var major :- NextMajor();
      if major == TAG {
        var saved := pos;
        var tag :- Major(TAG);
        if tag != 258 {
          pos := saved;
        }
      }
      r := Major(ARRAY);
    }

    method Integer() returns (r: Result<int>)
      requires Valid()
      modifies this`pos
      ensures Valid() && pos >= old(pos) && Gives(r, ReadInteger(old(Rest())))
    {
      var major :- NextMajor();
      if major == UNSIGNED {
        var v :- Major(UNSIGNED);
        r := if v > I64_MAX then Failure(TypeMismatch(UNSIGNED, UNSIGNED)) else Success(v);
      } else if major == NEGATIVE {
        var n :- Major(NEGATIVE);
        r := if n > I64_MAX then Failure(TypeMismatch(NEGATIVE, NEGATIVE)) else Success(-1 - n);
      } else {
        r := Failure(TypeMismatch(UNSIGNED, major));
      }
    }

    // ----- skipping ------------------------------------------------------------------------

    /** Skips one data item, nested to any depth. */
    method SkipItem() returns (r: Result<()>)
      requires Valid()
      modifies this`pos
      ensures Valid() && pos >= old(pos) && Gives(r, Skip(old(Rest())))
      ensures r == Failure(Aborted) <==> SkipAborts(old(pos), old(Rest()))
      decreases |data| - pos, 0
    {
      SkipStops(pos, Rest());
      var initial :- Byte();
      var major, info := initial / 32, initial % 32;
      if major == SIMPLE {
        if info > 27 {
          return Failure(InvalidAdditionalInfo(info));
        }
        var _ :- Exact(Width(info));
        return Success(());
      }
      if BYTES <= major <= MAP && info == AI_INDEF {
        r := SkipToBreak(Group(major));
        return;
      }
      var value :- Argument(initial);
      var _ :- Exact(ContentLength(major, value));
      r := SkipItems(Count(major, value));
    }

    /** Skips a counted run of items. */
    method SkipItems(n: nat) returns (r: Result<()>)
      requires Valid()
      modifies this`pos
      ensures Valid() && pos >= old(pos) && Gives(r, SkipMany(n, old(Rest())))
      ensures r == Failure(Aborted) <==> ManyAborts(n, old(pos), old(Rest()))
      decreases |data| - pos, 1
    {
      hide Skip, ManyAborts, SkipAborts;
      ghost var spec := SkipMany(n, Rest());
      ManyStops(n, pos, Rest());
      for i := 0 to n
        invariant Valid() && pos >= old(pos)
        invariant SkipMany(n - i, Rest()) == spec
        invariant i > 0 ==> pos > old(pos)
      {
        var _ :- SkipItem();
      }
      r := Success(());
    }

    /** Skips groups of items up to and including the break. */
    method SkipToBreak(group: nat) returns (r: Result<()>)
      requires Valid() && group > 0
      modifies this`pos
      ensures Valid() && pos >= old(pos) && Gives(r, SkipUntilBreak(group, old(Rest())))
      ensures r == Failure(Aborted) <==> UntilBreakAborts(group, old(pos), old(Rest()))
      decreases |data| - pos, 2
    {
      hide Skip, SkipMany, UntilBreakAborts, ManyAborts;
      ghost var spec := SkipUntilBreak(group, Rest());
      UntilBreakStops(group, pos, Rest());
      while true
        invariant Valid() && pos >= old(pos)
        invariant SkipUntilBreak(group, Rest()) == spec
        decreases |data| - pos
      {
        var b :- Peek();
        if b == BREAK {
          Advance(1);
          return Success(());
        }
        var _ :- SkipItems(group);
      }
    }

    // ----- raw spans ------------------------------------------------------------------------

    /** The raw bytes of one data item. */
    method RawValue() returns (r: Result<seq<byte>>)
      requires Valid()
      modifies this`pos
      ensures Valid() && pos >= old(pos)
      ensures var item := Skip(old(Rest()));
              Gives(r, if item.Err? then Err(item.error) else Ok(Consumed(old(Rest()), item.rest), item.rest))
      ensures r == Failure(Aborted) <==> SkipAborts(old(pos), old(Rest()))
    {
      hide Skip, SkipAborts;
      var start := pos;
      ghost var before := Rest();
      var _ :- SkipItem();
      ConsumedSlice(data, start, pos);
      r := Success(data[start..pos]);
    }

    /** The spans of a counted run of items. */
    method CountedSpans(n: nat) returns (r: Result<seq<seq<byte>>>)
      requires Valid()
      modifies this`pos
      ensures Valid() && pos >= old(pos) && Gives(r, SpansOf(n, old(Rest())))
    {
      hide Skip, Consumed;
      ghost var spec := SpansOf(n, Rest());
      var out: seq<seq<byte>> := [];
      PrependNone(spec);
      for i := 0 to n
        invariant Valid() && pos >= old(pos)
        invariant Prepend(out, SpansOf(n - i, Rest())) == spec
      {
        var span :- RawValue();
        PrependMore(out, span, SpansOf(n - i - 1, Rest()));
        out := out + [span];
      }
      assert out + [] == out;
      r := Success(out);
    }

    /** The spans up to the break, capped. */
    method SpansToBreak() returns (r: Result<seq<seq<byte>>>)
      requires Valid()
      modifies this`pos
      ensures Valid() && pos >= old(pos) && Gives(r, SpansUntilBreak(0, old(Rest())))
    {
      hide Skip, Consumed;
      ghost var spec := SpansUntilBreak(0, Rest());
      var out: seq<seq<byte>> := [];
      var atBreak := AtBreak();
      PrependNone(spec);
      while !atBreak
        invariant Valid() && pos >= old(pos) && atBreak == IsBreak(Rest())
        invariant Prepend(out, SpansUntilBreak(|out|, Rest())) == spec
        decreases |data| - pos
      {
        if |out| >= ELEMENTS_MAX {
          return Failure(InvalidLength(ELEMENTS_MAX, |out| + 1));
        }
        var span :- RawValue();
        PrependMore(out, span, SpansUntilBreak(|out| + 1, Rest()));
        out := out + [span];
        atBreak := AtBreak();
      }
      var _ := Break();
      assert out + [] == out;
      r := Success(out);
    }

    method Spans() returns (r: Result<seq<seq<byte>>>)
      requires Valid()
      modifies this`pos
      ensures Valid() && pos >= old(pos) && Gives(r, CollectSpans(old(Rest())))
    {
      hide SpansOf, SpansUntilBreak;
      var count :- BeginArray();
      match count
      case Some(n) => r := CountedSpans(n);
      case None => r := SpansToBreak();
    }
  }

  lemma ConsumedSlice(data: seq<byte>, start: nat, end: nat)
    requires start <= end <= |data|
    ensures Consumed(data[start..], data[end..]) == data[start..end]
  {
  }

  /** The block inside a definite two-element envelope, if that is what the bytes are. */
  method UnwrapEnvelope(envelope: Decoder) returns (r: Result<Option<seq<byte>>>)
    requires envelope.Valid()
    modifies envelope`pos
    ensures match Unwrapped(old(envelope.Rest()))
            case Ok(inner, _) => r == Success(inner)
            case Err(e) => r == Failure(Surface(e, |envelope.data|))
  {
    hide Skip, Consumed, ExpectMajor, ArrayBegin;
    var outer :- envelope.BeginArray();
    if outer == Some(2) {
      var era := envelope.Major(UNSIGNED);
      if era.Success? {
        var inner :- envelope.RawValue();
        var empty := envelope.IsEmpty();
        var atBreak := envelope.AtBreak();
        if empty || atBreak {
          return Success(Some(inner));
        }
      }
    }
    r := Success(None);
  }

  method ExtractFromBlock(dec: Decoder) returns (r: Result<BlockSpans>)
    requires dec.Valid()
    modifies dec`pos
    ensures match ArrayBegin(old(dec.Rest()))
            case Err(e) => r == Failure(Surface(e, |dec.data|))
            case Ok(outer, s) => Reports(r, ExtractBlock(|dec.data|, outer, s))
  {
    hide Skip, CollectSpans, ArrayBegin;
    var outer :- dec.BeginArray();
    if outer.Some? && outer.value < 3 {
      return Failure(InvalidLength(3, outer.value));
    }
    var _ :- dec.SkipItem();
    var bodies :- dec.Spans();
    var witnessSets :- dec.Spans();
    r := Success(BlockSpans(bodies, witnessSets));
  }

  ghost predicate Reports(r: Result<BlockSpans>, spec: Extracted) {
    match spec
    case Spans(spans) => r == Success(spans)
    case Rejected(e) => r == Failure(e)
  }

  /** Extraction, through any number of envelopes. */
  method ExtractBlockTxByteSpans(raw: seq<byte>) returns (r: Result<BlockSpans>)
    requires |raw| <= I64_MAX
    ensures Reports(r, Extract(raw))
    ensures r == Failure(Aborted) <==> ExtractAborts(raw)
    decreases |raw|
  {
    hide ExtractAborts, Unwrapped, Surface, ExtractBlock, ArrayBegin;
    ExtractStops(raw);
    var envelope := new Decoder(raw);
    var inner :- UnwrapEnvelope(envelope);
    if inner.Some? {
      r := ExtractBlockTxByteSpans(inner.value);
    } else {
      var dec := new Decoder(raw);
      r := ExtractFromBlock(dec);
    }
  }

  // ----- the encoder ----------------------------------------------------------------------------

  class Encoder {
    var buf: seq<byte>

    constructor ()
      ensures buf == []
    {
      buf := [];
    }

    method Push(b: byte)
      modifies this
      ensures buf == old(buf) + [b]
    {
      buf := buf + [b];
    }

    method Raw(data: seq<byte>)
      modifies this
      ensures buf == old(buf) + data
    {
      buf := buf + data;
    }

    /** The initial byte and the argument, in the shortest of the five forms. */
    method TypeAndArgument(major: nat, value: U64)
      requires major < 8
      modifies this
      ensures buf == old(buf) + Head(major, value)
    {
      hide Pow256, BigEndianBytes;
      var mt := major * 32;
      NoBytes(value);
      if value < 24 {
        Push(mt + value);
      } else if value <= 0xff {
        Push(mt + 24);
        Raw(BigEndianBytes(value, 1));
      } else if value <= 0xffff {
        Push(mt + 25);
        Raw(BigEndianBytes(value, 2));
      } else if value <= 0xffff_ffff {
        Push(mt + 26);
        Raw(BigEndianBytes(value, 4));
      } else {
        Push(mt + 27);
        Raw(BigEndianBytes(value, 8));
      }
    }

    method String(major: nat, data: seq<byte>)
      requires major < 8 && |data| <= U64_MAX
      modifies this
      ensures buf == old(buf) + EncodeString(major, data)
    {
      TypeAndArgument(major, |data|);
      Raw(data);
    }

    method Integer(value: int)
      requires -I64_MAX - 1 <= value <= I64_MAX
      modifies this
      ensures buf == old(buf) + EncodeInteger(value)
    {
      if value >= 0 {
        TypeAndArgument(UNSIGNED, value);
      } else {
        TypeAndArgument(NEGATIVE, -1 - value);
      }
    }

    method Null()
      modifies this
      ensures buf == old(buf) + [NULL]
    {
      Push(NULL);
    }
  }
}
