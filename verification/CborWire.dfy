/** The CBOR wire format: heads, strings and the primitive readers, on byte sequences. */
module CborWire {
  import opened Options
  import opened Bytes
  import opened Saturating
  import opened Utf8

  const UNSIGNED: nat := 0
  const NEGATIVE: nat := 1
  const BYTES: nat := 2
  const TEXT: nat := 3
  const ARRAY: nat := 4
  const MAP: nat := 5
  const TAG: nat := 6
  const SIMPLE: nat := 7
  const AI_INDEF: nat := 31
  const BREAK: byte := 255
  const NULL: byte := 246

  /** A reader of bytes that runs short says how many bytes were left and how many it wanted. */
  datatype Error =
    | EndOfInput(left: nat, wanted: nat)
    | UnexpectedEof
    | Aborted // the process stops
    | InvalidAdditionalInfo(info: nat)
    | TypeMismatch(expected: nat, actual: nat)
    | InvalidLength(expectedLength: nat, actualLength: nat)

  /** What running short becomes in a decoder over `total` bytes. The end of the wanted slice is a
      64-bit sum; when it wraps it passes the test against the length and the slice stops the process. */
  function Surface(e: Error, total: nat): Error {
    if !e.EndOfInput? then e
    else if total - e.left + e.wanted > U64_MAX then Aborted
    else UnexpectedEof
  }

  /** A value read off the front of the input, with the bytes left, or an error. */
  datatype Parsed<+T> = Ok(value: T, rest: seq<byte>) | Err(error: Error) {
    predicate IsFailure() { Err? }
    function PropagateFailure<U>(): Parsed<U> requires Err? { Err(error) }
    function Extract(): (T, seq<byte>) requires Ok? { (value, rest) }
  }

  // ----- heads -------------------------------------------------------------------------

  /** The big-endian bytes of a number, at a fixed width. */
  function BigEndianBytes(value: nat, width: nat): (s: seq<byte>)
    ensures |s| == width
  {
    if width == 0 then [] else BigEndianBytes(value / 256, width - 1) + [value % 256]
  }

  lemma NoBytes(value: nat)
    ensures BigEndianBytes(value, 0) == []
  {
  }

  lemma {:induction false} BigEndianBytesValue(value: nat, width: nat)
    requires value < Pow256(width)
    ensures BigEndian(BigEndianBytes(value, width)) == value
    decreases width
  {
    if width > 0 {
      var s := BigEndianBytes(value, width);
      BigEndianBytesValue(value / 256, width - 1);
      assert s[..width - 1] == BigEndianBytes(value / 256, width - 1);
    }
  }

  lemma {:induction false} BigEndianBound(s: seq<byte>)
    ensures BigEndian(s) < Pow256(|s|)
  {
    if s != [] {
      BigEndianBound(s[..|s| - 1]);
    }
  }

  /** 256^1, 256^2, 256^4 and 256^8, written out. */
  lemma Widths()
    ensures Pow256(1) == 0x100 && Pow256(2) == 0x1_0000
    ensures Pow256(4) == 0x1_0000_0000 && Pow256(8) == U64_MAX + 1
  {
    PowAdd(2, 2, 1);
    PowAdd(4, 4, 1);
  }

  /** The number of argument bytes behind each additional-information value up to 27. */
  function Width(ai: nat): nat {
    if ai == 24 then 1 else if ai == 25 then 2 else if ai == 26 then 4 else if ai == 27 then 8 else 0
  }

  /** The shortest additional information that holds a value. */
  function ShortestInfo(value: U64): (ai: nat)
    ensures ai <= 27
    ensures ai < 24 ==> ai == value
    ensures ai >= 24 ==> value < Pow256(Width(ai))
  {
    Widths();
    if value < 24 then value
    else if value <= 0xff then 24
    else if value <= 0xffff then 25
    else if value <= 0xffff_ffff then 26
    else 27
  }

  /** The initial byte and the argument of a data item, in the shortest form. */
  function Head(major: nat, value: U64): (s: seq<byte>)
    requires major < 8
    ensures s != [] && s[0] == major * 32 + ShortestInfo(value)
  {
    var ai := ShortestInfo(value);
    [major * 32 + ai] + BigEndianBytes(value, Width(ai))
  }

  // ----- primitive readers -----------------------------------------------------------------

  function PeekByte(s: seq<byte>): Parsed<byte> {
    if s == [] then Err(EndOfInput(0, 1)) else Ok(s[0], s)
  }

  function ReadByte(s: seq<byte>): Parsed<byte> {
    if s == [] then Err(EndOfInput(0, 1)) else Ok(s[0], s[1..])
  }

  function ReadExact(s: seq<byte>, n: nat): Parsed<seq<byte>> {
    if n > |s| then Err(EndOfInput(|s|, n)) else Ok(s[..n], s[n..])
  }

  function ReadArgument(initial: byte, s: seq<byte>): (r: Parsed<nat>)
    ensures r.Ok? ==> r.value <= U64_MAX && |r.rest| <= |s|
  {
    var ai := initial % 32;
    if ai < 24 then Ok(ai, s)
    else if ai <= 27 then
      var (bytes, rest) :- ReadExact(s, Width(ai));
      BigEndianBound(bytes); Widths();
      Ok(BigEndian(bytes), rest)
    else Err(InvalidAdditionalInfo(ai))
  }

  function ExpectMajor(expected: nat, s: seq<byte>): (r: Parsed<nat>)
    ensures r.Ok? ==> r.value <= U64_MAX && |r.rest| < |s|
  {
    var (initial, rest) :- ReadByte(s);
    if initial / 32 != expected then Err(TypeMismatch(expected, initial / 32))
    else ReadArgument(initial, rest)
  }

  /** A definite-length byte or text string. */
  function ReadString(major: nat, s: seq<byte>): (r: Parsed<seq<byte>>)
    ensures r.Ok? ==> |r.rest| < |s| && |r.value| <= U64_MAX
  {
    var (len, rest) :- ExpectMajor(major, s);
    ReadExact(rest, len)
  }

  /** What a text string holds. */
  type Text = s: seq<byte> | |s| <= U64_MAX && IsUtf8(s)

  /** A definite-length text string; other bytes than text are refused as if they were of the byte type. */
  function ReadText(s: seq<byte>): (r: Parsed<Text>)
    ensures r.Ok? ==> |r.rest| < |s|
  {
    var (data, rest) :- ReadString(TEXT, s);
    if IsUtf8(data) then Ok(data, rest) else Err(TypeMismatch(TEXT, BYTES))
  }

  function ReadNull(s: seq<byte>): Parsed<()> {
    var (b, rest) :- ReadByte(s);
    if b == NULL then Ok((), rest) else Err(TypeMismatch(SIMPLE, b / 32))
  }

  predicate IsBreak(s: seq<byte>) { s != [] && s[0] == BREAK }

  function ConsumeBreak(s: seq<byte>): Parsed<()> {
    var (b, rest) :- ReadByte(s);
    if b == BREAK then Ok((), rest) else Err(TypeMismatch(SIMPLE, b / 32))
  }

  function PeekMajor(s: seq<byte>): Parsed<nat> {
    var (b, rest) :- PeekByte(s);
    Ok(b / 32, rest)
  }

  /** An array header: the count, or None for the indefinite form. */
  function ArrayBegin(s: seq<byte>): (r: Parsed<Option<nat>>)
    ensures r.Ok? ==> |r.rest| < |s| && (r.value.Some? ==> r.value.value <= U64_MAX)
  {
    var (initial, _) :- PeekByte(s);
    if initial / 32 != ARRAY then Err(TypeMismatch(ARRAY, initial / 32))
    else if initial % 32 == AI_INDEF then Ok(None, s[1..])
    else
      var (n, rest) :- ExpectMajor(ARRAY, s);
      Ok(Some(n), rest)
  }

  /** An array header that may stand behind the set tag 258. */
  function ArrayOrSet(s: seq<byte>): (r: Parsed<nat>)
    ensures r.Ok? ==> r.value <= U64_MAX && |r.rest| < |s|
  {
    var (major, _) :- PeekMajor(s);
    if major == TAG then
      var (tag, rest) :- ExpectMajor(TAG, s);
      if tag != 258 then ExpectMajor(ARRAY, s) else ExpectMajor(ARRAY, rest)
    else ExpectMajor(ARRAY, s)
  }

  /** A signed integer of either sign, limited to 64 bits. */
  function ReadInteger(s: seq<byte>): (r: Parsed<int>)
    ensures r.Ok? ==> -I64_MAX - 1 <= r.value <= I64_MAX && |r.rest| < |s|
  {
    var (major, _) :- PeekMajor(s);
    if major == UNSIGNED then
      var (v, rest) :- ExpectMajor(UNSIGNED, s);
      if v > I64_MAX then Err(TypeMismatch(UNSIGNED, UNSIGNED)) else Ok(v, rest)
    else if major == NEGATIVE then
      var (n, rest) :- ExpectMajor(NEGATIVE, s);
      if n > I64_MAX then Err(TypeMismatch(NEGATIVE, NEGATIVE)) else Ok(-1 - n, rest)
    else Err(TypeMismatch(UNSIGNED, major))
  }

  // ----- primitive encodings ------------------------------------------------------------------

  function EncodeString(major: nat, data: seq<byte>): seq<byte>
    requires major < 8 && |data| <= U64_MAX
  {
    Head(major, |data|) + data
  }

  function EncodeInteger(value: int): seq<byte>
    requires -I64_MAX - 1 <= value <= I64_MAX
  {
    if value >= 0 then Head(UNSIGNED, value) else Head(NEGATIVE, -1 - value)
  }

  // ----- round trips -----------------------------------------------------------------------------

  /** Every head, of every major type and in all five widths, reads back before any suffix. */
  lemma HeadRoundTrip(major: nat, value: U64, rest: seq<byte>)
    requires major < 8
    ensures ExpectMajor(major, Head(major, value) + rest) == Ok(value, rest)
  {
    hide Pow256;
    var ai := ShortestInfo(value);
    var payload := BigEndianBytes(value, Width(ai));
    var s := Head(major, value) + rest;
    assert s[0] == major * 32 + ai;
    assert s[1..] == payload + rest;
    assert s[0] / 32 == major && s[0] % 32 == ai;
    if ai >= 24 {
      assert (payload + rest)[..Width(ai)] == payload;
      assert (payload + rest)[Width(ai)..] == rest;
      BigEndianBytesValue(value, Width(ai));
    } else {
      assert payload + rest == rest;
    }
  }

  lemma StringRoundTrip(major: nat, data: seq<byte>, rest: seq<byte>)
    requires major < 8 && |data| <= U64_MAX
    ensures ReadString(major, EncodeString(major, data) + rest) == Ok(data, rest)
  {
    hide Head, ExpectMajor;
    assert EncodeString(major, data) + rest == Head(major, |data|) + (data + rest);
    HeadRoundTrip(major, |data|, data + rest);
    assert (data + rest)[..|data|] == data && (data + rest)[|data|..] == rest;
  }

  lemma TextRoundTrip(data: Text, rest: seq<byte>)
    ensures ReadText(EncodeString(TEXT, data) + rest) == Ok(data, rest)
  {
    hide ReadString, EncodeString, IsUtf8;
    StringRoundTrip(TEXT, data, rest);
  }

  /** Every 64-bit signed integer reads back before any suffix. */
  lemma IntegerRoundTrip(value: int, rest: seq<byte>)
    requires -I64_MAX - 1 <= value <= I64_MAX
    ensures ReadInteger(EncodeInteger(value) + rest) == Ok(value, rest)
  {
    hide ExpectMajor;
    if value >= 0 {
      HeadRoundTrip(UNSIGNED, value, rest);
      HeadMajor(UNSIGNED, value, rest);
    } else {
      HeadRoundTrip(NEGATIVE, -1 - value, rest);
      HeadMajor(NEGATIVE, -1 - value, rest);
    }
  }

  /** What a head shows to a reader that peeks: its own major type, never a break or null. */
  lemma HeadMajor(major: nat, value: U64, rest: seq<byte>)
    requires major < 8
    ensures PeekMajor(Head(major, value) + rest) == Ok(major, Head(major, value) + rest)
    ensures !IsBreak(Head(major, value) + rest)
  {
    hide Head, ShortestInfo;
    var first := (Head(major, value) + rest)[0];
    assert first == major * 32 + ShortestInfo(value);
    assert first / 32 == major;
  }

  lemma ArrayBeginRoundTrip(count: U64, rest: seq<byte>)
    ensures ArrayBegin(Head(ARRAY, count) + rest) == Ok(Some(count), rest)
  {
    HeadRoundTrip(ARRAY, count, rest);
  }
}
