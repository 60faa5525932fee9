/** Runs of items, for any item codec, and the variable-length array that holds them. */
module CborArrays {
  import opened Bytes
  import opened CborWire

  function EncodeAll<T>(items: seq<T>, encode: T -> seq<byte>): seq<byte> {
    if items == [] then [] else encode(items[0]) + EncodeAll(items[1..], encode)
  }

  function ReadMany<T>(n: nat, s: seq<byte>, read: seq<byte> -> Parsed<T>): (r: Parsed<seq<T>>)
    ensures r.Ok? ==> |r.value| == n
    decreases n
  {
    if n == 0 then Ok([], s)
    else
      var (x, s1) :- read(s);
      var (others, s2) :- ReadMany(n - 1, s1, read);
      Ok([x] + others, s2)
  }

  /** Reading an item uses up input. */
  ghost predicate Consumes<T>(read: seq<byte> -> Parsed<T>) {
    forall s :: read(s).Ok? ==> |read(s).rest| < |s|
  }

  ghost function ReadUntilBreak<T(!new)>(s: seq<byte>, read: seq<byte> -> Parsed<T>): Parsed<seq<T>>
    requires Consumes(read)
    decreases |s|
  {
    if IsBreak(s) then Ok([], s[1..])
    else
      var (x, s1) :- read(s);
      var (others, s2) :- ReadUntilBreak(s1, read);
      Ok([x] + others, s2)
  }

  /** A pair of functions that undo each other before any suffix, and never look like a break. */
  ghost predicate Codec<T(!new)>(encode: T -> seq<byte>, read: seq<byte> -> Parsed<T>) {
    forall x: T, rest ::
      read(encode(x) + rest) == Ok(x, rest) && !IsBreak(encode(x) + rest)
  }

  lemma {:induction false} ManyRoundTrip<T(!new)>(
      items: seq<T>, encode: T -> seq<byte>, read: seq<byte> -> Parsed<T>, rest: seq<byte>)
    requires Codec(encode, read)
    ensures ReadMany(|items|, EncodeAll(items, encode) + rest, read) == Ok(items, rest)
    decreases |items|
  {
    if items == [] {
      assert EncodeAll(items, encode) + rest == rest;
    } else {
      var others := EncodeAll(items[1..], encode) + rest;
      assert EncodeAll(items, encode) + rest == encode(items[0]) + others;
      ManyRoundTrip(items[1..], encode, read, rest);
      assert items == [items[0]] + items[1..];
    }
  }

  lemma {:induction false} UntilBreakRoundTrip<T(!new)>(
      items: seq<T>, encode: T -> seq<byte>, read: seq<byte> -> Parsed<T>, rest: seq<byte>)
    requires Codec(encode, read) && Consumes(read)
    ensures ReadUntilBreak(EncodeAll(items, encode) + [BREAK] + rest, read) == Ok(items, rest)
    decreases |items|
  {
    if items == [] {
      assert (EncodeAll(items, encode) + [BREAK] + rest)[1..] == rest;
    } else {
      var others := EncodeAll(items[1..], encode) + [BREAK] + rest;
      assert EncodeAll(items, encode) + [BREAK] + rest == encode(items[0]) + others;
      UntilBreakRoundTrip(items[1..], encode, read, rest);
      assert items == [items[0]] + items[1..];
    }
  }

  // ----- variable-length arrays ---------------------------------------------------------------

  const DEFINITE_MAX: nat := 23

  /** Definite up to 23 elements, indefinite above. */
  function EncodeVariable<T>(items: seq<T>, encode: T -> seq<byte>): seq<byte> {
    if |items| <= DEFINITE_MAX then Head(ARRAY, |items|) + EncodeAll(items, encode)
    else [0x9f] + (EncodeAll(items, encode) + [BREAK])
  }

  ghost function ReadVariable<T(!new)>(s: seq<byte>, read: seq<byte> -> Parsed<T>): Parsed<seq<T>>
    requires Consumes(read)
  {
    var (count, s1) :- ArrayBegin(s);
    match count
    case Some(n) => ReadMany(n, s1, read)
    case None => ReadUntilBreak(s1, read)
  }

  /** Every list reads back from its variable-length form, on both sides of the threshold. */
  lemma VariableRoundTrip<T(!new)>(
      items: seq<T>, encode: T -> seq<byte>, read: seq<byte> -> Parsed<T>, rest: seq<byte>)
    requires Codec(encode, read) && Consumes(read)
    ensures ReadVariable(EncodeVariable(items, encode) + rest, read) == Ok(items, rest)
  {
    hide Head, EncodeAll, ReadMany, ReadUntilBreak, ExpectMajor;
    var all := EncodeAll(items, encode);
    if |items| <= DEFINITE_MAX {
      assert EncodeVariable(items, encode) + rest == Head(ARRAY, |items|) + (all + rest);
      ArrayBeginRoundTrip(|items|, all + rest);
      ManyRoundTrip(items, encode, read, rest);
    } else {
      var s := EncodeVariable(items, encode) + rest;
      assert s[0] == 0x9f && s[1..] == all + [BREAK] + rest;
      UntilBreakRoundTrip(items, encode, read, rest);
    }
  }

  // ----- for the loops ---------------------------------------------------------------------------

  /** Items read already, put in front of the ones still to come. */
  ghost function Prepend<T>(done: seq<T>, rest: Parsed<seq<T>>): Parsed<seq<T>> {
    match rest
    case Ok(items, end) => Ok(done + items, end)
    case Err(e) => Err(e)
  }

  lemma PrependNone<T>(rest: Parsed<seq<T>>)
    ensures Prepend([], rest) == rest
  {
    assert rest.Ok? ==> [] + rest.value == rest.value;
  }

  lemma PrependMore<T>(done: seq<T>, x: T, rest: Parsed<seq<T>>)
    ensures Prepend(done + [x], rest) == Prepend(done, Prepend([x], rest))
  {
    assert rest.Ok? ==> (done + [x]) + rest.value == done + ([x] + rest.value);
  }

  lemma {:induction false} EncodeAllMore<T>(items: seq<T>, n: nat, encode: T -> seq<byte>)
    requires n < |items|
    ensures EncodeAll(items[..n + 1], encode) == EncodeAll(items[..n], encode) + encode(items[n])
    decreases n
  {
    if n == 0 {
      assert items[..1][1..] == [];
    } else {
      EncodeAllMore(items[1..], n - 1, encode);
      assert items[..n + 1][1..] == items[1..][..n] && items[..n][1..] == items[1..][..n - 1];
    }
  }
}
