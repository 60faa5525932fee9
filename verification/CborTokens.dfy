/** The tokens of the wire format: heads with their values, strings and null, in any width of head. */
module CborTokens {
  import opened Options
  import opened Bytes
  import opened CborWire
  import opened CborArrays
  import opened Saturating
  import opened Utf8

  /** A head with its value, a string with its head, or null. */
  datatype Token = Lead(major: nat, value: nat) | Str(major: nat, data: seq<byte>) | Null

  // ----- tokens on the wire ------------------------------------------------------------------------

  /** A head of a major type and a value, in any of the widths that hold it. */
  predicate IsHead(major: nat, value: nat, f: seq<byte>) {
    && f != [] && f[0] / 32 == major && f[0] % 32 <= 27 && |f| == 1 + Width(f[0] % 32)
    && value == if f[0] % 32 < 24 then f[0] % 32 else BigEndian(f[1..])
  }

  /** The bytes of a token. Only the width of its head is free. */
  predicate Spells(t: Token, f: seq<byte>) {
    match t
    case Lead(major, value) => (major <= 1 || 4 <= major <= 6) && IsHead(major, value, f)
    case Str(major, data) =>
      && 2 <= major <= 3 && |data| <= |f| && IsHead(major, |data|, f[..|f| - |data|])
      && f[|f| - |data|..] == data
    case Null => f == [0xf6]
  }

  /** The token at the front. */
  function Lex(s: seq<byte>): Parsed<Token> {
    if s == [] then Err(UnexpectedEof)
    else if s[0] == NULL then Ok(Null, s[1..])
    else if s[0] / 32 == SIMPLE then Err(TypeMismatch(SIMPLE, SIMPLE))
    else
      var (value, rest) :- ReadArgument(s[0], s[1..]);
      if s[0] / 32 == BYTES || s[0] / 32 == TEXT then
        var (data, end) :- ReadExact(rest, value);
        Ok(Str(s[0] / 32, data), end)
      else Ok(Lead(s[0] / 32, value), rest)
  }

  /** A token stands at the front exactly when one of its spellings does. */
  lemma LexExactly(s: seq<byte>, t: Token, rest: seq<byte>)
    ensures Lex(s) == Ok(t, rest) <==> exists f :: Spells(t, f) && s == f + rest
  {
    if Lex(s) == Ok(t, rest) {
      LexSpells(s, t, rest);
    }
    if f :| Spells(t, f) && s == f + rest {
      SpellingLexes(t, f, rest);
    }
  }

  lemma LexSpells(s: seq<byte>, t: Token, rest: seq<byte>)
    requires Lex(s) == Ok(t, rest)
    ensures |rest| <= |s|
    ensures var f := s[..|s| - |rest|]; Spells(t, f) && s == f + rest
  {
    hide IsHead, ReadArgument;
    if s[0] == NULL {
      assert s == [s[0]] + rest;
      assert s[..|s| - |rest|] == [0xf6];
    } else {
      ArgumentSpells(s);
      var body := ReadArgument(s[0], s[1..]).rest;
      if t.Str? {
        StringSpells(s[..|s| - |body|], body, |t.data|);
      }
    }
  }

  lemma StringSpells(head: seq<byte>, body: seq<byte>, n: nat)
    requires n <= |body|
    ensures var s, data, rest := head + body, body[..n], body[n..];
            var f := s[..|s| - |rest|];
            s == f + rest && f[..|f| - n] == head && f[|f| - n..] == data
  {
    assert body == body[..n] + body[n..];
    assert (head + body)[..|head| + n] == head + body[..n];
  }

  lemma ArgumentSpells(s: seq<byte>)
    requires s != [] && ReadArgument(s[0], s[1..]).Ok?
    ensures var r := ReadArgument(s[0], s[1..]);
            |r.rest| < |s| && IsHead(s[0] / 32, r.value, s[..|s| - |r.rest|]) && s == s[..|s| - |r.rest|] + r.rest
  {
    var r := ReadArgument(s[0], s[1..]);
    var w := if s[0] % 32 < 24 then 0 else Width(s[0] % 32);
    assert r.rest == s[1 + w..];
    assert s[..1 + w][1..] == s[1..][..w];
    assert |s| - |r.rest| == 1 + w;
  }

  lemma HeadReads(major: nat, value: nat, f: seq<byte>, rest: seq<byte>)
    requires IsHead(major, value, f)
    ensures (f + rest)[0] == f[0] && ReadArgument(f[0], (f + rest)[1..]) == Ok(value, rest)
  {
    var w := Width(f[0] % 32);
    var body := (f + rest)[1..];
    assert body == f[1..] + rest;
    assert body[..w] == f[1..] && body[w..] == rest;
  }

  lemma SpellingLexes(t: Token, f: seq<byte>, rest: seq<byte>)
    requires Spells(t, f)
    ensures Lex(f + rest) == Ok(t, rest)
  {
    match t
    case Lead(major, value) => HeadReads(major, value, f, rest);
    case Str(major, data) =>
      var head := f[..|f| - |data|];
      assert f + rest == head + (data + rest);
      HeadReads(major, |data|, head, data + rest);
      assert (data + rest)[..|data|] == data && (data + rest)[|data|..] == rest;
    case Null => assert (f + rest)[1..] == rest;
  }

  /** What is left behind the given tokens, if they stand at the front. */
  function After(s: seq<byte>, ts: seq<Token>): Option<seq<byte>>
    decreases |ts|
  {
    if ts == [] then Some(s)
    else
      var r := Lex(s);
      if r.Ok? && r.value == ts[0] then After(r.rest, ts[1..]) else None
  }

  ghost function ThenAfter(o: Option<seq<byte>>, ts: seq<Token>): Option<seq<byte>> {
    if o.None? then None else After(o.value, ts)
  }

  lemma {:induction false} AfterBoth(s: seq<byte>, a: seq<Token>, b: seq<Token>)
    ensures After(s, a + b) == ThenAfter(After(s, a), b)
    decreases |a|
  {
    if a == [] {
      assert a + b == b;
    } else {
      assert (a + b)[0] == a[0] && (a + b)[1..] == a[1..] + b;
      var r := Lex(s);
      if r.Ok? && r.value == a[0] {
        AfterBoth(r.rest, a[1..], b);
      }
    }
  }

  /** What a reader leaves, if it reads a given value. */
  ghost function Got<T>(r: Parsed<T>, x: T): Option<seq<byte>> {
    if r.Ok? && r.value == x then Some(r.rest) else None
  }

  /** What a reader leaves, if it succeeds. */
  ghost function Left<T>(r: Parsed<T>): Option<seq<byte>> {
    if r.Ok? then Some(r.rest) else None
  }

  /** One token. */
  lemma AfterOne(s: seq<byte>, t: Token)
    ensures After(s, [t]) == Got(Lex(s), t)
  {
    var r := Lex(s);
    if r.Ok? && r.value == t {
      assert After(r.rest, [t][1..]) == Some(r.rest);
    }
  }

  /** The primitive readers read one token. */
  lemma LeadExactly(major: nat, s: seq<byte>, value: nat)
    requires major in {UNSIGNED, NEGATIVE, ARRAY, MAP, TAG}
    ensures After(s, [Lead(major, value)]) == Got(ExpectMajor(major, s), value)
  {
    AfterOne(s, Lead(major, value));
  }

  lemma StrExactly(major: nat, s: seq<byte>, data: seq<byte>)
    requires major in {BYTES, TEXT}
    ensures After(s, [Str(major, data)]) == Got(ReadString(major, s), data)
  {
    AfterOne(s, Str(major, data));
  }

  /** Text is a text string of UTF-8. */
  lemma TextExactly(s: seq<byte>, data: Text)
    ensures After(s, [Str(TEXT, data)]) == Got(ReadText(s), data)
  {
    hide ReadString, After, IsUtf8;
    StrExactly(TEXT, s, data);
  }

  lemma NullExactly(s: seq<byte>)
    ensures After(s, [Null]) == Left(ReadNull(s))
  {
    AfterOne(s, Null);
  }

  /** Null shows at the first byte, and no other token does. */
  lemma NullShows(s: seq<byte>)
    ensures PeekMajor(s).Ok? && PeekMajor(s).value == SIMPLE ==> Lex(s).Err? || Lex(s).value == Null
    ensures !(PeekMajor(s).Ok? && PeekMajor(s).value == SIMPLE) ==> Lex(s).Err? || Lex(s).value != Null
    ensures Lex(s).Ok? && !Lex(s).value.Null? ==> PeekMajor(s) == Ok(Lex(s).value.major, s)
  {
  }

  /** Tokens that start with a head or a string do not follow where null shows. */
  lemma NotNull(s: seq<byte>, t: Token, ts: seq<Token>)
    requires !t.Null? && PeekMajor(s).Ok? && PeekMajor(s).value == SIMPLE
    ensures After(s, [t] + ts) == None
  {
    hide Lex, PeekMajor;
    NullShows(s);
    assert ([t] + ts)[0] == t;
  }

  lemma OnlyNull(s: seq<byte>)
    requires !(PeekMajor(s).Ok? && PeekMajor(s).value == SIMPLE)
    ensures After(s, [Null]) == None
  {
    hide Lex, PeekMajor;
    NullShows(s);
  }

  lemma NothingLexed(s: seq<byte>, ts: seq<Token>)
    requires Lex(s).Err? && ts != []
    ensures After(s, ts) == None
  {
    hide Lex;
  }

  /** Without a first byte no token stands at the front. */
  lemma NothingPeeked(s: seq<byte>)
    ensures PeekMajor(s).Err? ==> forall t, ts :: After(s, [t] + ts) == None && After(s, [t]) == None
  {
    if PeekMajor(s).Err? {
      forall t, ts ensures After(s, [t] + ts) == None && After(s, [t]) == None {
        NothingLexed(s, [t] + ts);
        NothingLexed(s, [t]);
      }
    }
  }

  /** A token at the front needs a first byte. */
  lemma Peeked(s: seq<byte>)
    ensures Lex(s).Ok? ==> PeekMajor(s).Ok?
  {
  }

  lemma NoTokens(s: seq<byte>)
    ensures After(s, []) == Some(s)
  {
  }

  /** A run of items whose reader takes exactly their tokens. */
  function AllTokens<T>(items: seq<T>, tokens: T -> seq<Token>): seq<Token> {
    if items == [] then [] else tokens(items[0]) + AllTokens(items[1..], tokens)
  }

  lemma {:induction false} ManyExactly<T(!new)>(
      s: seq<byte>, items: seq<T>, tokens: T -> seq<Token>, read: seq<byte> -> Parsed<T>)
    requires forall t, x :: After(t, tokens(x)) == Got(read(t), x)
    ensures After(s, AllTokens(items, tokens)) == Got(ReadMany(|items|, s, read), items)
    decreases |items|
  {
    hide After;
    if items == [] {
      NoTokens(s);
    } else {
      AfterBoth(s, tokens(items[0]), AllTokens(items[1..], tokens));
      assert After(s, tokens(items[0])) == Got(read(s), items[0]);
      if read(s).Ok? {
        ManyExactly(read(s).rest, items[1..], tokens, read);
        var r := ReadMany(|items|, s, read);
        assert r.Ok? ==> r.value[0] == read(s).value && r.value[1..] == ReadMany(|items| - 1, read(s).rest, read).value;
        assert items == [items[0]] + items[1..];
        assert r.Ok? ==> r.value == [r.value[0]] + r.value[1..];
      }
    }
  }

  lemma ThenBoth(o: Option<seq<byte>>, a: seq<Token>, b: seq<Token>)
    ensures ThenAfter(o, a + b) == ThenAfter(ThenAfter(o, a), b)
  {
    if o.Some? { AfterBoth(o.value, a, b); }
  }

  lemma FiveParts(s: seq<byte>, a: seq<Token>, b: seq<Token>, c: seq<Token>, d: seq<Token>, e: seq<Token>)
    ensures After(s, a + (b + (c + (d + e))))
         == ThenAfter(ThenAfter(ThenAfter(ThenAfter(After(s, a), b), c), d), e)
  {
    hide After, ThenAfter;
    AfterBoth(s, a, b + (c + (d + e)));
    ThenBoth(After(s, a), b, c + (d + e));
    ThenBoth(ThenAfter(After(s, a), b), c, d + e);
    ThenBoth(ThenAfter(ThenAfter(After(s, a), b), c), d, e);
  }

  // ----- down to the bytes --------------------------------------------------------------------------------------

  /** Spellings of all tokens, one behind the other. */
  ghost predicate SpellsAll(ts: seq<Token>, f: seq<byte>)
    decreases |ts|
  {
    if ts == [] then f == []
    else exists n :: 0 <= n <= |f| && Spells(ts[0], f[..n]) && SpellsAll(ts[1..], f[n..])
  }

  lemma {:induction false} AfterExactly(s: seq<byte>, ts: seq<Token>, rest: seq<byte>)
    ensures After(s, ts) == Some(rest) <==> exists f :: SpellsAll(ts, f) && s == f + rest
    decreases |ts|
  {
    if After(s, ts) == Some(rest) {
      AfterSpells(s, ts, rest);
    }
    if f :| SpellsAll(ts, f) && s == f + rest {
      SpellingFollowed(ts, f, rest);
    }
  }

  lemma {:induction false} AfterSpells(s: seq<byte>, ts: seq<Token>, rest: seq<byte>)
    requires After(s, ts) == Some(rest)
    ensures |rest| <= |s|
    ensures var f := s[..|s| - |rest|]; SpellsAll(ts, f) && s == f + rest
    decreases |ts|
  {
    hide Lex, Spells;
    if ts == [] {
      assert s[..0] == [];
    } else {
      var s1 := Lex(s).rest;
      LexSpells(s, ts[0], s1);
      AfterSpells(s1, ts[1..], rest);
      var f, n := s[..|s| - |rest|], |s| - |s1|;
      assert f[..n] == s[..n];
      assert f[n..] == s1[..|s1| - |rest|] by {
        assert s == s[..n] + s1;
      }
      assert s == f + rest by {
        assert s1 == s1[..|s1| - |rest|] + rest;
        assert s == s[..n] + (s1[..|s1| - |rest|] + rest);
      }
    }
  }

  lemma {:induction false} SpellingFollowed(ts: seq<Token>, f: seq<byte>, rest: seq<byte>)
    requires SpellsAll(ts, f)
    ensures After(f + rest, ts) == Some(rest)
    decreases |ts|
  {
    hide Lex, Spells;
    if ts == [] {
      assert f + rest == rest;
    } else {
      var n :| 0 <= n <= |f| && Spells(ts[0], f[..n]) && SpellsAll(ts[1..], f[n..]);
      assert f + rest == f[..n] + (f[n..] + rest);
      SpellingLexes(ts[0], f[..n], f[n..] + rest);
      SpellingFollowed(ts[1..], f[n..], rest);
    }
  }
}
