/** Exactly what the certificate reader accepts: the tokens of a certificate and the leeway of the reader. */
module CborCertGrammar {
  import opened Options
  import opened Addresses
  import opened Bytes
  import opened CborWire
  import opened CborArrays
  import opened CborCerts
  import opened CborTokens
  import opened Saturating

  // ----- the tokens of the nested values -----------------------------------------------------------------

  lemma HashExactly(n: nat, s: seq<byte>, h: seq<byte>)
    requires |h| == n
    ensures After(s, [Str(BYTES, h)]) == Got(ReadHash(n, s), h)
  {
    StrExactly(BYTES, s, h);
  }

  lemma ArrayExactly(n: nat, s: seq<byte>)
    ensures After(s, [Lead(ARRAY, n)]) == Left(ReadArrayOf(n, s))
  {
    LeadExactly(ARRAY, s, n);
  }

  function CredentialTokens(c: Credential): seq<Token> {
    [Lead(4, 2)] + ([Lead(0, if c.AddrKeyHash? then 0 else 1)] + [Str(2, c.hash)])
  }

  lemma CredentialExactly(s: seq<byte>, c: Credential)
    ensures After(s, CredentialTokens(c)) == Got(ReadCredential(s), c)
  {
    hide Lex, ReadArrayOf, ExpectMajor, ReadHash, After;
    var tag := if c.AddrKeyHash? then 0 else 1;
    AfterBoth(s, [Lead(4, 2)], [Lead(0, tag)] + [Str(2, c.hash)]);
    ArrayExactly(2, s);
    if ReadArrayOf(2, s).Ok? {
      var s1 := ReadArrayOf(2, s).rest;
      AfterBoth(s1, [Lead(0, tag)], [Str(2, c.hash)]);
      LeadExactly(0, s1, tag);
      if ExpectMajor(0, s1).Ok? {
        HashExactly(28, ExpectMajor(0, s1).rest, c.hash);
      }
    }
  }

  function AnchorTokens(a: Anchor): seq<Token> {
    [Lead(4, 2)] + ([Str(3, a.url)] + [Str(2, a.dataHash)])
  }

  lemma AnchorExactly(s: seq<byte>, a: Anchor)
    ensures After(s, AnchorTokens(a)) == Got(ReadAnchor(s), a)
  {
    hide Lex, ReadArrayOf, ReadText, ReadHash, After;
    AfterBoth(s, [Lead(4, 2)], [Str(3, a.url)] + [Str(2, a.dataHash)]);
    ArrayExactly(2, s);
    if ReadArrayOf(2, s).Ok? {
      var s1 := ReadArrayOf(2, s).rest;
      AfterBoth(s1, [Str(3, a.url)], [Str(2, a.dataHash)]);
      TextExactly(s1, a.url);
      if ReadText(s1).Ok? {
        HashExactly(32, ReadText(s1).rest, a.dataHash);
      }
    }
  }

  function OptionalAnchorTokens(a: Option<Anchor>): seq<Token> {
    if a.None? then [Null] else AnchorTokens(a.value)
  }

  lemma OptionalAnchorExactly(s: seq<byte>, a: Option<Anchor>)
    ensures After(s, OptionalAnchorTokens(a)) == Got(ReadOptionalAnchor(s), a)
  {
    hide Lex, PeekMajor, ReadNull, ReadAnchor, After;
    NullExactly(s);
    if a.Some? {
      AnchorExactly(s, a.value);
    }
    if PeekMajor(s).Ok? && PeekMajor(s).value == SIMPLE {
      if a.Some? {
        NotNull(s, Lead(4, 2), [Str(3, a.value.url)] + [Str(2, a.value.dataHash)]);
      }
    } else {
      OnlyNull(s);
      NothingPeeked(s);
    }
  }

  function IntervalTokens(u: UnitInterval): seq<Token> {
    [Lead(6, 30)] + ([Lead(4, 2)] + ([Lead(0, u.numerator)] + [Lead(0, u.denominator)]))
  }

  lemma IntervalExactly(s: seq<byte>, u: UnitInterval)
    ensures After(s, IntervalTokens(u)) == Got(ReadInterval(s), u)
  {
    hide Lex, ReadArrayOf, ExpectMajor, After;
    var n, d := [Lead(0, u.numerator)], [Lead(0, u.denominator)];
    AfterBoth(s, [Lead(6, 30)], [Lead(4, 2)] + (n + d));
    LeadExactly(6, s, 30);
    if ExpectMajor(6, s).Ok? {
      var s1 := ExpectMajor(6, s).rest;
      AfterBoth(s1, [Lead(4, 2)], n + d);
      ArrayExactly(2, s1);
      if ReadArrayOf(2, s1).Ok? {
        var s2 := ReadArrayOf(2, s1).rest;
        AfterBoth(s2, n, d);
        LeadExactly(0, s2, u.numerator);
        if ExpectMajor(0, s2).Ok? {
          LeadExactly(0, ExpectMajor(0, s2).rest, u.denominator);
        }
      }
    }
  }

  function IntegerToken(n: I64): Token {
    if n >= 0 then Lead(0, n) else Lead(1, -1 - n)
  }

  lemma IntegerExactly(s: seq<byte>, n: I64)
    ensures After(s, [IntegerToken(n)]) == Got(ReadInteger(s), n as int)
  {
    hide After;
    AfterOne(s, IntegerToken(n));
  }

  function DRepTokens(d: DRep): seq<Token> {
    match d
    case KeyHash(h) => [Lead(4, 2)] + ([Lead(0, 0)] + [Str(2, h)])
    case Script(h) => [Lead(4, 2)] + ([Lead(0, 1)] + [Str(2, h)])
    case AlwaysAbstain => [Lead(4, 1)] + ([Lead(0, 2)] + [])
    case AlwaysNoConfidence => [Lead(4, 1)] + ([Lead(0, 3)] + [])
  }

  lemma DRepExactly(s: seq<byte>, d: DRep)
    ensures After(s, DRepTokens(d)) == Got(ReadDRep(s), d)
  {
    hide Lex, ExpectMajor, ReadHash;
    var hashed := d.KeyHash? || d.Script?;
    var n := if hashed then 2 else 1;
    var tag := match d case KeyHash(_) => 0 case Script(_) => 1 case AlwaysAbstain => 2 case AlwaysNoConfidence => 3;
    var tail := if hashed then [Str(2, d.hash)] else [];
    assert DRepTokens(d) == [Lead(4, n)] + ([Lead(0, tag)] + tail);
    AfterBoth(s, [Lead(4, n)], [Lead(0, tag)] + tail);
    LeadExactly(4, s, n);
    if ExpectMajor(4, s).Ok? {
      var s1 := ExpectMajor(4, s).rest;
      AfterBoth(s1, [Lead(0, tag)], tail);
      LeadExactly(0, s1, tag);
      if ExpectMajor(0, s1).Ok? && hashed {
        HashExactly(28, ExpectMajor(0, s1).rest, d.hash);
      }
    }
  }

  // ----- relays and owners --------------------------------------------------------------------------------

  /** A port stands for any number that has it as its low 16 bits. */
  predicate PortFits(p: Option<U16>, raw: nat) {
    p.Some? ==> raw % 0x1_0000 == p.value
  }

  function PortToken(p: Option<U16>, raw: nat): Token {
    if p.None? then Null else Lead(0, raw)
  }

  lemma PortParses(s: seq<byte>) returns (raw: nat)
    requires ReadPort(s).Ok?
    ensures PortFits(ReadPort(s).value, raw)
    ensures After(s, [PortToken(ReadPort(s).value, raw)]) == Some(ReadPort(s).rest)
  {
    hide Lex, After, ExpectMajor, ReadNull;
    raw := 0;
    NullExactly(s);
    if ReadPort(s).value.Some? {
      raw := ExpectMajor(0, s).value;
      LeadExactly(0, s, raw);
    }
  }

  lemma PortReads(s: seq<byte>, p: Option<U16>, raw: nat)
    requires PortFits(p, raw) && After(s, [PortToken(p, raw)]).Some?
    ensures ReadPort(s) == Ok(p, After(s, [PortToken(p, raw)]).value)
  {
    hide Lex, After, ExpectMajor, ReadNull, PeekMajor;
    NullExactly(s);
    LeadExactly(0, s, raw);
    AfterOne(s, PortToken(p, raw));
    NullShows(s);
    Peeked(s);
  }

  function AddressToken(a: Option<seq<byte>>): Token {
    if a.None? then Null else Str(2, a.value)
  }

  lemma AddressExactly(n: nat, s: seq<byte>, a: Option<seq<byte>>)
    requires a.Some? ==> |a.value| == n
    ensures After(s, [AddressToken(a)]) == Got(ReadAddress(n, s), a)
  {
    hide Lex, After, ReadHash, ReadNull, PeekMajor;
    NullExactly(s);
    if a.Some? {
      HashExactly(n, s, a.value);
    }
    AfterOne(s, AddressToken(a));
    NullShows(s);
    Peeked(s);
  }

  function RelayTokens(r: Relay, raw: nat): seq<Token> {
    match r
    case SingleHostAddr(port, ipv4, ipv6) =>
      [Lead(4, 4)] + ([Lead(0, 0)] + ([PortToken(port, raw)] + ([AddressToken(ipv4)] + [AddressToken(ipv6)])))
    case SingleHostName(port, name) => [Lead(4, 3)] + ([Lead(0, 1)] + ([PortToken(port, raw)] + [Str(3, name)]))
    case MultiHostName(name) => [Lead(4, 2)] + ([Lead(0, 2)] + [Str(3, name)])
  }

  predicate RelayFits(r: Relay, raw: nat) {
    !r.MultiHostName? ==> PortFits(r.port, raw)
  }

  function RelayTail(r: Relay, raw: nat): seq<Token> {
    match r
    case SingleHostAddr(port, ipv4, ipv6) => [PortToken(port, raw)] + ([AddressToken(ipv4)] + [AddressToken(ipv6)])
    case SingleHostName(port, name) => [PortToken(port, raw)] + [Str(3, name)]
    case MultiHostName(name) => [Str(3, name)]
  }

  /** The fields of a relay behind its length and number. */
  ghost function ReadRelayTail(tag: nat, s: seq<byte>): Parsed<Relay>
    requires tag <= 2
  {
    if tag == 0 then
      var (port, s3) :- ReadPort(s);
      var (ipv4, s4) :- ReadAddress(4, s3);
      var (ipv6, s5) :- ReadAddress(16, s4);
      Ok(SingleHostAddr(port, ipv4, ipv6), s5)
    else if tag == 1 then
      var (port, s3) :- ReadPort(s);
      var (name, s4) :- ReadText(s3);
      Ok(SingleHostName(port, name), s4)
    else
      var (name, s3) :- ReadText(s);
      Ok(MultiHostName(name), s3)
  }

  function RelayTag(r: Relay): nat {
    match r case SingleHostAddr(_, _, _) => 0 case SingleHostName(_, _) => 1 case MultiHostName(_) => 2
  }

  /** A relay is an array of 4 and the number 0, 3 and 1, or 2 and 2, with its fields. */
  lemma RelayHead(s: seq<byte>, tag: nat)
    requires tag <= 2
    ensures var o := After(s, [Lead(4, 4 - tag)] + [Lead(0, tag)]);
            o.Some? ==> ReadRelay(s) == ReadRelayTail(tag, o.value)
    ensures ReadRelay(s).Ok? && RelayTag(ReadRelay(s).value) == tag ==>
              After(s, [Lead(4, 4 - tag)] + [Lead(0, tag)]).Some?
  {
    hide Lex, After, ExpectMajor, ReadPort, ReadAddress, ReadText;
    AfterBoth(s, [Lead(4, 4 - tag)], [Lead(0, tag)]);
    LeadExactly(4, s, 4 - tag);
    if ExpectMajor(4, s).Ok? {
      LeadExactly(0, ExpectMajor(4, s).rest, tag);
    }
  }

  lemma RelayTailParses(tag: nat, s: seq<byte>) returns (raw: nat)
    requires tag <= 2 && ReadRelayTail(tag, s).Ok?
    ensures var r := ReadRelayTail(tag, s);
            RelayTag(r.value) == tag && RelayFits(r.value, raw) && After(s, RelayTail(r.value, raw)) == Some(r.rest)
  {
    hide Lex, After, ReadPort, ReadAddress, ReadText, PortFits, PortToken, AddressToken;
    raw := 0;
    var r := ReadRelayTail(tag, s).value;
    if tag < 2 {
      raw := PortParses(s);
      var s1 := ReadPort(s).rest;
      AfterBoth(s, [PortToken(r.port, raw)],
                if tag == 0 then [AddressToken(r.ipv4)] + [AddressToken(r.ipv6)] else [Str(3, r.name)]);
      if tag == 0 {
        AfterBoth(s1, [AddressToken(r.ipv4)], [AddressToken(r.ipv6)]);
        AddressExactly(4, s1, r.ipv4);
        AddressExactly(16, ReadAddress(4, s1).rest, r.ipv6);
      } else {
        TextExactly(s1, r.name);
      }
    } else {
      TextExactly(s, r.name);
    }
  }

  lemma RelayTailReads(s: seq<byte>, r: Relay, raw: nat)
    requires RelayFits(r, raw) && After(s, RelayTail(r, raw)).Some?
    ensures ReadRelayTail(RelayTag(r), s) == Ok(r, After(s, RelayTail(r, raw)).value)
  {
    hide Lex, After, ReadPort, ReadAddress, ReadText, PortFits, PortToken, AddressToken;
    match r
    case SingleHostAddr(port, ipv4, ipv6) =>
      AfterBoth(s, [PortToken(port, raw)], [AddressToken(ipv4)] + [AddressToken(ipv6)]);
      PortReads(s, port, raw);
      var s1 := ReadPort(s).rest;
      AfterBoth(s1, [AddressToken(ipv4)], [AddressToken(ipv6)]);
      AddressExactly(4, s1, ipv4);
      if ReadAddress(4, s1).Ok? {
        AddressExactly(16, ReadAddress(4, s1).rest, ipv6);
      }
    case SingleHostName(port, name) =>
      AfterBoth(s, [PortToken(port, raw)], [Str(3, name)]);
      PortReads(s, port, raw);
      TextExactly(ReadPort(s).rest, name);
    case MultiHostName(name) => TextExactly(s, name);
  }

  lemma RelayParses(s: seq<byte>) returns (raw: nat)
    requires ReadRelay(s).Ok?
    ensures var r := ReadRelay(s); RelayFits(r.value, raw) && After(s, RelayTokens(r.value, raw)) == Some(r.rest)
  {
    hide Lex, After, ReadRelay, ReadRelayTail, RelayTail, RelayFits, PortToken, AddressToken;
    var r := ReadRelay(s).value;
    var tag := RelayTag(r);
    RelayHead(s, tag);
    var s2 := After(s, [Lead(4, 4 - tag)] + [Lead(0, tag)]).value;
    raw := RelayTailParses(tag, s2);
    RelaySplit(r, raw);
    AfterBoth(s, [Lead(4, 4 - tag)] + [Lead(0, tag)], RelayTail(r, raw));
  }

  lemma RelaySplit(r: Relay, raw: nat)
    ensures RelayTokens(r, raw) == ([Lead(4, 4 - RelayTag(r))] + [Lead(0, RelayTag(r))]) + RelayTail(r, raw)
  {
  }

  lemma RelayReads(s: seq<byte>, r: Relay, raw: nat)
    requires RelayFits(r, raw) && After(s, RelayTokens(r, raw)).Some?
    ensures ReadRelay(s) == Ok(r, After(s, RelayTokens(r, raw)).value)
  {
    hide Lex, After, ReadRelay, ReadRelayTail, RelayTail, RelayFits, PortToken, AddressToken;
    var tag := RelayTag(r);
    RelaySplit(r, raw);
    AfterBoth(s, [Lead(4, 4 - tag)] + [Lead(0, tag)], RelayTail(r, raw));
    RelayHead(s, tag);
    RelayTailReads(After(s, [Lead(4, 4 - tag)] + [Lead(0, tag)]).value, r, raw);
  }

  predicate PortsFit(relays: seq<Relay>, ports: seq<nat>) {
    |ports| == |relays| && forall i :: 0 <= i < |relays| ==> RelayFits(relays[i], ports[i])
  }

  function RelaysTokens(relays: seq<Relay>, ports: seq<nat>): seq<Token>
    requires |ports| == |relays|
  {
    if relays == [] then [] else RelayTokens(relays[0], ports[0]) + RelaysTokens(relays[1..], ports[1..])
  }

  lemma {:induction false} RelaysParse(n: nat, s: seq<byte>) returns (ports: seq<nat>)
    requires ReadMany(n, s, ReadRelay).Ok?
    ensures var r := ReadMany(n, s, ReadRelay);
            PortsFit(r.value, ports) && After(s, RelaysTokens(r.value, ports)) == Some(r.rest)
    decreases n
  {
    hide Lex, After, ReadRelay, RelayTokens, RelayFits;
    ports := [];
    if n == 0 {
      NoTokens(s);
    } else {
      var raw := RelayParses(s);
      var first := ReadRelay(s);
      var more := RelaysParse(n - 1, first.rest);
      ports := [raw] + more;
      var relays := ReadMany(n, s, ReadRelay).value;
      assert relays[1..] == ReadMany(n - 1, first.rest, ReadRelay).value && ports[1..] == more;
      AfterBoth(s, RelayTokens(relays[0], raw), RelaysTokens(relays[1..], more));
    }
  }

  lemma {:induction false} RelaysRead(s: seq<byte>, relays: seq<Relay>, ports: seq<nat>)
    requires PortsFit(relays, ports) && After(s, RelaysTokens(relays, ports)).Some?
    ensures ReadMany(|relays|, s, ReadRelay) == Ok(relays, After(s, RelaysTokens(relays, ports)).value)
    decreases |relays|
  {
    hide Lex, After, ReadRelay, RelayTokens, RelayFits;
    if relays == [] {
      NoTokens(s);
    } else {
      AfterBoth(s, RelayTokens(relays[0], ports[0]), RelaysTokens(relays[1..], ports[1..]));
      RelayReads(s, relays[0], ports[0]);
      RelaysRead(ReadRelay(s).rest, relays[1..], ports[1..]);
      assert relays == [relays[0]] + relays[1..];
    }
  }

  function OwnerTokens(h: Hash28): seq<Token> { [Str(2, h)] }

  lemma OwnerExactly(s: seq<byte>, h: Hash28)
    ensures After(s, OwnerTokens(h)) == Got(ReadOwner(s), h)
  {
    hide After, ReadHash;
    HashExactly(28, s, h);
  }

  /** An array header, behind the set tag 258 or not. */
  function SetTokens(n: nat, tagged: bool): seq<Token> {
    (if tagged then [Lead(6, 258)] else []) + [Lead(4, n)]
  }

  lemma SetParses(s: seq<byte>) returns (tagged: bool)
    requires ArrayOrSet(s).Ok?
    ensures After(s, SetTokens(ArrayOrSet(s).value, tagged)) == Some(ArrayOrSet(s).rest)
  {
    hide Lex, ExpectMajor, PeekMajor;
    var n := ArrayOrSet(s).value;
    tagged := PeekMajor(s).value == TAG && ExpectMajor(TAG, s).value == 258;
    LeadExactly(4, s, n);
    if tagged {
      AfterBoth(s, [Lead(6, 258)], [Lead(4, n)]);
      LeadExactly(6, s, 258);
      LeadExactly(4, ExpectMajor(6, s).rest, n);
    } else {
      assert SetTokens(n, false) == [Lead(4, n)];
    }
  }

  /** No array stands where a tag does, so a tag other than 258 is an error. */
  lemma SetReads(s: seq<byte>, n: nat, tagged: bool)
    requires After(s, SetTokens(n, tagged)).Some?
    ensures ArrayOrSet(s) == Ok(n, After(s, SetTokens(n, tagged)).value)
  {
    hide Lex, ExpectMajor, PeekMajor;
    LeadExactly(4, s, n);
    NullShows(s);
    if tagged {
      AfterBoth(s, [Lead(6, 258)], [Lead(4, n)]);
      LeadExactly(6, s, 258);
      AfterOne(s, Lead(6, 258));
      LeadExactly(4, ExpectMajor(6, s).rest, n);
    } else {
      assert SetTokens(n, false) == [Lead(4, n)];
      AfterOne(s, Lead(4, n));
    }
  }

  /** An array header is read where it stands, or behind the tag 258 and no other tag. */
  lemma SetExactly(s: seq<byte>, n: nat, rest: seq<byte>)
    ensures ArrayOrSet(s) == Ok(n, rest) <==>
              After(s, [Lead(4, n)]) == Some(rest) || After(s, [Lead(6, 258)] + [Lead(4, n)]) == Some(rest)
  {
    hide After, ArrayOrSet;
    assert SetTokens(n, false) == [Lead(4, n)];
    if ArrayOrSet(s) == Ok(n, rest) {
      var tagged := SetParses(s);
    }
    if After(s, SetTokens(n, false)).Some? { SetReads(s, n, false); }
    if After(s, SetTokens(n, true)).Some? { SetReads(s, n, true); }
  }

  function OwnersTokens(owners: seq<Hash28>, tagged: bool): seq<Token> {
    SetTokens(|owners|, tagged) + AllTokens(owners, OwnerTokens)
  }

  lemma OwnersParse(s: seq<byte>) returns (tagged: bool)
    requires ReadOwners(s).Ok?
    ensures After(s, OwnersTokens(ReadOwners(s).value, tagged)) == Some(ReadOwners(s).rest)
  {
    hide Lex, After, ArrayOrSet, ReadMany, ReadOwner, SetTokens, AllTokens, OwnerTokens;
    var owners := ReadOwners(s).value;
    tagged := SetParses(s);
    AfterBoth(s, SetTokens(|owners|, tagged), AllTokens(owners, OwnerTokens));
    forall t, h: Hash28
      ensures After(t, OwnerTokens(h)) == Got(ReadOwner(t), h)
    {
      OwnerExactly(t, h);
    }
    ManyExactly(ArrayOrSet(s).rest, owners, OwnerTokens, ReadOwner);
  }

  lemma OwnersRead(s: seq<byte>, owners: Owners, tagged: bool)
    requires After(s, OwnersTokens(owners, tagged)).Some?
    ensures ReadOwners(s) == Ok(owners, After(s, OwnersTokens(owners, tagged)).value)
  {
    hide Lex, After, ArrayOrSet, ReadMany, ReadOwner, SetTokens, AllTokens, OwnerTokens;
    AfterBoth(s, SetTokens(|owners|, tagged), AllTokens(owners, OwnerTokens));
    SetReads(s, |owners|, tagged);
    forall t, h: Hash28
      ensures After(t, OwnerTokens(h)) == Got(ReadOwner(t), h)
    {
      OwnerExactly(t, h);
    }
    ManyExactly(ArrayOrSet(s).rest, owners, OwnerTokens, ReadOwner);
  }

  // ----- pools --------------------------------------------------------------------------------------------

  /** A reward account is 29 bytes: its kind and network in the first, and its hash. */
  lemma RewardExactly(s: seq<byte>, a: RewardAccount)
    requires a.network <= 1
    ensures After(s, [Str(2, RewardBytes(a))]) == Got(ReadReward(s), a)
  {
    hide Lex, After, ReadString;
    StrExactly(2, s, RewardBytes(a));
    if ReadString(2, s).Ok? {
      RewardBytesExactly(ReadString(2, s).value, a);
    }
  }

  lemma RewardBytesExactly(raw: seq<byte>, a: RewardAccount)
    requires a.network <= 1
    ensures raw == RewardBytes(a) <==> RewardFromBytes(raw) == Some(a)
  {
    if RewardFromBytes(raw) == Some(a) {
      assert raw == [raw[0]] + raw[1..];
    }
    if raw == RewardBytes(a) {
      assert raw[1..] == a.credential.hash;
    }
  }

  lemma RewardNetwork(s: seq<byte>)
    requires ReadReward(s).Ok?
    ensures ReadReward(s).value.network <= 1
  {
    hide ReadString;
  }

  function TermsTokens(t: PoolTerms, tagged: bool, ports: seq<nat>): seq<Token>
    requires |ports| == |t.relays|
  {
    IntervalTokens(t.margin) + ([Str(2, RewardBytes(t.rewardAccount))] + (OwnersTokens(t.owners, tagged)
      + (([Lead(4, |t.relays|)] + RelaysTokens(t.relays, ports)) + OptionalAnchorTokens(t.metadata))))
  }

  predicate TermsFit(t: PoolTerms, ports: seq<nat>) {
    t.rewardAccount.network <= 1 && PortsFit(t.relays, ports)
  }

  lemma RelayListParses(s: seq<byte>) returns (ports: seq<nat>)
    requires ReadRelays(s).Ok?
    ensures var r := ReadRelays(s);
            && PortsFit(r.value, ports)
            && After(s, [Lead(4, |r.value|)] + RelaysTokens(r.value, ports)) == Some(r.rest)
  {
    hide Lex, After, ExpectMajor, ReadMany, ReadRelay, RelaysTokens, RelayFits;
    var n := ExpectMajor(4, s).value;
    LeadExactly(4, s, n);
    ports := RelaysParse(n, ExpectMajor(4, s).rest);
    AfterBoth(s, [Lead(4, n)], RelaysTokens(ReadRelays(s).value, ports));
  }

  lemma RelayListReads(s: seq<byte>, relays: Relays, ports: seq<nat>)
    requires PortsFit(relays, ports) && After(s, [Lead(4, |relays|)] + RelaysTokens(relays, ports)).Some?
    ensures ReadRelays(s) == Ok(relays, After(s, [Lead(4, |relays|)] + RelaysTokens(relays, ports)).value)
  {
    hide Lex, After, ExpectMajor, ReadMany, ReadRelay, RelaysTokens, RelayFits;
    AfterBoth(s, [Lead(4, |relays|)], RelaysTokens(relays, ports));
    LeadExactly(4, s, |relays|);
    RelaysRead(ExpectMajor(4, s).rest, relays, ports);
  }

  lemma TermsParse(s: seq<byte>) returns (tagged: bool, ports: seq<nat>)
    requires ReadTerms(s).Ok?
    ensures var r := ReadTerms(s);
            TermsFit(r.value, ports) && After(s, TermsTokens(r.value, tagged, ports)) == Some(r.rest)
  {
    hide Lex, After, ReadInterval, ReadReward, ReadOwners, ReadRelays, ReadOptionalAnchor, PortsFit, RelaysTokens,
         IntervalTokens, RewardBytes, OwnersTokens, OptionalAnchorTokens;
    var t := ReadTerms(s).value;
    var s1 := ReadInterval(s).rest;
    var s2 := ReadReward(s1).rest;
    var s3 := ReadOwners(s2).rest;
    var s4 := ReadRelays(s3).rest;
    tagged := OwnersParse(s2);
    ports := RelayListParses(s3);
    RewardNetwork(s1);
    IntervalExactly(s, t.margin);
    RewardExactly(s1, t.rewardAccount);
    OptionalAnchorExactly(s4, t.metadata);
    PortsCount(t.relays, ports);
    TermsChain(s, t, tagged, ports);
  }

  lemma PortsCount(relays: seq<Relay>, ports: seq<nat>)
    requires PortsFit(relays, ports)
    ensures |ports| == |relays|
  {
  }

  /** The five fields, one behind the other. */
  lemma TermsChain(s: seq<byte>, t: PoolTerms, tagged: bool, ports: seq<nat>)
    requires |ports| == |t.relays|
    ensures After(s, TermsTokens(t, tagged, ports))
         == ThenAfter(ThenAfter(ThenAfter(ThenAfter(After(s, IntervalTokens(t.margin)),
              [Str(2, RewardBytes(t.rewardAccount))]), OwnersTokens(t.owners, tagged)),
              [Lead(4, |t.relays|)] + RelaysTokens(t.relays, ports)), OptionalAnchorTokens(t.metadata))
  {
    hide Lex, After, RelaysTokens, IntervalTokens, RewardBytes, OwnersTokens, OptionalAnchorTokens;
    var a, b, c := IntervalTokens(t.margin), [Str(2, RewardBytes(t.rewardAccount))], OwnersTokens(t.owners, tagged);
    var d, e := [Lead(4, |t.relays|)] + RelaysTokens(t.relays, ports), OptionalAnchorTokens(t.metadata);
    FiveParts(s, a, b, c, d, e);
  }

  lemma TermsRead(s: seq<byte>, t: PoolTerms, tagged: bool, ports: seq<nat>)
    requires TermsFit(t, ports) && After(s, TermsTokens(t, tagged, ports)).Some?
    ensures ReadTerms(s) == Ok(t, After(s, TermsTokens(t, tagged, ports)).value)
  {
    hide Lex, After, ReadInterval, ReadReward, ReadOwners, ReadRelays, ReadOptionalAnchor, RelaysTokens, RelayFits,
         IntervalTokens, RewardBytes, OwnersTokens, OptionalAnchorTokens;
    TermsChain(s, t, tagged, ports);
    IntervalExactly(s, t.margin);
    var s1 := ReadInterval(s).rest;
    RewardExactly(s1, t.rewardAccount);
    var s2 := ReadReward(s1).rest;
    OwnersRead(s2, t.owners, tagged);
    var s3 := ReadOwners(s2).rest;
    RelayListReads(s3, t.relays, ports);
    var s4 := ReadRelays(s3).rest;
    OptionalAnchorExactly(s4, t.metadata);
  }

  function ParamsTokens(p: PoolParams, tagged: bool, ports: seq<nat>): seq<Token>
    requires |ports| == |p.terms.relays|
  {
    [Str(2, p.operator)] + ([Str(2, p.vrfKeyHash)] + ([Lead(0, p.pledge)] + ([Lead(0, p.cost)]
      + TermsTokens(p.terms, tagged, ports))))
  }

  lemma ParamsParse(s: seq<byte>) returns (tagged: bool, ports: seq<nat>)
    requires ReadParams(s).Ok?
    ensures var r := ReadParams(s);
            TermsFit(r.value.terms, ports) && After(s, ParamsTokens(r.value, tagged, ports)) == Some(r.rest)
  {
    hide Lex, After, ExpectMajor, ReadHash, ReadTerms, TermsTokens, PortsFit;
    var p := ReadParams(s).value;
    var s1 := ReadHash(28, s).rest;
    var s2 := ReadHash(32, s1).rest;
    var s3 := ExpectMajor(0, s2).rest;
    var s4 := ExpectMajor(0, s3).rest;
    tagged, ports := TermsParse(s4);
    PortsCount(p.terms.relays, ports);
    HashExactly(28, s, p.operator);
    HashExactly(32, s1, p.vrfKeyHash);
    LeadExactly(0, s2, p.pledge);
    LeadExactly(0, s3, p.cost);
    FiveParts(s, [Str(2, p.operator)], [Str(2, p.vrfKeyHash)], [Lead(0, p.pledge)], [Lead(0, p.cost)],
      TermsTokens(p.terms, tagged, ports));
  }

  lemma ParamsRead(s: seq<byte>, p: PoolParams, tagged: bool, ports: seq<nat>)
    requires TermsFit(p.terms, ports) && After(s, ParamsTokens(p, tagged, ports)).Some?
    ensures ReadParams(s) == Ok(p, After(s, ParamsTokens(p, tagged, ports)).value)
  {
    hide Lex, After, ExpectMajor, ReadHash, ReadTerms, TermsTokens, RelayFits;
    FiveParts(s, [Str(2, p.operator)], [Str(2, p.vrfKeyHash)], [Lead(0, p.pledge)], [Lead(0, p.cost)],
      TermsTokens(p.terms, tagged, ports));
    HashExactly(28, s, p.operator);
    var s1 := ReadHash(28, s).rest;
    HashExactly(32, s1, p.vrfKeyHash);
    var s2 := ReadHash(32, s1).rest;
    LeadExactly(0, s2, p.pledge);
    var s3 := ExpectMajor(0, s2).rest;
    LeadExactly(0, s3, p.cost);
    TermsRead(ExpectMajor(0, s3).rest, p.terms, tagged, ports);
  }

  // ----- instantaneous rewards ----------------------------------------------------------------------------

  function DeltaTokens(d: Delta): seq<Token> { CredentialTokens(d.cred) + [IntegerToken(d.amount)] }

  lemma DeltaExactly(s: seq<byte>, d: Delta)
    ensures After(s, DeltaTokens(d)) == Got(ReadDelta(s), d)
  {
    hide Lex, After, ReadCredential, ReadInteger, CredentialTokens, IntegerToken;
    AfterBoth(s, CredentialTokens(d.cred), [IntegerToken(d.amount)]);
    CredentialExactly(s, d.cred);
    if ReadCredential(s).Ok? {
      IntegerExactly(ReadCredential(s).rest, d.amount);
    }
  }

  /** A map of rewards is any list of entries of which the later replace the earlier. */
  predicate TargetFits(t: MirTarget, entries: seq<Delta>) {
    t.StakeCredentials? ==> MapOf(entries) == t.deltas
  }

  function TargetTokens(t: MirTarget, entries: seq<Delta>): seq<Token> {
    match t
    case StakeCredentials(_) => [Lead(5, |entries|)] + AllTokens(entries, DeltaTokens)
    case SendToOppositePot(coin) => [Lead(0, coin)]
  }

  lemma DeltasExactly(s: seq<byte>, entries: seq<Delta>)
    ensures After(s, AllTokens(entries, DeltaTokens)) == Got(ReadMany(|entries|, s, ReadDelta), entries)
  {
    hide After, DeltaTokens, ReadDelta;
    forall t, d
      ensures After(t, DeltaTokens(d)) == Got(ReadDelta(t), d)
    {
      DeltaExactly(t, d);
    }
    ManyExactly(s, entries, DeltaTokens, ReadDelta);
  }

  lemma TargetParses(s: seq<byte>) returns (entries: seq<Delta>)
    requires ReadTarget(s).Ok?
    ensures var r := ReadTarget(s);
            TargetFits(r.value, entries) && After(s, TargetTokens(r.value, entries)) == Some(r.rest)
  {
    hide Lex, After, ExpectMajor, PeekMajor, ReadMany, ReadDelta, AllTokens, DeltaTokens, MapOf;
    entries := [];
    if PeekMajor(s).value == MAP {
      var n := ExpectMajor(MAP, s);
      entries := ReadMany(n.value, n.rest, ReadDelta).value;
      LeadExactly(5, s, n.value);
      DeltasExactly(n.rest, entries);
      AfterBoth(s, [Lead(5, |entries|)], AllTokens(entries, DeltaTokens));
    } else {
      LeadExactly(0, s, ExpectMajor(0, s).value);
    }
  }

  lemma TargetReads(s: seq<byte>, t: MirTarget, entries: seq<Delta>)
    requires TargetFits(t, entries) && After(s, TargetTokens(t, entries)).Some?
    ensures ReadTarget(s) == Ok(t, After(s, TargetTokens(t, entries)).value)
  {
    hide Lex, After, ExpectMajor, PeekMajor, ReadMany, ReadDelta, AllTokens, DeltaTokens, MapOf;
    NullShows(s);
    match t
    case StakeCredentials(m) =>
      AfterBoth(s, [Lead(5, |entries|)], AllTokens(entries, DeltaTokens));
      LeadExactly(5, s, |entries|);
      AfterOne(s, Lead(5, |entries|));
      DeltasExactly(ExpectMajor(5, s).rest, entries);
    case SendToOppositePot(coin) =>
      LeadExactly(0, s, coin);
      AfterOne(s, Lead(0, coin));
  }

  function MirTokens(pot: MirPot, t: MirTarget, n: nat, entries: seq<Delta>): seq<Token> {
    [Lead(4, n)] + ([Lead(0, if pot == Reserves then 0 else 1)] + TargetTokens(t, entries))
  }

  lemma MirParses(s: seq<byte>) returns (n: nat, entries: seq<Delta>)
    requires ReadMir(s).Ok?
    ensures var r := ReadMir(s);
            TargetFits(r.value.1, entries) && After(s, MirTokens(r.value.0, r.value.1, n, entries)) == Some(r.rest)
  {
    hide Lex, After, ExpectMajor, ReadTarget, TargetTokens, TargetFits;
    var (pot, target) := ReadMir(s).value;
    n := ExpectMajor(4, s).value;
    var s1 := ExpectMajor(4, s).rest;
    var p := ExpectMajor(0, s1).value;
    var s2 := ExpectMajor(0, s1).rest;
    entries := TargetParses(s2);
    LeadExactly(4, s, n);
    LeadExactly(0, s1, p);
    AfterBoth(s, [Lead(4, n)], [Lead(0, p)] + TargetTokens(target, entries));
    AfterBoth(s1, [Lead(0, p)], TargetTokens(target, entries));
  }

  lemma MirReads(s: seq<byte>, pot: MirPot, t: MirTarget, n: nat, entries: seq<Delta>)
    requires TargetFits(t, entries) && After(s, MirTokens(pot, t, n, entries)).Some?
    ensures ReadMir(s) == Ok((pot, t), After(s, MirTokens(pot, t, n, entries)).value)
  {
    hide Lex, After, ExpectMajor, ReadTarget, TargetTokens, TargetFits;
    var p := if pot == Reserves then 0 else 1;
    AfterBoth(s, [Lead(4, n)], [Lead(0, p)] + TargetTokens(t, entries));
    LeadExactly(4, s, n);
    var s1 := ExpectMajor(4, s).rest;
    AfterBoth(s1, [Lead(0, p)], TargetTokens(t, entries));
    LeadExactly(0, s1, p);
    TargetReads(ExpectMajor(0, s1).rest, t, entries);
  }

  // ----- certificates ----------------------------------------------------------------------------------------

  /** What the reader leaves open: the length of the outer array and that of MIR, which it does not compare,
      whether owners are tagged as a set, the upper bits of ports, and the order and repetition of map entries. */
  datatype Leeway = Leeway(length: nat, tagged: bool, ports: seq<nat>, mirLength: nat, entries: seq<Delta>)

  predicate Allows(c: Certificate, w: Leeway) {
    match c
    case PoolRegistration(p) => TermsFit(p.terms, w.ports)
    case MoveInstantaneousReward(_, target) => TargetFits(target, w.entries)
    case _ => true
  }

  predicate Plain(c: Certificate) {
    !c.PoolRegistration? && !c.MoveInstantaneousReward? && !c.PoolRetirement? && !c.GenesisDelegation?
  }

  function CredentialOf(c: Certificate): Credential
    requires Plain(c)
  {
    if c.CommitteeAuthorization? || c.CommitteeResignation? then c.cold else c.cred
  }

  /** What follows the credential. */
  function BehindCredential(c: Certificate): seq<Token>
    requires Plain(c)
  {
    match c
    case AccountRegistration(_) => []
    case AccountUnregistration(_) => []
    case DelegationToStakePool(_, pool) => [Str(2, pool)]
    case AccountRegistrationDeposit(_, coin) => [Lead(0, coin)]
    case AccountUnregistrationDeposit(_, coin) => [Lead(0, coin)]
    case DelegationToDrep(_, drep) => DRepTokens(drep)
    case DelegationToStakePoolAndDrep(_, pool, drep) => [Str(2, pool)] + DRepTokens(drep)
    case RegistrationDelegationToStakePool(_, pool, coin) => [Str(2, pool)] + [Lead(0, coin)]
    case RegistrationDelegationToDrep(_, drep, coin) => DRepTokens(drep) + [Lead(0, coin)]
    case RegistrationDelegationToStakePoolAndDrep(_, pool, drep, coin) =>
      [Str(2, pool)] + (DRepTokens(drep) + [Lead(0, coin)])
    case CommitteeAuthorization(_, hot) => CredentialTokens(hot)
    case CommitteeResignation(_, anchor) => OptionalAnchorTokens(anchor)
    case DrepRegistration(_, coin, anchor) => [Lead(0, coin)] + OptionalAnchorTokens(anchor)
    case DrepUnregistration(_, coin) => [Lead(0, coin)]
    case DrepUpdate(_, anchor) => OptionalAnchorTokens(anchor)
  }

  function FieldTokens(c: Certificate, w: Leeway): seq<Token>
    requires Allows(c, w)
  {
    match c
    case PoolRegistration(p) => ParamsTokens(p, w.tagged, w.ports)
    case PoolRetirement(pool, epoch) => [Str(2, pool)] + [Lead(0, epoch)]
    case GenesisDelegation(genesis, delegate, vrf) => [Str(2, genesis)] + ([Str(2, delegate)] + [Str(2, vrf)])
    case MoveInstantaneousReward(pot, target) => MirTokens(pot, target, w.mirLength, w.entries)
    case _ => CredentialTokens(CredentialOf(c)) + BehindCredential(c)
  }

  function CertificateTokens(c: Certificate, w: Leeway): seq<Token>
    requires Allows(c, w)
  {
    ([Lead(4, w.length)] + [Lead(0, TagOf(c))]) + FieldTokens(c, w)
  }

  lemma CoinExactly(s: seq<byte>, coin: U64)
    ensures After(s, [Lead(0, coin)]) == Got(ReadCoin(s), coin)
  {
    hide After, ExpectMajor;
    LeadExactly(0, s, coin);
  }

  lemma DelegationExactly(s: seq<byte>, c: Certificate)
    requires Plain(c) && TagOf(c) in {2, 9, 10, 11, 12, 13}
    ensures After(s, BehindCredential(c)) == Got(ReadDelegation(TagOf(c), CredentialOf(c), s), c)
  {
    hide Lex, After, ReadHash, ReadDRep, ReadCoin, DRepTokens;
    match c {
      case DelegationToStakePool(_, pool) => HashExactly(28, s, pool);
      case DelegationToDrep(_, drep) => DRepExactly(s, drep);
      case DelegationToStakePoolAndDrep(_, pool, drep) =>
        AfterBoth(s, [Str(2, pool)], DRepTokens(drep));
        HashExactly(28, s, pool);
        if ReadHash(28, s).Ok? { DRepExactly(ReadHash(28, s).rest, drep); }
      case RegistrationDelegationToStakePool(_, pool, coin) =>
        AfterBoth(s, [Str(2, pool)], [Lead(0, coin)]);
        HashExactly(28, s, pool);
        if ReadHash(28, s).Ok? { CoinExactly(ReadHash(28, s).rest, coin); }
      case RegistrationDelegationToDrep(_, drep, coin) =>
        AfterBoth(s, DRepTokens(drep), [Lead(0, coin)]);
        DRepExactly(s, drep);
        if ReadDRep(s).Ok? { CoinExactly(ReadDRep(s).rest, coin); }
      case RegistrationDelegationToStakePoolAndDrep(_, pool, drep, coin) => DoubleDelegationExactly(s, c);
      case _ =>
    }
  }

  lemma DoubleDelegationExactly(s: seq<byte>, c: Certificate)
    requires c.RegistrationDelegationToStakePoolAndDrep?
    ensures After(s, BehindCredential(c)) == Got(ReadDelegation(13, c.cred, s), c)
  {
    hide Lex, After, ReadHash, ReadDRep, ReadCoin, DRepTokens;
    AfterBoth(s, [Str(2, c.pool)], DRepTokens(c.drep) + [Lead(0, c.coin)]);
    HashExactly(28, s, c.pool);
    if ReadHash(28, s).Ok? {
      var s1 := ReadHash(28, s).rest;
      AfterBoth(s1, DRepTokens(c.drep), [Lead(0, c.coin)]);
      DRepExactly(s1, c.drep);
      if ReadDRep(s1).Ok? { CoinExactly(ReadDRep(s1).rest, c.coin); }
    }
  }

  lemma RegistrationExactly(s: seq<byte>, c: Certificate)
    requires Plain(c) && TagOf(c) in {0, 1, 7, 8, 14, 15, 16, 17, 18}
    ensures After(s, BehindCredential(c)) == Got(ReadRegistration(TagOf(c), CredentialOf(c), s), c)
  {
    hide Lex, After, ReadCoin, ReadCredential, ReadOptionalAnchor, CredentialTokens, OptionalAnchorTokens;
    match c {
      case AccountRegistration(_) => NoTokens(s);
      case AccountUnregistration(_) => NoTokens(s);
      case CommitteeAuthorization(_, hot) => CredentialExactly(s, hot);
      case CommitteeResignation(_, anchor) => OptionalAnchorExactly(s, anchor);
      case DrepUpdate(_, anchor) => OptionalAnchorExactly(s, anchor);
      case DrepRegistration(_, coin, anchor) =>
        AfterBoth(s, [Lead(0, coin)], OptionalAnchorTokens(anchor));
        CoinExactly(s, coin);
        if ReadCoin(s).Ok? { OptionalAnchorExactly(ReadCoin(s).rest, anchor); }
      case AccountRegistrationDeposit(_, coin) => CoinExactly(s, coin);
      case AccountUnregistrationDeposit(_, coin) => CoinExactly(s, coin);
      case DrepUnregistration(_, coin) => CoinExactly(s, coin);
      case _ =>
    }
  }

  lemma PlainExactly(s: seq<byte>, c: Certificate)
    requires Plain(c)
    ensures After(s, CredentialTokens(CredentialOf(c)) + BehindCredential(c)) == Got(ReadFields(TagOf(c), s), c)
  {
    hide Lex, After, ReadCredential, CredentialTokens, BehindCredential;
    var cred := CredentialOf(c);
    AfterBoth(s, CredentialTokens(cred), BehindCredential(c));
    CredentialExactly(s, cred);
    if ReadCredential(s).Ok? {
      var s1 := ReadCredential(s).rest;
      if TagOf(c) == 2 || 9 <= TagOf(c) <= 13 {
        DelegationExactly(s1, c);
      } else {
        RegistrationExactly(s1, c);
      }
      OtherCredential(s, c);
    }
  }

  /** The credential read becomes that of the certificate. */
  lemma OtherCredential(s: seq<byte>, c: Certificate)
    requires Plain(c) && ReadCredential(s).Ok?
    ensures ReadCredential(s).value != CredentialOf(c) ==> Got(ReadFields(TagOf(c), s), c) == None
  {
    hide ReadCredential, ReadHash, ReadDRep, ReadCoin, ReadOptionalAnchor;
  }

  /** Reading the fields of a number gives a certificate of that number. */
  lemma NumberRead(tag: nat, s: seq<byte>)
    requires ReadFields(tag, s).Ok?
    ensures TagOf(ReadFields(tag, s).value) == tag
  {
    hide ReadCredential, ReadHash, ReadDRep, ReadCoin, ReadOptionalAnchor, ReadParams, ReadMir;
  }

  lemma FieldsParse(tag: nat, s: seq<byte>) returns (w: Leeway)
    requires ReadFields(tag, s).Ok?
    ensures var r := ReadFields(tag, s); Allows(r.value, w) && After(s, FieldTokens(r.value, w)) == Some(r.rest)
  {
    hide Lex, After, ReadHash, ReadCoin, ReadParams, ReadMir, ReadDelegation, ReadRegistration, ParamsTokens, MirTokens,
         CredentialTokens, BehindCredential, TermsFit, TargetFits;
    w := Leeway(0, false, [], 0, []);
    NumberRead(tag, s);
    var c := ReadFields(tag, s).value;
    match c {
      case PoolRegistration(p) =>
        var tagged, ports := ParamsParse(s);
        w := w.(tagged := tagged, ports := ports);
      case PoolRetirement(pool, epoch) => PoolRetirementExactly(s, pool, epoch);
      case GenesisDelegation(genesis, delegate, vrf) => GenesisExactly(s, genesis, delegate, vrf);
      case MoveInstantaneousReward(_, _) =>
        var n, entries := MirParses(s);
        w := w.(mirLength := n, entries := entries);
      case _ => PlainExactly(s, c);
    }
  }

  lemma PoolRetirementExactly(s: seq<byte>, pool: Hash28, epoch: U64)
    ensures After(s, [Str(2, pool)] + [Lead(0, epoch)]) == Got(ReadFields(4, s), PoolRetirement(pool, epoch))
  {
    hide Lex, After, ReadHash, ReadCoin;
    AfterBoth(s, [Str(2, pool)], [Lead(0, epoch)]);
    HashExactly(28, s, pool);
    if ReadHash(28, s).Ok? { CoinExactly(ReadHash(28, s).rest, epoch); }
  }

  lemma GenesisExactly(s: seq<byte>, genesis: Hash28, delegate: Hash28, vrf: Hash32)
    ensures After(s, [Str(2, genesis)] + ([Str(2, delegate)] + [Str(2, vrf)]))
         == Got(ReadFields(5, s), GenesisDelegation(genesis, delegate, vrf))
  {
    hide Lex, After, ReadHash;
    AfterBoth(s, [Str(2, genesis)], [Str(2, delegate)] + [Str(2, vrf)]);
    HashExactly(28, s, genesis);
    if ReadHash(28, s).Ok? {
      var s1 := ReadHash(28, s).rest;
      AfterBoth(s1, [Str(2, delegate)], [Str(2, vrf)]);
      HashExactly(28, s1, delegate);
      if ReadHash(28, s1).Ok? { HashExactly(32, ReadHash(28, s1).rest, vrf); }
    }
  }

  lemma FieldsRead(s: seq<byte>, c: Certificate, w: Leeway)
    requires Allows(c, w) && After(s, FieldTokens(c, w)).Some?
    ensures ReadFields(TagOf(c), s) == Ok(c, After(s, FieldTokens(c, w)).value)
  {
    hide Lex, After, ReadHash, ReadCoin, ReadParams, ReadMir, ReadDelegation, ReadRegistration, ParamsTokens, MirTokens,
         CredentialTokens, BehindCredential, TermsFit, TargetFits;
    match c {
      case PoolRegistration(p) => ParamsRead(s, p, w.tagged, w.ports);
      case PoolRetirement(pool, epoch) => PoolRetirementExactly(s, pool, epoch);
      case GenesisDelegation(genesis, delegate, vrf) => GenesisExactly(s, genesis, delegate, vrf);
      case MoveInstantaneousReward(pot, target) => MirReads(s, pot, target, w.mirLength, w.entries);
      case _ => PlainExactly(s, c);
    }
  }

  /** The array and the number in front. */
  lemma NumberFirst(s: seq<byte>, n: nat, tag: nat)
    ensures var o := After(s, [Lead(4, n)] + [Lead(0, tag)]);
            && (o.Some? ==> ReadCertificate(s) == ReadFields(tag, o.value))
            && (o.Some? <==> ExpectMajor(4, s).Ok? && ExpectMajor(4, s).value == n
                             && ExpectMajor(0, ExpectMajor(4, s).rest).Ok?
                             && ExpectMajor(0, ExpectMajor(4, s).rest).value == tag)
  {
    hide Lex, After, ExpectMajor, ReadFields;
    AfterBoth(s, [Lead(4, n)], [Lead(0, tag)]);
    LeadExactly(4, s, n);
    if ExpectMajor(4, s).Ok? {
      LeadExactly(0, ExpectMajor(4, s).rest, tag);
    }
  }

  /** A certificate is read exactly where its tokens stand, with the leeway of the reader. */
  lemma CertificateTokensExactly(s: seq<byte>, c: Certificate, rest: seq<byte>)
    ensures ReadCertificate(s) == Ok(c, rest) <==>
              exists w :: Allows(c, w) && After(s, CertificateTokens(c, w)) == Some(rest)
  {
    hide Lex, After, ExpectMajor, ReadFields, FieldTokens, Allows;
    if ReadCertificate(s) == Ok(c, rest) {
      var n := ExpectMajor(4, s).value;
      var tag := ExpectMajor(0, ExpectMajor(4, s).rest).value;
      NumberFirst(s, n, tag);
      var s2 := After(s, [Lead(4, n)] + [Lead(0, tag)]).value;
      NumberRead(tag, s2);
      var w := FieldsParse(tag, s2);
      var w' := w.(length := n);
      LengthFree(c, w, n);
      AfterBoth(s, [Lead(4, n)] + [Lead(0, tag)], FieldTokens(c, w'));
      assert After(s, CertificateTokens(c, w')) == Some(rest);
    }
    if w :| Allows(c, w) && After(s, CertificateTokens(c, w)) == Some(rest) {
      AfterBoth(s, [Lead(4, w.length)] + [Lead(0, TagOf(c))], FieldTokens(c, w));
      NumberFirst(s, w.length, TagOf(c));
      FieldsRead(After(s, [Lead(4, w.length)] + [Lead(0, TagOf(c))]).value, c, w);
    }
  }

  lemma LengthFree(c: Certificate, w: Leeway, n: nat)
    requires Allows(c, w)
    ensures Allows(c, w.(length := n)) && FieldTokens(c, w.(length := n)) == FieldTokens(c, w)
  {
  }

  /** What the certificate reader accepts, byte by byte: it reads a certificate and stops in front of `rest` exactly
      when the bytes in between spell the tokens of that certificate, heads in any width, with the leeway above. */
  lemma CertificateExactly(s: seq<byte>, c: Certificate, rest: seq<byte>)
    ensures ReadCertificate(s) == Ok(c, rest) <==>
              exists w, f :: Allows(c, w) && SpellsAll(CertificateTokens(c, w), f) && s == f + rest
  {
    hide ReadCertificate, After, SpellsAll, CertificateTokens, Allows;
    CertificateTokensExactly(s, c, rest);
    if ReadCertificate(s) == Ok(c, rest) {
      var w :| Allows(c, w) && After(s, CertificateTokens(c, w)) == Some(rest);
      AfterExactly(s, CertificateTokens(c, w), rest);
    }
    if w, f :| Allows(c, w) && SpellsAll(CertificateTokens(c, w), f) && s == f + rest {
      AfterExactly(s, CertificateTokens(c, w), rest);
    }
  }

  // ----- refusals -------------------------------------------------------------------------------------------------

  /** The errors behind an array header and a number: unknown numbers, and lengths that are compared. */
  lemma Refusals(s: seq<byte>, n: nat, tag: nat, rest: seq<byte>)
    requires After(s, [Lead(4, n)] + [Lead(0, tag)]) == Some(rest)
    ensures tag > 18 ==> ReadCertificate(s) == Err(TypeMismatch(18, tag % 256))
    ensures n != 2 ==> ReadCredential(s) == Err(InvalidLength(2, n))
    ensures tag <= 2 && n != 4 - tag ==> ReadRelay(s) == Err(InvalidLength(4 - tag, n))
    ensures tag > 2 ==> ReadRelay(s) == Err(TypeMismatch(2, tag % 256))
    ensures tag <= 1 && n != 2 ==> ReadDRep(s) == Err(InvalidLength(2, n))
    ensures 2 <= tag <= 3 && n != 1 ==> ReadDRep(s) == Err(InvalidLength(1, n))
    ensures tag > 3 ==> ReadDRep(s) == Err(TypeMismatch(3, tag % 256))
    ensures tag > 1 ==> ReadMir(s) == Err(TypeMismatch(1, tag % 256))
  {
    hide Lex, After, ExpectMajor, ReadPort, ReadAddress, ReadText, ReadHash, ReadTarget, ReadCredential,
         ReadDelegation, ReadRegistration, ReadPoolFields;
    NumberFirst(s, n, tag);
    if n != 2 {
      CredentialLength(s, n);
    }
  }

  lemma CredentialLength(s: seq<byte>, n: nat)
    requires ExpectMajor(4, s).Ok? && ExpectMajor(4, s).value == n && n != 2
    ensures ReadCredential(s) == Err(InvalidLength(2, n))
  {
    hide ExpectMajor, ReadHash;
  }

  /** A tag other than 258 is rewound and refused as no array, one other than 30 is no interval, and a credential of
      an unknown kind is refused behind its hash. */
  lemma TagRefusals(s: seq<byte>, tag: nat, h: Hash28)
    ensures After(s, [Lead(6, tag)]).Some? && tag != 258 ==> ArrayOrSet(s) == Err(TypeMismatch(4, 6))
    ensures After(s, [Lead(6, tag)]).Some? && tag != 30 ==> ReadInterval(s) == Err(TypeMismatch(30, tag % 256))
    ensures After(s, [Lead(4, 2)] + ([Lead(0, tag)] + [Str(2, h)])).Some? && tag > 1 ==>
              ReadCredential(s) == Err(InvalidAdditionalInfo(tag % 256))
  {
    hide After, ReadArgument, BigEndian;
    AfterOne(s, Lead(6, tag));
    AfterBoth(s, [Lead(4, 2)], [Lead(0, tag)] + [Str(2, h)]);
    LeadExactly(6, s, tag);
    ArrayExactly(2, s);
    if ReadArrayOf(2, s).Ok? {
      var s1 := ReadArrayOf(2, s).rest;
      AfterBoth(s1, [Lead(0, tag)], [Str(2, h)]);
      LeadExactly(0, s1, tag);
      if ExpectMajor(0, s1).Ok? { HashExactly(28, ExpectMajor(0, s1).rest, h); }
    }
  }
}
