/** Certificates and the values nested in them, with their CBOR forms. */
module CborCerts {
  import opened Options
  import opened Addresses
  import opened Bytes
  import opened CborWire
  import opened CborArrays
  import opened Saturating


  type Hash32 = s: seq<byte> | |s| == 32 witness Filled(32, 0)
  type Ipv4 = s: seq<byte> | |s| == 4 witness Filled(4, 0)
  type Ipv6 = s: seq<byte> | |s| == 16 witness Filled(16, 0)

  datatype Anchor = Anchor(url: Text, dataHash: Hash32)

  datatype UnitInterval = UnitInterval(numerator: U64, denominator: U64)

  datatype Relay =
    | SingleHostAddr(port: Option<U16>, ipv4: Option<Ipv4>, ipv6: Option<Ipv6>)
    | SingleHostName(port: Option<U16>, name: Text)
    | MultiHostName(name: Text)

  datatype DRep = KeyHash(hash: Hash28) | Script(hash: Hash28) | AlwaysAbstain | AlwaysNoConfidence

  type Owners = s: seq<Hash28> | |s| <= U64_MAX
  type Relays = s: seq<Relay> | |s| <= U64_MAX

  datatype PoolTerms = PoolTerms(
    margin: UnitInterval, rewardAccount: RewardAccount, owners: Owners, relays: Relays, metadata: Option<Anchor>)

  datatype PoolParams = PoolParams(operator: Hash28, vrfKeyHash: Hash32, pledge: U64, cost: U64, terms: PoolTerms)

  datatype MirPot = Reserves | Treasury

  type Deltas = m: map<Credential, I64> | |m| <= U64_MAX

  datatype MirTarget = StakeCredentials(deltas: Deltas) | SendToOppositePot(coin: U64)

  datatype Certificate =
    | AccountRegistration(cred: Credential)
    | AccountUnregistration(cred: Credential)
    | DelegationToStakePool(cred: Credential, pool: Hash28)
    | PoolRegistration(params: PoolParams)
    | PoolRetirement(pool: Hash28, epoch: U64)
    | GenesisDelegation(genesis: Hash28, delegate: Hash28, vrf: Hash32)
    | MoveInstantaneousReward(pot: MirPot, target: MirTarget)
    | AccountRegistrationDeposit(cred: Credential, coin: U64)
    | AccountUnregistrationDeposit(cred: Credential, coin: U64)
    | DelegationToDrep(cred: Credential, drep: DRep)
    | DelegationToStakePoolAndDrep(cred: Credential, pool: Hash28, drep: DRep)
    | RegistrationDelegationToStakePool(cred: Credential, pool: Hash28, coin: U64)
    | RegistrationDelegationToDrep(cred: Credential, drep: DRep, coin: U64)
    | RegistrationDelegationToStakePoolAndDrep(cred: Credential, pool: Hash28, drep: DRep, coin: U64)
    | CommitteeAuthorization(cold: Credential, hot: Credential)
    | CommitteeResignation(cold: Credential, anchor: Option<Anchor>)
    | DrepRegistration(cred: Credential, coin: U64, anchor: Option<Anchor>)
    | DrepUnregistration(cred: Credential, coin: U64)
    | DrepUpdate(cred: Credential, anchor: Option<Anchor>)

  // ----- the nested values -------------------------------------------------------------------

  function ReadHash(n: nat, s: seq<byte>): (r: Parsed<seq<byte>>)
    ensures r.Ok? ==> |r.value| == n && |r.rest| < |s|
  {
    var (raw, s1) :- ReadString(BYTES, s);
    if |raw| != n then Err(InvalidLength(n, |raw|)) else Ok(raw, s1)
  }

  /** An array header that must announce exactly n elements. */
  function ReadArrayOf(n: nat, s: seq<byte>): Parsed<()> {
    var (len, s1) :- ExpectMajor(ARRAY, s);
    if len != n then Err(InvalidLength(n, len)) else Ok((), s1)
  }

  function EncodeHash(hash: seq<byte>): seq<byte>
    requires |hash| <= U64_MAX
  {
    EncodeString(BYTES, hash)
  }

  lemma HashRoundTrip(hash: seq<byte>, rest: seq<byte>)
    requires |hash| <= U64_MAX
    ensures ReadHash(|hash|, EncodeHash(hash) + rest) == Ok(hash, rest)
  {
    StringRoundTrip(BYTES, hash, rest);
  }

  lemma ArrayRoundTrip(n: U64, rest: seq<byte>)
    ensures ReadArrayOf(n, Head(ARRAY, n) + rest) == Ok((), rest)
  {
    HeadRoundTrip(ARRAY, n, rest);
  }

  /** Right-nested parts followed by `r` are right-nested parts with `r` innermost. */
  lemma Chain2(a: seq<byte>, b: seq<byte>, r: seq<byte>)
    ensures (a + b) + r == a + (b + r)
  {
  }

  lemma Chain3(a: seq<byte>, b: seq<byte>, c: seq<byte>, r: seq<byte>)
    ensures (a + (b + c)) + r == a + (b + (c + r))
  {
  }

  lemma Chain4(a: seq<byte>, b: seq<byte>, c: seq<byte>, d: seq<byte>, r: seq<byte>)
    ensures (a + (b + (c + d))) + r == a + (b + (c + (d + r)))
  {
    Chain3(b, c, d, r);
    Chain2(a, b + (c + d), r);
  }

  lemma Chain5(a: seq<byte>, b: seq<byte>, c: seq<byte>, d: seq<byte>, e: seq<byte>, r: seq<byte>)
    ensures (a + (b + (c + (d + e)))) + r == a + (b + (c + (d + (e + r))))
  {
    Chain4(b, c, d, e, r);
    Chain2(a, b + (c + (d + e)), r);
  }

  /** Parts appended one after the other are the right-nested parts appended at once. */
  lemma Append3(o: seq<byte>, a: seq<byte>, b: seq<byte>, c: seq<byte>)
    ensures ((o + a) + b) + c == o + (a + (b + c))
  {
  }

  lemma Append4(o: seq<byte>, a: seq<byte>, b: seq<byte>, c: seq<byte>, d: seq<byte>)
    ensures (((o + a) + b) + c) + d == o + (a + (b + (c + d)))
  {
    Append3(o, a, b, c + d);
    Chain2((o + a) + b, c, d);
  }

  function EncodeCredential(c: Credential): seq<byte> {
    Head(ARRAY, 2) + (Head(UNSIGNED, if c.AddrKeyHash? then 0 else 1) + EncodeHash(c.hash))
  }

  function ReadCredential(s: seq<byte>): Parsed<Credential> {
    var (_, s1) :- ReadArrayOf(2, s);
    var (tag, s2) :- ExpectMajor(UNSIGNED, s1);
    var (hash, s3) :- ReadHash(28, s2);
    if tag == 0 then Ok(AddrKeyHash(hash), s3)
    else if tag == 1 then Ok(ScriptHash(hash), s3)
    else Err(InvalidAdditionalInfo(tag % 256))
  }

  lemma CredentialRoundTrip(c: Credential, rest: seq<byte>)
    ensures ReadCredential(EncodeCredential(c) + rest) == Ok(c, rest)
  {
    hide Head, ExpectMajor, EncodeHash, ReadHash, ReadArrayOf;
    var tag := if c.AddrKeyHash? then 0 else 1;
    Chain3(Head(ARRAY, 2), Head(UNSIGNED, tag), EncodeHash(c.hash), rest);
    ArrayRoundTrip(2, Head(UNSIGNED, tag) + (EncodeHash(c.hash) + rest));
    HeadRoundTrip(UNSIGNED, tag, EncodeHash(c.hash) + rest);
    HashRoundTrip(c.hash, rest);
  }

  // ----- reward accounts -----------------------------------------------------------------------

  /** The 29-byte form keeps the low four bits of the network only. */
  function RewardBytes(a: RewardAccount): (s: seq<byte>)
    ensures |s| == 29
  {
    [(if a.credential.AddrKeyHash? then 0xe0 else 0xf0) + a.network % 16] + a.credential.hash
  }

  function RewardFromBytes(raw: seq<byte>): Option<RewardAccount> {
    if |raw| != 29 || raw[0] % 16 > 1 then None
    else if raw[0] / 16 == 14 then Some(RewardAccount(raw[0] % 16, AddrKeyHash(raw[1..])))
    else if raw[0] / 16 == 15 then Some(RewardAccount(raw[0] % 16, ScriptHash(raw[1..])))
    else None
  }

  function EncodeReward(a: RewardAccount): seq<byte> { EncodeString(BYTES, RewardBytes(a)) }

  function ReadReward(s: seq<byte>): Parsed<RewardAccount> {
    var (raw, s1) :- ReadString(BYTES, s);
    var account := RewardFromBytes(raw);
    if account.None? then Err(InvalidLength(29, |raw|)) else Ok(account.value, s1)
  }

  /** What reading back an encoded account gives: its network modulo 16, if that is 0 or 1. */
  lemma RewardReadBack(a: RewardAccount, rest: seq<byte>)
    ensures ReadReward(EncodeReward(a) + rest)
         == if a.network % 16 > 1 then Err(InvalidLength(29, 29))
            else Ok(RewardAccount(a.network % 16, a.credential), rest)
  {
    var raw := RewardBytes(a);
    StringRoundTrip(BYTES, raw, rest);
    assert raw[0] % 16 == a.network % 16;
    assert raw[0] / 16 == if a.credential.AddrKeyHash? then 14 else 15;
    assert raw[1..] == a.credential.hash;
  }

  // ----- anchors, intervals, relays and delegate representatives --------------------------------

  /** An anchor, and in the same shape the metadata of a pool. */
  function EncodeAnchor(a: Anchor): seq<byte> {
    Head(ARRAY, 2) + (EncodeString(TEXT, a.url) + EncodeHash(a.dataHash))
  }

  function ReadAnchor(s: seq<byte>): Parsed<Anchor> {
    var (_, s1) :- ReadArrayOf(2, s);
    var (url, s2) :- ReadText(s1);
    var (hash, s3) :- ReadHash(32, s2);
    Ok(Anchor(url, hash), s3)
  }

  lemma AnchorRoundTrip(a: Anchor, rest: seq<byte>)
    ensures ReadAnchor(EncodeAnchor(a) + rest) == Ok(a, rest)
  {
    hide Head, ExpectMajor, EncodeHash, ReadHash, ReadArrayOf, EncodeString, ReadText;
    Chain3(Head(ARRAY, 2), EncodeString(TEXT, a.url), EncodeHash(a.dataHash), rest);
    ArrayRoundTrip(2, EncodeString(TEXT, a.url) + (EncodeHash(a.dataHash) + rest));
    TextRoundTrip(a.url, EncodeHash(a.dataHash) + rest);
    HashRoundTrip(a.dataHash, rest);
  }

  function EncodeOptionalAnchor(a: Option<Anchor>): seq<byte> {
    if a.None? then [NULL] else EncodeAnchor(a.value)
  }

  function ReadOptionalAnchor(s: seq<byte>): Parsed<Option<Anchor>> {
    var (major, _) :- PeekMajor(s);
    if major == SIMPLE then
      var (_, s1) :- ReadNull(s);
      Ok(None, s1)
    else
      var (a, s1) :- ReadAnchor(s);
      Ok(Some(a), s1)
  }

  lemma OptionalAnchorRoundTrip(a: Option<Anchor>, rest: seq<byte>)
    ensures ReadOptionalAnchor(EncodeOptionalAnchor(a) + rest) == Ok(a, rest)
  {
    hide ReadAnchor;
    if a.None? {
      NullRoundTrip(rest);
    } else {
      AnchorRoundTrip(a.value, rest);
      var body := EncodeString(TEXT, a.value.url) + EncodeHash(a.value.dataHash);
      Chain2(Head(ARRAY, 2), body, rest);
      HeadMajor(ARRAY, 2, body + rest);
    }
  }

  lemma NullRoundTrip(rest: seq<byte>)
    ensures PeekMajor([NULL] + rest) == Ok(SIMPLE, [NULL] + rest)
    ensures ReadNull([NULL] + rest) == Ok((), rest)
  {
  }

  function EncodeInterval(u: UnitInterval): seq<byte> {
    Head(TAG, 30) + (Head(ARRAY, 2) + (Head(UNSIGNED, u.numerator) + Head(UNSIGNED, u.denominator)))
  }

  function ReadInterval(s: seq<byte>): Parsed<UnitInterval> {
    var (tag, s1) :- ExpectMajor(TAG, s);
    if tag != 30 then Err(TypeMismatch(30, tag % 256))
    else
      var (_, s2) :- ReadArrayOf(2, s1);
      var (numerator, s3) :- ExpectMajor(UNSIGNED, s2);
      var (denominator, s4) :- ExpectMajor(UNSIGNED, s3);
      Ok(UnitInterval(numerator, denominator), s4)
  }

  lemma IntervalRoundTrip(u: UnitInterval, rest: seq<byte>)
    ensures ReadInterval(EncodeInterval(u) + rest) == Ok(u, rest)
  {
    hide Head, ExpectMajor, ReadArrayOf;
    var n, d := Head(UNSIGNED, u.numerator), Head(UNSIGNED, u.denominator);
    Chain4(Head(TAG, 30), Head(ARRAY, 2), n, d, rest);
    HeadRoundTrip(TAG, 30, Head(ARRAY, 2) + (n + (d + rest)));
    ArrayRoundTrip(2, n + (d + rest));
    HeadRoundTrip(UNSIGNED, u.numerator, d + rest);
    HeadRoundTrip(UNSIGNED, u.denominator, rest);
  }

  function EncodePort(p: Option<U16>): seq<byte> {
    if p.None? then [NULL] else Head(UNSIGNED, p.value)
  }

  /** A port, truncated to 16 bits. */
  function ReadPort(s: seq<byte>): Parsed<Option<U16>> {
    var (major, _) :- PeekMajor(s);
    if major == SIMPLE then
      var (_, s1) :- ReadNull(s);
      Ok(None, s1)
    else
      var (p, s1) :- ExpectMajor(UNSIGNED, s);
      Ok(Some(p % 0x1_0000), s1)
  }

  lemma PortRoundTrip(p: Option<U16>, rest: seq<byte>)
    ensures ReadPort(EncodePort(p) + rest) == Ok(p, rest)
  {
    hide Head, ExpectMajor, PeekMajor, ReadNull;
    if p.None? {
      NullRoundTrip(rest);
    } else {
      HeadRoundTrip(UNSIGNED, p.value, rest);
      HeadMajor(UNSIGNED, p.value, rest);
    }
  }

  function EncodeAddress(a: Option<seq<byte>>): seq<byte>
    requires a.Some? ==> |a.value| <= U64_MAX
  {
    if a.None? then [NULL] else EncodeHash(a.value)
  }

  /** An address of n bytes, or null. */
  function ReadAddress(n: nat, s: seq<byte>): (r: Parsed<Option<seq<byte>>>)
    ensures r.Ok? && r.value.Some? ==> |r.value.value| == n
  {
    var (major, _) :- PeekMajor(s);
    if major == SIMPLE then
      var (_, s1) :- ReadNull(s);
      Ok(None, s1)
    else
      var (a, s1) :- ReadHash(n, s);
      Ok(Some(a), s1)
  }

  lemma AddressRoundTrip(n: nat, a: Option<seq<byte>>, rest: seq<byte>)
    requires n <= U64_MAX && (a.Some? ==> |a.value| == n)
    ensures ReadAddress(n, EncodeAddress(a) + rest) == Ok(a, rest)
  {
    hide ReadHash;
    if a.None? {
      NullRoundTrip(rest);
    } else {
      HashRoundTrip(a.value, rest);
      Chain2(Head(BYTES, n), a.value, rest);
      HeadMajor(BYTES, n, a.value + rest);
    }
  }

  function EncodeRelay(r: Relay): seq<byte> {
    match r
    case SingleHostAddr(port, ipv4, ipv6) =>
      Head(ARRAY, 4) + (Head(UNSIGNED, 0) + (EncodePort(port) + (EncodeAddress(ipv4) + EncodeAddress(ipv6))))
    case SingleHostName(port, name) =>
      Head(ARRAY, 3) + (Head(UNSIGNED, 1) + (EncodePort(port) + EncodeString(TEXT, name)))
    case MultiHostName(name) =>
      Head(ARRAY, 2) + (Head(UNSIGNED, 2) + EncodeString(TEXT, name))
  }

  function ReadRelay(s: seq<byte>): Parsed<Relay> {
    var (len, s1) :- ExpectMajor(ARRAY, s);
    var (tag, s2) :- ExpectMajor(UNSIGNED, s1);
    if tag == 0 then
      if len != 4 then Err(InvalidLength(4, len))
      else
        var (port, s3) :- ReadPort(s2);
        var (ipv4, s4) :- ReadAddress(4, s3);
        var (ipv6, s5) :- ReadAddress(16, s4);
        Ok(SingleHostAddr(port, ipv4, ipv6), s5)
    else if tag == 1 then
      if len != 3 then Err(InvalidLength(3, len))
      else
        var (port, s3) :- ReadPort(s2);
        var (name, s4) :- ReadText(s3);
        Ok(SingleHostName(port, name), s4)
    else if tag == 2 then
      if len != 2 then Err(InvalidLength(2, len))
      else
        var (name, s3) :- ReadText(s2);
        Ok(MultiHostName(name), s3)
    else Err(TypeMismatch(2, tag % 256))
  }

  lemma RelayRoundTrip(r: Relay, rest: seq<byte>)
    ensures ReadRelay(EncodeRelay(r) + rest) == Ok(r, rest)
  {
    hide Head, ExpectMajor, EncodePort, ReadPort, EncodeAddress, ReadAddress, EncodeString, ReadText;
    match r
    case SingleHostAddr(port, ipv4, ipv6) =>
      var p, a4, a6 := EncodePort(port), EncodeAddress(ipv4), EncodeAddress(ipv6);
      Chain5(Head(ARRAY, 4), Head(UNSIGNED, 0), p, a4, a6, rest);
      HeadRoundTrip(ARRAY, 4, Head(UNSIGNED, 0) + (p + (a4 + (a6 + rest))));
      HeadRoundTrip(UNSIGNED, 0, p + (a4 + (a6 + rest)));
      PortRoundTrip(port, a4 + (a6 + rest));
      AddressRoundTrip(4, ipv4, a6 + rest);
      AddressRoundTrip(16, ipv6, rest);
    case SingleHostName(port, name) =>
      var p, t := EncodePort(port), EncodeString(TEXT, name);
      Chain4(Head(ARRAY, 3), Head(UNSIGNED, 1), p, t, rest);
      HeadRoundTrip(ARRAY, 3, Head(UNSIGNED, 1) + (p + (t + rest)));
      HeadRoundTrip(UNSIGNED, 1, p + (t + rest));
      PortRoundTrip(port, t + rest);
      TextRoundTrip(name, rest);
    case MultiHostName(name) =>
      var t := EncodeString(TEXT, name);
      Chain3(Head(ARRAY, 2), Head(UNSIGNED, 2), t, rest);
      HeadRoundTrip(ARRAY, 2, Head(UNSIGNED, 2) + (t + rest));
      HeadRoundTrip(UNSIGNED, 2, t + rest);
      TextRoundTrip(name, rest);
  }

  function EncodeDRep(d: DRep): seq<byte> {
    match d
    case KeyHash(h) => Head(ARRAY, 2) + (Head(UNSIGNED, 0) + EncodeHash(h))
    case Script(h) => Head(ARRAY, 2) + (Head(UNSIGNED, 1) + EncodeHash(h))
    case AlwaysAbstain => Head(ARRAY, 1) + Head(UNSIGNED, 2)
    case AlwaysNoConfidence => Head(ARRAY, 1) + Head(UNSIGNED, 3)
  }

  function ReadDRep(s: seq<byte>): Parsed<DRep> {
    var (len, s1) :- ExpectMajor(ARRAY, s);
    var (tag, s2) :- ExpectMajor(UNSIGNED, s1);
    if tag <= 1 then
      if len != 2 then Err(InvalidLength(2, len))
      else
        var (hash, s3) :- ReadHash(28, s2);
        Ok(if tag == 0 then KeyHash(hash) else Script(hash), s3)
    else if tag <= 3 then
      if len != 1 then Err(InvalidLength(1, len))
      else Ok(if tag == 2 then AlwaysAbstain else AlwaysNoConfidence, s2)
    else Err(TypeMismatch(3, tag % 256))
  }

  lemma DRepRoundTrip(d: DRep, rest: seq<byte>)
    ensures ReadDRep(EncodeDRep(d) + rest) == Ok(d, rest)
  {
    hide Head, ExpectMajor, EncodeHash, ReadHash;
    var tag := match d case KeyHash(_) => 0 case Script(_) => 1 case AlwaysAbstain => 2 case AlwaysNoConfidence => 3;
    if tag <= 1 {
      Chain3(Head(ARRAY, 2), Head(UNSIGNED, tag), EncodeHash(d.hash), rest);
      HeadRoundTrip(ARRAY, 2, Head(UNSIGNED, tag) + (EncodeHash(d.hash) + rest));
      HeadRoundTrip(UNSIGNED, tag, EncodeHash(d.hash) + rest);
      HashRoundTrip(d.hash, rest);
    } else {
      Chain2(Head(ARRAY, 1), Head(UNSIGNED, tag), rest);
      HeadRoundTrip(ARRAY, 1, Head(UNSIGNED, tag) + rest);
      HeadRoundTrip(UNSIGNED, tag, rest);
    }
  }

  // ----- pool parameters -----------------------------------------------------------------------------

  function EncodeOwner(h: Hash28): seq<byte> { EncodeHash(h) }

  function ReadOwner(s: seq<byte>): Parsed<Hash28> {
    var (h, s1) :- ReadHash(28, s);
    Ok(h, s1)
  }

  function EncodeOwners(owners: Owners): seq<byte> {
    Head(ARRAY, |owners|) + EncodeAll(owners, EncodeOwner)
  }

  /** Owners as a plain array or as a tagged set. */
  function ReadOwners(s: seq<byte>): Parsed<Owners> {
    var (n, s1) :- ArrayOrSet(s);
    var (owners, s2) :- ReadMany(n, s1, ReadOwner);
    Ok(owners, s2)
  }

  lemma OwnersRoundTrip(owners: Owners, rest: seq<byte>)
    ensures ReadOwners(EncodeOwners(owners) + rest) == Ok(owners, rest)
  {
    hide Head, ExpectMajor, EncodeAll, ReadMany, EncodeOwner, ReadOwner, PeekMajor;
    forall h: Hash28, r
      ensures ReadOwner(EncodeOwner(h) + r) == Ok(h, r) && !IsBreak(EncodeOwner(h) + r)
    {
      OwnerCodec(h, r);
    }
    var all := EncodeAll(owners, EncodeOwner);
    Chain2(Head(ARRAY, |owners|), all, rest);
    HeadMajor(ARRAY, |owners|, all + rest);
    HeadRoundTrip(ARRAY, |owners|, all + rest);
    ManyRoundTrip(owners, EncodeOwner, ReadOwner, rest);
  }

  lemma OwnerCodec(h: Hash28, r: seq<byte>)
    ensures ReadOwner(EncodeOwner(h) + r) == Ok(h, r) && !IsBreak(EncodeOwner(h) + r)
  {
    hide ReadHash;
    HashRoundTrip(h, r);
    Chain2(Head(BYTES, 28), h, r);
    HeadMajor(BYTES, 28, h + r);
  }

  function EncodeRelays(relays: Relays): seq<byte> {
    Head(ARRAY, |relays|) + EncodeAll(relays, EncodeRelay)
  }

  function ReadRelays(s: seq<byte>): Parsed<Relays> {
    var (n, s1) :- ExpectMajor(ARRAY, s);
    var (relays, s2) :- ReadMany(n, s1, ReadRelay);
    Ok(relays, s2)
  }

  lemma RelaysRoundTrip(relays: Relays, rest: seq<byte>)
    ensures ReadRelays(EncodeRelays(relays) + rest) == Ok(relays, rest)
  {
    hide Head, ExpectMajor, EncodeAll, ReadMany, EncodeRelay, ReadRelay;
    forall relay, r
      ensures ReadRelay(EncodeRelay(relay) + r) == Ok(relay, r) && !IsBreak(EncodeRelay(relay) + r)
    {
      RelayRoundTrip(relay, r);
      RelayFirst(relay, r);
    }
    var all := EncodeAll(relays, EncodeRelay);
    Chain2(Head(ARRAY, |relays|), all, rest);
    HeadRoundTrip(ARRAY, |relays|, all + rest);
    ManyRoundTrip(relays, EncodeRelay, ReadRelay, rest);
  }

  lemma RelayFirst(relay: Relay, r: seq<byte>)
    ensures !IsBreak(EncodeRelay(relay) + r)
  {
    hide Head, EncodePort, EncodeAddress, EncodeString;
    match relay
    case SingleHostAddr(port, ipv4, ipv6) =>
      FirstHead(4, Head(UNSIGNED, 0) + (EncodePort(port) + (EncodeAddress(ipv4) + EncodeAddress(ipv6))), r);
    case SingleHostName(port, name) =>
      FirstHead(3, Head(UNSIGNED, 1) + (EncodePort(port) + EncodeString(TEXT, name)), r);
    case MultiHostName(name) =>
      FirstHead(2, Head(UNSIGNED, 2) + EncodeString(TEXT, name), r);
  }

  lemma FirstHead(n: U64, body: seq<byte>, r: seq<byte>)
    ensures !IsBreak((Head(ARRAY, n) + body) + r)
  {
    Chain2(Head(ARRAY, n), body, r);
    HeadMajor(ARRAY, n, body + r);
  }

  function EncodeTerms(t: PoolTerms): seq<byte> {
    EncodeInterval(t.margin) + (EncodeReward(t.rewardAccount) +
      (EncodeOwners(t.owners) + (EncodeRelays(t.relays) + EncodeOptionalAnchor(t.metadata))))
  }

  function ReadTerms(s: seq<byte>): Parsed<PoolTerms> {
    var (margin, s1) :- ReadInterval(s);
    var (account, s2) :- ReadReward(s1);
    var (owners, s3) :- ReadOwners(s2);
    var (relays, s4) :- ReadRelays(s3);
    var (metadata, s5) :- ReadOptionalAnchor(s4);
    Ok(PoolTerms(margin, account, owners, relays, metadata), s5)
  }

  /** The account as its 29 bytes hold it. */
  function Truncated(a: RewardAccount): RewardAccount { RewardAccount(a.network % 16, a.credential) }

  function ReadBackTerms(t: PoolTerms, rest: seq<byte>): Parsed<PoolTerms> {
    if t.rewardAccount.network % 16 > 1 then Err(InvalidLength(29, 29))
    else Ok(t.(rewardAccount := Truncated(t.rewardAccount)), rest)
  }

  lemma TermsReadBack(t: PoolTerms, rest: seq<byte>)
    ensures ReadTerms(EncodeTerms(t) + rest) == ReadBackTerms(t, rest)
  {
    hide EncodeInterval, ReadInterval, EncodeReward, ReadReward, EncodeOwners, ReadOwners,
         EncodeRelays, ReadRelays, EncodeOptionalAnchor, ReadOptionalAnchor;
    var a, b, c := EncodeInterval(t.margin), EncodeReward(t.rewardAccount), EncodeOwners(t.owners);
    var d, e := EncodeRelays(t.relays), EncodeOptionalAnchor(t.metadata);
    Chain5(a, b, c, d, e, rest);
    IntervalRoundTrip(t.margin, b + (c + (d + (e + rest))));
    RewardReadBack(t.rewardAccount, c + (d + (e + rest)));
    OwnersRoundTrip(t.owners, d + (e + rest));
    RelaysRoundTrip(t.relays, e + rest);
    OptionalAnchorRoundTrip(t.metadata, rest);
  }

  function EncodeParams(p: PoolParams): seq<byte> {
    EncodeHash(p.operator) + (EncodeHash(p.vrfKeyHash) +
      (Head(UNSIGNED, p.pledge) + (Head(UNSIGNED, p.cost) + EncodeTerms(p.terms))))
  }

  function ReadParams(s: seq<byte>): Parsed<PoolParams> {
    var (operator, s1) :- ReadHash(28, s);
    var (vrf, s2) :- ReadHash(32, s1);
    var (pledge, s3) :- ExpectMajor(UNSIGNED, s2);
    var (cost, s4) :- ExpectMajor(UNSIGNED, s3);
    var (terms, s5) :- ReadTerms(s4);
    Ok(PoolParams(operator, vrf, pledge, cost, terms), s5)
  }

  lemma ParamsReadBack(p: PoolParams, rest: seq<byte>)
    ensures ReadParams(EncodeParams(p) + rest)
         == (var terms := ReadBackTerms(p.terms, rest);
             if terms.Err? then Err(terms.error) else Ok(p.(terms := terms.value), rest))
  {
    hide Head, ExpectMajor, EncodeHash, ReadHash, EncodeTerms, ReadTerms;
    var a, b := EncodeHash(p.operator), EncodeHash(p.vrfKeyHash);
    var c, d, e := Head(UNSIGNED, p.pledge), Head(UNSIGNED, p.cost), EncodeTerms(p.terms);
    Chain5(a, b, c, d, e, rest);
    HashRoundTrip(p.operator, b + (c + (d + (e + rest))));
    HashRoundTrip(p.vrfKeyHash, c + (d + (e + rest)));
    HeadRoundTrip(UNSIGNED, p.pledge, d + (e + rest));
    HeadRoundTrip(UNSIGNED, p.cost, e + rest);
    TermsReadBack(p.terms, rest);
  }

  // ----- instantaneous rewards --------------------------------------------------------------------------

  datatype Delta = Delta(cred: Credential, amount: I64)

  function EncodeDelta(d: Delta): seq<byte> { EncodeCredential(d.cred) + EncodeInteger(d.amount) }

  function ReadDelta(s: seq<byte>): Parsed<Delta> {
    var (cred, s1) :- ReadCredential(s);
    var (amount, s2) :- ReadInteger(s1);
    Ok(Delta(cred, amount), s2)
  }

  lemma DeltaCodec(d: Delta, r: seq<byte>)
    ensures ReadDelta(EncodeDelta(d) + r) == Ok(d, r) && !IsBreak(EncodeDelta(d) + r)
  {
    hide ReadCredential, ReadInteger, EncodeInteger, EncodeHash;
    Chain2(EncodeCredential(d.cred), EncodeInteger(d.amount), r);
    CredentialRoundTrip(d.cred, EncodeInteger(d.amount) + r);
    IntegerRoundTrip(d.amount, r);
  }

  /** The map built by inserting entries one after the other. */
  function MapOf(entries: seq<Delta>): (m: map<Credential, I64>)
    ensures |m| <= |entries|
  {
    if entries == [] then map[]
    else
      var last := entries[|entries| - 1];
      var m := MapOf(entries[..|entries| - 1]);
      assert m[last.cred := last.amount].Keys == m.Keys + {last.cred};
      m[last.cred := last.amount]
  }

  /** An order in which a map can be written: each key once. */
  ghost predicate IsOrder(keys: seq<Credential>, m: map<Credential, I64>) {
    |keys| == |m| && forall k :: k in keys <==> k in m
  }

  function Entries(keys: seq<Credential>, m: map<Credential, I64>): (e: seq<Delta>)
    requires forall k :: k in keys ==> k in m
    ensures |e| == |keys|
  {
    seq(|keys|, i requires 0 <= i < |keys| => assert keys[i] in keys; Delta(keys[i], m[keys[i]]))
  }

  lemma {:induction false} MapOfEntries(keys: seq<Credential>, m: map<Credential, I64>, n: nat)
    requires n <= |keys| && forall k :: k in keys ==> k in m
    ensures MapOf(Entries(keys, m)[..n]) == map k | k in keys[..n] :: m[k]
    decreases n
  {
    var e := Entries(keys, m);
    if n > 0 {
      MapOfEntries(keys, m, n - 1);
      assert e[..n][..n - 1] == e[..n - 1];
      assert keys[..n] == keys[..n - 1] + [keys[n - 1]];
    }
  }

  lemma OrderedEntries(keys: seq<Credential>, m: map<Credential, I64>)
    requires IsOrder(keys, m)
    ensures MapOf(Entries(keys, m)) == m
  {
    MapOfEntries(keys, m, |keys|);
    assert keys[..|keys|] == keys && Entries(keys, m)[..|keys|] == Entries(keys, m);
  }

  function EncodeTarget(t: MirTarget, keys: seq<Credential>): seq<byte>
    requires t.StakeCredentials? ==> IsOrder(keys, t.deltas)
  {
    match t
    case StakeCredentials(m) => Head(MAP, |m|) + EncodeAll(Entries(keys, m), EncodeDelta)
    case SendToOppositePot(coin) => Head(UNSIGNED, coin)
  }

  function ReadTarget(s: seq<byte>): Parsed<MirTarget> {
    var (major, _) :- PeekMajor(s);
    if major == MAP then
      var (n, s1) :- ExpectMajor(MAP, s);
      var (entries, s2) :- ReadMany(n, s1, ReadDelta);
      Ok(StakeCredentials(MapOf(entries)), s2)
    else
      var (coin, s1) :- ExpectMajor(UNSIGNED, s);
      Ok(SendToOppositePot(coin), s1)
  }

  lemma TargetRoundTrip(t: MirTarget, keys: seq<Credential>, rest: seq<byte>)
    requires t.StakeCredentials? ==> IsOrder(keys, t.deltas)
    ensures ReadTarget(EncodeTarget(t, keys) + rest) == Ok(t, rest)
  {
    hide Head, ExpectMajor, PeekMajor, EncodeAll, ReadMany, EncodeDelta, ReadDelta, Entries, MapOf;
    match t
    case StakeCredentials(m) =>
      forall d, r
        ensures ReadDelta(EncodeDelta(d) + r) == Ok(d, r) && !IsBreak(EncodeDelta(d) + r)
      {
        DeltaCodec(d, r);
      }
      var all := EncodeAll(Entries(keys, m), EncodeDelta);
      Chain2(Head(MAP, |m|), all, rest);
      HeadMajor(MAP, |m|, all + rest);
      HeadRoundTrip(MAP, |m|, all + rest);
      ManyRoundTrip(Entries(keys, m), EncodeDelta, ReadDelta, rest);
      OrderedEntries(keys, m);
    case SendToOppositePot(coin) =>
      HeadMajor(UNSIGNED, coin, rest);
      HeadRoundTrip(UNSIGNED, coin, rest);
  }

  function EncodeMir(pot: MirPot, target: MirTarget, keys: seq<Credential>): seq<byte>
    requires target.StakeCredentials? ==> IsOrder(keys, target.deltas)
  {
    Head(ARRAY, 2) + (Head(UNSIGNED, if pot == Reserves then 0 else 1) + EncodeTarget(target, keys))
  }

  function ReadMir(s: seq<byte>): Parsed<(MirPot, MirTarget)> {
    var (_, s1) :- ExpectMajor(ARRAY, s);
    var (pot, s2) :- ExpectMajor(UNSIGNED, s1);
    if pot > 1 then Err(TypeMismatch(1, pot % 256))
    else
      var (target, s3) :- ReadTarget(s2);
      Ok((if pot == 0 then Reserves else Treasury, target), s3)
  }

  lemma MirRoundTrip(pot: MirPot, target: MirTarget, keys: seq<Credential>, rest: seq<byte>)
    requires target.StakeCredentials? ==> IsOrder(keys, target.deltas)
    ensures ReadMir(EncodeMir(pot, target, keys) + rest) == Ok((pot, target), rest)
  {
    hide Head, ExpectMajor, EncodeTarget, ReadTarget;
    var p, t := if pot == Reserves then 0 else 1, EncodeTarget(target, keys);
    Chain3(Head(ARRAY, 2), Head(UNSIGNED, p), t, rest);
    HeadRoundTrip(ARRAY, 2, Head(UNSIGNED, p) + (t + rest));
    HeadRoundTrip(UNSIGNED, p, t + rest);
    TargetRoundTrip(target, keys, rest);
  }

  // ----- certificates -----------------------------------------------------------------------------------------

  function TagOf(c: Certificate): U64 {
    match c
    case AccountRegistration(_) => 0
    case AccountUnregistration(_) => 1
    case DelegationToStakePool(_, _) => 2
    case PoolRegistration(_) => 3
    case PoolRetirement(_, _) => 4
    case GenesisDelegation(_, _, _) => 5
    case MoveInstantaneousReward(_, _) => 6
    case AccountRegistrationDeposit(_, _) => 7
    case AccountUnregistrationDeposit(_, _) => 8
    case DelegationToDrep(_, _) => 9
    case DelegationToStakePoolAndDrep(_, _, _) => 10
    case RegistrationDelegationToStakePool(_, _, _) => 11
    case RegistrationDelegationToDrep(_, _, _) => 12
    case RegistrationDelegationToStakePoolAndDrep(_, _, _, _) => 13
    case CommitteeAuthorization(_, _) => 14
    case CommitteeResignation(_, _) => 15
    case DrepRegistration(_, _, _) => 16
    case DrepUnregistration(_, _) => 17
    case DrepUpdate(_, _) => 18
  }

  /** The number of array elements, the tag included. */
  function LengthOf(c: Certificate): U64 {
    match TagOf(c)
    case 0 => 2
    case 1 => 2
    case 3 => 10
    case 5 => 4
    case 6 => 2
    case 10 => 4
    case 11 => 4
    case 12 => 4
    case 13 => 5
    case 16 => 4
    case _ => 3
  }

  ghost predicate Writable(c: Certificate, keys: seq<Credential>) {
    c.MoveInstantaneousReward? && c.target.StakeCredentials? ==> IsOrder(keys, c.target.deltas)
  }

  function EncodeCoin(coin: U64): seq<byte> { Head(UNSIGNED, coin) }

  /** The fields behind the tag; `keys` is the order in which a reward map is written. */
  function EncodeFields(c: Certificate, keys: seq<Credential>): seq<byte>
    requires Writable(c, keys)
  {
    match c
    case AccountRegistration(cred) => EncodeCredential(cred)
    case AccountUnregistration(cred) => EncodeCredential(cred)
    case DelegationToStakePool(cred, pool) => EncodeCredential(cred) + EncodeHash(pool)
    case PoolRegistration(params) => EncodeParams(params)
    case PoolRetirement(pool, epoch) => EncodeHash(pool) + EncodeCoin(epoch)
    case GenesisDelegation(genesis, delegate, vrf) => EncodeHash(genesis) + (EncodeHash(delegate) + EncodeHash(vrf))
    case MoveInstantaneousReward(pot, target) => EncodeMir(pot, target, keys)
    case AccountRegistrationDeposit(cred, coin) => EncodeCredential(cred) + EncodeCoin(coin)
    case AccountUnregistrationDeposit(cred, coin) => EncodeCredential(cred) + EncodeCoin(coin)
    case DelegationToDrep(cred, drep) => EncodeCredential(cred) + EncodeDRep(drep)
    case DelegationToStakePoolAndDrep(cred, pool, drep) =>
      EncodeCredential(cred) + (EncodeHash(pool) + EncodeDRep(drep))
    case RegistrationDelegationToStakePool(cred, pool, coin) =>
      EncodeCredential(cred) + (EncodeHash(pool) + EncodeCoin(coin))
    case RegistrationDelegationToDrep(cred, drep, coin) =>
      EncodeCredential(cred) + (EncodeDRep(drep) + EncodeCoin(coin))
    case RegistrationDelegationToStakePoolAndDrep(cred, pool, drep, coin) =>
      EncodeCredential(cred) + (EncodeHash(pool) + (EncodeDRep(drep) + EncodeCoin(coin)))
    case CommitteeAuthorization(cold, hot) => EncodeCredential(cold) + EncodeCredential(hot)
    case CommitteeResignation(cold, anchor) => EncodeCredential(cold) + EncodeOptionalAnchor(anchor)
    case DrepRegistration(cred, coin, anchor) =>
      EncodeCredential(cred) + (EncodeCoin(coin) + EncodeOptionalAnchor(anchor))
    case DrepUnregistration(cred, coin) => EncodeCredential(cred) + EncodeCoin(coin)
    case DrepUpdate(cred, anchor) => EncodeCredential(cred) + EncodeOptionalAnchor(anchor)
  }

  function EncodeCertificate(c: Certificate, keys: seq<Credential>): seq<byte>
    requires Writable(c, keys)
  {
    Head(ARRAY, LengthOf(c)) + (Head(UNSIGNED, TagOf(c)) + EncodeFields(c, keys))
  }

  function ReadCoin(s: seq<byte>): (r: Parsed<U64>) { ExpectMajor(UNSIGNED, s) }

  /** The tags that carry no credential in front. */
  function ReadPoolFields(tag: nat, s: seq<byte>): Parsed<Certificate>
    requires 3 <= tag <= 6
  {
    if tag == 3 then
      var (params, s1) :- ReadParams(s);
      Ok(PoolRegistration(params), s1)
    else if tag == 4 then
      var (pool, s1) :- ReadHash(28, s);
      var (epoch, s2) :- ReadCoin(s1);
      Ok(PoolRetirement(pool, epoch), s2)
    else if tag == 5 then
      var (genesis, s1) :- ReadHash(28, s);
      var (delegate, s2) :- ReadHash(28, s1);
      var (vrf, s3) :- ReadHash(32, s2);
      Ok(GenesisDelegation(genesis, delegate, vrf), s3)
    else
      var (mir, s1) :- ReadMir(s);
      Ok(MoveInstantaneousReward(mir.0, mir.1), s1)
  }

  /** Delegations, behind their credential. */
  function ReadDelegation(tag: nat, cred: Credential, s: seq<byte>): Parsed<Certificate>
    requires tag in {2, 9, 10, 11, 12, 13}
  {
    if tag == 2 then
      var (pool, s1) :- ReadHash(28, s);
      Ok(DelegationToStakePool(cred, pool), s1)
    else if tag == 9 then
      var (drep, s1) :- ReadDRep(s);
      Ok(DelegationToDrep(cred, drep), s1)
    else if tag == 10 then
      var (pool, s1) :- ReadHash(28, s);
      var (drep, s2) :- ReadDRep(s1);
      Ok(DelegationToStakePoolAndDrep(cred, pool, drep), s2)
    else if tag == 11 then
      var (pool, s1) :- ReadHash(28, s);
      var (coin, s2) :- ReadCoin(s1);
      Ok(RegistrationDelegationToStakePool(cred, pool, coin), s2)
    else if tag == 12 then
      var (drep, s1) :- ReadDRep(s);
      var (coin, s2) :- ReadCoin(s1);
      Ok(RegistrationDelegationToDrep(cred, drep, coin), s2)
    else
      var (pool, s1) :- ReadHash(28, s);
      var (drep, s2) :- ReadDRep(s1);
      var (coin, s3) :- ReadCoin(s2);
      Ok(RegistrationDelegationToStakePoolAndDrep(cred, pool, drep, coin), s3)
  }

  /** Registrations and the committee, behind their credential. */
  function ReadRegistration(tag: nat, cred: Credential, s: seq<byte>): Parsed<Certificate>
    requires tag in {0, 1, 7, 8, 14, 15, 16, 17, 18}
  {
    if tag == 0 then Ok(AccountRegistration(cred), s)
    else if tag == 1 then Ok(AccountUnregistration(cred), s)
    else if tag == 7 then
      var (coin, s1) :- ReadCoin(s);
      Ok(AccountRegistrationDeposit(cred, coin), s1)
    else if tag == 8 then
      var (coin, s1) :- ReadCoin(s);
      Ok(AccountUnregistrationDeposit(cred, coin), s1)
    else if tag == 14 then
      var (hot, s1) :- ReadCredential(s);
      Ok(CommitteeAuthorization(cred, hot), s1)
    else if tag == 15 then
      var (anchor, s1) :- ReadOptionalAnchor(s);
      Ok(CommitteeResignation(cred, anchor), s1)
    else if tag == 16 then
      var (coin, s1) :- ReadCoin(s);
      var (anchor, s2) :- ReadOptionalAnchor(s1);
      Ok(DrepRegistration(cred, coin, anchor), s2)
    else if tag == 17 then
      var (coin, s1) :- ReadCoin(s);
      Ok(DrepUnregistration(cred, coin), s1)
    else
      var (anchor, s1) :- ReadOptionalAnchor(s);
      Ok(DrepUpdate(cred, anchor), s1)
  }

  function ReadFields(tag: nat, s: seq<byte>): Parsed<Certificate> {
    if tag > 18 then Err(TypeMismatch(18, tag % 256))
    else if 3 <= tag <= 6 then ReadPoolFields(tag, s)
    else
      var (cred, s1) :- ReadCredential(s);
      if tag == 2 || 9 <= tag <= 13 then ReadDelegation(tag, cred, s1)
      else ReadRegistration(tag, cred, s1)
  }

  /** The array length is read and not compared. */
  function ReadCertificate(s: seq<byte>): Parsed<Certificate> {
    var (_, s1) :- ExpectMajor(ARRAY, s);
    var (tag, s2) :- ExpectMajor(UNSIGNED, s1);
    ReadFields(tag, s2)
  }

  // ----- what a certificate reads back as --------------------------------------------------------------------------

  /** Every certificate reads back as itself, except that the reward account of a pool
      registration comes back with its network modulo 16, and fails when that is above 1. */
  function ReadBack(c: Certificate, rest: seq<byte>): Parsed<Certificate> {
    if c.PoolRegistration? then
      var terms := ReadBackTerms(c.params.terms, rest);
      if terms.Err? then Err(terms.error)
      else Ok(PoolRegistration(c.params.(terms := terms.value)), rest)
    else Ok(c, rest)
  }

  lemma ReadBackIs(c: Certificate, rest: seq<byte>)
    ensures ReadBack(c, rest) == Ok(c, rest) <==> (c.PoolRegistration? ==> c.params.terms.rewardAccount.network <= 1)
    ensures ReadBack(c, rest).Err? <==> c.PoolRegistration? && c.params.terms.rewardAccount.network % 16 > 1
    ensures ReadBack(c, rest).Ok? ==> ReadBack(c, rest).rest == rest
  {
  }

  lemma CoinRoundTrip(coin: U64, rest: seq<byte>)
    ensures ReadCoin(EncodeCoin(coin) + rest) == Ok(coin, rest)
  {
    HeadRoundTrip(UNSIGNED, coin, rest);
  }

  lemma PoolFieldsReadBack(c: Certificate, keys: seq<Credential>, rest: seq<byte>)
    requires Writable(c, keys) && 3 <= TagOf(c) <= 6
    ensures ReadPoolFields(TagOf(c), EncodeFields(c, keys) + rest) == ReadBack(c, rest)
  {
    hide EncodeHash, ReadHash, EncodeCoin, ReadCoin, EncodeParams, ReadParams, EncodeMir, ReadMir, ReadBackTerms;
    match c {
      case PoolRegistration(params) => ParamsReadBack(params, rest);
      case PoolRetirement(pool, epoch) =>
        Chain2(EncodeHash(pool), EncodeCoin(epoch), rest);
        HashRoundTrip(pool, EncodeCoin(epoch) + rest);
        CoinRoundTrip(epoch, rest);
      case GenesisDelegation(genesis, delegate, vrf) =>
        Chain3(EncodeHash(genesis), EncodeHash(delegate), EncodeHash(vrf), rest);
        HashRoundTrip(genesis, EncodeHash(delegate) + (EncodeHash(vrf) + rest));
        HashRoundTrip(delegate, EncodeHash(vrf) + rest);
        HashRoundTrip(vrf, rest);
      case MoveInstantaneousReward(pot, target) => MirRoundTrip(pot, target, keys, rest);
      case _ =>
    }
  }

  lemma DelegationReadBack(c: Certificate, keys: seq<Credential>, rest: seq<byte>)
    requires Writable(c, keys) && (TagOf(c) == 2 || 9 <= TagOf(c) <= 13)
    ensures ReadFields(TagOf(c), EncodeFields(c, keys) + rest) == Ok(c, rest)
  {
    hide EncodeHash, ReadHash, EncodeCoin, ReadCoin, EncodeCredential, ReadCredential,
         EncodeDRep, ReadDRep, ReadRegistration, ReadPoolFields;
    var cred := EncodeCredential(c.cred);
    match c {
      case DelegationToStakePool(_, pool) =>
        Chain2(cred, EncodeHash(pool), rest);
        CredentialRoundTrip(c.cred, EncodeHash(pool) + rest);
        HashRoundTrip(pool, rest);
      case DelegationToDrep(_, drep) =>
        Chain2(cred, EncodeDRep(drep), rest);
        CredentialRoundTrip(c.cred, EncodeDRep(drep) + rest);
        DRepRoundTrip(drep, rest);
      case DelegationToStakePoolAndDrep(_, pool, drep) =>
        Chain3(cred, EncodeHash(pool), EncodeDRep(drep), rest);
        CredentialRoundTrip(c.cred, EncodeHash(pool) + (EncodeDRep(drep) + rest));
        HashRoundTrip(pool, EncodeDRep(drep) + rest);
        DRepRoundTrip(drep, rest);
      case RegistrationDelegationToStakePool(_, pool, coin) =>
        Chain3(cred, EncodeHash(pool), EncodeCoin(coin), rest);
        CredentialRoundTrip(c.cred, EncodeHash(pool) + (EncodeCoin(coin) + rest));
        HashRoundTrip(pool, EncodeCoin(coin) + rest);
        CoinRoundTrip(coin, rest);
      case RegistrationDelegationToDrep(_, drep, coin) =>
        Chain3(cred, EncodeDRep(drep), EncodeCoin(coin), rest);
        CredentialRoundTrip(c.cred, EncodeDRep(drep) + (EncodeCoin(coin) + rest));
        DRepRoundTrip(drep, EncodeCoin(coin) + rest);
        CoinRoundTrip(coin, rest);
      case RegistrationDelegationToStakePoolAndDrep(_, pool, drep, coin) =>
        Chain4(cred, EncodeHash(pool), EncodeDRep(drep), EncodeCoin(coin), rest);
        CredentialRoundTrip(c.cred, EncodeHash(pool) + (EncodeDRep(drep) + (EncodeCoin(coin) + rest)));
        HashRoundTrip(pool, EncodeDRep(drep) + (EncodeCoin(coin) + rest));
        DRepRoundTrip(drep, EncodeCoin(coin) + rest);
        CoinRoundTrip(coin, rest);
      case _ =>
    }
  }

  lemma RegistrationReadBack(c: Certificate, keys: seq<Credential>, rest: seq<byte>)
    requires Writable(c, keys) && TagOf(c) in {0, 1, 7, 8, 16, 17, 18}
    ensures ReadFields(TagOf(c), EncodeFields(c, keys) + rest) == Ok(c, rest)
  {
    hide EncodeCoin, ReadCoin, EncodeCredential, ReadCredential,
         EncodeOptionalAnchor, ReadOptionalAnchor, ReadDelegation, ReadPoolFields;
    var cred := EncodeCredential(c.cred);
    if TagOf(c) <= 1 {
      CredentialRoundTrip(c.cred, rest);
    } else if TagOf(c) in {7, 8, 17} {
      Chain2(cred, EncodeCoin(c.coin), rest);
      CredentialRoundTrip(c.cred, EncodeCoin(c.coin) + rest);
      CoinRoundTrip(c.coin, rest);
    } else if TagOf(c) == 16 {
      Chain3(cred, EncodeCoin(c.coin), EncodeOptionalAnchor(c.anchor), rest);
      CredentialRoundTrip(c.cred, EncodeCoin(c.coin) + (EncodeOptionalAnchor(c.anchor) + rest));
      CoinRoundTrip(c.coin, EncodeOptionalAnchor(c.anchor) + rest);
      OptionalAnchorRoundTrip(c.anchor, rest);
    } else {
      Chain2(cred, EncodeOptionalAnchor(c.anchor), rest);
      CredentialRoundTrip(c.cred, EncodeOptionalAnchor(c.anchor) + rest);
      OptionalAnchorRoundTrip(c.anchor, rest);
    }
  }

  lemma CommitteeReadBack(c: Certificate, keys: seq<Credential>, rest: seq<byte>)
    requires Writable(c, keys) && TagOf(c) in {14, 15}
    ensures ReadFields(TagOf(c), EncodeFields(c, keys) + rest) == Ok(c, rest)
  {
    hide EncodeCredential, ReadCredential, EncodeOptionalAnchor, ReadOptionalAnchor, ReadDelegation, ReadPoolFields;
    var cold := EncodeCredential(c.cold);
    if TagOf(c) == 14 {
      Chain2(cold, EncodeCredential(c.hot), rest);
      CredentialRoundTrip(c.cold, EncodeCredential(c.hot) + rest);
      CredentialRoundTrip(c.hot, rest);
    } else {
      Chain2(cold, EncodeOptionalAnchor(c.anchor), rest);
      CredentialRoundTrip(c.cold, EncodeOptionalAnchor(c.anchor) + rest);
      OptionalAnchorRoundTrip(c.anchor, rest);
    }
  }

  /** Reading any encoded certificate, before any suffix. */
  lemma CertificateReadBack(c: Certificate, keys: seq<Credential>, rest: seq<byte>)
    requires Writable(c, keys)
    ensures ReadCertificate(EncodeCertificate(c, keys) + rest) == ReadBack(c, rest)
  {
    hide Head, ExpectMajor, EncodeFields, ReadPoolFields, ReadDelegation, ReadRegistration, ReadCredential;
    var fields := EncodeFields(c, keys);
    Chain3(Head(ARRAY, LengthOf(c)), Head(UNSIGNED, TagOf(c)), fields, rest);
    HeadRoundTrip(ARRAY, LengthOf(c), Head(UNSIGNED, TagOf(c)) + (fields + rest));
    HeadRoundTrip(UNSIGNED, TagOf(c), fields + rest);
    if 3 <= TagOf(c) <= 6 {
      PoolFieldsReadBack(c, keys, rest);
    } else if TagOf(c) == 2 || 9 <= TagOf(c) <= 13 {
      DelegationReadBack(c, keys, rest);
    } else if TagOf(c) in {14, 15} {
      CommitteeReadBack(c, keys, rest);
    } else {
      RegistrationReadBack(c, keys, rest);
    }
  }

  /** The round trip of all nineteen kinds, and the one condition on it: the network of a
      registered pool's reward account is 0 or 1. */
  lemma CertificateRoundTrip(c: Certificate, keys: seq<Credential>, rest: seq<byte>)
    requires Writable(c, keys)
    ensures ReadCertificate(EncodeCertificate(c, keys) + rest) == Ok(c, rest)
       <==> (c.PoolRegistration? ==> c.params.terms.rewardAccount.network <= 1)
  {
    hide ReadCertificate, EncodeCertificate, ReadBack;
    CertificateReadBack(c, keys, rest);
    ReadBackIs(c, rest);
  }

  /** A certificate reads the same behind an array header of any length. */
  lemma LengthNotCompared(n: U64, m: U64, s: seq<byte>)
    ensures ReadCertificate(Head(ARRAY, n) + s) == ReadCertificate(Head(ARRAY, m) + s)
  {
    hide Head, ExpectMajor, ReadFields;
    HeadRoundTrip(ARRAY, n, s);
    HeadRoundTrip(ARRAY, m, s);
  }

  /** Network 2 fails to read back, and network 16 reads back as another account. */
  lemma OtherNetworksBreak(c: Certificate, rest: seq<byte>)
    requires c.PoolRegistration?
    ensures c.params.terms.rewardAccount.network == 2 ==>
              ReadCertificate(EncodeCertificate(c, []) + rest) == Err(InvalidLength(29, 29))
    ensures c.params.terms.rewardAccount.network == 16 ==>
              var r := ReadCertificate(EncodeCertificate(c, []) + rest);
              r.Ok? && r.value.PoolRegistration? && r.value.params.terms.rewardAccount.network == 0
  {
    hide ReadCertificate, EncodeCertificate;
    CertificateReadBack(c, [], rest);
  }
}
