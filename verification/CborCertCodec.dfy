/** Certificates written into an encoder's buffer, against their byte forms. */
module CborCertEncoder {
  import opened Options
  import opened Addresses
  import opened Bytes
  import opened CborWire
  import opened CborArrays
  import opened CborCerts
  import opened CborCodec
  import opened Saturating

  method WriteArray(enc: Encoder, n: U64)
    modifies enc
    ensures enc.buf == old(enc.buf) + Head(ARRAY, n)
  {
    enc.TypeAndArgument(ARRAY, n);
  }

  method WriteUnsigned(enc: Encoder, n: U64)
    modifies enc
    ensures enc.buf == old(enc.buf) + Head(UNSIGNED, n)
  {
    enc.TypeAndArgument(UNSIGNED, n);
  }

  method WriteHash(enc: Encoder, hash: seq<byte>)
    requires |hash| <= U64_MAX
    modifies enc
    ensures enc.buf == old(enc.buf) + EncodeHash(hash)
  {
    enc.String(BYTES, hash);
  }

  method WriteCredential(enc: Encoder, c: Credential)
    modifies enc
    ensures enc.buf == old(enc.buf) + EncodeCredential(c)
  {
    hide Head, EncodeHash;
    WriteArray(enc, 2);
    match c
    case AddrKeyHash(h) => WriteUnsigned(enc, 0); WriteHash(enc, h);
    case ScriptHash(h) => WriteUnsigned(enc, 1); WriteHash(enc, h);
  }

  method WriteAnchor(enc: Encoder, a: Anchor)
    modifies enc
    ensures enc.buf == old(enc.buf) + EncodeAnchor(a)
  {
    hide Head, EncodeString, EncodeHash;
    WriteArray(enc, 2);
    enc.String(TEXT, a.url);
    WriteHash(enc, a.dataHash);
  }

  method WriteOptionalAnchor(enc: Encoder, a: Option<Anchor>)
    modifies enc
    ensures enc.buf == old(enc.buf) + EncodeOptionalAnchor(a)
  {
    match a
    case Some(anchor) => WriteAnchor(enc, anchor);
    case None => enc.Null();
  }

  method WriteInterval(enc: Encoder, u: UnitInterval)
    modifies enc
    ensures enc.buf == old(enc.buf) + EncodeInterval(u)
  {
    hide Head;
    enc.TypeAndArgument(TAG, 30);
    WriteArray(enc, 2);
    WriteUnsigned(enc, u.numerator);
    WriteUnsigned(enc, u.denominator);
  }

  method WritePort(enc: Encoder, p: Option<U16>)
    modifies enc
    ensures enc.buf == old(enc.buf) + EncodePort(p)
  {
    match p
    case Some(port) => WriteUnsigned(enc, port);
    case None => enc.Null();
  }

  method WriteAddress(enc: Encoder, a: Option<seq<byte>>)
    requires a.Some? ==> |a.value| <= U64_MAX
    modifies enc
    ensures enc.buf == old(enc.buf) + EncodeAddress(a)
  {
    match a
    case Some(ip) => WriteHash(enc, ip);
    case None => enc.Null();
  }

  method WriteRelay(enc: Encoder, r: Relay)
    modifies enc
    ensures enc.buf == old(enc.buf) + EncodeRelay(r)
  {
    hide Head, EncodePort, EncodeAddress, EncodeString;
    match r
    case SingleHostAddr(port, ipv4, ipv6) =>
      WriteArray(enc, 4);
      WriteUnsigned(enc, 0);
      WritePort(enc, port);
      WriteAddress(enc, ipv4);
      WriteAddress(enc, ipv6);
    case SingleHostName(port, name) =>
      WriteArray(enc, 3);
      WriteUnsigned(enc, 1);
      WritePort(enc, port);
      enc.String(TEXT, name);
    case MultiHostName(name) =>
      WriteArray(enc, 2);
      WriteUnsigned(enc, 2);
      enc.String(TEXT, name);
  }

  method WriteDRep(enc: Encoder, d: DRep)
    modifies enc
    ensures enc.buf == old(enc.buf) + EncodeDRep(d)
  {
    hide Head, EncodeHash;
    match d
    case KeyHash(h) => WriteArray(enc, 2); WriteUnsigned(enc, 0); WriteHash(enc, h);
    case Script(h) => WriteArray(enc, 2); WriteUnsigned(enc, 1); WriteHash(enc, h);
    case AlwaysAbstain => WriteArray(enc, 1); WriteUnsigned(enc, 2);
    case AlwaysNoConfidence => WriteArray(enc, 1); WriteUnsigned(enc, 3);
  }

  method WriteOwners(enc: Encoder, owners: Owners)
    modifies enc
    ensures enc.buf == old(enc.buf) + EncodeOwners(owners)
  {
    hide Head, EncodeHash;
    WriteArray(enc, |owners|);
    for i := 0 to |owners|
      invariant enc.buf == old(enc.buf) + Head(ARRAY, |owners|) + EncodeAll(owners[..i], EncodeOwner)
    {
      EncodeAllMore(owners, i, EncodeOwner);
      WriteHash(enc, owners[i]);
    }
    assert owners[..|owners|] == owners;
  }

  method WriteRelays(enc: Encoder, relays: Relays)
    modifies enc
    ensures enc.buf == old(enc.buf) + EncodeRelays(relays)
  {
    hide Head, EncodeRelay;
    WriteArray(enc, |relays|);
    for i := 0 to |relays|
      invariant enc.buf == old(enc.buf) + Head(ARRAY, |relays|) + EncodeAll(relays[..i], EncodeRelay)
    {
      EncodeAllMore(relays, i, EncodeRelay);
      WriteRelay(enc, relays[i]);
    }
    assert relays[..|relays|] == relays;
  }

  method WriteParams(enc: Encoder, p: PoolParams)
    modifies enc
    ensures enc.buf == old(enc.buf) + EncodeParams(p)
  {
    hide Head, EncodeHash, EncodeTerms;
    WriteHash(enc, p.operator);
    WriteHash(enc, p.vrfKeyHash);
    WriteUnsigned(enc, p.pledge);
    WriteUnsigned(enc, p.cost);
    WriteTerms(enc, p.terms);
  }

  method WriteTerms(enc: Encoder, t: PoolTerms)
    modifies enc
    ensures enc.buf == old(enc.buf) + EncodeTerms(t)
  {
    hide EncodeInterval, RewardBytes, EncodeString, EncodeOwners, EncodeRelays, EncodeOptionalAnchor;
    WriteInterval(enc, t.margin);
    enc.String(BYTES, RewardBytes(t.rewardAccount));
    WriteOwners(enc, t.owners);
    WriteRelays(enc, t.relays);
    WriteOptionalAnchor(enc, t.metadata);
  }

  /** `keys` is the order in which the map yields its keys. */
  method WriteTarget(enc: Encoder, t: MirTarget, keys: seq<Credential>)
    requires t.StakeCredentials? ==> IsOrder(keys, t.deltas)
    modifies enc
    ensures enc.buf == old(enc.buf) + EncodeTarget(t, keys)
  {
    hide Head, EncodeCredential, EncodeInteger;
    match t
    case StakeCredentials(m) =>
      enc.TypeAndArgument(MAP, |m|);
      ghost var entries := Entries(keys, m);
      for i := 0 to |keys|
        invariant enc.buf == old(enc.buf) + Head(MAP, |m|) + EncodeAll(entries[..i], EncodeDelta)
      {
        EncodeAllMore(entries, i, EncodeDelta);
        assert keys[i] in keys;
        WriteCredential(enc, keys[i]);
        enc.Integer(m[keys[i]]);
      }
      assert entries[..|keys|] == entries;
    case SendToOppositePot(coin) => WriteUnsigned(enc, coin);
  }

  method WriteMir(enc: Encoder, pot: MirPot, target: MirTarget, keys: seq<Credential>)
    requires target.StakeCredentials? ==> IsOrder(keys, target.deltas)
    modifies enc
    ensures enc.buf == old(enc.buf) + EncodeMir(pot, target, keys)
  {
    hide Head, EncodeTarget;
    WriteArray(enc, 2);
    WriteUnsigned(enc, if pot == Reserves then 0 else 1);
    WriteTarget(enc, target, keys);
  }

  method WriteCertificate(enc: Encoder, c: Certificate, keys: seq<Credential>)
    requires Writable(c, keys)
    modifies enc
    ensures enc.buf == old(enc.buf) + EncodeCertificate(c, keys)
  {
    hide Head, EncodeFields;
    WriteArray(enc, LengthOf(c));
    WriteUnsigned(enc, TagOf(c));
    WriteFields(enc, c, keys);
  }

  method WriteFields(enc: Encoder, c: Certificate, keys: seq<Credential>)
    requires Writable(c, keys)
    modifies enc
    ensures enc.buf == old(enc.buf) + EncodeFields(c, keys)
  {
    hide EncodeFields;
    if 3 <= TagOf(c) <= 6 {
      WritePoolFields(enc, c, keys);
    } else if TagOf(c) == 2 || 9 <= TagOf(c) <= 13 {
      WriteDelegation(enc, c, keys);
    } else {
      WriteRegistration(enc, c, keys);
    }
  }

  method WritePoolFields(enc: Encoder, c: Certificate, keys: seq<Credential>)
    requires Writable(c, keys) && 3 <= TagOf(c) <= 6
    modifies enc
    ensures enc.buf == old(enc.buf) + EncodeFields(c, keys)
  {
    hide EncodeHash, EncodeParams, EncodeMir, EncodeCoin;
    ghost var start := enc.buf;
    match c
    case PoolRegistration(params) => WriteParams(enc, params);
    case PoolRetirement(pool, epoch) =>
      WriteHash(enc, pool);
      WriteCoin(enc, epoch);
      Chain2(start, EncodeHash(pool), EncodeCoin(epoch));
    case GenesisDelegation(genesis, delegate, vrf) =>
      WriteHash(enc, genesis);
      WriteHash(enc, delegate);
      WriteHash(enc, vrf);
      Append3(start, EncodeHash(genesis), EncodeHash(delegate), EncodeHash(vrf));
    case MoveInstantaneousReward(pot, target) => WriteMir(enc, pot, target, keys);
    case _ =>
  }

  method WriteRegistration(enc: Encoder, c: Certificate, keys: seq<Credential>)
    requires Writable(c, keys) && TagOf(c) in {0, 1, 7, 8, 14, 15, 16, 17, 18}
    modifies enc
    ensures enc.buf == old(enc.buf) + EncodeFields(c, keys)
  {
    hide EncodeCredential, EncodeOptionalAnchor, EncodeCoin;
    ghost var start := enc.buf;
    match c
    case AccountRegistration(cred) => WriteCredential(enc, cred);
    case AccountUnregistration(cred) => WriteCredential(enc, cred);
    case AccountRegistrationDeposit(cred, coin) =>
      WriteCredential(enc, cred);
      WriteCoin(enc, coin);
      Chain2(start, EncodeCredential(cred), EncodeCoin(coin));
    case AccountUnregistrationDeposit(cred, coin) =>
      WriteCredential(enc, cred);
      WriteCoin(enc, coin);
      Chain2(start, EncodeCredential(cred), EncodeCoin(coin));
    case CommitteeAuthorization(cold, hot) =>
      WriteCredential(enc, cold);
      WriteCredential(enc, hot);
      Chain2(start, EncodeCredential(cold), EncodeCredential(hot));
    case CommitteeResignation(cold, anchor) =>
      WriteCredential(enc, cold);
      WriteOptionalAnchor(enc, anchor);
      Chain2(start, EncodeCredential(cold), EncodeOptionalAnchor(anchor));
    case DrepRegistration(cred, coin, anchor) =>
      WriteCredential(enc, cred);
      WriteCoin(enc, coin);
      WriteOptionalAnchor(enc, anchor);
      Append3(start, EncodeCredential(cred), EncodeCoin(coin), EncodeOptionalAnchor(anchor));
    case DrepUnregistration(cred, coin) =>
      WriteCredential(enc, cred);
      WriteCoin(enc, coin);
      Chain2(start, EncodeCredential(cred), EncodeCoin(coin));
    case DrepUpdate(cred, anchor) =>
      WriteCredential(enc, cred);
      WriteOptionalAnchor(enc, anchor);
      Chain2(start, EncodeCredential(cred), EncodeOptionalAnchor(anchor));
    case _ =>
  }

  method WriteDelegation(enc: Encoder, c: Certificate, keys: seq<Credential>)
    requires Writable(c, keys) && (TagOf(c) == 2 || 9 <= TagOf(c) <= 13)
    modifies enc
    ensures enc.buf == old(enc.buf) + EncodeFields(c, keys)
  {
    hide EncodeHash, EncodeCredential, EncodeDRep, EncodeCoin;
    ghost var start, cred := enc.buf, EncodeCredential(c.cred);
    WriteCredential(enc, c.cred);
    match c
    case DelegationToStakePool(_, pool) =>
      WriteHash(enc, pool);
      Chain2(start, cred, EncodeHash(pool));
    case DelegationToDrep(_, drep) =>
      WriteDRep(enc, drep);
      Chain2(start, cred, EncodeDRep(drep));
    case DelegationToStakePoolAndDrep(_, pool, drep) =>
      WriteHash(enc, pool);
      WriteDRep(enc, drep);
      Append3(start, cred, EncodeHash(pool), EncodeDRep(drep));
    case RegistrationDelegationToStakePool(_, pool, coin) =>
      WriteHash(enc, pool);
      WriteCoin(enc, coin);
      Append3(start, cred, EncodeHash(pool), EncodeCoin(coin));
    case RegistrationDelegationToDrep(_, drep, coin) =>
      WriteDRep(enc, drep);
      WriteCoin(enc, coin);
      Append3(start, cred, EncodeDRep(drep), EncodeCoin(coin));
    case RegistrationDelegationToStakePoolAndDrep(_, pool, drep, coin) =>
      WriteHash(enc, pool);
      WriteDRep(enc, drep);
      WriteCoin(enc, coin);
      Append4(start, cred, EncodeHash(pool), EncodeDRep(drep), EncodeCoin(coin));
    case _ =>
  }

  method WriteCoin(enc: Encoder, coin: U64)
    modifies enc
    ensures enc.buf == old(enc.buf) + EncodeCoin(coin)
  {
    enc.TypeAndArgument(UNSIGNED, coin);
  }
}

/** Certificates read off a decoder, against the readers of their byte forms. */
module CborCertDecoder {
  import opened Options
  import opened Addresses
  import opened Bytes
  import opened CborWire
  import opened CborArrays
  import opened CborCerts
  import opened CborCodec
  import opened Saturating

  method DecodeHash(dec: Decoder, n: nat) returns (r: Result<seq<byte>>)
    requires dec.Valid()
    modifies dec`pos
    ensures dec.Valid() && dec.Gives(r, ReadHash(n, old(dec.Rest())))
  {
    var raw :- dec.String(BYTES);
    r := if |raw| != n then Failure(InvalidLength(n, |raw|)) else Success(raw);
  }

  method DecodeArrayOf(dec: Decoder, n: nat) returns (r: Result<()>)
    requires dec.Valid()
    modifies dec`pos
    ensures dec.Valid() && dec.Gives(r, ReadArrayOf(n, old(dec.Rest())))
  {
    var len :- dec.Major(ARRAY);
    r := if len != n then Failure(InvalidLength(n, len)) else Success(());
  }

  method DecodeCredential(dec: Decoder) returns (r: Result<Credential>)
    requires dec.Valid()
    modifies dec`pos
    ensures dec.Valid() && dec.Gives(r, ReadCredential(old(dec.Rest())))
  {
    hide ReadArrayOf, ExpectMajor, ReadHash;
    var _ :- DecodeArrayOf(dec, 2);
    var tag :- dec.Major(UNSIGNED);
    var hash :- DecodeHash(dec, 28);
    if tag == 0 {
      r := Success(AddrKeyHash(hash));
    } else if tag == 1 {
      r := Success(ScriptHash(hash));
    } else {
      r := Failure(InvalidAdditionalInfo(tag % 256));
    }
  }

  method DecodeReward(dec: Decoder) returns (r: Result<RewardAccount>)
    requires dec.Valid()
    modifies dec`pos
    ensures dec.Valid() && dec.Gives(r, ReadReward(old(dec.Rest())))
  {
    hide ReadString, RewardFromBytes;
    var raw :- dec.String(BYTES);
    var account := RewardFromBytes(raw);
    r := if account.None? then Failure(InvalidLength(29, |raw|)) else Success(account.value);
  }

  method DecodeAnchor(dec: Decoder) returns (r: Result<Anchor>)
    requires dec.Valid()
    modifies dec`pos
    ensures dec.Valid() && dec.Gives(r, ReadAnchor(old(dec.Rest())))
  {
    hide ReadArrayOf, ReadText, ReadHash;
    var _ :- DecodeArrayOf(dec, 2);
    var url :- dec.Text();
    var hash :- DecodeHash(dec, 32);
    r := Success(Anchor(url, hash));
  }

  method DecodeOptionalAnchor(dec: Decoder) returns (r: Result<Option<Anchor>>)
    requires dec.Valid()
    modifies dec`pos
    ensures dec.Valid() && dec.Gives(r, ReadOptionalAnchor(old(dec.Rest())))
  {
    hide ReadAnchor;
    var major :- dec.NextMajor();
    if major == SIMPLE {
      var _ :- dec.Null();
      r := Success(None);
    } else {
      var anchor :- DecodeAnchor(dec);
      r := Success(Some(anchor));
    }
  }

  method DecodeInterval(dec: Decoder) returns (r: Result<UnitInterval>)
    requires dec.Valid()
    modifies dec`pos
    ensures dec.Valid() && dec.Gives(r, ReadInterval(old(dec.Rest())))
  {
    hide ReadArrayOf, ExpectMajor;
    var tag :- dec.Major(TAG);
    if tag != 30 {
      return Failure(TypeMismatch(30, tag % 256));
    }
    var _ :- DecodeArrayOf(dec, 2);
    var numerator :- dec.Major(UNSIGNED);
    var denominator :- dec.Major(UNSIGNED);
    r := Success(UnitInterval(numerator, denominator));
  }

  method DecodePort(dec: Decoder) returns (r: Result<Option<U16>>)
    requires dec.Valid()
    modifies dec`pos
    ensures dec.Valid() && dec.Gives(r, ReadPort(old(dec.Rest())))
  {
    hide ExpectMajor;
    var major :- dec.NextMajor();
    if major == SIMPLE {
      var _ :- dec.Null();
      r := Success(None);
    } else {
      var port :- dec.Major(UNSIGNED);
      r := Success(Some(port % 0x1_0000));
    }
  }

  method DecodeAddress(dec: Decoder, n: nat) returns (r: Result<Option<seq<byte>>>)
    requires dec.Valid()
    modifies dec`pos
    ensures dec.Valid() && dec.Gives(r, ReadAddress(n, old(dec.Rest())))
    ensures r.Success? && r.value.Some? ==> |r.value.value| == n
  {
    hide ReadHash;
    var major :- dec.NextMajor();
    if major == SIMPLE {
      var _ :- dec.Null();
      r := Success(None);
    } else {
      var ip :- DecodeHash(dec, n);
      r := Success(Some(ip));
    }
  }

  method DecodeRelay(dec: Decoder) returns (r: Result<Relay>)
    requires dec.Valid()
    modifies dec`pos
    ensures dec.Valid() && dec.Gives(r, ReadRelay(old(dec.Rest())))
  {
    hide ExpectMajor, ReadPort, ReadAddress, ReadText;
    var len :- dec.Major(ARRAY);
    var tag :- dec.Major(UNSIGNED);
    if tag == 0 {
      if len != 4 {
        return Failure(InvalidLength(4, len));
      }
      var port :- DecodePort(dec);
      var ipv4 :- DecodeAddress(dec, 4);
      var ipv6 :- DecodeAddress(dec, 16);
      var a4: Option<Ipv4> := if ipv4.None? then None else Some(ipv4.value);
      var a6: Option<Ipv6> := if ipv6.None? then None else Some(ipv6.value);
      r := Success(SingleHostAddr(port, a4, a6));
    } else if tag == 1 {
      if len != 3 {
        return Failure(InvalidLength(3, len));
      }
      var port :- DecodePort(dec);
      var name :- dec.Text();
      r := Success(SingleHostName(port, name));
    } else if tag == 2 {
      if len != 2 {
        return Failure(InvalidLength(2, len));
      }
      var name :- dec.Text();
      r := Success(MultiHostName(name));
    } else {
      r := Failure(TypeMismatch(2, tag % 256));
    }
  }

  method DecodeDRep(dec: Decoder) returns (r: Result<DRep>)
    requires dec.Valid()
    modifies dec`pos
    ensures dec.Valid() && dec.Gives(r, ReadDRep(old(dec.Rest())))
  {
    hide ExpectMajor, ReadHash;
    var len :- dec.Major(ARRAY);
    var tag :- dec.Major(UNSIGNED);
    if tag <= 1 {
      if len != 2 {
        return Failure(InvalidLength(2, len));
      }
      var hash :- DecodeHash(dec, 28);
      r := Success(if tag == 0 then KeyHash(hash) else Script(hash));
    } else if tag <= 3 {
      r := if len != 1 then Failure(InvalidLength(1, len))
           else Success(if tag == 2 then AlwaysAbstain else AlwaysNoConfidence);
    } else {
      r := Failure(TypeMismatch(3, tag % 256));
    }
  }

  method DecodeOwners(dec: Decoder) returns (r: Result<Owners>)
    requires dec.Valid()
    modifies dec`pos
    ensures dec.Valid() && dec.Gives(r, ReadOwners(old(dec.Rest())))
  {
    hide ArrayOrSet, ReadHash;
    var n :- dec.BeginArrayOrSet();
    ghost var spec := ReadMany(n, dec.Rest(), ReadOwner);
    var owners: seq<Hash28> := [];
    PrependNone(spec);
    for i := 0 to n
      invariant dec.Valid() && |owners| == i
      invariant Prepend(owners, ReadMany(n - i, dec.Rest(), ReadOwner)) == spec
    {
      var owner :- DecodeHash(dec, 28);
      PrependMore(owners, owner, ReadMany(n - i - 1, dec.Rest(), ReadOwner));
      owners := owners + [owner];
    }
    assert owners + [] == owners;
    r := Success(owners);
  }

  method DecodeRelays(dec: Decoder) returns (r: Result<Relays>)
    requires dec.Valid()
    modifies dec`pos
    ensures dec.Valid() && dec.Gives(r, ReadRelays(old(dec.Rest())))
  {
    hide ExpectMajor, ReadRelay;
    var n :- dec.Major(ARRAY);
    ghost var spec := ReadMany(n, dec.Rest(), ReadRelay);
    var relays: seq<Relay> := [];
    PrependNone(spec);
    for i := 0 to n
      invariant dec.Valid() && |relays| == i
      invariant Prepend(relays, ReadMany(n - i, dec.Rest(), ReadRelay)) == spec
    {
      var relay :- DecodeRelay(dec);
      PrependMore(relays, relay, ReadMany(n - i - 1, dec.Rest(), ReadRelay));
      relays := relays + [relay];
    }
    assert relays + [] == relays;
    r := Success(relays);
  }

  method DecodeTerms(dec: Decoder) returns (r: Result<PoolTerms>)
    requires dec.Valid()
    modifies dec`pos
    ensures dec.Valid() && dec.Gives(r, ReadTerms(old(dec.Rest())))
  {
    hide ReadInterval, ReadReward, ReadOwners, ReadRelays, ReadOptionalAnchor;
    var margin :- DecodeInterval(dec);
    var account :- DecodeReward(dec);
    var owners :- DecodeOwners(dec);
    var relays :- DecodeRelays(dec);
    var metadata :- DecodeOptionalAnchor(dec);
    r := Success(PoolTerms(margin, account, owners, relays, metadata));
  }

  method DecodeParams(dec: Decoder) returns (r: Result<PoolParams>)
    requires dec.Valid()
    modifies dec`pos
    ensures dec.Valid() && dec.Gives(r, ReadParams(old(dec.Rest())))
  {
    hide ReadHash, ExpectMajor, ReadTerms;
    var operator :- DecodeHash(dec, 28);
    var vrf :- DecodeHash(dec, 32);
    var pledge :- dec.Major(UNSIGNED);
    var cost :- dec.Major(UNSIGNED);
    var terms :- DecodeTerms(dec);
    r := Success(PoolParams(operator, vrf, pledge, cost, terms));
  }

  /** The entries of a reward map, inserted as they are read. */
  method DecodeDeltas(dec: Decoder, n: U64) returns (r: Result<Deltas>)
    requires dec.Valid()
    modifies dec`pos
    ensures dec.Valid()
    ensures var entries := ReadMany(n, old(dec.Rest()), ReadDelta);
            dec.Gives(r, if entries.Err? then Err(entries.error)
                                  else Ok(MapOf(entries.value), entries.rest))
  {
    hide ReadCredential, ReadInteger;
    ghost var spec := ReadMany(n, dec.Rest(), ReadDelta);
    ghost var entries: seq<Delta> := [];
    var m: map<Credential, I64> := map[];
    PrependNone(spec);
    for i := 0 to n
      invariant dec.Valid() && |entries| == i && m == MapOf(entries)
      invariant Prepend(entries, ReadMany(n - i, dec.Rest(), ReadDelta)) == spec
    {
      var cred :- DecodeCredential(dec);
      var amount :- dec.Integer();
      PrependMore(entries, Delta(cred, amount), ReadMany(n - i - 1, dec.Rest(), ReadDelta));
      assert (entries + [Delta(cred, amount)])[..i] == entries;
      entries := entries + [Delta(cred, amount)];
      m := m[cred := amount];
    }
    assert entries + [] == entries;
    r := Success(m);
  }

  method DecodeMir(dec: Decoder) returns (r: Result<(MirPot, MirTarget)>)
    requires dec.Valid()
    modifies dec`pos
    ensures dec.Valid() && dec.Gives(r, ReadMir(old(dec.Rest())))
  {
    hide ExpectMajor, ReadMany, MapOf;
    var _ :- dec.Major(ARRAY);
    var pot :- dec.Major(UNSIGNED);
    if pot > 1 {
      return Failure(TypeMismatch(1, pot % 256));
    }
    var major :- dec.NextMajor();
    var target;
    if major == MAP {
      var n :- dec.Major(MAP);
      var deltas :- DecodeDeltas(dec, n);
      target := StakeCredentials(deltas);
    } else {
      var coin :- dec.Major(UNSIGNED);
      target := SendToOppositePot(coin);
    }
    r := Success((if pot == 0 then Reserves else Treasury, target));
  }

  method DecodePoolFields(dec: Decoder, tag: nat) returns (r: Result<Certificate>)
    requires dec.Valid() && 3 <= tag <= 6
    modifies dec`pos
    ensures dec.Valid() && dec.Gives(r, ReadPoolFields(tag, old(dec.Rest())))
  {
    hide ReadParams, ReadHash, ExpectMajor, ReadMir;
    if tag == 3 {
      var params :- DecodeParams(dec);
      r := Success(PoolRegistration(params));
    } else if tag == 4 {
      var pool :- DecodeHash(dec, 28);
      var epoch :- dec.Major(UNSIGNED);
      r := Success(PoolRetirement(pool, epoch));
    } else if tag == 5 {
      var genesis :- DecodeHash(dec, 28);
      var delegate :- DecodeHash(dec, 28);
      var vrf :- DecodeHash(dec, 32);
      r := Success(GenesisDelegation(genesis, delegate, vrf));
    } else {
      var mir :- DecodeMir(dec);
      r := Success(MoveInstantaneousReward(mir.0, mir.1));
    }
  }

  method DecodeDelegation(dec: Decoder, tag: nat, cred: Credential) returns (r: Result<Certificate>)
    requires dec.Valid() && tag in {2, 9, 10, 11, 12, 13}
    modifies dec`pos
    ensures dec.Valid() && dec.Gives(r, ReadDelegation(tag, cred, old(dec.Rest())))
  {
    hide ReadHash, ReadDRep, ExpectMajor;
    if tag == 2 {
      var pool :- DecodeHash(dec, 28);
      r := Success(DelegationToStakePool(cred, pool));
    } else if tag == 9 {
      var drep :- DecodeDRep(dec);
      r := Success(DelegationToDrep(cred, drep));
    } else if tag == 10 {
      var pool :- DecodeHash(dec, 28);
      var drep :- DecodeDRep(dec);
      r := Success(DelegationToStakePoolAndDrep(cred, pool, drep));
    } else if tag == 11 {
      var pool :- DecodeHash(dec, 28);
      var coin :- dec.Major(UNSIGNED);
      r := Success(RegistrationDelegationToStakePool(cred, pool, coin));
    } else if tag == 12 {
      var drep :- DecodeDRep(dec);
      var coin :- dec.Major(UNSIGNED);
      r := Success(RegistrationDelegationToDrep(cred, drep, coin));
    } else {
      var pool :- DecodeHash(dec, 28);
      var drep :- DecodeDRep(dec);
      var coin :- dec.Major(UNSIGNED);
      r := Success(RegistrationDelegationToStakePoolAndDrep(cred, pool, drep, coin));
    }
  }

  method DecodeRegistration(dec: Decoder, tag: nat, cred: Credential) returns (r: Result<Certificate>)
    requires dec.Valid() && tag in {0, 1, 7, 8, 14, 15, 16, 17, 18}
    modifies dec`pos
    ensures dec.Valid() && dec.Gives(r, ReadRegistration(tag, cred, old(dec.Rest())))
  {
    hide ReadCredential, ReadOptionalAnchor, ExpectMajor;
    if tag == 0 {
      r := Success(AccountRegistration(cred));
    } else if tag == 1 {
      r := Success(AccountUnregistration(cred));
    } else if tag == 7 {
      var coin :- dec.Major(UNSIGNED);
      r := Success(AccountRegistrationDeposit(cred, coin));
    } else if tag == 8 {
      var coin :- dec.Major(UNSIGNED);
      r := Success(AccountUnregistrationDeposit(cred, coin));
    } else if tag == 14 {
      var hot :- DecodeCredential(dec);
      r := Success(CommitteeAuthorization(cred, hot));
    } else if tag == 15 {
      var anchor :- DecodeOptionalAnchor(dec);
      r := Success(CommitteeResignation(cred, anchor));
    } else if tag == 16 {
      var coin :- dec.Major(UNSIGNED);
      var anchor :- DecodeOptionalAnchor(dec);
      r := Success(DrepRegistration(cred, coin, anchor));
    } else if tag == 17 {
      var coin :- dec.Major(UNSIGNED);
      r := Success(DrepUnregistration(cred, coin));
    } else {
      var anchor :- DecodeOptionalAnchor(dec);
      r := Success(DrepUpdate(cred, anchor));
    }
  }

  method DecodeCertificate(dec: Decoder) returns (r: Result<Certificate>)
    requires dec.Valid()
    modifies dec`pos
    ensures dec.Valid() && dec.Gives(r, ReadCertificate(old(dec.Rest())))
  {
    hide ExpectMajor, ReadPoolFields, ReadCredential, ReadDelegation, ReadRegistration;
    var _ :- dec.Major(ARRAY);
    var tag :- dec.Major(UNSIGNED);
    if tag > 18 {
      return Failure(TypeMismatch(18, tag % 256));
    }
    if 3 <= tag <= 6 {
      r := DecodePoolFields(dec, tag);
      return;
    }
    var cred :- DecodeCredential(dec);
    if tag == 2 || 9 <= tag <= 13 {
      r := DecodeDelegation(dec, tag, cred);
    } else {
      r := DecodeRegistration(dec, tag, cred);
    }
  }
}

/** A certificate written by the encoder and read by the decoder. */
module CborCertRoundTrip {
  import opened Addresses
  import opened Bytes
  import opened CborWire
  import opened CborItems
  import opened CborCerts
  import opened CborCertForms
  import opened CborCodec
  import opened Saturating
  import CborCertEncoder
  import CborCertDecoder

  /** Writes a certificate into a fresh buffer and reads it back from that buffer and whatever follows.
      What is written is the wire form of the certificate's tree, and so one item to any reader.
      The decoder returns the certificate and stops right behind it exactly when the network of a
      registered pool's reward account is 0 or 1. */
  method WriteThenRead(c: Certificate, keys: seq<Credential>, suffix: seq<byte>)
    returns (written: seq<byte>, r: Result<Certificate>, rest: seq<byte>)
    requires Writable(c, keys) && |EncodeCertificate(c, keys)| + |suffix| <= I64_MAX
    ensures written == Wire(List(CertificateTrees(c, keys))) && Skip(written + suffix) == Ok((), suffix)
    ensures r == Success(c) && rest == suffix
       <==> (c.PoolRegistration? ==> c.params.terms.rewardAccount.network <= 1)
    ensures c.PoolRegistration? && c.params.terms.rewardAccount.network % 16 > 1 ==> r.Failure?
  {
    hide EncodeCertificate, ReadCertificate, ReadBack, Skip, Wire, WellFormed, Strict, List, CertificateTrees, Writable,
         Surface;
    written := ToBytes(c, keys);
    r, rest := ReadFront(written + suffix);
    CertificateForm(c, keys);
    CertificateIsOneItem(c, keys, suffix);
    CertificateReadBack(c, keys, suffix);
    Concluded(c, suffix, |written + suffix|, r, rest);
  }

  /** Writes into a fresh buffer. */
  method ToBytes(c: Certificate, keys: seq<Credential>) returns (written: seq<byte>)
    requires Writable(c, keys)
    ensures written == EncodeCertificate(c, keys)
  {
    hide EncodeCertificate, Writable;
    var enc := new Encoder();
    CborCertEncoder.WriteCertificate(enc, c, keys);
    written := enc.buf;
  }

  /** Reads from a fresh decoder and returns the bytes behind what was read. */
  method ReadFront(bytes: seq<byte>) returns (r: Result<Certificate>, rest: seq<byte>)
    requires |bytes| <= I64_MAX
    ensures match ReadCertificate(bytes)
            case Ok(c, end) => r == Success(c) && rest == end
            case Err(e) => r == Failure(Surface(e, |bytes|))
  {
    hide ReadCertificate, Surface;
    var dec := new Decoder(bytes);
    r := CborCertDecoder.DecodeCertificate(dec);
    rest := dec.data[dec.pos..];
  }

  /** What a decoder gives that gives what is read back. */
  lemma Concluded(c: Certificate, suffix: seq<byte>, total: nat, r: Result<Certificate>, rest: seq<byte>)
    requires match ReadBack(c, suffix)
             case Ok(v, end) => r == Success(v) && rest == end
             case Err(e) => r == Failure(Surface(e, total))
    ensures r == Success(c) && rest == suffix
       <==> (c.PoolRegistration? ==> c.params.terms.rewardAccount.network <= 1)
    ensures c.PoolRegistration? && c.params.terms.rewardAccount.network % 16 > 1 ==> r.Failure?
  {
    hide ReadBack, Surface;
    ReadBackIs(c, suffix);
  }
}
