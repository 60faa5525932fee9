/** Certificates as CBOR trees, and that their encodings are the wire forms of those trees. */
module CborCertForms {
  import opened Options
  import opened Addresses
  import opened Bytes
  import opened CborWire
  import opened CborItems
  import opened CborArrays
  import opened CborForms
  import opened CborCerts
  import opened Saturating

  /** Items that are well-formed by RFC 8949. */
  type Tree = item: Item | Strict(item) witness Definite(Initial(0, 0, []), [], [])

  /** What a byte string holds, and a text string as far as the wire form goes. */
  type Data = s: seq<byte> | |s| <= U64_MAX

  // ----- trees -----------------------------------------------------------------------------------

  function Lead(major: nat, value: U64): (h: Initial)
    requires major < 8
    ensures GoodHead(h) && Value(h) == value && h.major == major
    ensures [32 * major + h.info] + h.argument == Head(major, value)
  {
    var info := ShortestInfo(value);
    assert info >= 24 ==> BigEndian(BigEndianBytes(value, Width(info))) == value by {
      if info >= 24 { BigEndianBytesValue(value, Width(info)); }
    }
    Initial(major, info, BigEndianBytes(value, Width(info)))
  }

  function Number(n: U64): Tree { Definite(Lead(0, n), [], []) }

  function Negative(n: U64): Tree { Definite(Lead(1, n), [], []) }

  function ByteString(s: Data): Tree { Definite(Lead(2, |s|), s, []) }

  function TextString(s: Data): Tree { Definite(Lead(3, |s|), s, []) }

  function List(items: seq<Tree>): Tree
    requires |items| <= U64_MAX
  {
    Definite(Lead(4, |items|), [], items)
  }

  /** Keys and values, one after the other. */
  function Table(count: U64, items: seq<Tree>): Tree
    requires |items| == 2 * count
  {
    Definite(Lead(5, count), [], items)
  }

  function Tagged(tag: U64, item: Tree): Tree { Definite(Lead(6, tag), [], [item]) }

  const NULL_TREE: Tree := Definite(Initial(7, 22, []), [], [])

  lemma LeafWires(n: U64, s: Data)
    ensures Wire(Number(n)) == Head(0, n) && Wire(Negative(n)) == Head(1, n)
    ensures Wire(ByteString(s)) == Head(2, |s|) + s && Wire(TextString(s)) == Head(3, |s|) + s
    ensures Wire(NULL_TREE) == [0xf6]
  {
    hide Head, Value;
    assert WireAll([]) == [];
  }

  lemma ListWire(items: seq<Tree>)
    requires |items| <= U64_MAX
    ensures Wire(List(items)) == Head(4, |items|) + Row(items)
  {
    hide Head, Value, WireAll;
  }

  lemma TableWire(count: U64, items: seq<Tree>)
    requires |items| == 2 * count
    ensures Wire(Table(count, items)) == Head(5, count) + Row(items)
  {
    hide Head, Value, WireAll;
  }

  lemma TaggedWire(tag: U64, item: Tree)
    ensures Wire(Tagged(tag, item)) == Head(6, tag) + Wire(item)
  {
    hide Head, Value, WireAll;
    One(item);
  }

  // ----- a few trees in a row ----------------------------------------------------------------------

  function Row(trees: seq<Tree>): seq<byte> { WireAll(trees) }

  lemma One(a: Tree)
    ensures Row([a]) == Wire(a)
  {
    hide WellFormed, Wire;
    assert WireAll([a]) == Wire(a) + WireAll([]);
  }

  lemma More(a: Tree, items: seq<Tree>)
    ensures Row([a] + items) == Wire(a) + Row(items)
  {
    assert ([a] + items)[1..] == items;
  }

  lemma Two(a: Tree, b: Tree)
    ensures Row([a, b]) == Wire(a) + Wire(b)
  {
    hide WellFormed, Wire, Row;
    One(b);
    More(a, [b]);
    assert [a] + [b] == [a, b];
  }

  lemma Three(a: Tree, b: Tree, c: Tree)
    ensures Row([a, b, c]) == Wire(a) + (Wire(b) + Wire(c))
  {
    hide WellFormed, Wire, Row;
    Two(b, c);
    More(a, [b, c]);
    assert [a] + [b, c] == [a, b, c];
  }

  lemma Four(a: Tree, b: Tree, c: Tree, d: Tree)
    ensures Row([a, b, c, d]) == Wire(a) + (Wire(b) + (Wire(c) + Wire(d)))
  {
    hide WellFormed, Wire, Row;
    Three(b, c, d);
    More(a, [b, c, d]);
    assert [a] + [b, c, d] == [a, b, c, d];
  }

  lemma Five(a: Tree, b: Tree, c: Tree, d: Tree, e: Tree)
    ensures Row([a, b, c, d, e]) == Wire(a) + (Wire(b) + (Wire(c) + (Wire(d) + Wire(e))))
  {
    hide WellFormed, Wire, Row;
    Four(b, c, d, e);
    More(a, [b, c, d, e]);
    assert [a] + [b, c, d, e] == [a, b, c, d, e];
  }

  lemma Joined(a: seq<Tree>, b: seq<Tree>)
    ensures Row(a + b) == Row(a) + Row(b)
  {
    WireSplit(a + b, |a|);
    assert (a + b)[..|a|] == a && (a + b)[|a|..] == b;
  }

  // ----- nested values ---------------------------------------------------------------------------

  function CredentialTree(c: Credential): Tree {
    match c
    case AddrKeyHash(h) => List([Number(0), ByteString(h)])
    case ScriptHash(h) => List([Number(1), ByteString(h)])
  }

  function AnchorTree(a: Anchor): Tree { List([TextString(a.url), ByteString(a.dataHash)]) }

  function OptionalAnchorTree(a: Option<Anchor>): Tree { if a.None? then NULL_TREE else AnchorTree(a.value) }

  function IntervalTree(u: UnitInterval): Tree { Tagged(30, List([Number(u.numerator), Number(u.denominator)])) }

  function PortTree(p: Option<U16>): Tree { if p.None? then NULL_TREE else Number(p.value) }

  function AddressTree(a: Option<Data>): Tree { if a.None? then NULL_TREE else ByteString(a.value) }

  function Relaxed(a: Option<seq<byte>>): Option<Data>
    requires a.Some? ==> |a.value| <= U64_MAX
  {
    match a case None => None case Some(s) => Some(s)
  }

  function RelayTree(r: Relay): Tree {
    match r
    case SingleHostAddr(port, ipv4, ipv6) =>
      List([Number(0), PortTree(port), AddressTree(Relaxed(ipv4)), AddressTree(Relaxed(ipv6))])
    case SingleHostName(port, name) => List([Number(1), PortTree(port), TextString(name)])
    case MultiHostName(name) => List([Number(2), TextString(name)])
  }

  function DRepTree(d: DRep): Tree {
    match d
    case KeyHash(h) => List([Number(0), ByteString(h)])
    case Script(h) => List([Number(1), ByteString(h)])
    case AlwaysAbstain => List([Number(2)])
    case AlwaysNoConfidence => List([Number(3)])
  }

  /** Header 0xe for a key and 0xf for a script, with the low four bits of the network. */
  function RewardTree(a: RewardAccount): Tree {
    match a.credential
    case AddrKeyHash(h) => ByteString([0xe0 + a.network % 16] + h)
    case ScriptHash(h) => ByteString([0xf0 + a.network % 16] + h)
  }

  lemma CredentialForm(c: Credential)
    ensures EncodeCredential(c) == Wire(CredentialTree(c))
  {
    hide WellFormed, Head, Wire, Row, Number, ByteString, List;
    var tag := if c.AddrKeyHash? then 0 else 1;
    LeafWires(tag, c.hash);
    Two(Number(tag), ByteString(c.hash));
    ListWire([Number(tag), ByteString(c.hash)]);
  }

  lemma AnchorForm(a: Anchor)
    ensures EncodeAnchor(a) == Wire(AnchorTree(a))
  {
    hide WellFormed, Head, Wire, Row, TextString, ByteString, List;
    LeafWires(0, a.url);
    LeafWires(0, a.dataHash);
    Two(TextString(a.url), ByteString(a.dataHash));
    ListWire([TextString(a.url), ByteString(a.dataHash)]);
  }

  lemma OptionalAnchorForm(a: Option<Anchor>)
    ensures EncodeOptionalAnchor(a) == Wire(OptionalAnchorTree(a))
  {
    hide WellFormed, EncodeAnchor, AnchorTree, Wire;
    if a.None? {
      LeafWires(0, []);
    } else {
      AnchorForm(a.value);
    }
  }

  lemma IntervalForm(u: UnitInterval)
    ensures EncodeInterval(u) == Wire(IntervalTree(u))
  {
    hide WellFormed, Head, Wire, Row, Number, List, Tagged;
    var items := [Number(u.numerator), Number(u.denominator)];
    LeafWires(u.numerator, []);
    LeafWires(u.denominator, []);
    Two(items[0], items[1]);
    ListWire(items);
    TaggedWire(30, List(items));
  }

  lemma PortForm(p: Option<U16>)
    ensures EncodePort(p) == Wire(PortTree(p))
  {
    hide WellFormed, Head, Wire, Number;
    LeafWires(if p.None? then 0 else p.value, []);
  }

  lemma AddressForm(a: Option<Data>)
    ensures EncodeAddress(a) == Wire(AddressTree(a))
  {
    hide WellFormed, Head, Wire, ByteString;
    LeafWires(0, if a.None? then [] else a.value);
  }

  lemma RelayForm(r: Relay)
    ensures EncodeRelay(r) == Wire(RelayTree(r))
  {
    hide WellFormed, Head, Wire, Row, Number, TextString, List, PortTree, AddressTree, EncodePort,
         EncodeAddress, EncodeString;
    match r
    case SingleHostAddr(port, ipv4, ipv6) =>
      var a4, a6 := Relaxed(ipv4), Relaxed(ipv6);
      LeafWires(0, []);
      PortForm(port);
      AddressForm(a4);
      AddressForm(a6);
      Four(Number(0), PortTree(port), AddressTree(a4), AddressTree(a6));
      ListWire([Number(0), PortTree(port), AddressTree(a4), AddressTree(a6)]);
    case SingleHostName(port, name) =>
      LeafWires(1, name);
      PortForm(port);
      StringForm(name);
      Three(Number(1), PortTree(port), TextString(name));
      ListWire([Number(1), PortTree(port), TextString(name)]);
    case MultiHostName(name) =>
      LeafWires(2, name);
      StringForm(name);
      Two(Number(2), TextString(name));
      ListWire([Number(2), TextString(name)]);
  }

  lemma StringForm(s: Data)
    ensures EncodeString(TEXT, s) == Wire(TextString(s))
  {
    hide WellFormed, Head, Wire;
    LeafWires(0, s);
  }

  lemma HashForm(s: Data)
    ensures EncodeHash(s) == Wire(ByteString(s))
  {
    hide WellFormed, Head, Wire;
    LeafWires(0, s);
  }

  lemma DRepForm(d: DRep)
    ensures EncodeDRep(d) == Wire(DRepTree(d))
  {
    hide WellFormed, Head, Wire, Row, Number, ByteString, List, EncodeHash;
    var tag := match d case KeyHash(_) => 0 case Script(_) => 1 case AlwaysAbstain => 2 case AlwaysNoConfidence => 3;
    LeafWires(tag, []);
    if tag <= 1 {
      HashForm(d.hash);
      Two(Number(tag), ByteString(d.hash));
      ListWire([Number(tag), ByteString(d.hash)]);
    } else {
      One(Number(tag));
      ListWire([Number(tag)]);
    }
  }

  lemma RewardForm(a: RewardAccount)
    ensures EncodeReward(a) == Wire(RewardTree(a))
  {
    hide WellFormed, Head, Wire, ByteString;
    HashForm(RewardBytes(a));
  }

  // ----- pools -----------------------------------------------------------------------------------

  function OwnerTrees(owners: Owners): (trees: seq<Tree>)
    ensures |trees| == |owners|
  {
    seq(|owners|, i requires 0 <= i < |owners| => ByteString(owners[i]))
  }

  function RelayTrees(relays: Relays): (trees: seq<Tree>)
    ensures |trees| == |relays|
  {
    seq(|relays|, i requires 0 <= i < |relays| => RelayTree(relays[i]))
  }

  /** Operator, VRF key, pledge, cost, margin, reward account, owners, relays and metadata. */
  function ParamTrees(p: PoolParams): (trees: seq<Tree>)
    ensures |trees| == 9
  {
    [ByteString(p.operator), ByteString(p.vrfKeyHash), Number(p.pledge), Number(p.cost)] + TermTrees(p.terms)
  }

  function TermTrees(t: PoolTerms): (trees: seq<Tree>)
    ensures |trees| == 5
  {
    [IntervalTree(t.margin), RewardTree(t.rewardAccount), List(OwnerTrees(t.owners)), List(RelayTrees(t.relays)),
     OptionalAnchorTree(t.metadata)]
  }

  lemma {:induction false} OwnersForm(owners: Owners)
    ensures EncodeAll(owners, EncodeOwner) == Row(OwnerTrees(owners))
    decreases |owners|
  {
    hide WellFormed, Wire, ByteString, EncodeOwner;
    if owners != [] {
      OwnersForm(owners[1..]);
      OwnerForm(owners[0]);
      assert OwnerTrees(owners) == [ByteString(owners[0])] + OwnerTrees(owners[1..]);
      More(ByteString(owners[0]), OwnerTrees(owners[1..]));
    }
  }

  lemma OwnerForm(h: Hash28)
    ensures EncodeOwner(h) == Wire(ByteString(h))
  {
    hide WellFormed, Wire, ByteString;
    HashForm(h);
  }

  lemma {:induction false} RelaysForm(relays: Relays)
    ensures EncodeAll(relays, EncodeRelay) == Row(RelayTrees(relays))
    decreases |relays|
  {
    hide WellFormed, Wire, RelayTree, EncodeRelay;
    if relays != [] {
      RelaysForm(relays[1..]);
      RelayForm(relays[0]);
      assert RelayTrees(relays) == [RelayTree(relays[0])] + RelayTrees(relays[1..]);
      More(RelayTree(relays[0]), RelayTrees(relays[1..]));
    }
  }

  lemma TermsForm(t: PoolTerms)
    ensures EncodeTerms(t) == Row(TermTrees(t))
  {
    hide WellFormed, Wire, Row, IntervalTree, RewardTree, List, OwnerTrees, RelayTrees, OptionalAnchorTree, Head,
         EncodeAll, EncodeInterval, EncodeReward, EncodeOptionalAnchor;
    IntervalForm(t.margin);
    RewardForm(t.rewardAccount);
    OwnersForm(t.owners);
    ListWire(OwnerTrees(t.owners));
    RelaysForm(t.relays);
    ListWire(RelayTrees(t.relays));
    OptionalAnchorForm(t.metadata);
    Five(IntervalTree(t.margin), RewardTree(t.rewardAccount), List(OwnerTrees(t.owners)),
         List(RelayTrees(t.relays)), OptionalAnchorTree(t.metadata));
  }

  lemma ParamsForm(p: PoolParams)
    ensures EncodeParams(p) == Row(ParamTrees(p))
  {
    hide WellFormed, Wire, Row, ByteString, Number, Head, EncodeHash, EncodeTerms, TermTrees;
    HashForm(p.operator);
    HashForm(p.vrfKeyHash);
    LeafWires(p.pledge, []);
    LeafWires(p.cost, []);
    TermsForm(p.terms);
    var front := [ByteString(p.operator), ByteString(p.vrfKeyHash), Number(p.pledge), Number(p.cost)];
    Four(front[0], front[1], front[2], front[3]);
    Joined(front, TermTrees(p.terms));
    Chain4(Wire(front[0]), Wire(front[1]), Wire(front[2]), Wire(front[3]), Row(TermTrees(p.terms)));
  }

  // ----- instantaneous rewards -------------------------------------------------------------------

  function AmountTree(n: I64): Tree { if n >= 0 then Number(n) else Negative(-1 - n) }

  function DeltaTrees(entries: seq<Delta>): (trees: seq<Tree>)
    ensures |trees| == 2 * |entries|
  {
    if entries == [] then []
    else [CredentialTree(entries[0].cred), AmountTree(entries[0].amount)] + DeltaTrees(entries[1..])
  }

  function DeltaTable(entries: seq<Delta>): Tree
    requires |entries| <= U64_MAX
  {
    Table(|entries|, DeltaTrees(entries))
  }

  ghost function TargetTree(t: MirTarget, keys: seq<Credential>): Tree
    requires t.StakeCredentials? ==> IsOrder(keys, t.deltas)
  {
    match t
    case StakeCredentials(m) => DeltaTable(Entries(keys, m))
    case SendToOppositePot(coin) => Number(coin)
  }

  lemma {:induction false} DeltasForm(entries: seq<Delta>)
    ensures EncodeAll(entries, EncodeDelta) == Row(DeltaTrees(entries))
    decreases |entries|
  {
    hide WellFormed, Wire, CredentialTree, AmountTree, EncodeCredential, EncodeInteger;
    if entries != [] {
      var cred, amount := CredentialTree(entries[0].cred), AmountTree(entries[0].amount);
      DeltasForm(entries[1..]);
      CredentialForm(entries[0].cred);
      AmountForm(entries[0].amount);
      Two(cred, amount);
      Joined([cred, amount], DeltaTrees(entries[1..]));
    }
  }

  lemma AmountForm(n: I64)
    ensures EncodeInteger(n) == Wire(AmountTree(n))
  {
    hide WellFormed, Head, Wire, Number, Negative;
    LeafWires(if n >= 0 then n else -1 - n, []);
  }

  lemma TargetForm(t: MirTarget, keys: seq<Credential>)
    requires t.StakeCredentials? ==> IsOrder(keys, t.deltas)
    ensures EncodeTarget(t, keys) == Wire(TargetTree(t, keys))
  {
    hide WellFormed, Head, Wire, Row, Number, Table, DeltaTrees, Entries, EncodeAll;
    match t
    case StakeCredentials(m) =>
      DeltasForm(Entries(keys, m));
      TableWire(|m|, DeltaTrees(Entries(keys, m)));
    case SendToOppositePot(coin) => LeafWires(coin, []);
  }

  ghost function MirTree(pot: MirPot, target: MirTarget, keys: seq<Credential>): Tree
    requires target.StakeCredentials? ==> IsOrder(keys, target.deltas)
  {
    List([Number(match pot case Reserves => 0 case Treasury => 1), TargetTree(target, keys)])
  }

  lemma MirForm(pot: MirPot, target: MirTarget, keys: seq<Credential>)
    requires target.StakeCredentials? ==> IsOrder(keys, target.deltas)
    ensures EncodeMir(pot, target, keys) == Wire(MirTree(pot, target, keys))
  {
    hide WellFormed, Head, Wire, Row, Number, List, TargetTree, EncodeTarget;
    var p := if pot == Reserves then 0 else 1;
    LeafWires(p, []);
    TargetForm(target, keys);
    Two(Number(p), TargetTree(target, keys));
    ListWire([Number(p), TargetTree(target, keys)]);
  }

  // ----- certificates ----------------------------------------------------------------------------

  /** The elements of the array that is a certificate: its number and its fields. */
  ghost function CertificateTrees(c: Certificate, keys: seq<Credential>): (trees: seq<Tree>)
    requires Writable(c, keys)
    ensures 2 <= |trees| <= 10
  {
    match c
    case AccountRegistration(cred) => [Number(0)] + [CredentialTree(cred)]
    case AccountUnregistration(cred) => [Number(1)] + [CredentialTree(cred)]
    case DelegationToStakePool(cred, pool) => [Number(2)] + [CredentialTree(cred), ByteString(pool)]
    case PoolRegistration(params) => [Number(3)] + ParamTrees(params)
    case PoolRetirement(pool, epoch) => [Number(4)] + [ByteString(pool), Number(epoch)]
    case GenesisDelegation(genesis, delegate, vrf) =>
      [Number(5)] + [ByteString(genesis), ByteString(delegate), ByteString(vrf)]
    case MoveInstantaneousReward(pot, target) => [Number(6)] + [MirTree(pot, target, keys)]
    case AccountRegistrationDeposit(cred, coin) => [Number(7)] + [CredentialTree(cred), Number(coin)]
    case AccountUnregistrationDeposit(cred, coin) => [Number(8)] + [CredentialTree(cred), Number(coin)]
    case DelegationToDrep(cred, drep) => [Number(9)] + [CredentialTree(cred), DRepTree(drep)]
    case DelegationToStakePoolAndDrep(cred, pool, drep) =>
      [Number(10)] + [CredentialTree(cred), ByteString(pool), DRepTree(drep)]
    case RegistrationDelegationToStakePool(cred, pool, coin) =>
      [Number(11)] + [CredentialTree(cred), ByteString(pool), Number(coin)]
    case RegistrationDelegationToDrep(cred, drep, coin) =>
      [Number(12)] + [CredentialTree(cred), DRepTree(drep), Number(coin)]
    case RegistrationDelegationToStakePoolAndDrep(cred, pool, drep, coin) =>
      [Number(13)] + [CredentialTree(cred), ByteString(pool), DRepTree(drep), Number(coin)]
    case CommitteeAuthorization(cold, hot) => [Number(14)] + [CredentialTree(cold), CredentialTree(hot)]
    case CommitteeResignation(cold, anchor) => [Number(15)] + [CredentialTree(cold), OptionalAnchorTree(anchor)]
    case DrepRegistration(cred, coin, anchor) =>
      [Number(16)] + [CredentialTree(cred), Number(coin), OptionalAnchorTree(anchor)]
    case DrepUnregistration(cred, coin) => [Number(17)] + [CredentialTree(cred), Number(coin)]
    case DrepUpdate(cred, anchor) => [Number(18)] + [CredentialTree(cred), OptionalAnchorTree(anchor)]
  }

  /** The fields behind the number of a certificate, and that the codec counts and writes them. */
  ghost predicate Splits(c: Certificate, keys: seq<Credential>, fields: seq<Tree>)
    requires Writable(c, keys)
  {
    && CertificateTrees(c, keys) == [Number(TagOf(c))] + fields
    && EncodeFields(c, keys) == Row(fields)
    && LengthOf(c) == 1 + |fields|
  }

  lemma PoolFieldsForm(c: Certificate, keys: seq<Credential>) returns (fields: seq<Tree>)
    requires Writable(c, keys) && 3 <= TagOf(c) <= 6
    ensures Splits(c, keys, fields)
  {
    hide WellFormed, Splits, IsOrder;
    match c {
      case PoolRegistration(params) => fields := RegisteredForm(params, keys);
      case PoolRetirement(pool, epoch) => fields := RetiredForm(pool, epoch, keys);
      case GenesisDelegation(genesis, delegate, vrf) => fields := GenesisForm(genesis, delegate, vrf, keys);
      case MoveInstantaneousReward(pot, target) => fields := MovedForm(pot, target, keys);
      case _ =>
    }
  }

  lemma RegisteredForm(params: PoolParams, keys: seq<Credential>) returns (fields: seq<Tree>)
    ensures var c := PoolRegistration(params);
            Splits(c, keys, fields)
  {
    hide WellFormed, Row, Number, ParamTrees, EncodeParams;
    ParamsForm(params);
    fields := ParamTrees(params);
  }

  lemma RetiredForm(pool: Hash28, epoch: U64, keys: seq<Credential>) returns (fields: seq<Tree>)
    ensures var c := PoolRetirement(pool, epoch);
            Splits(c, keys, fields)
  {
    hide WellFormed, Wire, Row, ByteString, Number, EncodeHash, EncodeCoin;
    HashForm(pool);
    CoinForm(epoch);
    Two(ByteString(pool), Number(epoch));
    fields := [ByteString(pool), Number(epoch)];
  }

  lemma ThreeStrings(a: Data, b: Data, c: Data)
    ensures EncodeHash(a) + (EncodeHash(b) + EncodeHash(c)) == Row([ByteString(a), ByteString(b), ByteString(c)])
  {
    hide WellFormed, Wire, Row, ByteString, EncodeHash;
    HashForm(a);
    HashForm(b);
    HashForm(c);
    Three(ByteString(a), ByteString(b), ByteString(c));
  }

  lemma GenesisForm(genesis: Hash28, delegate: Hash28, vrf: Hash32, keys: seq<Credential>) returns (fields: seq<Tree>)
    ensures var c := GenesisDelegation(genesis, delegate, vrf);
            Splits(c, keys, fields)
  {
    hide WellFormed, Wire, Row, ByteString, Number, EncodeHash;
    ThreeStrings(genesis, delegate, vrf);
    fields := [ByteString(genesis), ByteString(delegate), ByteString(vrf)];
  }

  lemma MovedForm(pot: MirPot, target: MirTarget, keys: seq<Credential>) returns (fields: seq<Tree>)
    requires target.StakeCredentials? ==> IsOrder(keys, target.deltas)
    ensures var c := MoveInstantaneousReward(pot, target);
            Splits(c, keys, fields)
  {
    hide WellFormed, Wire, Row, Number, MirTree, EncodeMir, IsOrder;
    MirForm(pot, target, keys);
    One(MirTree(pot, target, keys));
    fields := [MirTree(pot, target, keys)];
  }

  lemma CoinForm(coin: U64)
    ensures EncodeCoin(coin) == Wire(Number(coin))
  {
    hide WellFormed, Head, Wire;
    LeafWires(coin, []);
  }

  lemma DelegationForm(c: Certificate, keys: seq<Credential>) returns (fields: seq<Tree>)
    requires Writable(c, keys) && (TagOf(c) == 2 || 9 <= TagOf(c) <= 13)
    ensures Splits(c, keys, fields)
  {
    hide WellFormed, Splits, IsOrder;
    if TagOf(c) in {2, 11} {
      fields := PoolDelegationForm(c, keys);
    } else if TagOf(c) in {9, 12} {
      fields := DRepDelegationForm(c, keys);
    } else {
      fields := DoubleDelegationForm(c, keys);
    }
  }

  lemma PoolDelegationForm(c: Certificate, keys: seq<Credential>) returns (fields: seq<Tree>)
    requires Writable(c, keys) && TagOf(c) in {2, 11}
    ensures Splits(c, keys, fields)
  {
    hide WellFormed, Wire, Row, ByteString, Number, CredentialTree, DRepTree, EncodeHash, EncodeCoin,
         EncodeCredential, EncodeDRep;
    var cred := CredentialTree(c.cred);
    CredentialForm(c.cred);
    HashForm(c.pool);
    if c.DelegationToStakePool? {
      Two(cred, ByteString(c.pool));
      fields := [cred, ByteString(c.pool)];
    } else {
      CoinForm(c.coin);
      Three(cred, ByteString(c.pool), Number(c.coin));
      fields := [cred, ByteString(c.pool), Number(c.coin)];
    }
  }

  lemma DRepDelegationForm(c: Certificate, keys: seq<Credential>) returns (fields: seq<Tree>)
    requires Writable(c, keys) && TagOf(c) in {9, 12}
    ensures Splits(c, keys, fields)
  {
    hide WellFormed, Wire, Row, ByteString, Number, CredentialTree, DRepTree, EncodeHash, EncodeCoin,
         EncodeCredential, EncodeDRep;
    var cred := CredentialTree(c.cred);
    CredentialForm(c.cred);
    DRepForm(c.drep);
    if c.DelegationToDrep? {
      Two(cred, DRepTree(c.drep));
      fields := [cred, DRepTree(c.drep)];
    } else {
      CoinForm(c.coin);
      Three(cred, DRepTree(c.drep), Number(c.coin));
      fields := [cred, DRepTree(c.drep), Number(c.coin)];
    }
  }

  lemma DoubleDelegationForm(c: Certificate, keys: seq<Credential>) returns (fields: seq<Tree>)
    requires Writable(c, keys) && TagOf(c) in {10, 13}
    ensures Splits(c, keys, fields)
  {
    hide WellFormed, Wire, Row, ByteString, Number, CredentialTree, DRepTree, EncodeHash, EncodeCoin,
         EncodeCredential, EncodeDRep;
    var cred := CredentialTree(c.cred);
    CredentialForm(c.cred);
    HashForm(c.pool);
    DRepForm(c.drep);
    if c.DelegationToStakePoolAndDrep? {
      Three(cred, ByteString(c.pool), DRepTree(c.drep));
      fields := [cred, ByteString(c.pool), DRepTree(c.drep)];
    } else {
      CoinForm(c.coin);
      Four(cred, ByteString(c.pool), DRepTree(c.drep), Number(c.coin));
      fields := [cred, ByteString(c.pool), DRepTree(c.drep), Number(c.coin)];
    }
  }

  lemma RegistrationForm(c: Certificate, keys: seq<Credential>) returns (fields: seq<Tree>)
    requires Writable(c, keys) && TagOf(c) in {0, 1, 7, 8, 16, 17, 18}
    ensures Splits(c, keys, fields)
  {
    hide WellFormed, Wire, Row, Number, CredentialTree, OptionalAnchorTree, EncodeCoin, EncodeCredential,
         EncodeOptionalAnchor;
    var cred := CredentialTree(c.cred);
    CredentialForm(c.cred);
    if TagOf(c) <= 1 {
      One(cred);
      fields := [cred];
    } else if TagOf(c) in {7, 8, 17} {
      CoinForm(c.coin);
      Two(cred, Number(c.coin));
      fields := [cred, Number(c.coin)];
    } else if TagOf(c) == 16 {
      CoinForm(c.coin);
      OptionalAnchorForm(c.anchor);
      Three(cred, Number(c.coin), OptionalAnchorTree(c.anchor));
      fields := [cred, Number(c.coin), OptionalAnchorTree(c.anchor)];
    } else {
      OptionalAnchorForm(c.anchor);
      Two(cred, OptionalAnchorTree(c.anchor));
      fields := [cred, OptionalAnchorTree(c.anchor)];
    }
  }

  lemma CommitteeForm(c: Certificate, keys: seq<Credential>) returns (fields: seq<Tree>)
    requires Writable(c, keys) && TagOf(c) in {14, 15}
    ensures Splits(c, keys, fields)
  {
    hide WellFormed, Wire, Row, Number, CredentialTree, OptionalAnchorTree, EncodeCredential, EncodeOptionalAnchor;
    var cold := CredentialTree(c.cold);
    CredentialForm(c.cold);
    if TagOf(c) == 14 {
      CredentialForm(c.hot);
      Two(cold, CredentialTree(c.hot));
      fields := [cold, CredentialTree(c.hot)];
    } else {
      OptionalAnchorForm(c.anchor);
      Two(cold, OptionalAnchorTree(c.anchor));
      fields := [cold, OptionalAnchorTree(c.anchor)];
    }
  }

  lemma FieldsForm(c: Certificate, keys: seq<Credential>) returns (fields: seq<Tree>)
    requires Writable(c, keys)
    ensures Splits(c, keys, fields)
  {
    hide WellFormed, Splits, IsOrder;
    if 3 <= TagOf(c) <= 6 {
      fields := PoolFieldsForm(c, keys);
    } else if TagOf(c) == 2 || 9 <= TagOf(c) <= 13 {
      fields := DelegationForm(c, keys);
    } else if TagOf(c) in {14, 15} {
      fields := CommitteeForm(c, keys);
    } else {
      fields := RegistrationForm(c, keys);
    }
  }

  /** An encoded certificate is the wire form of one array, whose header counts exactly the
      elements that follow. */
  lemma CertificateForm(c: Certificate, keys: seq<Credential>)
    requires Writable(c, keys)
    ensures EncodeCertificate(c, keys) == Wire(List(CertificateTrees(c, keys)))
  {
    hide WellFormed, Head, Wire, Row, EncodeFields, Number, List, CertificateTrees, LengthOf, TagOf, IsOrder;
    var fields := FieldsForm(c, keys);
    LeafWires(TagOf(c), []);
    More(Number(TagOf(c)), fields);
    ListWire([Number(TagOf(c))] + fields);
  }

  /** So it is well-formed by RFC 8949 and skipped as one item, whatever follows. */
  lemma CertificateIsOneItem(c: Certificate, keys: seq<Credential>, rest: seq<byte>)
    requires Writable(c, keys)
    ensures Skip(EncodeCertificate(c, keys) + rest) == Ok((), rest)
    ensures exists item :: Strict(item) && Wire(item) == EncodeCertificate(c, keys)
  {
    hide Skip, WellFormed, Wire, EncodeCertificate, CertificateTrees;
    CertificateForm(c, keys);
    SkipWire(List(CertificateTrees(c, keys)));
  }

  /** A port above 65535 is read without its upper bits. */
  lemma PortTruncates(n: U64, rest: seq<byte>)
    ensures ReadPort(Head(0, n) + rest) == Ok(Some(n % 0x1_0000), rest)
  {
    hide Head, ExpectMajor, PeekMajor;
    HeadRoundTrip(UNSIGNED, n, rest);
    HeadMajor(UNSIGNED, n, rest);
  }

  /** Owners also read back as a set, behind the tag 258. */
  lemma OwnersAsSet(owners: Owners, rest: seq<byte>)
    ensures ReadOwners([0xd9, 0x01, 0x02] + (EncodeOwners(owners) + rest)) == Ok(owners, rest)
  {
    hide EncodeAll, ReadMany, EncodeOwner, ReadOwner, ExpectMajor, Head;
    var s := EncodeOwners(owners) + rest;
    BigEndianSums(1, 2, 0, 0, [0, 0, 0, 0]);
    HeadBytes(6, 0, [1, 2]);
    HeadRoundTrip(6, 258, s);
    assert [0xd9] + [1, 2] == [0xd9, 0x01, 0x02];
    OwnersRoundTrip(owners, rest);
    Chain2(Head(ARRAY, |owners|), EncodeAll(owners, EncodeOwner), rest);
    HeadMajor(ARRAY, |owners|, EncodeAll(owners, EncodeOwner) + rest);
  }
}
