/** Stake credentials and reward accounts. */
module Addresses {
  import opened Bytes

  function Filled(n: nat, b: byte): (s: seq<byte>)
    ensures |s| == n
  {
    seq(n, _ => b)
  }

  type Hash28 = s: seq<byte> | |s| == 28 witness Filled(28, 0)

  datatype Credential = AddrKeyHash(hash: Hash28) | ScriptHash(hash: Hash28)

  datatype RewardAccount = RewardAccount(network: byte, credential: Credential)
}
