/** The wire records of shade-tree-proto, before any canonicalisation. Integers that are
    `u64` in the program are naturals here and `i64` ones are integers. */
module Records {
  import opened Common

  datatype ProtoCaps = ProtoCaps(min: int, max: int)

  datatype PayCaps = PayCaps(protocols: Option<seq<string>>, onion: Option<string>, port: Option<int>,
                             asset: Option<string>, chain: Option<string>, tiers: Option<seq<(string, string)>>)

  datatype RateCaps = RateCaps(scope: string, window: string, epochSeconds: int, previousEpochsAccepted: int,
                               rootFreshnessSeconds: int, payloadBytesPerSlot: int)

  datatype Caps = Caps(ports: Option<seq<int>>, region: Option<string>, proto: Option<ProtoCaps>,
                       artifacts: Option<seq<string>>, admits: Option<seq<string>>, pay: Option<PayCaps>,
                       rate: Option<RateCaps>)

  datatype GatewayEntry = GatewayEntry(onion: string, pubkey: string, weight: nat, health: string,
                                       operator: Option<string>, staked: Option<bool>,
                                       caps: Option<Caps>, capsSig: Option<string>)

  datatype Directory = Directory(version: nat, issued: nat, gateways: seq<GatewayEntry>,
                                 signer: Option<string>, signature: Option<string>,
                                 signers: Option<seq<string>>, signatures: Option<seq<string>>,
                                 threshold: Option<int>)

  datatype Announce = Announce(v: nat, onion: string, weight: nat, ts: nat, nonce: string, caps: Option<Caps>)

  datatype Receipt = Receipt(v: nat, onion: string, epoch: string, ok: bool)
}
