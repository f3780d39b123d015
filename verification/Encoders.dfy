/** The hand-written encoders, which append to a string piece by piece. Each is proved to
    produce exactly the compact JSON of the record, the bytes `SignedBytes` reasons about. */
module Encoders {
  import opened Common
  import opened Records
  import opened CapsCanon
  import opened Json
  import opened SignedBytes

  /** An object under construction: an opening brace and the members present so far. */
  ghost predicate Building(s: string, first: bool, opts: seq<Option<Field>>) {
    s == ['{'] + Members(Present(opts)) && first == (|Present(opts)| == 0)
  }

  ghost predicate PlainKey(key: string) {
    forall i :: 0 <= i < |key| ==> PlainChar(key[i])
  }

  ghost predicate PlainKeys(keys: seq<string>) {
    forall i :: 0 <= i < |keys| ==> PlainKey(keys[i])
  }

  lemma CapsKeysArePlain()
    ensures PlainKeys(PROTO_KEYS) && PlainKeys(PAY_KEYS) && PlainKeys(CAPS_KEYS)
  {}

  lemma RateKeysArePlain()
    ensures PlainKeys(RATE_KEYS)
  {
    assert PlainKey("scope") && PlainKey("window");
    PlainEpochKeys();
    PlainLimitKeys();
    hide PlainKey;
  }

  lemma PlainEpochKeys()
    ensures PlainKey("epochSeconds") && PlainKey("previousEpochsAccepted")
  {}

  lemma PlainLimitKeys()
    ensures PlainKey("rootFreshnessSeconds") && PlainKey("payloadBytesPerSlot")
  {}

  lemma RecordKeysArePlain()
    ensures PlainKeys(DIRECTORY_KEYS) && PlainKeys(CAPS_RECORD_KEYS) && PlainKeys(RECEIPT_KEYS)
  {}

  lemma EntryKeysArePlain()
    ensures PlainKeys(GATEWAY_KEYS) && PlainKeys(ANNOUNCE_KEYS)
  {}

  /** A value text and the field it belongs to. */
  ghost predicate Renders(key: string, text: Option<string>, opt: Option<Field>) {
    && (text.Some? <==> opt.Some?)
    && (opt.Some? ==> opt.value.key == key && text.value == Print(opt.value.value))
  }

  lemma PresentAppend(opts: seq<Option<Field>>, opt: Option<Field>)
    ensures Present(opts + [opt]) == Present(opts) + (if opt.Some? then [opt.value] else [])
  {}

  lemma KeyText(pre: string, key: string, text: string)
    ensures pre + [QUOTE] + key + [QUOTE, ':'] + text == pre + (([QUOTE] + key + [QUOTE]) + [':'] + text)
  {}

  /** The comma unless first, the literal key, the value. */
  method PushField(s: string, first: bool, key: string, text: Option<string>, ghost opts: seq<Option<Field>>, ghost opt: Option<Field>)
      returns (r: string, none: bool)
    requires Building(s, first, opts) && PlainKey(key) && Renders(key, text, opt)
    ensures Building(r, none, opts + [opt])
  {
    hide Print, Members;
    PresentAppend(opts, opt);
    if text.None? {
      assert Present(opts) + [] == Present(opts);
      return s, first;
    }
    PlainQuote(key);
    MembersAppend(Present(opts), opt.value);
    var pre := s + (if first then [] else [',']);
    r, none := pre + [QUOTE] + key + [QUOTE, ':'] + text.value, false;
    KeyText(pre, key, text.value);
    assert Pair(opt.value) == ([QUOTE] + key + [QUOTE]) + [':'] + text.value;
    assert r == pre + Pair(opt.value);
    assert pre == ['{'] + (Members(Present(opts)) + Comma(|Present(opts)|));
  }

  method EncodeNums(xs: seq<nat>) returns (t: string)
    ensures t == Print(Arr(Nums(xs)))
  {
    t := ['['];
    for i := 0 to |xs|
      invariant t == ['['] + Items(Nums(xs[..i]))
    {
      assert Nums(xs[..i + 1]) == Nums(xs[..i]) + [Num(xs[i])];
      ItemsAppend(Nums(xs[..i]), Num(xs[i]));
      assert t + Comma(i) + Dec(xs[i]) == ['['] + (Items(Nums(xs[..i])) + Comma(i) + Print(Num(xs[i])));
      if i > 0 {
        t := t + [','];
      }
      t := t + Dec(xs[i]);
    }
    assert xs[..|xs|] == xs;
    t := t + [']'];
  }

  method EncodeStrs(xs: seq<string>) returns (t: string)
    ensures t == Print(Arr(Strs(xs)))
  {
    t := ['['];
    for i := 0 to |xs|
      invariant t == ['['] + Items(Strs(xs[..i]))
    {
      assert Strs(xs[..i + 1]) == Strs(xs[..i]) + [Str(xs[i])];
      ItemsAppend(Strs(xs[..i]), Str(xs[i]));
      assert t + Comma(i) + Quote(xs[i]) == ['['] + (Items(Strs(xs[..i])) + Comma(i) + Print(Str(xs[i])));
      if i > 0 {
        t := t + [','];
      }
      t := PushString(t, xs[i]);
    }
    assert xs[..|xs|] == xs;
    t := t + [']'];
  }

  method EncodeTiers(xs: seq<(nat, string)>) returns (t: string)
    ensures t == Print(Obj(Tiers(xs)))
  {
    t := ['{'];
    for i := 0 to |xs|
      invariant t == ['{'] + Members(Tiers(xs[..i]))
    {
      ghost var f := Field(Dec(xs[i].0), Str(xs[i].1));
      assert Tiers(xs[..i + 1]) == Tiers(xs[..i]) + [f];
      MembersAppend(Tiers(xs[..i]), f);
      ghost var before := t;
      if i > 0 {
        t := t + [','];
      }
      t := PushString(t, Dec(xs[i].0));
      t := t + [':'];
      t := PushString(t, xs[i].1);
      TierText(before, Members(Tiers(xs[..i])), Comma(i), Quote(f.key), Quote(xs[i].1), t);
      assert Pair(f) == Quote(f.key) + [':'] + Quote(xs[i].1);
    }
    assert xs[..|xs|] == xs;
    t := t + ['}'];
  }

  lemma TierText(before: string, members: string, comma: string, key: string, value: string, t: string)
    requires before == ['{'] + members && t == before + comma + key + [':'] + value
    ensures t == ['{'] + (members + comma + (key + [':'] + value))
  {}

  lemma EmptyObject()
    ensures Building(['{'], true, [])
  {}

  /** An optional string as its literal. */
  method EncodeOptional(o: Option<string>) returns (t: Option<string>)
    ensures t == if o.None? then None else Some(Quote(o.value))
  {
    if o.None? {
      return None;
    }
    var text := PushString([], o.value);
    assert [] + Quote(o.value) == Quote(o.value);
    t := Some(text);
  }

  method EncodeProto(p: (nat, nat)) returns (t: string)
    ensures t == Print(ProtoJson(p))
  {
    hide PlainKey, Members, Dec, Present;
    CapsKeysArePlain();
    EmptyObject();
    ghost var f := ProtoFields(p);
    var s, first := PushField(['{'], true, PROTO_KEYS[0], Some(Dec(p.0)), [], f[0]);
    assert [] + [f[0]] == f[..1];
    s, first := PushField(s, first, PROTO_KEYS[1], Some(Dec(p.1)), f[..1], f[1]);
    assert f[..1] + [f[1]] == f;
    t := s + ['}'];
  }

  method EncodePay(p: CanonicalPay) returns (t: string)
    ensures t == Print(PayJson(p))
  {
    hide PlainKey, Members, Dec, Present, Quote, Strs, Tiers;
    CapsKeysArePlain();
    EmptyObject();
    var list := EncodeStrs(p.protocols);
    var onion := EncodeOptional(p.onion);
    var asset := PushString([], p.asset);
    var chain := PushString([], p.chain);
    var tiers := EncodeTiers(p.tiers);
    ghost var f := PayFields(p);
    var s, first := PushField(['{'], true, PAY_KEYS[0], Some(list), [], f[0]);
    assert [] + [f[0]] == f[..1];
    s, first := PushField(s, first, PAY_KEYS[1], onion, f[..1], f[1]);
    assert f[..1] + [f[1]] == f[..2];
    s, first := PushField(s, first, PAY_KEYS[2], Some(Dec(p.port)), f[..2], f[2]);
    assert f[..2] + [f[2]] == f[..3];
    s, first := PushField(s, first, PAY_KEYS[3], Some(asset), f[..3], f[3]);
    assert f[..3] + [f[3]] == f[..4];
    s, first := PushField(s, first, PAY_KEYS[4], Some(chain), f[..4], f[4]);
    assert f[..4] + [f[4]] == f[..5];
    s, first := PushField(s, first, PAY_KEYS[5], Some(tiers), f[..5], f[5]);
    assert f[..5] + [f[5]] == f;
    t := s + ['}'];
  }

  method EncodeRate(r: CanonicalRate) returns (t: string)
    ensures t == Print(RateJson(r))
  {
    hide PlainKey, Members, Dec, Present, Quote;
    RateKeysArePlain();
    EmptyObject();
    var scope := PushString([], r.scope);
    var window := PushString([], r.window);
    ghost var f := RateFields(r);
    var s, first := PushField(['{'], true, RATE_KEYS[0], Some(scope), [], f[0]);
    assert [] + [f[0]] == f[..1];
    s, first := PushField(s, first, RATE_KEYS[1], Some(window), f[..1], f[1]);
    assert f[..1] + [f[1]] == f[..2];
    s, first := PushField(s, first, RATE_KEYS[2], Some(Dec(r.epochSeconds)), f[..2], f[2]);
    assert f[..2] + [f[2]] == f[..3];
    s, first := PushField(s, first, RATE_KEYS[3], Some(Dec(r.previousEpochsAccepted)), f[..3], f[3]);
    assert f[..3] + [f[3]] == f[..4];
    s, first := PushField(s, first, RATE_KEYS[4], Some(Dec(r.rootFreshnessSeconds)), f[..4], f[4]);
    assert f[..4] + [f[4]] == f[..5];
    s, first := PushField(s, first, RATE_KEYS[5], Some(Dec(r.payloadBytesPerSlot)), f[..5], f[5]);
    assert f[..5] + [f[5]] == f;
    t := s + ['}'];
  }

  /** `canonical_caps_json`. */
  method EncodeCaps(cc: CanonicalCaps) returns (t: string)
    ensures t == Print(CapsJson(cc))
  {
    hide PlainKey, Members, Present, Quote, Nums, Strs, PayJson, RateJson, ProtoJson;
    CapsKeysArePlain();
    EmptyObject();
    var ports, region, proto, artifacts, admits, pay, rate := EncodeCapsValues(cc);
    ghost var f := CapsFields(cc);
    var s, first := PushField(['{'], true, CAPS_KEYS[0], ports, [], f[0]);
    assert [] + [f[0]] == f[..1];
    s, first := PushField(s, first, CAPS_KEYS[1], region, f[..1], f[1]);
    assert f[..1] + [f[1]] == f[..2];
    s, first := PushField(s, first, CAPS_KEYS[2], proto, f[..2], f[2]);
    assert f[..2] + [f[2]] == f[..3];
    s, first := PushField(s, first, CAPS_KEYS[3], artifacts, f[..3], f[3]);
    assert f[..3] + [f[3]] == f[..4];
    s, first := PushField(s, first, CAPS_KEYS[4], admits, f[..4], f[4]);
    assert f[..4] + [f[4]] == f[..5];
    s, first := PushField(s, first, CAPS_KEYS[5], pay, f[..5], f[5]);
    assert f[..5] + [f[5]] == f[..6];
    s, first := PushField(s, first, CAPS_KEYS[6], rate, f[..6], f[6]);
    assert f[..6] + [f[6]] == f;
    t := s + ['}'];
  }

  /** The value of every capability that is present. */
  method EncodeCapsValues(cc: CanonicalCaps)
      returns (ports: Option<string>, region: Option<string>, proto: Option<string>, artifacts: Option<string>,
               admits: Option<string>, pay: Option<string>, rate: Option<string>)
    ensures Renders("ports", ports, CapsFields(cc)[0]) && Renders("region", region, CapsFields(cc)[1])
    ensures Renders("proto", proto, CapsFields(cc)[2]) && Renders("artifacts", artifacts, CapsFields(cc)[3])
    ensures Renders("admits", admits, CapsFields(cc)[4]) && Renders("pay", pay, CapsFields(cc)[5])
    ensures Renders("rate", rate, CapsFields(cc)[6])
  {
    hide Nums, Strs, PayJson, RateJson, ProtoJson, Quote, Items, Members;
    ports, proto, artifacts, admits, pay, rate := None, None, None, None, None, None;
    region := EncodeOptional(cc.region);
    var t;
    if cc.ports.Some? {
      t := EncodeNums(cc.ports.value);
      ports := Some(t);
    }
    if cc.proto.Some? {
      t := EncodeProto(cc.proto.value);
      proto := Some(t);
    }
    if cc.artifacts.Some? {
      t := EncodeStrs(cc.artifacts.value);
      artifacts := Some(t);
    }
    if cc.admits.Some? {
      t := EncodeStrs(cc.admits.value);
      admits := Some(t);
    }
    if cc.pay.Some? {
      t := EncodePay(cc.pay.value);
      pay := Some(t);
    }
    if cc.rate.Some? {
      t := EncodeRate(cc.rate.value);
      rate := Some(t);
    }
  }

  method EncodeCoveredCaps(caps: Option<Caps>) returns (t: Option<string>)
    ensures t == if CoveredCaps(caps).None? then None else Some(Print(CapsJson(CoveredCaps(caps).value)))
  {
    hide CapsJson, Canonical, Print;
    if caps.None? || !HasCaps(caps.value) {
      return None;
    }
    var text := EncodeCaps(Canonical(caps.value));
    t := Some(text);
  }

  method EncodeGateway(g: GatewayEntry) returns (t: string)
    ensures t == Print(GatewayJson(g))
  {
    hide PlainKey, Members, Dec, Present, Quote, CapsJson, CoveredCaps;
    EntryKeysArePlain();
    EmptyObject();
    var onion := PushString([], g.onion);
    var pubkey := PushString([], g.pubkey);
    var health := PushString([], g.health);
    var caps := EncodeCoveredCaps(g.caps);
    var sig := EncodeOptional(if caps.None? then None else g.capsSig);
    ghost var f := GatewayFields(Covered(g));
    var s, first := PushField(['{'], true, GATEWAY_KEYS[0], Some(onion), [], f[0]);
    assert [] + [f[0]] == f[..1];
    s, first := PushField(s, first, GATEWAY_KEYS[1], Some(pubkey), f[..1], f[1]);
    assert f[..1] + [f[1]] == f[..2];
    s, first := PushField(s, first, GATEWAY_KEYS[2], Some(Dec(g.weight)), f[..2], f[2]);
    assert f[..2] + [f[2]] == f[..3];
    s, first := PushField(s, first, GATEWAY_KEYS[3], Some(health), f[..3], f[3]);
    assert f[..3] + [f[3]] == f[..4];
    s, first := PushField(s, first, GATEWAY_KEYS[4], caps, f[..4], f[4]);
    assert f[..4] + [f[4]] == f[..5];
    s, first := PushField(s, first, GATEWAY_KEYS[5], sig, f[..5], f[5]);
    assert f[..5] + [f[5]] == f;
    t := s + ['}'];
  }

  method EncodeGateways(gs: seq<GatewayEntry>) returns (t: string)
    ensures t == Print(Arr(Gateways(gs)))
  {
    hide GatewayJson;
    t := ['['];
    for i := 0 to |gs|
      invariant t == ['['] + Items(Gateways(gs[..i]))
    {
      var one := EncodeGateway(gs[i]);
      assert Gateways(gs[..i + 1]) == Gateways(gs[..i]) + [GatewayJson(gs[i])];
      ItemsAppend(Gateways(gs[..i]), GatewayJson(gs[i]));
      assert t + Comma(i) + one == ['['] + (Items(Gateways(gs[..i])) + Comma(i) + one);
      if i > 0 {
        t := t + [','];
      }
      t := t + one;
    }
    assert gs[..|gs|] == gs;
    t := t + [']'];
  }

  method CanonicalDirectoryBytes(d: Directory) returns (t: string)
    ensures t == DirectoryBytes(d)
  {
    hide PlainKey, Members, Dec, Present, Gateways;
    RecordKeysArePlain();
    EmptyObject();
    var gateways := EncodeGateways(d.gateways);
    ghost var f := DirectoryFields(d);
    var s, first := PushField(['{'], true, DIRECTORY_KEYS[0], Some(Dec(d.version)), [], f[0]);
    assert [] + [f[0]] == f[..1];
    s, first := PushField(s, first, DIRECTORY_KEYS[1], Some(Dec(d.issued)), f[..1], f[1]);
    assert f[..1] + [f[1]] == f[..2];
    s, first := PushField(s, first, DIRECTORY_KEYS[2], Some(gateways), f[..2], f[2]);
    assert f[..2] + [f[2]] == f;
    t := s + ['}'];
  }

  method CanonicalAnnounceBytes(a: Announce) returns (t: string)
    ensures t == AnnounceBytes(a)
  {
    hide PlainKey, Members, Dec, Present, Quote, CapsJson, CoveredCaps;
    EntryKeysArePlain();
    EmptyObject();
    var onion := PushString([], a.onion);
    var nonce := PushString([], a.nonce);
    var caps := EncodeCoveredCaps(a.caps);
    ghost var f := AnnounceFields(a);
    var s, first := PushField(['{'], true, ANNOUNCE_KEYS[0], Some(Dec(a.v)), [], f[0]);
    assert [] + [f[0]] == f[..1];
    s, first := PushField(s, first, ANNOUNCE_KEYS[1], Some(onion), f[..1], f[1]);
    assert f[..1] + [f[1]] == f[..2];
    s, first := PushField(s, first, ANNOUNCE_KEYS[2], Some(Dec(a.weight)), f[..2], f[2]);
    assert f[..2] + [f[2]] == f[..3];
    s, first := PushField(s, first, ANNOUNCE_KEYS[3], Some(Dec(a.ts)), f[..3], f[3]);
    assert f[..3] + [f[3]] == f[..4];
    s, first := PushField(s, first, ANNOUNCE_KEYS[4], Some(nonce), f[..4], f[4]);
    assert f[..4] + [f[4]] == f[..5];
    s, first := PushField(s, first, ANNOUNCE_KEYS[5], caps, f[..5], f[5]);
    assert f[..5] + [f[5]] == f;
    t := s + ['}'];
  }

  method CanonicalCapsBytes(onion: string, caps: Caps) returns (t: string)
    ensures t == CapsBytes(onion, caps)
  {
    hide PlainKey, Members, Present, Quote, CapsJson, Canonical;
    RecordKeysArePlain();
    EmptyObject();
    var name := PushString([], onion);
    var text := EncodeCaps(Canonical(caps));
    ghost var f := CapsRecordFields(onion, Canonical(caps));
    var s, first := PushField(['{'], true, CAPS_RECORD_KEYS[0], Some(name), [], f[0]);
    assert [] + [f[0]] == f[..1];
    s, first := PushField(s, first, CAPS_RECORD_KEYS[1], Some(text), f[..1], f[1]);
    assert f[..1] + [f[1]] == f;
    t := CAPS_DOMAIN + (s + ['}']);
  }

  method CanonicalReceiptBytes(r: Receipt) returns (t: string)
    ensures t == ReceiptBytes(r)
  {
    hide PlainKey, Members, Dec, Present, Quote;
    RecordKeysArePlain();
    EmptyObject();
    var onion := PushString([], r.onion);
    var epoch := PushString([], r.epoch);
    ghost var f := ReceiptFields(r);
    var s, first := PushField(['{'], true, RECEIPT_KEYS[0], Some(Dec(r.v)), [], f[0]);
    assert [] + [f[0]] == f[..1];
    s, first := PushField(s, first, RECEIPT_KEYS[1], Some(onion), f[..1], f[1]);
    assert f[..1] + [f[1]] == f[..2];
    s, first := PushField(s, first, RECEIPT_KEYS[2], Some(epoch), f[..2], f[2]);
    assert f[..2] + [f[2]] == f[..3];
    s, first := PushField(s, first, RECEIPT_KEYS[3], Some(if r.ok then "true" else "false"), f[..3], f[3]);
    assert f[..3] + [f[3]] == f;
    t := RECEIPT_DOMAIN + (s + ['}']);
  }
}
